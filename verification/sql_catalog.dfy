/** An abstract SQLite catalog: named tables (columns with their NOT NULL
    flag, and rows) and named indexes. Only the statements the rebuild script
    issues are modelled, each as a total function on the catalog. */
module SqlCatalog {
  import opened Common

  /** A stored cell. Column types are not modelled; REAL and DATETIME values
      are not distinguished from the two kinds kept here. */
  datatype Value = Null | Int(i: int) | Text(s: string)

  /** A row maps column names to cells; a column the row does not carry reads as NULL. */
  type Row = map<string, Value>

  /** One entry of `PRAGMA table_info`: the column name and its `notnull` flag. */
  datatype Column = Column(name: string, notNull: bool)

  datatype Table = Table(columns: seq<Column>, rows: seq<Row>)

  /** A single-column index on a table. */
  datatype Index = Index(table: string, column: string)

  datatype Catalog = Catalog(tables: map<string, Table>, indexes: map<string, Index>)

  function Get(row: Row, column: string): Value {
    if column in row then row[column] else Null
  }

  /** The column names of a table, in catalog order. */
  function ColumnNames(columns: seq<Column>): (r: seq<string>)
    ensures |r| == |columns|
    ensures forall i :: 0 <= i < |columns| ==> r[i] == columns[i].name
  {
    seq(|columns|, i requires 0 <= i < |columns| => columns[i].name)
  }

  /** `PRAGMA table_info(name)`: the columns of the table, or nothing when it does not exist. */
  function TableInfo(cat: Catalog, name: string): seq<Column> {
    if name in cat.tables then cat.tables[name].columns else []
  }

  /** `DROP TABLE [IF EXISTS] name`: the table and the indexes on it disappear. */
  function DropTable(cat: Catalog, name: string): Catalog {
    Catalog(cat.tables - {name},
            map k | k in cat.indexes && cat.indexes[k].table != name :: cat.indexes[k])
  }

  /** `CREATE TABLE name (...)` for a name not yet taken: an empty table. */
  function CreateTable(cat: Catalog, name: string, columns: seq<Column>): Catalog
    requires name !in cat.tables
  {
    cat.(tables := cat.tables[name := Table(columns, [])])
  }

  /** `ALTER TABLE source RENAME TO target`: the table and its indexes move to the new name. */
  function RenameTable(cat: Catalog, source: string, target: string): Catalog
    requires source in cat.tables && target !in cat.tables
  {
    Catalog((cat.tables - {source})[target := cat.tables[source]],
            map k | k in cat.indexes ::
              if cat.indexes[k].table == source then cat.indexes[k].(table := target) else cat.indexes[k])
  }

  /** `CREATE INDEX name ...`: refused when the name is taken, or when the
      statement fails for another reason (`fails`); the catalog is then unchanged. */
  function CreateIndex(cat: Catalog, name: string, index: Index, fails: bool): Catalog {
    if name in cat.indexes || fails then cat
    else cat.(indexes := cat.indexes[name := index])
  }
}
