/** The guarded `ALTER TABLE ... ADD COLUMN` step shared by the column-adding
    migrations. A schema is the table's column names in catalog order. Whether
    the statement raises (and is rolled back) is a parameter. */
module ColumnAdder {
  import opened Common

  /** Check the catalog for `column`; if it is absent, try to add it. A failed
      attempt is rolled back and leaves the schema as it was. */
  function AddColumnIfAbsent(schema: seq<string>, column: string, fails: bool): seq<string> {
    if column in schema then schema
    else if fails then schema
    else schema + [column]
  }

  /** The step only ever appends, appends nothing but `column`, and leaves
      `column` present unless the attempt failed. */
  lemma AddColumnIfAbsentAppends(schema: seq<string>, column: string, fails: bool)
    ensures var r := AddColumnIfAbsent(schema, column, fails);
      && IsPrefix(schema, r)
      && |r| <= |schema| + 1
      && (forall c :: c in r <==> c in schema || (c == column && !fails))
      && (NoDups(schema) ==> NoDups(r))
  {
  }

  /** Applying the step to a schema it has already extended changes nothing,
      so the step is idempotent once it has succeeded. */
  lemma AddColumnIfAbsentIdempotent(schema: seq<string>, column: string, failsAgain: bool)
    ensures var once := AddColumnIfAbsent(schema, column, false);
      AddColumnIfAbsent(once, column, failsAgain) == once
  {
  }
}
