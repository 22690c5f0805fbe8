/** `fix_student_id_nullable`: relax `exams.student_id` from NOT NULL to
    nullable by rebuilding the table (drop scratch, create, copy, drop,
    rename, recreate indexes). The session is replaced by the catalog it acts
    on; the steps between the decision and the index loop are modelled as
    succeeding, and whether each index statement raises is a parameter. */
module FixExamStudentId {
  import opened Common
  import opened SqlCatalog

  const Exams: string := "exams"
  const ExamsNew: string := "exams_new"
  const StudentId: string := "student_id"

  /** Columns copied when the old table has them. */
  const StandardCols: seq<string> :=
    ["id", "student_id", "status", "final_grade", "final_explanation", "created_at", "completed_at"]

  /** Columns copied always: from the old table when it has them, else as NULL. */
  const NewCols: seq<string> :=
    ["exam_id", "course_number", "section", "exam_name", "quarter_year",
     "instructor_name", "instructor_id", "date_start", "date_end",
     "date_published", "date_end_availability"]

  /** The loop's candidates, in the order it visits them. */
  const Candidates: seq<string> := StandardCols + NewCols

  /** The columns of the `CREATE TABLE exams_new` statement, in declaration
      order. None is declared NOT NULL (an INTEGER PRIMARY KEY reports 0 too). */
  const ExamsNewColumns: seq<Column> := [
    Column("id", false), Column("exam_id", false), Column("course_number", false),
    Column("section", false), Column("exam_name", false), Column("quarter_year", false),
    Column("instructor_name", false), Column("instructor_id", false),
    Column("date_start", false), Column("date_end", false), Column("date_published", false),
    Column("date_end_availability", false), Column("student_id", false),
    Column("status", false), Column("final_grade", false), Column("final_explanation", false),
    Column("created_at", false), Column("completed_at", false)]

  /** The indexes recreated at the end, in order. */
  const ExamIndexes: seq<(string, Index)> := [
    ("ix_exams_exam_id", Index("exams", "exam_id")),
    ("ix_exams_course_number", Index("exams", "course_number")),
    ("ix_exams_instructor_id", Index("exams", "instructor_id"))]

  /** The candidate lists are duplicate-free and disjoint, and name exactly the
      columns the new table declares. */
  lemma CandidateFacts()
    ensures NoDups(Candidates) && NoDups(StandardCols) && NoDups(NewCols)
    ensures forall c :: c in StandardCols ==> c !in NewCols
    ensures forall c :: c in Candidates <==> c in ColumnNames(ExamsNewColumns)
  {
    assert NoDups(Candidates) by {
      forall i, j | 0 <= i < j < |Candidates| ensures Candidates[i] != Candidates[j] {
        assert |Candidates| == 18;
      }
    }
    forall i, j | 0 <= i < j < |StandardCols| ensures StandardCols[i] != StandardCols[j] {
      assert Candidates[i] == StandardCols[i] && Candidates[j] == StandardCols[j];
    }
    forall i, j | 0 <= i < j < |NewCols| ensures NewCols[i] != NewCols[j] {
      assert Candidates[i + 7] == NewCols[i] && Candidates[j + 7] == NewCols[j];
    }
    forall c | c in Candidates ensures c in ColumnNames(ExamsNewColumns) {
      var names := ColumnNames(ExamsNewColumns);
      assert names == ["id", "exam_id", "course_number", "section", "exam_name", "quarter_year",
        "instructor_name", "instructor_id", "date_start", "date_end", "date_published",
        "date_end_availability", "student_id", "status", "final_grade", "final_explanation",
        "created_at", "completed_at"];
    }
  }

  /** The scan of `PRAGMA table_info` that stops at the first column with the given name. */
  function FindColumn(columns: seq<Column>, name: string): (r: Option<Column>)
    ensures r.None? <==> forall c :: c in columns ==> c.name != name
    ensures r.Some? ==> r.value in columns && r.value.name == name
  {
    if |columns| == 0 then None
    else if columns[0].name == name then Some(columns[0])
    else
      assert columns == [columns[0]] + columns[1..];
      FindColumn(columns[1..], name)
  }

  /** What the script decides from the catalog entry of `exams`. */
  datatype Decision = ColumnMissing | AlreadyNullable | NeedsRebuild

  /** A missing `student_id` ends the script; a `notnull` flag of 0 means
      nothing to do; otherwise the table is rebuilt. */
  function Decide(columns: seq<Column>): (d: Decision)
    ensures d == ColumnMissing <==> forall c :: c in columns ==> c.name != StudentId
    ensures d == AlreadyNullable ==> exists c :: c in columns && c.name == StudentId && !c.notNull
    ensures d == NeedsRebuild ==> exists c :: c in columns && c.name == StudentId && c.notNull
  {
    match FindColumn(columns, StudentId)
    case None => ColumnMissing
    case Some(info) => if !info.notNull then AlreadyNullable else NeedsRebuild
  }

  /** With unique column names, as a catalog has, the decision follows the
      `student_id` column's own flag. */
  lemma DecideFollowsFlag(columns: seq<Column>, c: Column)
    requires NoDups(ColumnNames(columns))
    requires c in columns && c.name == StudentId
    ensures Decide(columns) == (if c.notNull then NeedsRebuild else AlreadyNullable)
  {
    var found := FindColumn(columns, StudentId).value;
    var i :| 0 <= i < |columns| && columns[i] == found;
    var j :| 0 <= j < |columns| && columns[j] == c;
    var names := ColumnNames(columns);
    assert names[i] == names[j];
  }

  /** The scan returns the first column carrying the name. */
  lemma {:induction false} FindColumnFirst(columns: seq<Column>, name: string, i: nat)
    requires i < |columns| && columns[i].name == name
    requires forall j :: 0 <= j < i ==> columns[j].name != name
    ensures FindColumn(columns, name) == Some(columns[i])
  {
    if i > 0 {
      FindColumnFirst(columns[1..], name, i - 1);
    }
  }

  /** The rebuilt table declares `student_id` without NOT NULL, so the
      decision on it is "already nullable". */
  lemma NewSchemaNullable()
    ensures Decide(ExamsNewColumns) == AlreadyNullable
  {
    assert ExamsNewColumns[12] == Column(StudentId, false);
    FindColumnFirst(ExamsNewColumns, StudentId, 12);
  }

  /** One expression of the SELECT list: a column of the old table or the literal NULL. */
  datatype SelectExpr = ColumnRef(name: string) | NullLiteral

  /** The parallel INSERT column list and SELECT expression list. */
  datatype CopyPlan = CopyPlan(columns: seq<string>, selects: seq<SelectExpr>)

  /** The expression the loop pairs with a kept column. */
  function SelectFor(column: string, existing: seq<string>): SelectExpr {
    if column in existing then ColumnRef(column) else NullLiteral
  }

  /** The list-building loop over `candidates`: a column the old table has is
      copied as itself, a column of `newColumns` that it lacks is
      filled with NULL, anything else is skipped. */
  function PlanCopy(candidates: seq<string>, existing: seq<string>, newColumns: seq<string>): CopyPlan {
    if |candidates| == 0 then CopyPlan([], [])
    else
      var p := PlanCopy(candidates[..|candidates| - 1], existing, newColumns);
      var col := candidates[|candidates| - 1];
      if col in existing then CopyPlan(p.columns + [col], p.selects + [ColumnRef(col)])
      else if col in newColumns then CopyPlan(p.columns + [col], p.selects + [NullLiteral])
      else p
  }

  /** Reference definition: the members of `columns` that the old table has, in order. */
  function Present(columns: seq<string>, existing: seq<string>): seq<string> {
    if |columns| == 0 then []
    else Present(columns[..|columns| - 1], existing)
         + (if columns[|columns| - 1] in existing then [columns[|columns| - 1]] else [])
  }

  /** The lists stay parallel, each column is paired with its own expression,
      and a column is kept exactly when the old table has it or it is new. */
  lemma {:induction false} PlanCopyShape(candidates: seq<string>, existing: seq<string>, newColumns: seq<string>)
    ensures var p := PlanCopy(candidates, existing, newColumns);
      && |p.columns| == |p.selects|
      && (forall c :: c in p.columns <==> c in candidates && (c in existing || c in newColumns))
      && (forall i :: 0 <= i < |p.columns| ==> p.selects[i] == SelectFor(p.columns[i], existing))
  {
    if |candidates| > 0 {
      var init := candidates[..|candidates| - 1];
      PlanCopyShape(init, existing, newColumns);
      assert candidates == init + [candidates[|candidates| - 1]];
    }
  }

  /** Building the lists over a concatenation concatenates the lists. */
  lemma {:induction false} PlanCopyAppend(a: seq<string>, b: seq<string>, existing: seq<string>, newColumns: seq<string>)
    ensures var pa, pb := PlanCopy(a, existing, newColumns), PlanCopy(b, existing, newColumns);
      PlanCopy(a + b, existing, newColumns) == CopyPlan(pa.columns + pb.columns, pa.selects + pb.selects)
    decreases |b|
  {
    if |b| == 0 {
      assert a + b == a;
    } else {
      var b', col := b[..|b| - 1], b[|b| - 1];
      assert (a + b)[..|a + b| - 1] == a + b';
      assert (a + b)[|a + b| - 1] == col;
      PlanCopyAppend(a, b', existing, newColumns);
      var pa, pb' := PlanCopy(a, existing, newColumns), PlanCopy(b', existing, newColumns);
      assert pa.columns + pb'.columns + [col] == pa.columns + (pb'.columns + [col]);
      assert pa.selects + pb'.selects + [ColumnRef(col)] == pa.selects + (pb'.selects + [ColumnRef(col)]);
      assert pa.selects + pb'.selects + [NullLiteral] == pa.selects + (pb'.selects + [NullLiteral]);
    }
  }

  /** Over columns that are not new, the loop keeps exactly the present ones. */
  lemma {:induction false} PlanCopyOfOldColumns(a: seq<string>, existing: seq<string>, newColumns: seq<string>)
    requires forall c :: c in a ==> c !in newColumns
    ensures PlanCopy(a, existing, newColumns).columns == Present(a, existing)
  {
    if |a| > 0 {
      var init := a[..|a| - 1];
      assert a[|a| - 1] in a;
      assert forall c :: c in init ==> c in a;
      PlanCopyOfOldColumns(init, existing, newColumns);
    }
  }

  /** Over new columns, the loop keeps every one. */
  lemma {:induction false} PlanCopyOfNewColumns(b: seq<string>, existing: seq<string>, newColumns: seq<string>)
    requires forall c :: c in b ==> c in newColumns
    ensures PlanCopy(b, existing, newColumns).columns == b
  {
    if |b| > 0 {
      var init := b[..|b| - 1];
      assert b[|b| - 1] in b;
      assert forall c :: c in init ==> c in b;
      PlanCopyOfNewColumns(init, existing, newColumns);
      assert b == init + [b[|b| - 1]];
    }
  }

  /** The present members of a duplicate-free list are duplicate-free and are
      exactly the members the old table has. */
  lemma {:induction false} PresentMembers(columns: seq<string>, existing: seq<string>)
    requires NoDups(columns)
    ensures forall c :: c in Present(columns, existing) <==> c in columns && c in existing
    ensures NoDups(Present(columns, existing))
  {
    if |columns| > 0 {
      var init, last := columns[..|columns| - 1], columns[|columns| - 1];
      assert columns == init + [last];
      assert NoDups(init) by {
        forall i, j | 0 <= i < j < |init| ensures init[i] != init[j] {
          assert init[i] == columns[i] && init[j] == columns[j];
        }
      }
      assert last !in init by {
        forall k | 0 <= k < |init| ensures init[k] != last {
          assert init[k] == columns[k];
        }
      }
      PresentMembers(init, existing);
      NoDupsConcat(Present(init, existing), if last in existing then [last] else []);
    }
  }

  /** `columns_to_copy` and `select_expressions` for the old table's column
      names. The INSERT list is the standard columns the old table has, in
      order, followed by all eleven new columns; it is duplicate-free and never
      empty (so the "No columns to copy" branch cannot run); each column is
      selected as itself when the old table has it and as NULL otherwise, NULL
      only for new columns; old columns outside both lists are not copied. */
  function BuildCopyLists(existing: seq<string>): (p: CopyPlan)
    ensures p.columns == Present(StandardCols, existing) + NewCols
    ensures |p.columns| == |p.selects|
    ensures forall c :: c in p.columns <==> (c in StandardCols && c in existing) || c in NewCols
    ensures forall i :: 0 <= i < |p.columns| ==> p.selects[i] == SelectFor(p.columns[i], existing)
    ensures forall i :: 0 <= i < |p.selects| && p.selects[i] == NullLiteral ==> p.columns[i] in NewCols
    ensures forall c :: c in existing && c !in Candidates ==> c !in p.columns
    ensures NoDups(p.columns)
    ensures |p.columns| >= |NewCols| > 0
  {
    CandidateFacts();
    PlanCopyAppend(StandardCols, NewCols, existing, NewCols);
    PlanCopyOfOldColumns(StandardCols, existing, NewCols);
    PlanCopyOfNewColumns(NewCols, existing, NewCols);
    PlanCopyShape(Candidates, existing, NewCols);
    PresentMembers(StandardCols, existing);
    NoDupsConcat(Present(StandardCols, existing), NewCols);
    PlanCopy(Candidates, existing, NewCols)
  }

  /** The value a SELECT expression yields on one old row. */
  function Eval(e: SelectExpr, prior: Row): Value {
    match e
    case ColumnRef(n) => Get(prior, n)
    case NullLiteral => Null
  }

  /** The row `INSERT ... SELECT` stores for one old row: the i-th listed
      column receives the i-th expression's value. Columns left out of the
      list are absent from the map (the engine fills in their defaults). */
  function CopyRow(columns: seq<string>, selects: seq<SelectExpr>, prior: Row): Row
    requires |columns| == |selects|
  {
    if |columns| == 0 then map[]
    else CopyRow(columns[..|columns| - 1], selects[..|selects| - 1], prior)[columns[|columns| - 1] := Eval(selects[|selects| - 1], prior)]
  }

  /** The stored row carries exactly the listed columns, each with the value
      of its own expression. */
  lemma {:induction false} CopyRowValues(columns: seq<string>, selects: seq<SelectExpr>, prior: Row)
    requires |columns| == |selects| && NoDups(columns)
    ensures forall c :: c in CopyRow(columns, selects, prior) <==> c in columns
    ensures forall i :: 0 <= i < |columns| ==> CopyRow(columns, selects, prior)[columns[i]] == Eval(selects[i], prior)
  {
    if |columns| > 0 {
      var n := |columns|;
      var init, sinit, last := columns[..n - 1], selects[..n - 1], columns[n - 1];
      assert NoDups(init) by {
        forall i, j | 0 <= i < j < |init| ensures init[i] != init[j] {
          assert init[i] == columns[i] && init[j] == columns[j];
        }
      }
      CopyRowValues(init, sinit, prior);
      var r0 := CopyRow(init, sinit, prior);
      var r := CopyRow(columns, selects, prior);
      assert r == r0[last := Eval(selects[n - 1], prior)];
      assert columns == init + [last];
      forall i | 0 <= i < n ensures r[columns[i]] == Eval(selects[i], prior) {
        if i < n - 1 {
          assert columns[i] == init[i] && selects[i] == sinit[i];
          assert columns[i] != last;
        }
      }
    }
  }

  /** One old row of `exams` as the rebuilt table holds it: columns the old
      table has keep their values, new columns it lacks are NULL, standard
      columns it lacks and columns outside both lists are not carried over. */
  lemma CopiedRow(existing: seq<string>, prior: Row)
    ensures var plan := BuildCopyLists(existing);
      var row := CopyRow(plan.columns, plan.selects, prior);
      && (forall c :: c in row <==> (c in StandardCols && c in existing) || c in NewCols)
      && (forall c :: c in existing && c in Candidates ==> row[c] == Get(prior, c))
      && (forall c :: c in NewCols && c !in existing ==> row[c] == Null)
  {
    var plan := BuildCopyLists(existing);
    var row := CopyRow(plan.columns, plan.selects, prior);
    CopyRowValues(plan.columns, plan.selects, prior);
    forall c | c in plan.columns ensures row[c] == Eval(SelectFor(c, existing), prior) {
      var i :| 0 <= i < |plan.columns| && plan.columns[i] == c;
    }
  }

  /** `INSERT INTO exams_new (columns) SELECT selects FROM exams`. */
  function InsertSelect(cat: Catalog, plan: CopyPlan): Catalog
    requires Exams in cat.tables && ExamsNew in cat.tables
    requires |plan.columns| == |plan.selects|
  {
    var target := cat.tables[ExamsNew];
    cat.(tables := cat.tables[ExamsNew := target.(rows := target.rows + CopyRows(plan, cat.tables[Exams].rows))])
  }

  /** The rows the SELECT produces, one per old row, in order. */
  function CopyRows(plan: CopyPlan, rows: seq<Row>): (r: seq<Row>)
    requires |plan.columns| == |plan.selects|
    ensures |r| == |rows|
    ensures forall i :: 0 <= i < |rows| ==> r[i] == CopyRow(plan.columns, plan.selects, rows[i])
  {
    seq(|rows|, i requires 0 <= i < |rows| => CopyRow(plan.columns, plan.selects, rows[i]))
  }

  /** The index loop: each statement is tried in turn; one that raises is
      reported and the loop goes on. */
  function CreateIndexes(cat: Catalog, indexes: seq<(string, Index)>, failures: set<string>): Catalog
    decreases |indexes|
  {
    if |indexes| == 0 then cat
    else CreateIndexes(CreateIndex(cat, indexes[0].0, indexes[0].1, indexes[0].0 in failures),
                       indexes[1..], failures)
  }

  /** The index loop leaves every table as it is, never removes an index, and
      creates each listed index whose statement does not raise, unless its
      name is already taken. */
  lemma {:induction false} CreateIndexesEffect(cat: Catalog, indexes: seq<(string, Index)>, failures: set<string>)
    ensures var r := CreateIndexes(cat, indexes, failures);
      && r.tables == cat.tables
      && (forall k :: k in cat.indexes ==> k in r.indexes && r.indexes[k] == cat.indexes[k])
      && (forall i :: 0 <= i < |indexes| && indexes[i].0 !in failures ==> indexes[i].0 in r.indexes)
      && ((forall i, j :: 0 <= i < j < |indexes| ==> indexes[i].0 != indexes[j].0) ==>
          forall i :: 0 <= i < |indexes| && indexes[i].0 !in failures && indexes[i].0 !in cat.indexes ==>
            r.indexes[indexes[i].0] == indexes[i].1)
    decreases |indexes|
  {
    if |indexes| > 0 {
      var next := CreateIndex(cat, indexes[0].0, indexes[0].1, indexes[0].0 in failures);
      var rest := indexes[1..];
      CreateIndexesEffect(next, rest, failures);
      forall i | 1 <= i < |indexes| ensures indexes[i] == rest[i - 1] { }
    }
  }

  /** The rebuild, step by step; only reached when `exams` has a NOT NULL `student_id`. */
  function Rebuild(cat: Catalog, failures: set<string>): Catalog
    requires Exams in cat.tables
  {
    var plan := BuildCopyLists(ColumnNames(cat.tables[Exams].columns));
    var scratchDropped := DropTable(cat, ExamsNew);
    var created := CreateTable(scratchDropped, ExamsNew, ExamsNewColumns);
    var copied := if |plan.columns| == 0 then created else InsertSelect(created, plan);
    var oldDropped := DropTable(copied, Exams);
    var renamed := RenameTable(oldDropped, ExamsNew, Exams);
    CreateIndexes(renamed, ExamIndexes, failures)
  }

  /** How a run of the script ends. */
  datatype Outcome = StudentIdNotFound | NoChangeNeeded | Rebuilt

  datatype Run = Run(outcome: Outcome, catalog: Catalog)

  /** The whole script on a catalog. `failures` names the index statements that raise. */
  function FixStudentIdNullable(cat: Catalog, failures: set<string>): (r: Run)
    ensures r.outcome == StudentIdNotFound <==> forall c :: c in TableInfo(cat, Exams) ==> c.name != StudentId
    ensures r.outcome == NoChangeNeeded ==>
      exists c :: c in TableInfo(cat, Exams) && c.name == StudentId && !c.notNull
    ensures r.outcome == Rebuilt ==>
      Exams in cat.tables && exists c :: c in TableInfo(cat, Exams) && c.name == StudentId && c.notNull
    ensures r.outcome != Rebuilt ==> r.catalog == cat
  {
    match Decide(TableInfo(cat, Exams))
    case ColumnMissing => Run(StudentIdNotFound, cat)
    case AlreadyNullable => Run(NoChangeNeeded, cat)
    case NeedsRebuild => Run(Rebuilt, Rebuild(cat, failures))
  }

  /** The tables after the rebuild: `exams` is the new table holding the
      copied rows, `exams_new` is gone, every other table is as it was. */
  lemma RebuildTables(cat: Catalog, failures: set<string>)
    requires Exams in cat.tables
    ensures var plan := BuildCopyLists(ColumnNames(cat.tables[Exams].columns));
      Rebuild(cat, failures).tables
        == (cat.tables - {ExamsNew} - {Exams})[Exams := Table(ExamsNewColumns, CopyRows(plan, cat.tables[Exams].rows))]
    ensures forall i :: 0 <= i < |ExamIndexes| && ExamIndexes[i].0 !in failures ==>
      ExamIndexes[i].0 in Rebuild(cat, failures).indexes
    ensures OtherTablesUnchanged(cat, Rebuild(cat, failures))
  {
    var plan := BuildCopyLists(ColumnNames(cat.tables[Exams].columns));
    var scratchDropped := DropTable(cat, ExamsNew);
    var created := CreateTable(scratchDropped, ExamsNew, ExamsNewColumns);
    var copied := InsertSelect(created, plan);
    assert copied.tables[ExamsNew] == Table(ExamsNewColumns, CopyRows(plan, cat.tables[Exams].rows));
    var oldDropped := DropTable(copied, Exams);
    var renamed := RenameTable(oldDropped, ExamsNew, Exams);
    CreateIndexesEffect(renamed, ExamIndexes, failures);
  }

  /** Row by row, the rebuilt table holds the old table's data: as many rows;
      every column the old table has and the lists name keeps its value; every
      new column the old table lacked is NULL; nothing outside the lists is
      carried over. */
  predicate RowsCarriedOver(before: Table, after: Table) {
    var existing := ColumnNames(before.columns);
    && |after.rows| == |before.rows|
    && (forall i, c :: 0 <= i < |before.rows| && c in existing && c in Candidates ==>
          Get(after.rows[i], c) == Get(before.rows[i], c))
    && (forall i, c :: 0 <= i < |before.rows| && c in NewCols && c !in existing ==>
          c in after.rows[i] && after.rows[i][c] == Null)
    && (forall i, c :: 0 <= i < |before.rows| && c in after.rows[i] ==> c in Candidates)
  }

  /** Every table other than the two the script touches is as it was. */
  ghost predicate OtherTablesUnchanged(before: Catalog, after: Catalog) {
    forall t :: t != Exams && t != ExamsNew ==>
      (t in after.tables <==> t in before.tables) && (t in before.tables ==> after.tables[t] == before.tables[t])
  }

  /** The copied rows carry the old rows over. */
  lemma CopyRowsCarryOver(before: Table)
    ensures var plan := BuildCopyLists(ColumnNames(before.columns));
      RowsCarriedOver(before, Table(ExamsNewColumns, CopyRows(plan, before.rows)))
  {
    var existing := ColumnNames(before.columns);
    var plan := BuildCopyLists(existing);
    var rows := CopyRows(plan, before.rows);
    CandidateFacts();
    forall i | 0 <= i < |before.rows|
      ensures && (forall c :: c in existing && c in Candidates ==> Get(rows[i], c) == Get(before.rows[i], c))
              && (forall c :: c in NewCols && c !in existing ==> c in rows[i] && rows[i][c] == Null)
              && (forall c :: c in rows[i] ==> c in Candidates)
    {
      CopiedRow(existing, before.rows[i]);
    }
  }

  /** After a run that rebuilt the table: `exams` exists with the new schema
      (so `student_id` is nullable) and `exams_new` is gone; the old rows are
      carried over row by row; every other table is untouched; and each index
      statement that did not raise leaves an index of that name, so a failing
      index statement neither stops the later ones nor undoes the rebuild. */
  lemma RebuildGuarantees(cat: Catalog, failures: set<string>)
    requires Decide(TableInfo(cat, Exams)) == NeedsRebuild
    ensures Exams in cat.tables
    ensures var r := FixStudentIdNullable(cat, failures).catalog;
      && Exams in r.tables && ExamsNew !in r.tables
      && r.tables[Exams].columns == ExamsNewColumns
      && Decide(r.tables[Exams].columns) == AlreadyNullable
      && RowsCarriedOver(cat.tables[Exams], r.tables[Exams])
      && OtherTablesUnchanged(cat, r)
      && (forall i :: 0 <= i < |ExamIndexes| && ExamIndexes[i].0 !in failures ==>
            ExamIndexes[i].0 in r.indexes)
  {
    var before := cat.tables[Exams];
    var plan := BuildCopyLists(ColumnNames(before.columns));
    RebuildTables(cat, failures);
    CopyRowsCarryOver(before);
    NewSchemaNullable();
  }

  /** A second run after any first run changes nothing: once the table has
      been rebuilt `student_id` is nullable, and a run that did not rebuild
      left the catalog as it found it. */
  lemma FixStudentIdNullableIdempotent(cat: Catalog, failures: set<string>, failuresAgain: set<string>)
    ensures var once := FixStudentIdNullable(cat, failures);
      var twice := FixStudentIdNullable(once.catalog, failuresAgain);
      twice.catalog == once.catalog && twice.outcome != Rebuilt
  {
    var once := FixStudentIdNullable(cat, failures);
    if once.outcome == Rebuilt {
      assert Decide(TableInfo(cat, Exams)) == NeedsRebuild;
      RebuildGuarantees(cat, failures);
      assert TableInfo(once.catalog, Exams) == ExamsNewColumns;
    }
  }

  /** `exam_difficulty` is neither a candidate nor a column of the new table. */
  lemma ExamDifficultyUnlisted()
    ensures "exam_difficulty" !in Candidates
    ensures forall c :: c in ExamsNewColumns ==> c.name != "exam_difficulty"
  {
    // no listed name is fifteen characters long and starts with 'e'
    forall c | c in Candidates ensures |c| != 15 || c[0] != 'e' { }
    forall c | c in ExamsNewColumns ensures |c.name| != 15 || c.name[0] != 'e' { }
  }

  /** A column outside both lists, such as the `exam_difficulty` column that
      `migrate_exam_difficulty` adds, does not survive a rebuild: the new
      schema lacks it and no rebuilt row carries it. */
  lemma RebuildDropsExamDifficulty(cat: Catalog, failures: set<string>)
    requires Decide(TableInfo(cat, Exams)) == NeedsRebuild
    ensures var r := FixStudentIdNullable(cat, failures).catalog;
      && Exams in r.tables
      && (forall c :: c in r.tables[Exams].columns ==> c.name != "exam_difficulty")
      && (forall row :: row in r.tables[Exams].rows ==> "exam_difficulty" !in row)
  {
    RebuildGuarantees(cat, failures);
    ExamDifficultyUnlisted();
    var before := cat.tables[Exams];
    var after := FixStudentIdNullable(cat, failures).catalog.tables[Exams];
    assert RowsCarriedOver(before, after);
    assert |after.rows| == |before.rows|;
    forall row | row in after.rows ensures "exam_difficulty" !in row {
      var k :| 0 <= k < |after.rows| && after.rows[k] == row;
      assert forall c :: c in after.rows[k] ==> c in Candidates;
    }
  }
}
