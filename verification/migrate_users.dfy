/** `migrate_users_table`: walk the fixed migration list and add each column
    that the `users` catalog does not list. Each column is its own transaction;
    the set of columns whose statement raises is a parameter. */
module MigrateUsers {
  import opened Common
  import opened ColumnAdder

  /** The migration list, in the order the script tries it (column types and
      defaults are SQL text and are not modelled). */
  const Migrations: seq<string> := ["first_name", "last_name", "student_id", "instructor_id"]

  /** The loop: each column is checked against the schema as left by the
      columns before it; a failing column is rolled back and the loop goes on. */
  function AddEach(schema: seq<string>, columns: seq<string>, failing: set<string>): seq<string>
    decreases |columns|
  {
    if |columns| == 0 then schema
    else AddEach(AddColumnIfAbsent(schema, columns[0], columns[0] in failing), columns[1..], failing)
  }

  /** Reference definition of what a run appends: the listed columns that are
      neither present nor failing, in list order. */
  function Missing(columns: seq<string>, schema: seq<string>, failing: set<string>): seq<string> {
    if |columns| == 0 then []
    else
      (if columns[0] !in schema && columns[0] !in failing then [columns[0]] else [])
      + Missing(columns[1..], schema, failing)
  }

  /** Dropping the head of a duplicate-free list leaves a duplicate-free tail without the head. */
  lemma NoDupsTail(columns: seq<string>)
    requires |columns| > 0 && NoDups(columns)
    ensures columns[0] !in columns[1..] && NoDups(columns[1..])
  {
    var rest := columns[1..];
    forall k | 0 <= k < |rest| ensures rest[k] != columns[0] {
      assert rest[k] == columns[k + 1];
    }
    forall i, j | 0 <= i < j < |rest| ensures rest[i] != rest[j] {
      assert rest[i] == columns[i + 1] && rest[j] == columns[j + 1];
    }
  }

  /** The appended columns are exactly the listed, absent, non-failing ones,
      each once when the list has no repeats. */
  lemma {:induction false} MissingMembers(columns: seq<string>, schema: seq<string>, failing: set<string>)
    ensures forall c :: c in Missing(columns, schema, failing) <==> c in columns && c !in schema && c !in failing
    ensures NoDups(columns) ==> NoDups(Missing(columns, schema, failing))
  {
    if |columns| > 0 {
      var c, rest := columns[0], columns[1..];
      MissingMembers(rest, schema, failing);
      assert columns == [c] + rest;
      if NoDups(columns) {
        NoDupsTail(columns);
        var head: seq<string> := if c !in schema && c !in failing then [c] else [];
        NoDupsConcat(head, Missing(rest, schema, failing));
      }
    }
  }

  /** Missing is unaffected by appending a column the list does not mention. */
  lemma {:induction false} MissingIgnoresOtherColumn(columns: seq<string>, schema: seq<string>, failing: set<string>, c: string)
    requires c !in columns
    ensures Missing(columns, schema + [c], failing) == Missing(columns, schema, failing)
  {
    if |columns| > 0 {
      assert columns[0] in columns;
      MissingIgnoresOtherColumn(columns[1..], schema, failing, c);
    }
  }

  /** The loop equals the reference: existing columns keep their places and the
      appended suffix is the missing, non-failing columns in list order. */
  lemma {:induction false} AddEachAppendsInOrder(schema: seq<string>, columns: seq<string>, failing: set<string>)
    requires NoDups(columns)
    ensures AddEach(schema, columns, failing) == schema + Missing(columns, schema, failing)
    decreases |columns|
  {
    if |columns| > 0 {
      var c, rest := columns[0], columns[1..];
      NoDupsTail(columns);
      var next := AddColumnIfAbsent(schema, c, c in failing);
      AddEachAppendsInOrder(next, rest, failing);
      if c !in schema && c !in failing {
        assert next == schema + [c];
        MissingIgnoresOtherColumn(rest, schema, failing, c);
        assert Missing(columns, schema, failing) == [c] + Missing(rest, schema, failing);
        assert (schema + [c]) + Missing(rest, schema, failing) == schema + ([c] + Missing(rest, schema, failing));
      } else {
        assert next == schema;
        assert Missing(columns, schema, failing) == [] + Missing(rest, schema, failing);
      }
    }
  }

  /** The whole script: the `users` schema afterwards. Old columns are kept in
      place, the absent non-failing migration columns are appended in list
      order, and nothing else is added. */
  function MigrateUsersTable(schema: seq<string>, failing: set<string>): (r: seq<string>)
    ensures r == schema + Missing(Migrations, schema, failing)
    ensures forall c :: c in r <==> c in schema || (c in Migrations && c !in failing)
    ensures NoDups(schema) ==> NoDups(r)
    ensures failing == {} ==> forall c :: c in Migrations ==> c in r
  {
    assert NoDups(Migrations);
    AddEachAppendsInOrder(schema, Migrations, failing);
    MissingMembers(Migrations, schema, failing);
    if NoDups(schema) then
      NoDupsConcat(schema, Missing(Migrations, schema, failing));
      AddEach(schema, Migrations, failing)
    else
      AddEach(schema, Migrations, failing)
  }

  /** A run over columns each of which is present or fails changes nothing. */
  lemma {:induction false} AddEachNoop(schema: seq<string>, columns: seq<string>, failing: set<string>)
    requires forall c :: c in columns ==> c in schema || c in failing
    ensures AddEach(schema, columns, failing) == schema
    decreases |columns|
  {
    if |columns| > 0 {
      assert columns[0] in columns;
      assert forall c :: c in columns[1..] ==> c in columns;
      AddEachNoop(schema, columns[1..], failing);
    }
  }

  /** Idempotence: re-running with the same outcomes changes nothing, and after
      a run without failures any re-run is a no-op. */
  lemma MigrateUsersIdempotent(schema: seq<string>, failing: set<string>, failingAgain: set<string>)
    ensures var once := MigrateUsersTable(schema, failing);
      MigrateUsersTable(once, failing) == once
    ensures var clean := MigrateUsersTable(schema, {});
      MigrateUsersTable(clean, failingAgain) == clean
  {
    AddEachNoop(MigrateUsersTable(schema, failing), Migrations, failing);
    AddEachNoop(MigrateUsersTable(schema, {}), Migrations, failingAgain);
  }

  /** A failure on one column does not stop the loop: every later column that
      is absent and does not itself fail is still added. */
  lemma FailureDoesNotStopLaterColumns(schema: seq<string>, failing: set<string>, i: nat, j: nat)
    requires i < j < |Migrations|
    requires Migrations[i] in failing && Migrations[i] !in schema
    requires Migrations[j] !in failing
    ensures Migrations[i] !in MigrateUsersTable(schema, failing)
    ensures Migrations[j] in MigrateUsersTable(schema, failing)
  {
  }
}
