/** `migrate_exam_difficulty`: add the single nullable column `exam_difficulty`
    to `exams` if the catalog does not list it. */
module MigrateExamDifficulty {
  import opened Common
  import opened ColumnAdder

  const ExamDifficulty: string := "exam_difficulty"

  /** The schema of `exams` after the script; `fails` says whether the ALTER
      TABLE statement raised. Existing columns stay in place, nothing but
      `exam_difficulty` is added, and it is present afterwards unless the
      attempt failed. */
  function MigrateExamDifficulty(schema: seq<string>, fails: bool): (r: seq<string>)
    ensures IsPrefix(schema, r)
    ensures forall c :: c in r <==> c in schema || (c == ExamDifficulty && !fails)
    ensures |r| <= |schema| + 1
    ensures ExamDifficulty in schema ==> r == schema
    ensures fails ==> r == schema
  {
    AddColumnIfAbsentAppends(schema, ExamDifficulty, fails);
    AddColumnIfAbsent(schema, ExamDifficulty, fails)
  }

  /** If the column is absent and the statement succeeds, it is appended after
      the existing columns. */
  lemma MigrateExamDifficultyAppends(schema: seq<string>)
    requires ExamDifficulty !in schema
    ensures MigrateExamDifficulty(schema, false) == schema + [ExamDifficulty]
  {
    var r := MigrateExamDifficulty(schema, false);
    assert ExamDifficulty in r;
    assert r[..|schema|] == schema;
    assert r != schema;
    assert |r| == |schema| + 1;
    assert r[|schema|] in r;
    assert r == r[..|schema|] + [r[|schema|]];
  }

  /** A second run after a successful one is a no-op, whatever its own outcome. */
  lemma MigrateExamDifficultyIdempotent(schema: seq<string>, failsAgain: bool)
    ensures var once := MigrateExamDifficulty(schema, false);
      MigrateExamDifficulty(once, failsAgain) == once
  {
    var once := MigrateExamDifficulty(schema, false);
    assert ExamDifficulty in once;
  }
}
