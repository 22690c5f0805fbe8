/** Vocabulary shared by every script: nullable values, Python truthiness of a
    nullable string, and two facts about sequences. */
module Common {

  /** A nullable column value as Python sees it: `None` or a value. */
  datatype Option<+T> = None | Some(value: T)

  /** `not v` for a nullable string column: true for `None` and for the empty string. */
  predicate Blank(v: Option<string>) {
    v.None? || v.value == ""
  }

  /** No element occurs twice. */
  predicate NoDups<T(==)>(s: seq<T>) {
    forall i, j :: 0 <= i < j < |s| ==> s[i] != s[j]
  }

  /** `a` is an initial segment of `b`: `b` only appends to `a`. */
  predicate IsPrefix<T(==)>(a: seq<T>, b: seq<T>) {
    |a| <= |b| && b[..|a|] == a
  }

  /** Joining two duplicate-free sequences with no common element keeps them duplicate-free. */
  lemma NoDupsConcat<T>(a: seq<T>, b: seq<T>)
    requires NoDups(a) && NoDups(b)
    requires forall x :: x in a ==> x !in b
    ensures NoDups(a + b)
  {
    forall i, j | 0 <= i < j < |a + b| ensures (a + b)[i] != (a + b)[j] {
      if j >= |a| && i < |a| {
        assert (a + b)[i] in a && (a + b)[j] == b[j - |a|];
      }
    }
  }
}
