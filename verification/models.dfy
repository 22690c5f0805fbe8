/** The `users` table as the services and scripts see it. The ORM model that
    declares it (app/db/models.py) is not part of this model; its columns are
    taken from the queries and constructors that use them. */
module Models {
  import opened Common

  /** One row of `users`. `passwordHash` holds the password exactly as given. */
  datatype User = User(
    id: nat,
    email: string,
    passwordHash: string,
    role: string,
    firstName: Option<string>,
    lastName: Option<string>,
    studentId: Option<string>,
    instructorId: Option<string>)

  const StudentRole: string := "student"
  const TeacherRole: string := "teacher"

  /** The unique constraint on `users.email`. */
  predicate UniqueEmails(store: seq<User>) {
    forall i, j :: 0 <= i < j < |store| ==> store[i].email != store[j].email
  }

  /** How many stored users carry the given email. */
  function CountEmail(store: seq<User>, email: string): nat {
    if |store| == 0 then 0
    else CountEmail(store[..|store| - 1], email) + (if store[|store| - 1].email == email then 1 else 0)
  }

  /** No user with the email means a count of zero, and conversely. */
  lemma {:induction false} CountEmailZero(store: seq<User>, email: string)
    ensures CountEmail(store, email) == 0 <==> forall u :: u in store ==> u.email != email
  {
    if |store| > 0 {
      var init := store[..|store| - 1];
      CountEmailZero(init, email);
      assert store == init + [store[|store| - 1]];
    }
  }

  /** Under the unique constraint an email that is present is counted exactly once. */
  lemma {:induction false} CountEmailUnique(store: seq<User>, email: string)
    requires UniqueEmails(store)
    requires exists u :: u in store && u.email == email
    ensures CountEmail(store, email) == 1
  {
    var n := |store|;
    var init := store[..n - 1];
    assert store == init + [store[n - 1]];
    if store[n - 1].email == email {
      CountEmailZero(init, email);
      forall u | u in init ensures u.email != email {
        var k :| 0 <= k < n - 1 && init[k] == u;
        assert store[k] == u;
      }
    } else {
      var u :| u in store && u.email == email;
      assert u in init;
      CountEmailUnique(init, email);
    }
  }
}
