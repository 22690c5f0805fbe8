/** `authenticate_user` and `create_user` over the `users` table, modelled as a
    sequence of rows. The session is replaced by the row sequence it reads and
    writes; the outcome of the INSERT (the id the engine assigns, or an
    integrity error from a concurrent signup) is a parameter. */
module AuthService {
  import opened Common
  import opened Models

  /** `db.query(User).filter(User.email == email).first()`: the earliest stored
      user with that email, if any. */
  function FindByEmail(store: seq<User>, email: string): (r: Option<User>)
    ensures r.None? <==> forall u :: u in store ==> u.email != email
    ensures r.Some? ==> r.value in store && r.value.email == email
  {
    if |store| == 0 then None
    else if store[0].email == email then Some(store[0])
    else
      assert store == [store[0]] + store[1..];
      FindByEmail(store[1..], email)
  }

  /** Under the unique constraint the lookup finds exactly the one user with that email. */
  lemma FindByEmailUnique(store: seq<User>, u: User)
    requires UniqueEmails(store)
    requires u in store
    ensures FindByEmail(store, u.email) == Some(u)
  {
    var r := FindByEmail(store, u.email);
    var i :| 0 <= i < |store| && store[i] == r.value;
    var j :| 0 <= j < |store| && store[j] == u;
    assert i == j;
  }

  /** The user is returned only on an exact email match whose stored password
      equals the supplied one (plain string equality, no hashing). */
  function AuthenticateUser(store: seq<User>, email: string, password: string): (r: Option<User>)
    ensures (forall u :: u in store ==> u.email != email) ==> r == None
    ensures r.Some? ==> r.value in store && r.value.email == email && r.value.passwordHash == password
  {
    match FindByEmail(store, email)
    case None => None
    case Some(user) =>
      if user.passwordHash != password then None else Some(user)
  }

  /** With unique emails, authentication answers exactly: the stored user when
      the password matches, nothing otherwise. */
  lemma AuthenticateExact(store: seq<User>, u: User, password: string)
    requires UniqueEmails(store)
    requires u in store
    ensures AuthenticateUser(store, u.email, password) == (if u.passwordHash == password then Some(u) else None)
  {
    FindByEmailUnique(store, u);
  }

  /** What the INSERT and commit do: succeed with the id the engine assigns, or
      raise `IntegrityError` (a concurrent signup with the same email). */
  datatype InsertOutcome = Inserted(id: nat) | IntegrityError

  /** The returned user (`None` for the nothing-created sentinel) and the table afterwards. */
  datatype CreateResult = CreateResult(user: Option<User>, store: seq<User>)

  /** `create_user`: refuses a known email, keeps only the id that matches the
      role, stores the password verbatim, and appends the new row; an integrity
      error is rolled back. */
  function CreateUser(store: seq<User>, email: string, password: string, role: string,
                      firstName: string, lastName: string,
                      studentId: Option<string>, instructorId: Option<string>,
                      insert: InsertOutcome): (r: CreateResult)
    ensures r.user.Some? <==> (forall u :: u in store ==> u.email != email) && insert.Inserted?
    ensures r.user.None? ==> r.store == store
    ensures r.user.Some? ==> r.store == store + [r.user.value]
    ensures r.user.Some? ==>
      var u := r.user.value;
      && u.id == insert.id && u.email == email && u.passwordHash == password && u.role == role
      && u.firstName == Some(firstName) && u.lastName == Some(lastName)
      && (role == StudentRole ==> u.studentId == studentId)
      && (role != StudentRole ==> u.studentId == None)
      && (role == TeacherRole ==> u.instructorId == instructorId)
      && (role != TeacherRole ==> u.instructorId == None)
  {
    if FindByEmail(store, email).Some? then
      CreateResult(None, store)
    else
      match insert
      case IntegrityError => CreateResult(None, store)
      case Inserted(id) =>
        var user := User(id, email, password, role, Some(firstName), Some(lastName),
                         if role == StudentRole then studentId else None,
                         if role == TeacherRole then instructorId else None);
        CreateResult(Some(user), store + [user])
  }

  /** Creating a user keeps emails unique, and afterwards exactly one stored
      user carries the email, whether the call succeeded or hit a known email. */
  lemma {:induction false} CreateKeepsEmailsUnique(store: seq<User>, email: string, password: string, role: string,
                                  firstName: string, lastName: string,
                                  studentId: Option<string>, instructorId: Option<string>,
                                  insert: InsertOutcome)
    requires UniqueEmails(store)
    ensures var r := CreateUser(store, email, password, role, firstName, lastName, studentId, instructorId, insert);
      && UniqueEmails(r.store)
      && ((exists u :: u in store && u.email == email) || r.user.Some? ==> CountEmail(r.store, email) == 1)
  {
    var r := CreateUser(store, email, password, role, firstName, lastName, studentId, instructorId, insert);
    if r.user.Some? {
      var u := r.user.value;
      forall i, j | 0 <= i < j < |r.store| ensures r.store[i].email != r.store[j].email {
        if j == |store| {
          assert store[i] in store;
        } else {
          assert r.store[i] == store[i] && r.store[j] == store[j];
        }
      }
      assert r.store[|store|] == u;
      CountEmailUnique(r.store, email);
    } else if exists u :: u in store && u.email == email {
      CountEmailUnique(store, email);
    }
  }

  /** Round trip: right after a successful `create_user`, `authenticate_user`
      with the same email and password returns the created user. */
  lemma CreateThenAuthenticate(store: seq<User>, email: string, password: string, role: string,
                               firstName: string, lastName: string,
                               studentId: Option<string>, instructorId: Option<string>,
                               insert: InsertOutcome)
    requires CreateUser(store, email, password, role, firstName, lastName, studentId, instructorId, insert).user.Some?
    ensures var r := CreateUser(store, email, password, role, firstName, lastName, studentId, instructorId, insert);
      AuthenticateUser(r.store, email, password) == r.user
  {
    var r := CreateUser(store, email, password, role, firstName, lastName, studentId, instructorId, insert);
    var found := FindByEmail(r.store, email);
    assert r.store[|store|] == r.user.value;
    assert found.Some? && found.value in r.store;
    if found.value in store {
      assert false;
    }
  }

  /** A second `create_user` with the same email returns the sentinel and
      leaves exactly one user with that email. */
  lemma CreateTwiceRefused(store: seq<User>, email: string, password: string, role: string,
                           firstName: string, lastName: string,
                           studentId: Option<string>, instructorId: Option<string>,
                           insert: InsertOutcome,
                           password2: string, role2: string, firstName2: string, lastName2: string,
                           studentId2: Option<string>, instructorId2: Option<string>,
                           insert2: InsertOutcome)
    requires UniqueEmails(store)
    requires CreateUser(store, email, password, role, firstName, lastName, studentId, instructorId, insert).user.Some?
    ensures var r1 := CreateUser(store, email, password, role, firstName, lastName, studentId, instructorId, insert);
      var r2 := CreateUser(r1.store, email, password2, role2, firstName2, lastName2, studentId2, instructorId2, insert2);
      r2.user.None? && r2.store == r1.store && CountEmail(r2.store, email) == 1
  {
    var r1 := CreateUser(store, email, password, role, firstName, lastName, studentId, instructorId, insert);
    CreateKeepsEmailsUnique(store, email, password, role, firstName, lastName, studentId, instructorId, insert);
    assert r1.store[|store|] == r1.user.value;
  }
}
