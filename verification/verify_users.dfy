/** The read-only report of `verify_users`: the display row of each user and
    the ordered list of missing-field issues. Console output and table
    rendering are not modelled; the cell values and the issues are. */
module VerifyUsers {
  import opened Common
  import opened Models
  import AuthService

  /** One diagnostic line, named by the check that produced it and the user's email. */
  datatype Issue =
    | MissingFirstName(email: string)
    | MissingLastName(email: string)
    | StudentMissingId(email: string)
    | TeacherMissingId(email: string)

  /** The text printed for an issue. */
  function Message(issue: Issue): string {
    match issue
    case MissingFirstName(e) => "User " + e + " is missing first_name"
    case MissingLastName(e) => "User " + e + " is missing last_name"
    case StudentMissingId(e) => "Student " + e + " is missing student_id"
    case TeacherMissingId(e) => "Teacher " + e + " is missing instructor_id"
  }

  /** Position of an issue's check within the per-user sequence of checks. */
  function CheckOrder(issue: Issue): nat {
    match issue
    case MissingFirstName(_) => 0
    case MissingLastName(_) => 1
    case StudentMissingId(_) => 2
    case TeacherMissingId(_) => 3
  }

  /** A user for whom all four checks pass. */
  predicate Passes(u: User) {
    && !Blank(u.firstName)
    && !Blank(u.lastName)
    && (u.role == StudentRole ==> !Blank(u.studentId))
    && (u.role == TeacherRole ==> !Blank(u.instructorId))
  }

  /** The issues of one user: each check contributes its issue exactly when its
      field is blank, in check order, all about that user, and never more than
      three since no role is both student and teacher. */
  function UserIssues(u: User): (r: seq<Issue>)
    ensures MissingFirstName(u.email) in r <==> Blank(u.firstName)
    ensures MissingLastName(u.email) in r <==> Blank(u.lastName)
    ensures StudentMissingId(u.email) in r <==> u.role == StudentRole && Blank(u.studentId)
    ensures TeacherMissingId(u.email) in r <==> u.role == TeacherRole && Blank(u.instructorId)
    ensures forall i :: 0 <= i < |r| ==> r[i].email == u.email
    ensures forall i, j :: 0 <= i < j < |r| ==> CheckOrder(r[i]) < CheckOrder(r[j])
    ensures r == [] <==> Passes(u)
    ensures |r| <= 3
  {
    (if Blank(u.firstName) then [MissingFirstName(u.email)] else [])
    + (if Blank(u.lastName) then [MissingLastName(u.email)] else [])
    + (if u.role == StudentRole && Blank(u.studentId) then [StudentMissingId(u.email)] else [])
    + (if u.role == TeacherRole && Blank(u.instructorId) then [TeacherMissingId(u.email)] else [])
  }

  /** A user whose role is neither student nor teacher never gets an id issue. */
  lemma OtherRolesHaveNoIdIssue(u: User)
    requires u.role != StudentRole && u.role != TeacherRole
    ensures forall x :: x in UserIssues(u) ==> x.MissingFirstName? || x.MissingLastName?
  {
  }

  /** The `issues` list built by the loop over users: each user's issues, users in order. */
  function Issues(users: seq<User>): (r: seq<Issue>)
    ensures |r| <= 3 * |users|
  {
    if |users| == 0 then []
    else
      var init := users[..|users| - 1];
      var last := users[|users| - 1];
      assert users == init + [last];
      Issues(init) + UserIssues(last)
  }

  /** The list is empty exactly when every user passes all four checks. */
  lemma {:induction false} IssuesEmptyIffAllPass(users: seq<User>)
    ensures Issues(users) == [] <==> forall u :: u in users ==> Passes(u)
  {
    if |users| > 0 {
      var init, last := users[..|users| - 1], users[|users| - 1];
      assert users == init + [last];
      IssuesEmptyIffAllPass(init);
    }
  }

  /** Every reported issue belongs to some listed user: `u` is one. */
  lemma {:induction false} IssuesFromUsers(users: seq<User>, x: Issue) returns (u: User)
    requires x in Issues(users)
    ensures u in users && x in UserIssues(u)
  {
    var init, last := users[..|users| - 1], users[|users| - 1];
    assert Issues(users) == Issues(init) + UserIssues(last);
    if x in UserIssues(last) {
      u := last;
    } else {
      u := IssuesFromUsers(init, x);
      assert u in init;
    }
  }

  /** Every issue of a listed user is reported. */
  lemma {:induction false} IssuesOfUserReported(users: seq<User>, u: User, x: Issue)
    requires u in users && x in UserIssues(u)
    ensures x in Issues(users)
  {
    var init, last := users[..|users| - 1], users[|users| - 1];
    assert Issues(users) == Issues(init) + UserIssues(last);
    if u != last {
      assert u in init;
      IssuesOfUserReported(init, u, x);
    }
  }

  /** An issue is reported exactly when it is an issue of some listed user. */
  lemma IssuesMembership(users: seq<User>, x: Issue)
    ensures x in Issues(users) <==> exists u :: u in users && x in UserIssues(u)
  {
    if x in Issues(users) {
      var u := IssuesFromUsers(users, x);
    }
    if exists u :: u in users && x in UserIssues(u) {
      var u :| u in users && x in UserIssues(u);
      IssuesOfUserReported(users, u, x);
    }
  }

  /** One more user adds that user's issues at the end. */
  lemma IssuesSnoc(users: seq<User>, u: User)
    ensures Issues(users + [u]) == Issues(users) + UserIssues(u)
  {
    var s := users + [u];
    assert s[..|s| - 1] == users;
  }

  /** Issues are grouped by user in list order: the report of a concatenation
      is the concatenation of the reports. */
  lemma {:induction false} IssuesDistribute(a: seq<User>, b: seq<User>)
    ensures Issues(a + b) == Issues(a) + Issues(b)
    decreases |b|
  {
    if |b| == 0 {
      assert a + b == a;
    } else {
      var b', last := b[..|b| - 1], b[|b| - 1];
      assert a + b == (a + b') + [last];
      assert b == b' + [last];
      IssuesSnoc(a + b', last);
      IssuesSnoc(b', last);
      IssuesDistribute(a, b');
      SeqAssoc(Issues(a), Issues(b'), UserIssues(last));
    }
  }

  /** Concatenation of issue lists is associative. */
  lemma SeqAssoc(p: seq<Issue>, q: seq<Issue>, x: seq<Issue>)
    ensures (p + q) + x == p + (q + x)
  {
  }

  /** The value shown in the Student ID and Instructor ID columns (`value or "N/A"`). */
  function IdCell(v: Option<string>): string {
    if Blank(v) then "N/A" else v.value
  }

  /** The cell reads "N/A" exactly when the id is blank, except for an id whose
      stored text is itself "N/A"; otherwise the stored id is shown unchanged. */
  lemma IdCellShowsValue(v: Option<string>)
    ensures IdCell(v) == "N/A" <==> Blank(v) || v == Some("N/A")
    ensures !Blank(v) ==> IdCell(v) == v.value
  {
  }

  /** One row of the printed user table. */
  datatype DisplayRow = DisplayRow(
    id: nat, email: string, role: string,
    firstName: Option<string>, lastName: Option<string>,
    studentCell: string, instructorCell: string)

  function Display(u: User): DisplayRow {
    DisplayRow(u.id, u.email, u.role, u.firstName, u.lastName, IdCell(u.studentId), IdCell(u.instructorId))
  }

  /** The rows of the printed user table, one per user in query order. */
  function Rows(users: seq<User>): (rows: seq<DisplayRow>)
    ensures |rows| == |users|
    ensures forall i :: 0 <= i < |users| ==> rows[i] == Display(users[i])
  {
    seq(|users|, i requires 0 <= i < |users| => Display(users[i]))
  }

  /** What `verify_users` reports: nothing but a notice for an empty table, or
      the table rows and the issue list. */
  datatype Report = NoUsers | Listing(rows: seq<DisplayRow>, issues: seq<Issue>)

  function VerifyUsersReport(users: seq<User>): (r: Report)
    ensures r.NoUsers? <==> users == []
    ensures r.Listing? ==> |r.rows| == |users|
    ensures r.Listing? ==> forall i :: 0 <= i < |users| ==> r.rows[i].email == users[i].email
    ensures r.Listing? ==> forall i :: 0 <= i < |users| ==>
      r.rows[i] == Display(users[i])
      && r.rows[i].studentCell == IdCell(users[i].studentId)
      && r.rows[i].instructorCell == IdCell(users[i].instructorId)
    ensures r.Listing? ==> r.issues == Issues(users)
    ensures r.Listing? ==> (r.issues == [] <==> forall u :: u in users ==> Passes(u))
  {
    IssuesEmptyIffAllPass(users);
    if |users| == 0 then NoUsers else Listing(Rows(users), Issues(users))
  }

  /** A user just stored by `create_user` raises no issue exactly when both
      names are non-empty and the id its role needs was given non-empty. */
  lemma CreatedUserPasses(store: seq<User>, email: string, password: string, role: string,
                          firstName: string, lastName: string,
                          studentId: Option<string>, instructorId: Option<string>,
                          insert: AuthService.InsertOutcome)
    requires AuthService.CreateUser(store, email, password, role, firstName, lastName, studentId, instructorId, insert).user.Some?
    ensures var u := AuthService.CreateUser(store, email, password, role, firstName, lastName, studentId, instructorId, insert).user.value;
      UserIssues(u) == [] <==>
        && firstName != "" && lastName != ""
        && (role == StudentRole ==> !Blank(studentId))
        && (role == TeacherRole ==> !Blank(instructorId))
  {
  }
}
