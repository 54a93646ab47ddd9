/** LoginService: account recovery. Finding the login id by (name, phone,
    email), and resetting the password to a fresh temporary one once the
    login id and the personal details denote the same live user. The random
    source and the password encoder are parameters. */
module Login {
  import opened Domain

  /** The User entity, reduced to what account recovery reads and writes. */
  datatype User = User(
    id: nat,
    loginId: string,
    name: string,
    phone: string,
    email: string,
    password: string,
    deletedAt: Option<int>)
  {
    /** isDeleted: the user has withdrawn. */
    predicate Deleted() { deletedAt.Some? }
  }

  datatype LoginError =
    | NoMatchingUser   // UserNotFoundException: no user matches, or the two lookups disagree
    | WithdrawnUser    // UserNotFoundException: the user found has withdrawn
    | DuplicateRows    // a single-result lookup matched several rows, which the repository refuses with an exception

  datatype ResetRequest = ResetRequest(loginId: string, name: string, phone: string, email: string)

  predicate HasInfo(u: User, name: string, phone: string, email: string) {
    u.name == name && u.phone == phone && u.email == email
  }

  function WithLoginId(loginId: string): User -> bool {
    (u: User) => u.loginId == loginId
  }

  function WithInfo(name: string, phone: string, email: string): User -> bool {
    (u: User) => HasInfo(u, name, phone, email)
  }

  /** findByLoginId: the one row with that login id, withdrawn or not. */
  function FindByLoginId(users: seq<User>, loginId: string): (u: Single<User>)
    ensures u.NoRow? <==> forall x :: x in users ==> x.loginId != loginId
    ensures u.ManyRows? <==>
      exists i, j :: 0 <= i < j < |users| && users[i].loginId == loginId && users[j].loginId == loginId
    ensures u.OneRow? ==> u.row in users && u.row.loginId == loginId
  {
    FindSingle(users, WithLoginId(loginId))
  }

  /** findByNameAndPhoneAndEmail: the one row with those details, withdrawn or not. */
  function FindByInfo(users: seq<User>, name: string, phone: string, email: string): (u: Single<User>)
    ensures u.NoRow? <==> forall x :: x in users ==> !HasInfo(x, name, phone, email)
    ensures u.ManyRows? <==>
      exists i, j :: 0 <= i < j < |users| && HasInfo(users[i], name, phone, email) && HasInfo(users[j], name, phone, email)
    ensures u.OneRow? ==> u.row in users && HasInfo(u.row, name, phone, email)
  {
    FindSingle(users, WithInfo(name, phone, email))
  }

  /** findLoginId: the login id of the user with those details. */
  function FindLoginId(users: seq<User>, name: string, phone: string, email: string): (res: Result<string, LoginError>)
    ensures res == Failure(NoMatchingUser) <==> forall u :: u in users ==> !HasInfo(u, name, phone, email)
    ensures res == Failure(DuplicateRows) <==>
      exists i, j :: 0 <= i < j < |users| && HasInfo(users[i], name, phone, email) && HasInfo(users[j], name, phone, email)
    ensures res.Success? ==> exists u :: u in users && HasInfo(u, name, phone, email) && !u.Deleted() && res.value == u.loginId
    ensures res == Failure(WithdrawnUser) ==> exists u :: u in users && HasInfo(u, name, phone, email) && u.Deleted()
  {
    match FindByInfo(users, name, phone, email)
    case NoRow => Failure(NoMatchingUser)
    case ManyRows => Failure(DuplicateRows)
    case OneRow(u) => if u.Deleted() then Failure(WithdrawnUser) else Success(u.loginId)
  }

  /** isExistUser with checkDeletedUser: both lookups must find one user, both
      must be live, and they must have the same id. The checks run in that order. */
  function ResetCheck(users: seq<User>, req: ResetRequest): (res: Result<User, LoginError>)
    ensures res.Success? <==>
      && FindByLoginId(users, req.loginId).OneRow?
      && FindByInfo(users, req.name, req.phone, req.email).OneRow?
      && !FindByLoginId(users, req.loginId).row.Deleted()
      && !FindByInfo(users, req.name, req.phone, req.email).row.Deleted()
      && FindByLoginId(users, req.loginId).row.id == FindByInfo(users, req.name, req.phone, req.email).row.id
    ensures res.Success? ==>
      && res.value in users && res.value.loginId == req.loginId && !res.value.Deleted()
      && exists u :: u in users && HasInfo(u, req.name, req.phone, req.email) && !u.Deleted() && u.id == res.value.id
    ensures res == Failure(DuplicateRows) <==>
      || FindByLoginId(users, req.loginId).ManyRows?
      || (FindByLoginId(users, req.loginId).OneRow? && FindByInfo(users, req.name, req.phone, req.email).ManyRows?)
    ensures (forall u :: u in users ==> u.loginId != req.loginId) ==> res == Failure(NoMatchingUser)
    ensures FindByLoginId(users, req.loginId).OneRow? && (forall u :: u in users ==> !HasInfo(u, req.name, req.phone, req.email))
      ==> res == Failure(NoMatchingUser)
    ensures res == Failure(WithdrawnUser) <==>
      && FindByLoginId(users, req.loginId).OneRow?
      && FindByInfo(users, req.name, req.phone, req.email).OneRow?
      && (FindByLoginId(users, req.loginId).row.Deleted() || FindByInfo(users, req.name, req.phone, req.email).row.Deleted())
    ensures res == Failure(NoMatchingUser) <==>
      || FindByLoginId(users, req.loginId).NoRow?
      || (FindByLoginId(users, req.loginId).OneRow? && FindByInfo(users, req.name, req.phone, req.email).NoRow?)
      || (&& FindByLoginId(users, req.loginId).OneRow?
          && FindByInfo(users, req.name, req.phone, req.email).OneRow?
          && !FindByLoginId(users, req.loginId).row.Deleted()
          && !FindByInfo(users, req.name, req.phone, req.email).row.Deleted()
          && FindByLoginId(users, req.loginId).row.id != FindByInfo(users, req.name, req.phone, req.email).row.id)
  {
    match FindByLoginId(users, req.loginId)
    case NoRow => Failure(NoMatchingUser)
    case ManyRows => Failure(DuplicateRows)
    case OneRow(byLogin) =>
      match FindByInfo(users, req.name, req.phone, req.email)
      case NoRow => Failure(NoMatchingUser)
      case ManyRows => Failure(DuplicateRows)
      case OneRow(byInfo) =>
        if byLogin.Deleted() || byInfo.Deleted() then Failure(WithdrawnUser)
        else if byLogin.id != byInfo.id then Failure(NoMatchingUser)
        else Success(byLogin)
  }

  /** updatePasswordByLoginId: every row with that login id gets the new
      password; no other row and no other column changes. */
  function UpdatePasswordByLoginId(users: seq<User>, loginId: string, password: string): (out: seq<User>)
    ensures |out| == |users|
    ensures forall i :: 0 <= i < |users| ==>
      out[i] == if users[i].loginId == loginId then users[i].(password := password) else users[i]
  {
    seq(|users|, i requires 0 <= i < |users| =>
      if users[i].loginId == loginId then users[i].(password := password) else users[i])
  }

  /** The user ids and the login ids are keys of the user table. */
  predicate Keyed(users: seq<User>) {
    && (forall i, j :: 0 <= i < j < |users| ==> users[i].id != users[j].id)
    && (forall i, j :: 0 <= i < j < |users| ==> users[i].loginId != users[j].loginId)
  }

  lemma SameIdSameRow(users: seq<User>, a: User, b: User)
    requires Keyed(users) && a in users && b in users && a.id == b.id
    ensures a == b
  {
    var i :| 0 <= i < |users| && users[i] == a;
    var j :| 0 <= j < |users| && users[j] == b;
  }

  lemma SameLoginSameRow(users: seq<User>, a: User, b: User)
    requires Keyed(users) && a in users && b in users && a.loginId == b.loginId
    ensures a == b
  {
    var i :| 0 <= i < |users| && users[i] == a;
    var j :| 0 <= j < |users| && users[j] == b;
  }

  /** On a keyed table, a reset succeeds exactly for the login id that
      findLoginId returns for the same personal details. */
  lemma ResetAgreesWithFindLoginId(users: seq<User>, req: ResetRequest)
    requires Keyed(users)
    ensures ResetCheck(users, req).Success? <==> FindLoginId(users, req.name, req.phone, req.email) == Success(req.loginId)
  {
    var byLogin := FindByLoginId(users, req.loginId);
    var byInfo := FindByInfo(users, req.name, req.phone, req.email);
    if ResetCheck(users, req).Success? {
      SameIdSameRow(users, byLogin.row, byInfo.row);
    }
    if FindLoginId(users, req.name, req.phone, req.email) == Success(req.loginId) {
      assert byInfo.OneRow? && byInfo.row.loginId == req.loginId;
      assert !byLogin.NoRow?;
      assert !byLogin.ManyRows?;
      SameLoginSameRow(users, byLogin.row, byInfo.row);
    }
  }

  /** After the update the login id finds its user with the new password and
      every other column as before. */
  lemma UpdatedUserHasNewPassword(users: seq<User>, loginId: string, password: string)
    requires FindByLoginId(users, loginId).OneRow?
    ensures FindByLoginId(UpdatePasswordByLoginId(users, loginId, password), loginId)
         == OneRow(FindByLoginId(users, loginId).row.(password := password))
  {
    var out := UpdatePasswordByLoginId(users, loginId, password);
    var u := FindByLoginId(users, loginId).row;
    var i :| 0 <= i < |users| && users[i] == u;
    assert forall j :: 0 <= j < |users| && j != i ==> users[j].loginId != loginId;
    FindSingleAt(out, WithLoginId(loginId), i);
  }

  // ---------------------------------------------------------------------
  // The temporary password

  /** `n` consecutive characters from `first` on. */
  function Run(first: char, n: nat): (s: string)
    requires first as int + n <= 0xD800
    ensures |s| == n
    ensures forall i :: 0 <= i < n ==> s[i] as int == first as int + i
  {
    seq(n, i requires 0 <= i < n => (first as int + i) as char)
  }

  /** The alphabet of temporary passwords: A to Z, a to z, 0 to 9, in that order. */
  const ALPHABET: string := Run('A', 26) + Run('a', 26) + Run('0', 10)

  /** The length of a temporary password. */
  const TEMP_LENGTH: nat := 10

  predicate IsAlnum(c: char) {
    'A' <= c <= 'Z' || 'a' <= c <= 'z' || '0' <= c <= '9'
  }

  /** Random draws as nextInt(62) gives them, one per character. */
  predicate ValidDraws(draws: seq<int>) {
    |draws| == TEMP_LENGTH && forall i :: 0 <= i < |draws| ==> 0 <= draws[i] < |ALPHABET|
  }

  /** The alphabet is exactly the 62 ASCII letters and digits. */
  lemma AlphabetIsAlnum()
    ensures |ALPHABET| == 62
    ensures ALPHABET[0] == 'A' && ALPHABET[25] == 'Z' && ALPHABET[26] == 'a' && ALPHABET[61] == '9'
    ensures forall i :: 0 <= i < |ALPHABET| ==> IsAlnum(ALPHABET[i])
    ensures forall c :: IsAlnum(c) ==> c in ALPHABET
  {
    forall c | IsAlnum(c) ensures c in ALPHABET {
      if 'A' <= c <= 'Z' {
        assert ALPHABET[c as int - 'A' as int] == c;
      } else if 'a' <= c <= 'z' {
        assert ALPHABET[26 + c as int - 'a' as int] == c;
      } else {
        assert ALPHABET[52 + c as int - '0' as int] == c;
      }
    }
  }

  /** generateTempPassword: one alphabet character per draw, in order. */
  method GenerateTempPassword(draws: seq<int>) returns (pw: string)
    requires ValidDraws(draws)
    ensures |pw| == TEMP_LENGTH
    ensures forall i :: 0 <= i < |pw| ==> pw[i] == ALPHABET[draws[i]] && IsAlnum(pw[i])
  {
    AlphabetIsAlnum();
    pw := "";
    var i := 0;
    while i < TEMP_LENGTH
      invariant 0 <= i <= TEMP_LENGTH
      invariant |pw| == i
      invariant forall j :: 0 <= j < i ==> pw[j] == ALPHABET[draws[j]]
    {
      pw := pw + [ALPHABET[draws[i]]];
      i := i + 1;
    }
  }

  // ---------------------------------------------------------------------
  // The service

  class LoginService {
    var users: seq<User>

    constructor (users: seq<User>)
      ensures this.users == users
    {
      this.users := users;
    }

    /** resetPassword: after the checks, store encode(temp) for the login id
        and return the plain temporary password; nothing changes on failure. */
    method ResetPassword(req: ResetRequest, draws: seq<int>, encode: string -> string) returns (res: Result<string, LoginError>)
      requires ValidDraws(draws)
      modifies this
      ensures res.Failure? <==> old(ResetCheck(users, req)).Failure?
      ensures res.Failure? ==> res.error == old(ResetCheck(users, req)).error && users == old(users)
      ensures res.Success? ==>
        && |res.value| == TEMP_LENGTH
        && (forall i :: 0 <= i < |res.value| ==> res.value[i] == ALPHABET[draws[i]])
        && users == UpdatePasswordByLoginId(old(users), req.loginId, encode(res.value))
    {
      var check := ResetCheck(users, req);
      if check.Failure? {
        return Failure(check.error);
      }
      var temp := GenerateTempPassword(draws);
      users := UpdatePasswordByLoginId(users, req.loginId, encode(temp));
      res := Success(temp);
    }
  }

  // ---------------------------------------------------------------------
  // Scenarios: a live user1 and a withdrawn delete1 with the same phone

  function Live1(): User {
    User(1, "user1", "user-one", "01012345678", "user1@gmail.com", "user1", None)
  }

  function Gone(): User {
    User(2, "delete1", "withdrawn", "01012345678", "delete1@gmail.com", "delete1", Some(0))
  }

  lemma ScenarioFindLoginId()
    ensures FindLoginId([Live1(), Gone()], "user1", "01012345678", "test@gmail.com") == Failure(NoMatchingUser)
    ensures FindLoginId([Live1(), Gone()], "withdrawn", "01012345678", "delete1@gmail.com") == Failure(WithdrawnUser)
    ensures FindLoginId([Live1(), Gone()], "user-one", "01012345678", "user1@gmail.com") == Success("user1")
  {
    FindSingleAt([Live1(), Gone()], WithInfo("withdrawn", "01012345678", "delete1@gmail.com"), 1);
    FindSingleAt([Live1(), Gone()], WithInfo("user-one", "01012345678", "user1@gmail.com"), 0);
  }

  lemma ScenarioResetCheck()
    ensures ResetCheck([Live1(), Gone()], ResetRequest("user1", "user1", "01012345678", "test@gmail.com")) == Failure(NoMatchingUser)
    ensures ResetCheck([Live1(), Gone()], ResetRequest("delete1", "withdrawn", "01012345678", "delete1@gmail.com")) == Failure(WithdrawnUser)
    ensures ResetCheck([Live1(), Gone()], ResetRequest("user1", "user-one", "01012345678", "user1@gmail.com")) == Success(Live1())
  {
    FindSingleAt([Live1(), Gone()], WithLoginId("user1"), 0);
    FindSingleAt([Live1(), Gone()], WithLoginId("delete1"), 1);
    FindSingleAt([Live1(), Gone()], WithInfo("withdrawn", "01012345678", "delete1@gmail.com"), 1);
    FindSingleAt([Live1(), Gone()], WithInfo("user-one", "01012345678", "user1@gmail.com"), 0);
  }

  /** Signup checks only live users for a taken login id, so a withdrawn
      user's login id and details can be registered again. The single-result
      lookups then match two rows and both operations fail. */
  lemma ScenarioReRegistered()
    ensures
      var old1 := Live1().(id := 3, deletedAt := Some(0));
      && FindLoginId([old1, Live1()], "user-one", "01012345678", "user1@gmail.com") == Failure(DuplicateRows)
      && ResetCheck([old1, Live1()], ResetRequest("user1", "user-one", "01012345678", "user1@gmail.com")) == Failure(DuplicateRows)
  {
    var users := [Live1().(id := 3, deletedAt := Some(0)), Live1()];
    assert HasInfo(users[0], "user-one", "01012345678", "user1@gmail.com");
    assert HasInfo(users[1], "user-one", "01012345678", "user1@gmail.com");
    assert users[0].loginId == "user1" && users[1].loginId == "user1";
  }
}
