/** Users and their credentials: password hashing, the login check and
    the two operations that store a password hash.

    bcrypt is a pair of functions, `hash(password, salt)` (which may fail)
    and `check(hash, password)`, with the laws of BcryptLaws. The user table
    is a sequence of rows; the login lookup finds the first row whose user
    name or e-mail equals the identifier. Random salts, fresh ids and
    storage failures are parameters. */
module Users {
  import opened Common

  // -----------------------------------------------------------------------
  // Password hashing

  type Salt = nat

  datatype Bcrypt = Bcrypt(hash: (string, Salt) -> Option<string>, check: (string, string) -> bool)

  /** The version prefix of every hash bcrypt produces. */
  const BcryptPrefix: string := "$2a$"

  /** What the model assumes of bcrypt: a hash checks against its own
      password; `check` accepts only what `hash` produced for that password;
      different salts give different hashes; hashes of different passwords
      never coincide; and every hash starts with the version prefix. */
  ghost predicate BcryptLaws(b: Bcrypt) {
    && (forall p, s :: b.hash(p, s).Some? ==> b.check(b.hash(p, s).value, p))
    && (forall h, p :: b.check(h, p) ==> exists s :: b.hash(p, s) == Some(h))
    && (forall p, s1, s2 :: s1 != s2 && b.hash(p, s1).Some? ==> b.hash(p, s1) != b.hash(p, s2))
    && (forall p1, s1, p2, s2 :: p1 != p2 && b.hash(p1, s1).Some? ==> b.hash(p1, s1) != b.hash(p2, s2))
    && (forall p, s :: b.hash(p, s).Some? ==> HasPrefix(b.hash(p, s).value, BcryptPrefix))
  }

  /** The laws are consistent: a bcrypt stand-in that hashes with salt 0
      only, to the prefix followed by the password, meets them all. */
  lemma BcryptLawsSatisfiable()
    ensures exists b :: BcryptLaws(b)
  {
    var b := Bcrypt((p: string, s: Salt) => if s == 0 then Some(BcryptPrefix + p) else None,
                    (h: string, p: string) => h == BcryptPrefix + p);
    forall h, p | b.check(h, p) ensures exists s :: b.hash(p, s) == Some(h) {
      assert b.hash(p, 0) == Some(h);
    }
    forall p1, s1, p2, s2 | p1 != p2 && b.hash(p1, s1).Some? ensures b.hash(p1, s1) != b.hash(p2, s2) {
      if b.hash(p2, s2).Some? {
        assert (BcryptPrefix + p1)[|BcryptPrefix|..] == p1;
        assert (BcryptPrefix + p2)[|BcryptPrefix|..] == p2;
      }
    }
    forall p, s | b.hash(p, s).Some? ensures HasPrefix(b.hash(p, s).value, BcryptPrefix) {
      assert (BcryptPrefix + p)[..|BcryptPrefix|] == BcryptPrefix;
    }
    assert BcryptLaws(b);
  }

  datatype Error =
    | InvalidCredentials   // ErrInvalidCredentails
    | LookupFailed         // "get user for login: ..."
    | HashFailed           // "hash password: ..."
    | CreateFailed         // "create user: ..."
    | UpdateFailed         // "update user password: ..."

  /** hashPassword with the random salt `salt`. */
  function HashPassword(b: Bcrypt, password: string, salt: Salt): Result<string, Error> {
    match b.hash(password, salt)
    case None => Err(HashFailed)
    case Some(h) => Ok(h)
  }

  /** checkPassword: a plain yes or no; it has no error case. */
  predicate CheckPassword(b: Bcrypt, hashed: string, password: string) {
    b.check(hashed, password)
  }

  /** A hash checks against its own password and against no other. */
  lemma {:induction false} CheckHashedPassword(b: Bcrypt, password: string, salt: Salt, other: string)
    requires BcryptLaws(b)
    requires HashPassword(b, password, salt).Ok?
    ensures CheckPassword(b, HashPassword(b, password, salt).value, password)
    ensures other != password ==> !CheckPassword(b, HashPassword(b, password, salt).value, other)
  {
    var h := HashPassword(b, password, salt).value;
    if other != password {
      forall s2 ensures b.hash(other, s2) != Some(h) {
        assert b.hash(password, salt) != b.hash(other, s2);
      }
    }
  }

  /** A string that is not a bcrypt hash (such as "" or "not-a-bcrypt-hash")
      checks against no password. */
  lemma {:induction false} MalformedHashRejected(b: Bcrypt, hashed: string, password: string)
    requires BcryptLaws(b)
    requires !HasPrefix(hashed, BcryptPrefix)
    ensures !CheckPassword(b, hashed, password)
  {
    forall s ensures b.hash(password, s) != Some(hashed) {
    }
  }

  /** Hashing the same password twice, with two random salts, gives two
      different strings. */
  lemma HashTwiceDiffers(b: Bcrypt, password: string, salt1: Salt, salt2: Salt)
    requires BcryptLaws(b)
    requires salt1 != salt2
    requires HashPassword(b, password, salt1).Ok? && HashPassword(b, password, salt2).Ok?
    ensures HashPassword(b, password, salt1).value != HashPassword(b, password, salt2).value
  {
    assert b.hash(password, salt1) != b.hash(password, salt2);
  }

  // -----------------------------------------------------------------------
  // The user table and the login check

  datatype UserRow = UserRow(id: Uuid, username: string, email: string, passwordHash: string)

  /** GetUserForLogin: the first row whose user name or e-mail is the
      identifier, or None ("no rows"). */
  function FindForLogin(users: seq<UserRow>, identifier: string): (r: Option<nat>)
    ensures r.Some? ==> (r.value < |users|
      && (users[r.value].username == identifier || users[r.value].email == identifier))
    ensures r.None? <==> forall k :: 0 <= k < |users| ==> users[k].username != identifier && users[k].email != identifier
    decreases |users|
  {
    if users == [] then None
    else if users[0].username == identifier || users[0].email == identifier then Some(0)
    else match FindForLogin(users[1..], identifier)
      case None => None
      case Some(i) => Some(i + 1)
  }

  /** ValidateUserCredentials; `lookupFails` is a storage failure other than
      "no rows". */
  function ValidateUserCredentials(b: Bcrypt, users: seq<UserRow>, identifier: string, password: string,
                                   lookupFails: bool): Result<UserRow, Error> {
    if lookupFails then Err(LookupFailed)
    else match FindForLogin(users, identifier)
      case None => Err(InvalidCredentials)
      case Some(i) =>
        if !CheckPassword(b, users[i].passwordHash, password) then Err(InvalidCredentials)
        else Ok(users[i])
  }

  /** The three outcomes of a login: an unknown identifier and a wrong
      password give the same InvalidCredentials error; a storage failure is
      passed on as a different error; and the call succeeds, with the row
      found, exactly when the password checks against that row's hash. */
  lemma ValidateUserCredentialsOutcomes(b: Bcrypt, users: seq<UserRow>, identifier: string, password: string, lookupFails: bool)
    ensures var r := ValidateUserCredentials(b, users, identifier, password, lookupFails);
      && (lookupFails ==> r == Err(LookupFailed))
      && (!lookupFails && FindForLogin(users, identifier).None? ==> r == Err(InvalidCredentials))
      && (!lookupFails && FindForLogin(users, identifier).Some?
          && !CheckPassword(b, users[FindForLogin(users, identifier).value].passwordHash, password)
          ==> r == Err(InvalidCredentials))
      && (r.Ok? <==> (!lookupFails && FindForLogin(users, identifier).Some?
          && CheckPassword(b, users[FindForLogin(users, identifier).value].passwordHash, password)))
      && (r.Ok? ==> r.value == users[FindForLogin(users, identifier).value])
  {
  }

  /** An unknown identifier and a known identifier with a wrong password
      cannot be told apart by their results. */
  lemma UnknownUserLooksLikeWrongPassword(b: Bcrypt, users: seq<UserRow>, unknown: string, known: string,
                                          password: string, wrong: string)
    requires BcryptLaws(b)
    requires forall k :: 0 <= k < |users| ==> users[k].username != unknown && users[k].email != unknown
    requires FindForLogin(users, known).Some?
    requires exists s :: b.hash(password, s) == Some(users[FindForLogin(users, known).value].passwordHash)
    requires wrong != password
    ensures ValidateUserCredentials(b, users, unknown, password, false)
      == ValidateUserCredentials(b, users, known, wrong, false)
      == Err(InvalidCredentials)
  {
    var i := FindForLogin(users, known).value;
    var s :| b.hash(password, s) == Some(users[i].passwordHash);
    CheckHashedPassword(b, password, s, wrong);
  }

  // -----------------------------------------------------------------------
  // Writes: CreateUser and UpdateUserPassword

  /** The assumed schema: ids, user names and e-mail addresses are unique. */
  ghost predicate UsersOk(users: seq<UserRow>) {
    forall i, j :: 0 <= i < j < |users| ==>
      users[i].id != users[j].id && users[i].username != users[j].username && users[i].email != users[j].email
  }

  /** The insert fails on a storage failure or on a clash with a unique column. */
  predicate InsertClashes(users: seq<UserRow>, r: UserRow) {
    exists k :: 0 <= k < |users| && (users[k].id == r.id || users[k].username == r.username || users[k].email == r.email)
  }

  datatype Written = Written(users: seq<UserRow>, result: Result<UserRow, Error>)

  /** CreateUser with the random salt `salt` and the id `newId` the storage
      assigns. */
  function Create(b: Bcrypt, users: seq<UserRow>, username: string, email: string, password: string,
                      salt: Salt, newId: Uuid, insertFails: bool): Written {
    match HashPassword(b, password, salt)
    case Err(e) => Written(users, Err(e))
    case Ok(h) =>
      var row := UserRow(newId, username, email, h);
      if insertFails || InsertClashes(users, row) then Written(users, Err(CreateFailed))
      else Written(users + [row], Ok(row))
  }

  /** UpdateUserPassword: every row with this id gets the new hash (none if
      there is no such user, which is not an error). */
  function UpdatePassword(b: Bcrypt, users: seq<UserRow>, userID: Uuid, newPassword: string,
                              salt: Salt, updateFails: bool): (seq<UserRow>, Option<Error>) {
    match HashPassword(b, newPassword, salt)
    case Err(e) => (users, Some(e))
    case Ok(h) =>
      if updateFails then (users, Some(UpdateFailed))
      else (SetHash(users, userID, h), None)
  }

  /** The table with the password hash of user `userID` replaced by `h`. */
  function SetHash(users: seq<UserRow>, userID: Uuid, h: string): (r: seq<UserRow>)
    ensures |r| == |users|
  {
    seq(|users|, k requires 0 <= k < |users| => if users[k].id == userID then users[k].(passwordHash := h) else users[k])
  }

  /** Changing a hash keeps the unique columns unique. */
  lemma SetHashKeepsUsers(users: seq<UserRow>, userID: Uuid, h: string)
    requires UsersOk(users)
    ensures UsersOk(SetHash(users, userID, h))
  {
    var r := SetHash(users, userID, h);
    forall i, j | 0 <= i < j < |r|
      ensures r[i].id != r[j].id && r[i].username != r[j].username && r[i].email != r[j].email
    {
      assert r[i].id == users[i].id && r[i].username == users[i].username && r[i].email == users[i].email;
      assert r[j].id == users[j].id && r[j].username == users[j].username && r[j].email == users[j].email;
    }
  }

  /** CreateUser stores what hashPassword returned and never the password:
      the new row's hash checks against the password and no other; a hashing
      failure returns before anything is written; the table keeps its
      unique columns. */
  lemma CreateUserStoresHash(b: Bcrypt, users: seq<UserRow>, username: string, email: string, password: string,
                             salt: Salt, newId: Uuid, insertFails: bool, other: string)
    requires BcryptLaws(b) && UsersOk(users)
    ensures var w := Create(b, users, username, email, password, salt, newId, insertFails);
      && UsersOk(w.users)
      && (b.hash(password, salt).None? ==> w.users == users && w.result == Err(HashFailed))
      && (w.result.Err? ==> w.users == users)
      && (w.result.Ok? ==>
            && b.hash(password, salt) == Some(w.result.value.passwordHash)
            && w.users == users + [UserRow(newId, username, email, w.result.value.passwordHash)]
            && CheckPassword(b, w.result.value.passwordHash, password)
            && (other != password ==> !CheckPassword(b, w.result.value.passwordHash, other)))
  {
    var w := Create(b, users, username, email, password, salt, newId, insertFails);
    if w.result.Ok? {
      CheckHashedPassword(b, password, salt, other);
      var row := w.result.value;
      forall i, j | 0 <= i < j < |w.users|
        ensures w.users[i].id != w.users[j].id && w.users[i].username != w.users[j].username
          && w.users[i].email != w.users[j].email
      {
        if j == |users| {
          assert w.users[i] == users[i];
          assert !(users[i].id == row.id || users[i].username == row.username || users[i].email == row.email);
        }
      }
    }
  }

  /** After a user is created, logging in with its user name and its
      password succeeds and returns its row; with any other password it
      fails with InvalidCredentials. */
  lemma LoginAfterCreate(b: Bcrypt, users: seq<UserRow>, username: string, email: string, password: string,
                         salt: Salt, newId: Uuid, other: string)
    requires BcryptLaws(b) && UsersOk(users)
    requires Create(b, users, username, email, password, salt, newId, false).result.Ok?
    requires forall k :: 0 <= k < |users| ==> users[k].email != username
    ensures var w := Create(b, users, username, email, password, salt, newId, false);
      && ValidateUserCredentials(b, w.users, username, password, false) == Ok(w.result.value)
      && (other != password ==> ValidateUserCredentials(b, w.users, username, other, false) == Err(InvalidCredentials))
  {
    var w := Create(b, users, username, email, password, salt, newId, false);
    CreateUserStoresHash(b, users, username, email, password, salt, newId, false, other);
    LoginFindsLast(users, w.result.value, username);
  }

  lemma {:induction false} LoginFindsLast(users: seq<UserRow>, row: UserRow, identifier: string)
    requires forall k :: 0 <= k < |users| ==> users[k].username != identifier && users[k].email != identifier
    requires row.username == identifier
    ensures FindForLogin(users + [row], identifier) == Some(|users|)
    decreases |users|
  {
    if users != [] {
      assert (users + [row])[1..] == users[1..] + [row];
      LoginFindsLast(users[1..], row, identifier);
    }
  }

  /** UpdateUserPassword stores hashPassword's result for that user only: a
      hashing failure or a storage failure leaves the table as it was;
      otherwise that user's rows hold a hash of the new password, and every
      other row is unchanged. */
  lemma UpdateUserPasswordStoresHash(b: Bcrypt, users: seq<UserRow>, userID: Uuid, newPassword: string,
                                     salt: Salt, updateFails: bool, other: string)
    requires BcryptLaws(b)
    ensures var (users', err) := UpdatePassword(b, users, userID, newPassword, salt, updateFails);
      && |users'| == |users|
      && (err.Some? ==> users' == users)
      && (b.hash(newPassword, salt).None? ==> err == Some(HashFailed))
      && (err.None? ==> forall k :: 0 <= k < |users| ==>
            if users[k].id == userID then
              && users'[k] == users[k].(passwordHash := b.hash(newPassword, salt).value)
              && CheckPassword(b, users'[k].passwordHash, newPassword)
              && (other != newPassword ==> !CheckPassword(b, users'[k].passwordHash, other))
            else users'[k] == users[k])
  {
    if b.hash(newPassword, salt).Some? {
      CheckHashedPassword(b, newPassword, salt, other);
    }
  }

  /** UserService: the user table, changed by CreateUser and UpdateUserPassword. */
  class UserService {
    const bcrypt: Bcrypt
    var users: seq<UserRow>

    ghost predicate Valid()
      reads this
    {
      BcryptLaws(bcrypt) && UsersOk(users)
    }

    constructor (bcrypt: Bcrypt)
      requires BcryptLaws(bcrypt)
      ensures Valid() && this.bcrypt == bcrypt && users == []
    {
      this.bcrypt := bcrypt;
      users := [];
    }

    method CreateUser(username: string, email: string, password: string, salt: Salt, newId: Uuid, insertFails: bool)
      returns (r: Result<UserRow, Error>)
      requires Valid()
      modifies this
      ensures Valid()
      ensures users == Create(bcrypt, old(users), username, email, password, salt, newId, insertFails).users
      ensures r == Create(bcrypt, old(users), username, email, password, salt, newId, insertFails).result
    {
      CreateUserStoresHash(bcrypt, users, username, email, password, salt, newId, insertFails, password);
      var hashed := HashPassword(bcrypt, password, salt);
      if hashed.Err? {
        return Err(hashed.error);
      }
      var row := UserRow(newId, username, email, hashed.value);
      if insertFails || InsertClashes(users, row) {
        return Err(CreateFailed);
      }
      users := users + [row];
      return Ok(row);
    }

    method UpdateUserPassword(userID: Uuid, newPassword: string, salt: Salt, updateFails: bool)
      returns (err: Option<Error>)
      requires Valid()
      modifies this
      ensures Valid()
      ensures (users, err) == UpdatePassword(bcrypt, old(users), userID, newPassword, salt, updateFails)
    {
      var hashed := HashPassword(bcrypt, newPassword, salt);
      if hashed.Err? {
        return Some(hashed.error);
      }
      if updateFails {
        return Some(UpdateFailed);
      }
      SetHashKeepsUsers(users, userID, hashed.value);
      users := SetHash(users, userID, hashed.value);
      err := None;
    }
  }
}
