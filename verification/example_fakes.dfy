/** The fake user database of the `tests/example` suite: a password must
    have a length between two environment settings and contain a digit, an
    upper-case and a lower-case letter. */
module ExampleFakes {
  import opened Values
  import opened Users
  import CharClasses

  const MinVar := "MIN_PASSWORD_LEN"
  const MaxVar := "MAX_PASSWORD_LEN"

  /** The password policy of this fake, stated positively. */
  predicate Acceptable(password: string, min: int, max: int) {
    && min <= |password| <= max
    && HasDigit(password) && HasUpper(password) && HasLower(password)
  }

  /** The password checks of `insert`, in source order: size, digit,
      upper case, lower case. The first failing check is the refusal. */
  function CheckPassword(pw: string, min: int, max: int): (r: Option<Rejection>)
    ensures r.None? <==> Acceptable(pw, min, max)
    ensures r.Some? && r.value.PasswordSize? ==>
      r.value == PasswordSize(min, max) && !(min <= |pw| <= max)
    ensures r.Some? ==> r.value.PasswordSize? || r.value.NoNumber? || r.value.NoUppercase? || r.value.NoLowercase?
    ensures r == Some(NoNumber) ==> min <= |pw| <= max && !HasDigit(pw)
    ensures r == Some(NoUppercase) ==> min <= |pw| <= max && HasDigit(pw) && !HasUpper(pw)
    ensures r == Some(NoLowercase) ==>
      min <= |pw| <= max && HasDigit(pw) && HasUpper(pw) && !HasLower(pw)
  {
    DirectionsAgree(CharClasses.Digits, pw);
    DirectionsAgree(CharClasses.AsciiUppercase, pw);
    DirectionsAgree(CharClasses.AsciiLowercase, pw);
    ClassScans(pw);
    if !(min <= |pw| <= max) then Some(PasswordSize(min, max))
    else if NoneOfAlphabetIn(CharClasses.Digits, pw) then Some(NoNumber)
    else if NoneOfAlphabetIn(CharClasses.AsciiUppercase, pw) then Some(NoUppercase)
    else if NoneOfAlphabetIn(CharClasses.AsciiLowercase, pw) then Some(NoLowercase)
    else None
  }

  /** `UsersDB.insert(user)`: a taken username is refused before the
      environment is read; then both settings are read, then the password
      is checked, and only an accepted user is appended. */
  function Insert(db: UsersDB, user: User, env: Env): (r: Inserted)
    ensures r.rejection.Some? ==> r.db == db
    ensures r.rejection.None? ==> r.db.users == db.users + [user]
    ensures user.username in Usernames(db.users) ==>
      r == Inserted(db, Some(UsernameExists(user.username)), [])
    ensures user.username !in Usernames(db.users) ==>
      r.consulted == if Setting(env, MinVar).Err? then [MinVar] else [MinVar, MaxVar]
    ensures r.rejection.None? <==>
      && user.username !in Usernames(db.users)
      && Setting(env, MinVar).Ok? && Setting(env, MaxVar).Ok?
      && Acceptable(user.password, Setting(env, MinVar).value, Setting(env, MaxVar).value)
    ensures user.username !in Usernames(db.users) && Setting(env, MinVar).Ok? && Setting(env, MaxVar).Ok? ==>
      r.rejection == CheckPassword(user.password, Setting(env, MinVar).value, Setting(env, MaxVar).value)
  {
    if user.username in Usernames(db.users) then
      Inserted(db, Some(UsernameExists(user.username)), [])
    else match Setting(env, MinVar)
      case Err(e) => Inserted(db, Some(BadSetting(e)), [MinVar])
      case Ok(min) =>
        match Setting(env, MaxVar)
        case Err(e) => Inserted(db, Some(BadSetting(e)), [MinVar, MaxVar])
        case Ok(max) =>
          match CheckPassword(user.password, min, max)
          case Some(rejection) => Inserted(db, Some(rejection), [MinVar, MaxVar])
          case None => Inserted(UsersDB(db.users + [user]), None, [MinVar, MaxVar])
  }

  /** The database the tests rely on: usernames are unique and every stored
      password meets the policy. */
  predicate Valid(db: UsersDB, min: int, max: int) {
    && Distinct(Usernames(db.users))
    && forall i :: 0 <= i < |db.users| ==> Acceptable(db.users[i].password, min, max)
  }

  /** `insert` keeps a valid database valid under the settings it reads. */
  lemma InsertKeepsValid(db: UsersDB, user: User, env: Env)
    requires Setting(env, MinVar).Ok? && Setting(env, MaxVar).Ok?
    requires Valid(db, Setting(env, MinVar).value, Setting(env, MaxVar).value)
    ensures Valid(Insert(db, user, env).db, Setting(env, MinVar).value, Setting(env, MaxVar).value)
  {
    var r := Insert(db, user, env);
    if r.rejection.None? {
      var names := Usernames(r.db.users);
      assert names == Usernames(db.users) + [user.username];
      forall i, j | 0 <= i < j < |names| ensures names[i] != names[j] {
        if j == |names| - 1 {
          assert names[i] == Usernames(db.users)[i];
        }
      }
    }
  }

  /** `__teardown__` leaves a valid, empty database into which any
      acceptable user can be inserted. */
  lemma TeardownThenInsert(db: UsersDB, user: User, env: Env)
    requires Setting(env, MinVar).Ok? && Setting(env, MaxVar).Ok?
    requires Acceptable(user.password, Setting(env, MinVar).value, Setting(env, MaxVar).value)
    ensures Valid(Teardown(db), Setting(env, MinVar).value, Setting(env, MaxVar).value)
    ensures Insert(Teardown(db), user, env).db.users == [user]
  {
  }

  /** The size test of the suite: with the settings 8 and 15, a 7-character
      password is refused with both bounds named, after both settings were
      read. */
  lemma ShortPasswordRefused(db: UsersDB, user: User)
    requires user.username !in Usernames(db.users) && |user.password| == 7
    ensures var env := map[MinVar := VInt(8), MaxVar := VInt(15)];
            Insert(db, user, env) == Inserted(db, Some(PasswordSize(8, 15)), [MinVar, MaxVar])
  {
    var env := map[MinVar := VInt(8), MaxVar := VInt(15)];
    assert Setting(env, MinVar) == Ok(8);
    assert Setting(env, MaxVar) == Ok(15);
  }
}
