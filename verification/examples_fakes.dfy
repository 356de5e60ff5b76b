/** The fake user database of the `tests/examples` suite: only a minimum
    password length is read from the environment, and a password must
    contain a digit, an upper-case and a lower-case letter. */
module ExamplesFakes {
  import opened Values
  import opened Users
  import CharClasses
  import ExampleFakes

  const MinVar := "MIN_PASSWORD_LEN"

  /** The password policy of this fake, stated positively. */
  predicate Acceptable(password: string, min: int) {
    && min <= |password|
    && HasDigit(password) && HasUpper(password) && HasLower(password)
  }

  /** The password checks of `insert`, in source order: length, digit,
      upper case, lower case, each scanning the password's characters. */
  function CheckPassword(pw: string, min: int): (r: Option<Rejection>)
    ensures r.None? <==> Acceptable(pw, min)
    ensures r.Some? ==> r.value.PasswordTooShort? || r.value.NoNumber? || r.value.NoUppercase? || r.value.NoLowercase?
    ensures r.Some? && r.value.PasswordTooShort? ==> r.value == PasswordTooShort(min) && |pw| < min
    ensures r == Some(NoNumber) ==> min <= |pw| && !HasDigit(pw)
    ensures r == Some(NoUppercase) ==> min <= |pw| && HasDigit(pw) && !HasUpper(pw)
    ensures r == Some(NoLowercase) ==> min <= |pw| && HasDigit(pw) && HasUpper(pw) && !HasLower(pw)
  {
    ClassScans(pw);
    if |pw| < min then Some(PasswordTooShort(min))
    else if NoCharIn(pw, CharClasses.Digits) then Some(NoNumber)
    else if NoCharIn(pw, CharClasses.AsciiUppercase) then Some(NoUppercase)
    else if NoCharIn(pw, CharClasses.AsciiLowercase) then Some(NoLowercase)
    else None
  }

  /** `UsersDB.insert(user)`: a taken username is refused before the
      environment is read; then the one setting is read, then the password
      is checked, and only an accepted user is appended. */
  function Insert(db: UsersDB, user: User, env: Env): (r: Inserted)
    ensures r.rejection.Some? ==> r.db == db
    ensures r.rejection.None? ==> r.db.users == db.users + [user]
    ensures user.username in Usernames(db.users) ==>
      r == Inserted(db, Some(UsernameExists(user.username)), [])
    ensures user.username !in Usernames(db.users) ==> r.consulted == [MinVar]
    ensures r.rejection.None? <==>
      && user.username !in Usernames(db.users)
      && Setting(env, MinVar).Ok?
      && Acceptable(user.password, Setting(env, MinVar).value)
    ensures user.username !in Usernames(db.users) && Setting(env, MinVar).Ok? ==>
      r.rejection == CheckPassword(user.password, Setting(env, MinVar).value)
  {
    if user.username in Usernames(db.users) then
      Inserted(db, Some(UsernameExists(user.username)), [])
    else match Setting(env, MinVar)
      case Err(e) => Inserted(db, Some(BadSetting(e)), [MinVar])
      case Ok(min) =>
        match CheckPassword(user.password, min)
        case Some(rejection) => Inserted(db, Some(rejection), [MinVar])
        case None => Inserted(UsersDB(db.users + [user]), None, [MinVar])
  }

  predicate Valid(db: UsersDB, min: int) {
    && Distinct(Usernames(db.users))
    && forall i :: 0 <= i < |db.users| ==> Acceptable(db.users[i].password, min)
  }

  /** `insert` keeps a valid database valid under the setting it reads. */
  lemma InsertKeepsValid(db: UsersDB, user: User, env: Env)
    requires Setting(env, MinVar).Ok?
    requires Valid(db, Setting(env, MinVar).value)
    ensures Valid(Insert(db, user, env).db, Setting(env, MinVar).value)
  {
    var r := Insert(db, user, env);
    if r.rejection.None? {
      var names := Usernames(r.db.users);
      assert names == Usernames(db.users) + [user.username];
      forall i, j | 0 <= i < j < |names| ensures names[i] != names[j] {
        if j == |names| - 1 {
          assert names[i] == Usernames(db.users)[i];
        }
      }
    }
  }

  /** The two fakes agree whenever the password fits under the other
      fake's maximum: they accept the same users and reach the same
      database, and refuse for the same character rule. */
  lemma FakesAgree(db: UsersDB, user: User, env: Env)
    requires Setting(env, MinVar).Ok? && Setting(env, ExampleFakes.MaxVar).Ok?
    requires |user.password| <= Setting(env, ExampleFakes.MaxVar).value
    ensures var a := ExampleFakes.Insert(db, user, env);
            var b := Insert(db, user, env);
            && (a.rejection.None? <==> b.rejection.None?)
            && a.db == b.db
            && (a.rejection.Some? && !a.rejection.value.PasswordSize? ==> a.rejection == b.rejection)
  {
  }

  /** The length test of the suite: with the setting 8, a 7-character
      password is refused, and only the one setting was read. */
  lemma ShortPasswordRefused(db: UsersDB, user: User)
    requires user.username !in Usernames(db.users) && |user.password| == 7
    ensures Insert(db, user, map[MinVar := VInt(8)]) == Inserted(db, Some(PasswordTooShort(8)), [MinVar])
  {
    assert Setting(map[MinVar := VInt(8)], MinVar) == Ok(8);
  }
}
