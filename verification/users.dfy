/** What the two fake user databases of the test suites share: the user
    record, the database, the password character rules, and reading an
    integer setting from the environment. */
module Users {
  import opened Values
  import CharClasses

  datatype User = User(id: int, firstname: string, lastname: string, username: string, password: string)

  datatype UsersDB = UsersDB(users: seq<User>)

  /** Why `insert` refused a user. */
  datatype Rejection =
    | UsernameExists(username: string)
    | PasswordSize(min: int, max: int)
    | PasswordTooShort(min: int)
    | NoNumber
    | NoUppercase
    | NoLowercase
    | BadSetting(cause: Error)

  /** The database after `insert`, the refusal if it raised, and the
      environment variables it read, in order. */
  datatype Inserted = Inserted(db: UsersDB, rejection: Option<Rejection>, consulted: seq<string>)

  function Usernames(users: seq<User>): (r: seq<string>)
    ensures |r| == |users|
    ensures forall i :: 0 <= i < |r| ==> r[i] == users[i].username
  {
    seq(|users|, i requires 0 <= i < |users| => users[i].username)
  }

  /** `__teardown__`: the users are dropped. */
  function Teardown(db: UsersDB): (r: UsersDB)
    ensures |r.users| == 0
    ensures forall u :: u !in r.users
  {
    UsersDB([])
  }

  // ---------------------------------------------------------------------
  // Password rules

  /** `all(d not in password for d in alphabet)`: no member of the alphabet
      occurs in the password, scanning the alphabet first. */
  predicate NoneOfAlphabetIn(alphabet: string, password: string) {
    forall j :: 0 <= j < |alphabet| ==> alphabet[j] !in password
  }

  /** `all(c not in alphabet for c in password)`: no character of the
      password is in the alphabet, scanning the password first. */
  predicate NoCharIn(password: string, alphabet: string) {
    forall i :: 0 <= i < |password| ==> password[i] !in alphabet
  }

  /** The two fakes test character classes in opposite directions; the
      tests agree. */
  lemma DirectionsAgree(alphabet: string, password: string)
    ensures NoneOfAlphabetIn(alphabet, password) <==> NoCharIn(password, alphabet)
  {
    if !NoCharIn(password, alphabet) {
      var i :| 0 <= i < |password| && password[i] in alphabet;
      var j :| 0 <= j < |alphabet| && alphabet[j] == password[i];
    }
  }

  /** The character rules both fakes enforce, stated positively. */
  predicate HasDigit(password: string) {
    exists i :: 0 <= i < |password| && CharClasses.IsDigit(password[i])
  }

  predicate HasUpper(password: string) {
    exists i :: 0 <= i < |password| && CharClasses.IsUpper(password[i])
  }

  predicate HasLower(password: string) {
    exists i :: 0 <= i < |password| && CharClasses.IsLower(password[i])
  }

  lemma InDigits(c: char)
    ensures c in CharClasses.Digits <==> CharClasses.IsDigit(c)
  {
    if CharClasses.IsDigit(c) {
      var k := (c as int - '0' as int);
      assert CharClasses.Digits[k] == c;
    }
  }

  lemma InUppercase(c: char)
    ensures c in CharClasses.AsciiUppercase <==> CharClasses.IsUpper(c)
  {
    if CharClasses.IsUpper(c) {
      var k := (c as int - 'A' as int);
      assert CharClasses.AsciiUppercase[k] == c;
    }
  }

  lemma InLowercase(c: char)
    ensures c in CharClasses.AsciiLowercase <==> CharClasses.IsLower(c)
  {
    if CharClasses.IsLower(c) {
      var k := (c as int - 'a' as int);
      assert CharClasses.AsciiLowercase[k] == c;
    }
  }

  /** Scanning a password for a character class decides the positive rule. */
  lemma ClassScans(password: string)
    ensures !NoCharIn(password, CharClasses.Digits) <==> HasDigit(password)
    ensures !NoCharIn(password, CharClasses.AsciiUppercase) <==> HasUpper(password)
    ensures !NoCharIn(password, CharClasses.AsciiLowercase) <==> HasLower(password)
  {
    forall i | 0 <= i < |password|
      ensures password[i] in CharClasses.Digits <==> CharClasses.IsDigit(password[i])
      ensures password[i] in CharClasses.AsciiUppercase <==> CharClasses.IsUpper(password[i])
      ensures password[i] in CharClasses.AsciiLowercase <==> CharClasses.IsLower(password[i])
    {
      InDigits(password[i]);
      InUppercase(password[i]);
      InLowercase(password[i]);
    }
  }

  // ---------------------------------------------------------------------
  // Integer settings

  predicate AllDigits(s: string) {
    forall i :: 0 <= i < |s| ==> CharClasses.IsDigit(s[i])
  }

  /** The value of a string of decimal digits, most significant first. */
  function DigitsValue(s: string): (r: nat)
    requires AllDigits(s)
  {
    if |s| == 0 then 0
    else DigitsValue(s[..|s| - 1]) * 10 + (s[|s| - 1] as int - '0' as int)
  }

  /** `int(s)` on a string: an optional sign and at least one decimal digit. */
  function ParseInt(s: string): (r: Result<int>)
    ensures r.Ok? <==>
      (if |s| > 0 && (s[0] == '-' || s[0] == '+') then |s| > 1 && AllDigits(s[1..])
       else |s| > 0 && AllDigits(s))
  {
    if |s| > 0 && (s[0] == '-' || s[0] == '+') then
      if |s| > 1 && AllDigits(s[1..]) then
        var magnitude: int := DigitsValue(s[1..]);
        Ok(if s[0] == '-' then -magnitude else magnitude)
      else Err(ValueError("invalid literal for int() with base 10"))
    else if |s| > 0 && AllDigits(s) then Ok(DigitsValue(s))
    else Err(ValueError("invalid literal for int() with base 10"))
  }

  /** `str(n)` for a natural number. */
  function ShowNat(n: nat): (r: string)
    ensures |r| > 0 && AllDigits(r)
  {
    var d := ['0' + (n % 10) as char];
    if n < 10 then d else ShowNat(n / 10) + d
  }

  function ShowInt(n: int): (r: string)
  {
    if n < 0 then "-" + ShowNat(-n) else ShowNat(n)
  }

  lemma {:induction false} DigitsValueShow(n: nat)
    ensures DigitsValue(ShowNat(n)) == n
  {
    var s := ShowNat(n);
    if n >= 10 {
      DigitsValueShow(n / 10);
      assert s[..|s| - 1] == ShowNat(n / 10);
    }
  }

  /** Reading back a written integer gives the integer. */
  lemma ParseShow(n: int)
    ensures ParseInt(ShowInt(n)) == Ok(n)
  {
    if n < 0 {
      DigitsValueShow(-n);
      assert ShowInt(n)[1..] == ShowNat(-n);
    } else {
      DigitsValueShow(n);
    }
  }

  /** The environment as the fakes see it: a variable's value, or `None`
      when it is unset. A patched `getenv` may hand back any value. */
  type Env = map<string, Value>

  function GetEnv(env: Env, name: string): Value {
    if name in env then env[name] else VNone
  }

  /** `int(x)`: integers and booleans as they are, reals truncated toward
      zero, strings parsed, anything else a `TypeError`. */
  function ToInt(v: Value): (r: Result<int>)
    ensures IsIntLike(v) ==> r == Ok(IntOf(v))
    ensures v.VStr? ==> r == ParseInt(v.s)
    ensures v.VReal? && v.x >= 0.0 ==> r.Ok? && 0 <= r.value && r.value as real <= v.x < r.value as real + 1.0
    ensures v.VReal? && v.x < 0.0 ==> r.Ok? && r.value <= 0 && r.value as real - 1.0 < v.x <= r.value as real
    ensures v.VNone? ==> r.Err? && r.error.TypeError?
  {
    if v.VInt? then Ok(v.i)
    else if v.VBool? then Ok(if v.b then 1 else 0)
    else if v.VReal? then Ok(if v.x < 0.0 then -((-v.x).Floor) else v.x.Floor)
    else if v.VStr? then ParseInt(v.s)
    else Err(TypeError("int() argument must be a string or a real number"))
  }

  /** `int(getenv(name))`. */
  function Setting(env: Env, name: string): (r: Result<int>)
    ensures name !in env ==> r.Err?
    ensures name in env && env[name].VStr? ==> r == ParseInt(env[name].s)
  {
    ToInt(GetEnv(env, name))
  }

  /** An environment whose variables hold the given integers as text. */
  lemma SettingShown(env: Env, name: string, n: int)
    requires name in env && env[name] == VStr(ShowInt(n))
    ensures Setting(env, name) == Ok(n)
  {
    ParseShow(n);
  }
}
