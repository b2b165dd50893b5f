/**
 * The user entity of the Rust user directory (test/rust-test.rs): the `User`
 * record, its validation and password round trip, the error taxonomy, the
 * `Status` enumeration, `Config::validate` and `utils::is_valid_email`.
 *
 * Rust strings are UTF-8, and `str::len` counts bytes, not characters; a
 * string is modelled here as a sequence of Unicode scalar values, and its
 * byte length is computed explicitly by `Utf8Len`.
 */
module UserEntity {
  import opened Wrappers

  /** `MAX_USERNAME_LENGTH`, in bytes. */
  const MAX_USERNAME_LENGTH: nat := 100
  /** The shortest JWT secret `Config::validate` accepts, in bytes. */
  const MIN_SECRET_LENGTH: nat := 32

  type U16 = x: int | 0 <= x < 0x1_0000
  type U32 = x: int | 0 <= x < 0x1_0000_0000

  /**
   * A user. `id` is 0 until the store assigns one; the password hash is
   * never serialised.
   */
  datatype User = User(id: nat, name: string, email: string, passwordHash: string)

  datatype DatabaseError = ConnectionFailed | QueryFailed(detail: string)

  datatype UserError =
    | NotFound
    | InvalidInput(reason: string)
    | Database(cause: DatabaseError)
    | Authentication

  // ---------------------------------------------------------------- lengths

  /** Number of bytes the UTF-8 encoding of `c` takes. */
  function Utf8Width(c: char): (w: nat)
    ensures 1 <= w <= 4
    ensures w == 1 <==> c as int < 0x80
  {
    if c as int < 0x80 then 1
    else if c as int < 0x800 then 2
    else if c as int < 0x1_0000 then 3
    else 4
  }

  /** `str::len`: the length of the UTF-8 encoding of `s`. */
  function Utf8Len(s: string): (n: nat)
    ensures |s| <= n <= 4 * |s|
    ensures n == 0 <==> s == []
  {
    if s == [] then 0 else Utf8Width(s[0]) + Utf8Len(s[1..])
  }

  predicate IsAscii(s: string) {
    forall i :: 0 <= i < |s| ==> s[i] as int < 0x80
  }

  /** On ASCII text the byte length is the number of characters. */
  lemma {:induction false} AsciiLen(s: string)
    requires IsAscii(s)
    ensures Utf8Len(s) == |s|
  {
    if s != [] {
      assert IsAscii(s[1..]) by {
        forall i | 0 <= i < |s[1..]| ensures s[1..][i] as int < 0x80 {
          assert s[1..][i] == s[i + 1];
        }
      }
      AsciiLen(s[1..]);
    }
  }

  /** Any character outside ASCII makes the byte length exceed the number of characters. */
  lemma {:induction false} NonAsciiLen(s: string, i: nat)
    requires i < |s| && s[i] as int >= 0x80
    ensures Utf8Len(s) > |s|
  {
    if i > 0 {
      NonAsciiLen(s[1..], i - 1);
    }
  }

  // ------------------------------------------------------------- the entity

  /** `User::new`: an unsaved user, id 0 and no password set. */
  function NewUser(name: string, email: string): (u: User)
    ensures u.id == 0 && u.name == name && u.email == email
    ensures forall p :: !VerifyPassword(u, p)
  {
    User(0, name, email, [])
  }

  /** The rules `validate` enforces, stated without their order. */
  predicate WellFormed(u: User) {
    && u.name != []
    && '@' in u.email
    && Utf8Len(u.name) <= MAX_USERNAME_LENGTH
  }

  /**
   * `User::validate`: the checks run in order, and the first one that fails
   * decides the reason. The email-is-empty check is implied by the '@' check
   * and only changes the reason given.
   */
  function Validate(u: User): (r: Result<(), UserError>)
    ensures r.Ok? <==> WellFormed(u)
    ensures r.Err? ==> r.error.InvalidInput?
    ensures u.name == [] ==> r == Err(InvalidInput("Name is required"))
    ensures u.name != [] && u.email == [] ==> r == Err(InvalidInput("Email is required"))
    ensures u.name != [] && u.email != [] && '@' !in u.email ==>
              r == Err(InvalidInput("Invalid email format"))
    ensures r == Err(InvalidInput("Username too long")) <==>
              u.name != [] && '@' in u.email && Utf8Len(u.name) > MAX_USERNAME_LENGTH
  {
    if u.name == [] then Err(InvalidInput("Name is required"))
    else if u.email == [] then Err(InvalidInput("Email is required"))
    else if '@' !in u.email then Err(InvalidInput("Invalid email format"))
    else if Utf8Len(u.name) > MAX_USERNAME_LENGTH then Err(InvalidInput("Username too long"))
    else Ok(())
  }

  /** Validation looks only at the name and the email. */
  lemma ValidateIgnoresIdAndPassword(u: User, id: nat, hash: string)
    ensures Validate(u.(id := id, passwordHash := hash)) == Validate(u)
  {
  }

  /** A name of at most 100 ASCII characters is never too long. */
  lemma AsciiNameFits(u: User)
    requires u.name != [] && '@' in u.email
    requires IsAscii(u.name) && |u.name| <= MAX_USERNAME_LENGTH
    ensures Validate(u).Ok?
  {
    AsciiLen(u.name);
  }

  /**
   * The length limit counts bytes: 100 characters are too long as soon as
   * one of them is outside ASCII.
   */
  lemma HundredCharsMayBeTooLong(u: User, i: nat)
    requires |u.name| == MAX_USERNAME_LENGTH && '@' in u.email
    requires i < |u.name| && u.name[i] as int >= 0x80
    ensures Validate(u) == Err(InvalidInput("Username too long"))
  {
    NonAsciiLen(u.name, i);
  }

  /** The checks of the Rust unit test `test_user_validation`. */
  lemma ValidationExample()
    ensures Validate(NewUser("", "john@example.com")) == Err(InvalidInput("Name is required"))
    ensures Validate(NewUser("John", "john@example.com")) == Ok(())
  {
  }

  // --------------------------------------------------------------- password

  /**
   * `hash_password`: the source's non-cryptographic placeholder. The hash is
   * never empty and gives the password back after its 7-character prefix.
   */
  function HashPassword(password: string): (h: string)
    ensures |h| == |password| + 7 && h[7..] == password
  {
    "hashed_" + password
  }

  /** The placeholder hash is injective. */
  lemma HashInjective(p: string, q: string)
    ensures HashPassword(p) == HashPassword(q) <==> p == q
  {
  }

  /** `set_password`: the new hash verifies the password, and nothing else changes. */
  function SetPassword(u: User, password: string): (r: User)
    ensures VerifyPassword(r, password)
    ensures r.(passwordHash := u.passwordHash) == u
  {
    u.(passwordHash := HashPassword(password))
  }

  /** `verify_password`: the stored hash determines the only password that verifies. */
  predicate VerifyPassword(u: User, password: string): (ok: bool)
    ensures ok ==> |u.passwordHash| >= 7 && u.passwordHash[7..] == password
  {
    u.passwordHash == HashPassword(password)
  }

  /**
   * Round trip: after `set_password(p)` exactly `p` verifies. One direction
   * holds for any hash; the other needs the hash to be injective.
   */
  lemma SetThenVerify(u: User, p: string, q: string)
    ensures VerifyPassword(SetPassword(u, p), q) <==> p == q
  {
  }

  // ----------------------------------------------------------------- status

  datatype Status = Pending | InProgress | Completed | Failed

  /** `Status::as_str`: a lower-case, snake-case name. */
  function AsStr(s: Status): (r: string)
    ensures r != [] && forall i :: 0 <= i < |r| ==> 'a' <= r[i] <= 'z' || r[i] == '_'
  {
    match s
    case Pending => "pending"
    case InProgress => "in_progress"
    case Completed => "completed"
    case Failed => "failed"
  }

  /** `Status::is_completed`: the statuses named "completed" and "failed". */
  predicate IsCompleted(s: Status): (ok: bool)
    ensures ok <==> AsStr(s) == "completed" || AsStr(s) == "failed"
  {
    s == Completed || s == Failed
  }

  /** `Status::is_active`: exactly the statuses that are not completed. */
  predicate IsActive(s: Status)
    ensures IsActive(s) <==> !IsCompleted(s)
  {
    s == Pending || s == InProgress
  }

  /** No two statuses are shown the same way. */
  lemma AsStrInjective(s: Status, t: Status)
    requires AsStr(s) == AsStr(t)
    ensures s == t
  {
  }

  /** The checks of the Rust unit test `test_status_methods`. */
  lemma StatusExample()
    ensures IsCompleted(Completed) && IsActive(Pending)
    ensures AsStr(InProgress) == "in_progress"
  {
  }

  // ----------------------------------------------------------------- config

  datatype Config = Config(port: U16, databaseUrl: string, jwtSecret: string, maxConnections: U32)

  /** `Config::validate`: port, then database URL, then the secret's byte length. */
  function ValidateConfig(c: Config): (r: Result<(), string>)
    ensures r.Ok? <==> c.port != 0 && c.databaseUrl != [] && Utf8Len(c.jwtSecret) >= MIN_SECRET_LENGTH
    ensures c.port == 0 ==> r == Err("Port must be greater than 0")
    ensures c.port != 0 && c.databaseUrl == [] ==> r == Err("Database URL cannot be empty")
    ensures r == Err("JWT secret must be at least 32 characters") <==>
              c.port != 0 && c.databaseUrl != [] && Utf8Len(c.jwtSecret) < MIN_SECRET_LENGTH
  {
    if c.port == 0 then Err("Port must be greater than 0")
    else if c.databaseUrl == [] then Err("Database URL cannot be empty")
    else if Utf8Len(c.jwtSecret) < MIN_SECRET_LENGTH then Err("JWT secret must be at least 32 characters")
    else Ok(())
  }

  /** Any secret of 32 or more characters is long enough; fewer may do if some are not ASCII. */
  lemma SecretOf32CharsSuffices(c: Config)
    requires c.port != 0 && c.databaseUrl != [] && |c.jwtSecret| >= MIN_SECRET_LENGTH
    ensures ValidateConfig(c).Ok?
  {
  }

  // ------------------------------------------------------------------ utils

  /** `utils::is_valid_email`: some '@' and some '.', anywhere, so at least two characters. */
  predicate IsValidEmail(email: string): (ok: bool)
    ensures ok ==> |email| >= 2
  {
    '@' in email && '.' in email
  }

  /** An email that `is_valid_email` accepts always passes the email checks of `validate`. */
  lemma ValidEmailPassesValidate(u: User)
    requires u.name != [] && Utf8Len(u.name) <= MAX_USERNAME_LENGTH
    requires IsValidEmail(u.email)
    ensures Validate(u).Ok?
  {
  }
}
