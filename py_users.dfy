/**
 * The dict-backed user service of test/python-test.py: the `User`
 * dataclass with its `__post_init__` check, and `UserService`, which hands
 * out identifiers from `_next_id` and patches stored users in place.
 *
 * Python objects are references, so `User` is a class here: the object
 * `create_user` returns is the one stored, and `update_user` changes it for
 * every holder. A `ValueError` becomes an `Err` carrying its message.
 */
module PyUsers {
  import opened Wrappers

  // ------------------------------------------------------------ whitespace

  /** The characters `str.strip()` removes by default (Python's `str.isspace`). */
  predicate IsSpace(c: char) {
    var n := c as int;
    || n == 0x20 || 0x09 <= n <= 0x0D || 0x1C <= n <= 0x1F
    || n == 0x85 || n == 0xA0 || n == 0x1680
    || 0x2000 <= n <= 0x200A || n == 0x2028 || n == 0x2029
    || n == 0x202F || n == 0x205F || n == 0x3000
  }

  predicate Blank(s: string) {
    forall i :: 0 <= i < |s| ==> IsSpace(s[i])
  }

  /** Drops the leading whitespace: what is removed is blank, what remains does not start blank. */
  function LStrip(s: string): (r: string)
    ensures |r| <= |s| && r == s[|s| - |r|..]
    ensures Blank(s[..|s| - |r|])
    ensures r != [] ==> !IsSpace(r[0])
  {
    if s != [] && IsSpace(s[0]) then
      var r := LStrip(s[1..]);
      assert s[..|s| - |r|] == [s[0]] + s[1..][..|s| - 1 - |r|];
      r
    else s
  }

  /** Drops the trailing whitespace: what is removed is blank, what remains does not end blank. */
  function RStrip(s: string): (r: string)
    ensures |r| <= |s| && r == s[..|r|]
    ensures Blank(s[|r|..])
    ensures r != [] ==> !IsSpace(r[|r| - 1])
  {
    if s != [] && IsSpace(s[|s| - 1]) then
      var r := RStrip(s[..|s| - 1]);
      assert s[|r|..] == s[..|s| - 1][|r|..] + [s[|s| - 1]];
      r
    else s
  }

  /** Where the stripped text starts: after the leading whitespace. */
  function StripStart(s: string): (i: nat)
    ensures i <= |s| && Blank(s[..i])
  {
    |s| - |LStrip(s)|
  }

  /**
   * `str.strip()`: the result is the slice of `s` from `StripStart(s)`, with
   * only whitespace on either side, and neither starts nor ends with
   * whitespace.
   */
  function Strip(s: string): (r: string)
    ensures StripStart(s) + |r| <= |s| && r == s[StripStart(s)..StripStart(s) + |r|]
    ensures Blank(s[StripStart(s) + |r|..])
    ensures r != [] ==> !IsSpace(r[0]) && !IsSpace(r[|r| - 1])
  {
    var l := LStrip(s);
    var r := RStrip(l);
    var i := StripStart(s);
    assert l == s[i..];
    assert r == l[..|r|] == s[i..i + |r|];
    assert s[i + |r|..] == l[|r|..];
    assert r != [] ==> r[0] == l[0];
    r
  }

  /** `not s.strip()` holds exactly when every character of `s` is whitespace. */
  lemma StripEmpty(s: string)
    ensures Strip(s) == [] <==> Blank(s)
  {
  }

  // ---------------------------------------------------------------- the user

  /** The values of a user's three attributes. */
  datatype Record = Record(id: int, name: string, email: Option<string>)

  /**
   * `User.__post_init__`: the id check, then the name check. Note that the
   * id check lets 0 through although its message says "positive".
   */
  function PostInit(id: int, name: string): (r: Option<string>)
    ensures r.None? <==> id >= 0 && !Blank(name)
    ensures id < 0 ==> r == Some("User ID must be positive")
    ensures id >= 0 && Blank(name) ==> r == Some("User name cannot be empty")
  {
    StripEmpty(name);
    if id < 0 then Some("User ID must be positive")
    else if Strip(name) == [] then Some("User name cannot be empty")
    else None
  }

  /**
   * A keyword argument of `update_user`. The first three name an attribute
   * of `User`; `Unknown` stands for any keyword that names none, which
   * `hasattr` rejects.
   */
  datatype Kwarg = IdArg(id: int) | NameArg(name: string) | EmailArg(email: Option<string>) | Unknown(key: string)

  /** The keyword as written at the call. */
  function Key(kw: Kwarg): string {
    match kw
    case IdArg(_) => "id"
    case NameArg(_) => "name"
    case EmailArg(_) => "email"
    case Unknown(key) => key
  }

  /** `hasattr(user, key)`: a keyword it rejects changes nothing. */
  predicate HasAttr(kw: Kwarg): (ok: bool)
    ensures !ok ==> forall r :: ApplyKwarg(r, kw) == r
  {
    !kw.Unknown?
  }

  /**
   * `if hasattr(user, key): setattr(user, key, value)` on the attribute
   * values: only the attribute the keyword names can change.
   */
  function ApplyKwarg(r: Record, kw: Kwarg): (r': Record)
    ensures !kw.IdArg? ==> r'.id == r.id
    ensures !kw.NameArg? ==> r'.name == r.name
    ensures !kw.EmailArg? ==> r'.email == r.email
  {
    match kw
    case IdArg(id) => r.(id := id)
    case NameArg(name) => r.(name := name)
    case EmailArg(email) => r.(email := email)
    case Unknown(_) => r
  }

  predicate PatchesId(kws: seq<Kwarg>) {
    exists i :: 0 <= i < |kws| && kws[i].IdArg?
  }

  predicate PatchesName(kws: seq<Kwarg>) {
    exists i :: 0 <= i < |kws| && kws[i].NameArg?
  }

  predicate PatchesEmail(kws: seq<Kwarg>) {
    exists i :: 0 <= i < |kws| && kws[i].EmailArg?
  }

  /**
   * The keyword arguments applied one after the other, in order: an
   * attribute no keyword names keeps its value.
   */
  function ApplyKwargs(r: Record, kws: seq<Kwarg>): (r': Record)
    ensures !PatchesId(kws) ==> r'.id == r.id
    ensures !PatchesName(kws) ==> r'.name == r.name
    ensures !PatchesEmail(kws) ==> r'.email == r.email
  {
    if kws == [] then r
    else
      var init := kws[..|kws| - 1];
      assert forall i :: 0 <= i < |init| ==> init[i] == kws[i];
      ApplyKwarg(ApplyKwargs(r, init), kws[|kws| - 1])
  }

  function OnlyAttrs(kws: seq<Kwarg>): (r: seq<Kwarg>)
    ensures forall i :: 0 <= i < |r| ==> HasAttr(r[i])
  {
    if kws == [] then []
    else if HasAttr(kws[|kws| - 1]) then OnlyAttrs(kws[..|kws| - 1]) + [kws[|kws| - 1]]
    else OnlyAttrs(kws[..|kws| - 1])
  }

  /** Keywords that name no attribute are ignored. */
  lemma {:induction false} UnknownIgnored(r: Record, kws: seq<Kwarg>)
    ensures ApplyKwargs(r, kws) == ApplyKwargs(r, OnlyAttrs(kws))
  {
    if kws != [] {
      var init := kws[..|kws| - 1];
      UnknownIgnored(r, init);
      if HasAttr(kws[|kws| - 1]) {
        var f := OnlyAttrs(init) + [kws[|kws| - 1]];
        assert f[..|f| - 1] == OnlyAttrs(init);
      }
    }
  }

  /** `**kwargs` is a dict: no keyword occurs twice. */
  predicate DistinctKeys(kws: seq<Kwarg>) {
    forall i, j :: 0 <= i < j < |kws| ==> Key(kws[i]) != Key(kws[j])
  }

  /** With distinct keywords, every attribute a keyword names ends with that keyword's value. */
  lemma {:induction false} DistinctKwargs(r: Record, kws: seq<Kwarg>)
    requires DistinctKeys(kws)
    ensures forall i :: 0 <= i < |kws| && kws[i].IdArg? ==> ApplyKwargs(r, kws).id == kws[i].id
    ensures forall i :: 0 <= i < |kws| && kws[i].NameArg? ==> ApplyKwargs(r, kws).name == kws[i].name
    ensures forall i :: 0 <= i < |kws| && kws[i].EmailArg? ==> ApplyKwargs(r, kws).email == kws[i].email
  {
    if kws != [] {
      var n := |kws| - 1;
      var init := kws[..n];
      assert forall i :: 0 <= i < n ==> init[i] == kws[i];
      DistinctKwargs(r, init);
      forall i | 0 <= i < n
        ensures Key(kws[i]) != Key(kws[n])
      {
      }
    }
  }

  /** Two keyword lists with the same elements: each element of one occurs in the other. */
  lemma SameElements(a: seq<Kwarg>, b: seq<Kwarg>, i: int) returns (j: int)
    requires multiset(a) == multiset(b) && 0 <= i < |a|
    ensures 0 <= j < |b| && b[j] == a[i]
  {
    assert a[i] in multiset(b);
    j :| 0 <= j < |b| && b[j] == a[i];
  }

  /** With distinct keywords, the order they are given in does not matter. */
  lemma KwargOrderIrrelevant(r: Record, a: seq<Kwarg>, b: seq<Kwarg>)
    requires DistinctKeys(a) && DistinctKeys(b) && multiset(a) == multiset(b)
    ensures ApplyKwargs(r, a) == ApplyKwargs(r, b)
  {
    var x, y := ApplyKwargs(r, a), ApplyKwargs(r, b);
    DistinctKwargs(r, a);
    DistinctKwargs(r, b);
    if PatchesId(a) {
      var i :| 0 <= i < |a| && a[i].IdArg?;
      var j := SameElements(a, b, i);
    } else if PatchesId(b) {
      var j :| 0 <= j < |b| && b[j].IdArg?;
      var i := SameElements(b, a, j);
    }
    if PatchesName(a) {
      var i :| 0 <= i < |a| && a[i].NameArg?;
      var j := SameElements(a, b, i);
    } else if PatchesName(b) {
      var j :| 0 <= j < |b| && b[j].NameArg?;
      var i := SameElements(b, a, j);
    }
    if PatchesEmail(a) {
      var i :| 0 <= i < |a| && a[i].EmailArg?;
      var j := SameElements(a, b, i);
    } else if PatchesEmail(b) {
      var j :| 0 <= j < |b| && b[j].EmailArg?;
      var i := SameElements(b, a, j);
    }
    assert x == Record(x.id, x.name, x.email);
  }

  /** A Python `User` object. */
  class User {
    var id: int
    var name: string
    var email: Option<string>

    function View(): Record
      reads this
    {
      Record(id, name, email)
    }

    /** An object that exists has passed `__post_init__`. */
    constructor (id: int, name: string, email: Option<string>)
      requires PostInit(id, name).None?
      ensures View() == Record(id, name, email)
    {
      this.id := id;
      this.name := name;
      this.email := email;
    }

    /** `User(id=..., name=..., email=...)`: raises `ValueError` from `__post_init__`. */
    static method Create(id: int, name: string, email: Option<string>) returns (r: Result<User, string>)
      ensures r.Err? <==> PostInit(id, name).Some?
      ensures r.Err? ==> r.error == PostInit(id, name).value
      ensures r.Ok? ==> fresh(r.value) && r.value.View() == Record(id, name, email)
    {
      var check := PostInit(id, name);
      if check.Some? {
        return Err(check.value);
      }
      var u := new User(id, name, email);
      r := Ok(u);
    }

    /** `setattr` for one keyword, skipped when `hasattr` is false; no re-validation. */
    method SetAttr(kw: Kwarg)
      modifies this
      ensures View() == ApplyKwarg(old(View()), kw)
    {
      match kw
      case IdArg(v) => id := v;
      case NameArg(v) => name := v;
      case EmailArg(v) => email := v;
      case Unknown(_) =>
    }
  }

  /** `UserService`: a dict from id to `User` and the next id to hand out. */
  class UserService {
    const databaseUrl: string
    var users: map<int, User>
    var nextId: int

    /**
     * Keys are exactly 1 .. nextId - 1 (users are only ever added, under
     * increasing ids), and no object is stored twice.
     */
    ghost predicate Valid()
      reads this
    {
      && 1 <= nextId
      && (forall k :: k in users <==> 1 <= k < nextId)
      && (forall a, b :: a in users && b in users && a != b ==> users[a] != users[b])
    }

    /** Every key is its user's id; `update_user` can break this by patching `id`. */
    ghost predicate KeysMatchIds()
      reads this, users.Values
    {
      forall k :: k in users ==> users[k].id == k
    }

    /** `UserService.__init__`: empty, first id 1; the URL is only kept. */
    constructor (databaseUrl: string)
      ensures Valid() && KeysMatchIds()
      ensures users == map[] && nextId == 1 && this.databaseUrl == databaseUrl
    {
      this.databaseUrl := databaseUrl;
      users := map[];
      nextId := 1;
    }

    /** `user_count`: one user per id handed out. */
    function UserCount(): (n: nat)
      requires Valid()
      reads this
      ensures n == nextId - 1
    {
      RangeSize(users.Keys, nextId);
      |users|
    }

    /** `get_user`: the stored object, or `None` (`null`) for an absent id. */
    function GetUser(userId: int): (r: User?)
      requires Valid()
      reads this
      ensures r != null <==> 1 <= userId < nextId
      ensures r != null ==> r == users[userId]
    {
      if userId in users then users[userId] else null
    }

    /**
     * `create_user`: constructing the user may raise before anything is
     * stored; otherwise it is stored under the current `_next_id`, which
     * then advances.
     */
    method CreateUser(name: string, email: Option<string>) returns (r: Result<User, string>)
      requires Valid()
      modifies this
      ensures Valid()
      ensures r.Err? <==> Blank(name)
      ensures r.Err? ==> r.error == "User name cannot be empty"
      ensures r.Err? ==> users == old(users) && nextId == old(nextId)
      ensures r.Ok? ==> fresh(r.value) && r.value.View() == Record(old(nextId), name, email)
      ensures r.Ok? ==> users == old(users)[old(nextId) := r.value] && nextId == old(nextId) + 1
      ensures r.Ok? ==> UserCount() == old(UserCount()) + 1
      ensures old(KeysMatchIds()) ==> KeysMatchIds()
    {
      r := User.Create(nextId, name, email);
      if r.Err? {
        return;
      }
      users := users[r.value.id := r.value];
      nextId := nextId + 1;
    }

    /** `list_users`: the stored objects in dict order, which is id order here. */
    method ListUsers() returns (r: seq<User>)
      requires Valid()
      ensures |r| == UserCount()
      ensures forall i :: 0 <= i < |r| ==> r[i] == users[i + 1]
      ensures forall k :: k in users ==> users[k] in r
    {
      r := [];
      for k := 1 to nextId
        invariant |r| == k - 1
        invariant forall i :: 0 <= i < |r| ==> r[i] == users[i + 1]
      {
        r := r + [users[k]];
      }
      forall k | k in users ensures users[k] in r {
        assert r[k - 1] == users[k];
      }
    }

    /**
     * `update_user`: `None` for an absent id; otherwise the stored object
     * takes every keyword that names an attribute, in order, without being
     * validated again. No other user changes.
     */
    method UpdateUser(userId: int, kwargs: seq<Kwarg>) returns (r: User?)
      requires Valid()
      modifies users.Values
      ensures Valid() && users == old(users) && nextId == old(nextId)
      ensures r == GetUser(userId)
      ensures r != null ==> r.View() == ApplyKwargs(old(r.View()), kwargs)
      ensures forall k :: k in users && k != userId ==> users[k].View() == old(users[k].View())
      ensures old(KeysMatchIds()) && !PatchesId(kwargs) ==> KeysMatchIds()
    {
      r := GetUser(userId);
      if r == null {
        return;
      }
      for i := 0 to |kwargs|
        invariant r.View() == ApplyKwargs(old(r.View()), kwargs[..i])
        invariant forall k :: k in users && k != userId ==> users[k].View() == old(users[k].View())
      {
        assert kwargs[..i + 1][..i] == kwargs[..i];
        r.SetAttr(kwargs[i]);
      }
      assert kwargs[..|kwargs|] == kwargs;
    }

    /** `validate_email`: an '@', and a '.' in the part after the last '@'. */
    static function ValidateEmail(email: string): (ok: bool)
      ensures ok <==> exists i :: EmailDomainAt(email, i) && '.' in email[i + 1..]
    {
      var ok := '@' in email && '.' in Last(Split(email, '@'));
      EmailSpec(email);
      ok
    }
  }

  /** `create_admin_user`. */
  method CreateAdminUser(service: UserService) returns (r: Result<User, string>)
    requires service.Valid()
    modifies service
    ensures service.Valid()
    ensures r.Ok? && r.value.View() == Record(old(service.nextId), "Administrator", Some("admin@example.com"))
    ensures service.users == old(service.users)[old(service.nextId) := r.value]
  {
    assert !IsSpace("Administrator"[0]);
    r := service.CreateUser("Administrator", Some("admin@example.com"));
  }

  // ---------------------------------------------------------------- counting

  /** A set holding exactly 1 .. n - 1 has n - 1 elements. */
  lemma {:induction false} RangeSize(s: set<int>, n: int)
    requires 1 <= n
    requires forall k :: k in s <==> 1 <= k < n
    ensures |s| == n - 1
  {
    if n > 1 {
      RangeSize(s - {n - 1}, n - 1);
    } else {
      assert forall k :: k !in s;
    }
  }

  // ------------------------------------------------------------------ emails

  /** `str.split(sep)`: the pieces between separators, at least one. */
  function Split(s: string, sep: char): (parts: seq<string>)
    ensures |parts| >= 1
  {
    if s == [] then [[]]
    else
      var rest := Split(s[1..], sep);
      if s[0] == sep then [[]] + rest
      else [[s[0]] + rest[0]] + rest[1..]
  }

  function Last(parts: seq<string>): string
    requires parts != []
  {
    parts[|parts| - 1]
  }

  /** Index `i` holds the last '@' of `email`. */
  predicate EmailDomainAt(email: string, i: int) {
    && 0 <= i < |email| && email[i] == '@'
    && forall j :: i < j < |email| ==> email[j] != '@'
  }

  lemma {:induction false} SplitNoSep(s: string, sep: char)
    requires sep !in s
    ensures Split(s, sep) == [s]
  {
    if s != [] {
      SplitNoSep(s[1..], sep);
      assert [s[0]] + s[1..] == s;
    }
  }

  lemma {:induction false} SplitSeveral(s: string, sep: char)
    requires sep in s
    ensures |Split(s, sep)| >= 2
  {
    if s[0] != sep {
      SplitSeveral(s[1..], sep);
    }
  }

  /** After the last separator comes the last piece. */
  lemma {:induction false} SplitLast(s: string, sep: char, i: int)
    requires 0 <= i < |s| && s[i] == sep
    requires forall j :: i < j < |s| ==> s[j] != sep
    ensures Last(Split(s, sep)) == s[i + 1..]
  {
    if i == 0 {
      assert sep !in s[1..] by {
        forall j | 0 <= j < |s[1..]| ensures s[1..][j] != sep {
          assert s[1..][j] == s[j + 1];
        }
      }
      SplitNoSep(s[1..], sep);
    } else {
      SplitLast(s[1..], sep, i - 1);
      assert s[1..][i - 1] == sep;
      SplitSeveral(s[1..], sep);
    }
  }

  /** The last index holding `c`. */
  function LastIndex(s: string, c: char): (i: int)
    requires c in s
    ensures 0 <= i < |s| && s[i] == c
    ensures forall j :: i < j < |s| ==> s[j] != c
  {
    if s[|s| - 1] == c then |s| - 1
    else
      assert c in s[..|s| - 1] by {
        var k :| 0 <= k < |s| && s[k] == c;
        assert s[..|s| - 1][k] == c;
      }
      LastIndex(s[..|s| - 1], c)
  }

  lemma EmailSpec(email: string)
    ensures ('@' in email && '.' in Last(Split(email, '@'))) <==>
              exists i :: EmailDomainAt(email, i) && '.' in email[i + 1..]
  {
    if '@' in email {
      var i := LastIndex(email, '@');
      SplitLast(email, '@', i);
      assert EmailDomainAt(email, i);
      forall j | EmailDomainAt(email, j) ensures j == i {}
    }
  }

  /** Three users from a new service get ids 1, 2 and 3. */
  method ServiceExample() returns (count: nat, listed: seq<User>)
    ensures count == 3 && |listed| == 3
    ensures listed[0].View() == Record(1, "Administrator", Some("admin@example.com"))
    ensures listed[1].View() == Record(2, "John Doe", Some("john@example.com"))
    ensures listed[2].View() == Record(3, "Jane Smith", None)
  {
    var service := new UserService("sqlite:///:memory:");
    var admin := CreateAdminUser(service);
    assert !IsSpace("John Doe"[0]) && !IsSpace("Jane Smith"[0]);
    var john := service.CreateUser("John Doe", Some("john@example.com"));
    var jane := service.CreateUser("Jane Smith", None);
    count := service.UserCount();
    listed := service.ListUsers();
  }
}
