/** The `User` collection: the record its schema stores, the constraints the
    schema puts on each field, and the table that holds the records. */
module UserModel {
  import opened JsString
  import opened Constants

  type UserId = nat

  /** A stored user; `password` holds the bcrypt digest. */
  datatype User = User(name: string, email: string, password: string)

  /** The user as the handlers hand it out: the record without its password. */
  datatype PublicUser = PublicUser(id: UserId, name: string, email: string)

  function Public(id: UserId, u: User): PublicUser {
    PublicUser(id, u.name, u.email)
  }

  /** The schema's `trim` and `lowercase` setters on `email`. */
  function NormalizeEmail(e: string): (r: string)
    ensures |r| <= |e|
    ensures ToLower(r) == r && IsTrimmed(r)
  {
    var t := Trim(e);
    ToLowerIdempotent(t);
    LowerKeepsTrimmed(t);
    ToLower(t)
  }

  lemma NormalizeEmailIdempotent(e: string)
    ensures NormalizeEmail(NormalizeEmail(e)) == NormalizeEmail(e)
  {
    var r := NormalizeEmail(e);
    TrimFixed(r);
  }

  /** `\S+` covering `s[lo..hi]`. */
  predicate NonSpaceRange(s: string, lo: int, hi: int) {
    forall k :: lo <= k < hi && 0 <= k < |s| ==> !IsSpace(s[k])
  }

  /** The schema's `match: /\S+@\S+\.\S+/` (not anchored) succeeding on `s[i..j]`. */
  predicate SchemaEmailAt(s: string, i: int, a: int, d: int, j: int) {
    && 0 <= i < a && a + 1 < d && d + 1 < j <= |s| && s[a] == '@' && s[d] == '.'
    && NonSpaceRange(s, i, a) && NonSpaceRange(s, a + 1, d) && NonSpaceRange(s, d + 1, j)
  }

  ghost predicate SchemaEmailMatch(s: string) {
    exists i, a, d, j :: SchemaEmailAt(s, i, a, d, j)
  }

  /** Every address the registration pattern accepts passes the schema's pattern. */
  lemma RegexEmailPassesSchema(s: string)
    requires IsEmail(s)
    ensures SchemaEmailMatch(s)
  {
    EmailDecision(s);
    var a, d :| EmailMatchAt(s, a, d);
    assert SchemaEmailAt(s, 0, a, d, |s|);
  }

  /** ... but not conversely: the schema lets a second '@' through. */
  lemma SchemaEmailIsLooser()
    ensures SchemaEmailMatch("a@@b.c") && !IsEmail("a@@b.c")
  {
    var s := "a@@b.c";
    assert SchemaEmailAt(s, 0, 1, 4, 6);
    assert IndexOf(s, '@') == Some(1) by { IndexOfAt(s, 1); }
    assert s[2] == '@';
  }

  /** Lower-casing keeps an address acceptable to the registration pattern. */
  lemma LowerKeepsEmail(s: string)
    requires IsEmail(s)
    ensures IsEmail(ToLower(s))
  {
    assert EmailRegex(s) by { EmailDecision(s); }
    var a, d :| EmailMatchAt(s, a, d);
    var l := ToLower(s);
    assert EmailMatchAt(l, a, d) by {
      forall k | 0 <= k < |s| ensures EmailChar(l[k]) == EmailChar(s[k]) {
        LowerKeepsEmailChar(s[k]);
      }
    }
    EmailDecision(l);
  }

  lemma LowerKeepsEmailChar(c: char)
    ensures EmailChar(LowerChar(c)) == EmailChar(c)
  {
    LowerKeepsSpace(c);
  }

  /** The address a successful registration stores satisfies the schema. */
  lemma NormalizedEmailOk(e: string)
    requires IsEmail(e)
    ensures var n := NormalizeEmail(e); n != "" && IsEmail(n) && SchemaEmailMatch(n)
  {
    var n := NormalizeEmail(e);
    assert n == ToLower(e) by { EmailOneAt(e); TrimNoSpace(e); }
    assert IsEmail(n) by { LowerKeepsEmail(e); }
    assert SchemaEmailMatch(n) by { RegexEmailPassesSchema(n); }
    assert n != "" by { EmailOneAt(n); }
  }

  /** The schema constraints of one stored user. */
  ghost predicate UserOk(u: User) {
    && u.name != "" && IsTrimmed(u.name)
    && u.email != "" && IsTrimmed(u.email) && ToLower(u.email) == u.email
    && SchemaEmailMatch(u.email)
    && u.password != ""
  }

  /** The unique index on `email`. */
  ghost predicate EmailsUnique(users: map<UserId, User>) {
    forall i, j :: i in users && j in users && users[i].email == users[j].email ==> i == j
  }

  /** The collection's contents with the id the next insert receives. */
  datatype UserStore = UserStore(users: map<UserId, User>, nextId: UserId)

  ghost predicate UserStoreOk(s: UserStore) {
    && (forall id :: id in s.users ==> id < s.nextId && UserOk(s.users[id]))
    && EmailsUnique(s.users)
  }

  /** The collection as mutable state. */
  class UserTable {
    var users: map<UserId, User>
    var nextId: UserId

    function State(): UserStore
      reads this
    {
      UserStore(users, nextId)
    }

    ghost predicate Valid()
      reads this
    {
      UserStoreOk(State())
    }

    constructor ()
      ensures Valid() && users == map[] && nextId == 0
    {
      users := map[];
      nextId := 0;
    }
  }
}
