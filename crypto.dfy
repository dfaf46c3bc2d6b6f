/** bcrypt and jsonwebtoken, seen only through the laws the handlers rely on.
    Each library is a record of functions; a lemma that needs a law takes it
    as a hypothesis. */
module Crypto {
  import opened JsString
  import opened UserModel

  /** The salt `genSalt(10)` draws at random. */
  type Salt = nat

  datatype Bcrypt = Bcrypt(hash: (string, Salt) -> string, compare: (string, string) -> bool)

  // ---------------------------------------------------------------------
  // The key bcrypt actually hashes

  /** The UTF-8 bytes of one character: one byte below U+0080, then two,
      three or four, six payload bits to each continuation byte. */
  function Utf8Char(c: char): (r: seq<int>)
    ensures 1 <= |r| <= 4 && |r| == Utf8Length(r[0])
    ensures forall k :: 0 <= k < |r| ==> 0 <= r[k] < 0x100
    ensures forall k :: 1 <= k < |r| ==> 0x80 <= r[k] < 0xC0
    ensures c != '\0' ==> 0 !in r
  {
    var n := c as int;
    var q1 := n / 64;
    var q2 := q1 / 64;
    var q3 := q2 / 64;
    if n < 0x80 then [n]
    else if n < 0x800 then [0xC0 + q1, 0x80 + n % 64]
    else if n < 0x10000 then [0xE0 + q2, 0x80 + q1 % 64, 0x80 + n % 64]
    else [0xF0 + q3, 0x80 + q2 % 64, 0x80 + q1 % 64, 0x80 + n % 64]
  }

  /** How many bytes a sequence whose lead byte is `b` takes. */
  function Utf8Length(b: int): nat {
    if b < 0x80 then 1 else if b < 0xE0 then 2 else if b < 0xF0 then 3 else 4
  }

  /** The code point a sequence of `Utf8Char` stands for. */
  function Utf8Decode(r: seq<int>): int
    requires 1 <= |r| <= 4
  {
    if |r| == 1 then r[0]
    else if |r| == 2 then (r[0] - 0xC0) * 64 + (r[1] - 0x80)
    else if |r| == 3 then ((r[0] - 0xE0) * 64 + (r[1] - 0x80)) * 64 + (r[2] - 0x80)
    else (((r[0] - 0xF0) * 64 + (r[1] - 0x80)) * 64 + (r[2] - 0x80)) * 64 + (r[3] - 0x80)
  }

  /** Decoding gives the character back, so no two characters share bytes. */
  lemma Utf8CharDecodes(c: char)
    ensures Utf8Decode(Utf8Char(c)) == c as int
  {
    var n := c as int;
    var q1 := n / 64;
    var q2 := q1 / 64;
    assert n == q1 * 64 + n % 64;
    assert q1 == q2 * 64 + q1 % 64;
    assert q2 == (q2 / 64) * 64 + q2 % 64;
  }

  /** The bytes Node hands to the native library: the string in UTF-8. */
  function Utf8(s: string): (r: seq<int>)
    ensures |r| >= |s|
    ensures (forall k :: 0 <= k < |s| ==> s[k] != '\0') ==> 0 !in r
  {
    if s == [] then [] else Utf8Char(s[0]) + Utf8(s[1..])
  }

  /** The encoding is one-to-one: equal bytes come from equal strings. */
  lemma {:induction false} Utf8Injective(p: string, q: string)
    requires Utf8(p) == Utf8(q)
    ensures p == q
  {
    if p != [] && q != [] {
      var a, b := Utf8Char(p[0]), Utf8Char(q[0]);
      assert a[0] == Utf8(p)[0] == b[0];
      assert a == Utf8(p)[..|a|] && b == Utf8(q)[..|b|];
      Utf8CharDecodes(p[0]);
      Utf8CharDecodes(q[0]);
      assert Utf8(p[1..]) == Utf8(p)[|a|..] == Utf8(q[1..]);
      Utf8Injective(p[1..], q[1..]);
      assert p == [p[0]] + p[1..];
    }
  }

  /** `$2b$` hashes at most 72 key bytes. */
  const KeyLimit := 72

  /** A password without the NUL character, which would end the C string the
      native library reads. */
  predicate NoNul(p: string) {
    forall k :: 0 <= k < |p| ==> p[k] != '\0'
  }

  /** The key bcrypt expands: the UTF-8 bytes and the terminating zero byte,
      cut at 72 bytes. */
  function Key(p: string): (k: seq<int>)
    ensures |k| <= KeyLimit
    ensures NoNul(p) && |Utf8(p)| < KeyLimit ==> k == Utf8(p) + [0]
    ensures NoNul(p) && |Utf8(p)| >= KeyLimit ==> k == Utf8(p)[..KeyLimit] && 0 !in k
  {
    var bytes := Utf8(p) + [0];
    if |bytes| <= KeyLimit then bytes else bytes[..KeyLimit]
  }

  /** Two passwords without NUL that fit in the key, with room for its zero
      byte, have the same key only when they are the same password. */
  lemma ShortKeyInjective(p: string, q: string)
    requires NoNul(p) && NoNul(q) && |Utf8(p)| < KeyLimit
    requires Key(q) == Key(p)
    ensures q == p
  {
    assert Utf8(q) == Key(q)[..|Utf8(q)|];
    Utf8Injective(p, q);
  }

  /** Passwords of 72 bytes or more that agree on their first 72 bytes have
      the same key, whatever follows. */
  lemma LongKeysAgree(p: string, q: string)
    requires NoNul(p) && NoNul(q)
    requires |Utf8(p)| >= KeyLimit && |Utf8(q)| >= KeyLimit && Utf8(q)[..KeyLimit] == Utf8(p)[..KeyLimit]
    ensures Key(q) == Key(p)
  {
  }

  // ---------------------------------------------------------------------
  // The laws of `hash` and `compare`, one predicate each

  /** `compare` accepts the password a digest was made from. */
  ghost predicate AcceptsOwn(b: Bcrypt) {
    forall p, s :: b.compare(p, b.hash(p, s))
  }

  /** Only the key is hashed: passwords with the same key are the same to
      `compare`. */
  ghost predicate KeyOnly(b: Bcrypt) {
    forall p, q, d :: Key(p) == Key(q) ==> b.compare(p, d) == b.compare(q, d)
  }

  /** A password whose key differs is refused (collisions of the digest are
      idealised away). */
  ghost predicate RejectsOtherKeys(b: Bcrypt) {
    forall p, q, s :: NoNul(p) && NoNul(q) && Key(q) != Key(p) ==> !b.compare(q, b.hash(p, s))
  }

  /** A digest is never empty and never the plaintext. */
  ghost predicate DigestHidesPassword(b: Bcrypt) {
    forall p, s :: b.hash(p, s) != "" && b.hash(p, s) != p
  }

  /** Different salts give different digests. */
  ghost predicate SaltsDiffer(b: Bcrypt) {
    forall p, s, t :: s != t ==> b.hash(p, s) != b.hash(p, t)
  }

  /** `expiresIn: "365d"`, in seconds. */
  const TokenLifetime: int := 365 * 24 * 60 * 60

  /** The payload `jwt.verify` decodes: `userId`, `iat`, `exp`. */
  datatype Claims = Claims(userId: UserId, iat: int, exp: int)

  /** `sign(userId, now)` with the process secret; `verify(token, now)` is
      `None` where the library throws (bad signature, expired, malformed). */
  datatype Jwt = Jwt(sign: (UserId, int) -> string, verify: (string, int) -> Option<Claims>)

  ghost predicate JwtLaws(j: Jwt) {
    // a token is a non-empty string without spaces (three base64url parts)
    && (forall u, iat :: j.sign(u, iat) != "" && ' ' !in j.sign(u, iat))
    // a token verifies, to its own claims, until it expires, and not after
    && (forall u, iat, now :: j.verify(j.sign(u, iat), now) ==
          if now < iat + TokenLifetime then Some(Claims(u, iat, iat + TokenLifetime)) else None)
    // only tokens this secret signed verify
    && (forall t, now :: j.verify(t, now).Some? ==>
          var c := j.verify(t, now).value;
          t == j.sign(c.userId, c.iat) && c.exp == c.iat + TokenLifetime && now < c.exp)
  }
}
