/** The `protect` middleware: take the token out of the `Authorization` header,
    verify it, load the user it names, and either attach that user to the
    request and call `next`, or send a rejection. */
module AuthGate {
  import opened JsString
  import opened Constants
  import opened UserModel
  import opened Crypto

  /** `req.headers['authorization']?.split(' ')[1]`, kept only when truthy.
      The first word is not looked at, so any scheme is accepted. */
  function BearerToken(header: Option<string>): (t: Option<string>)
    ensures t.Some? ==> header.Some? && t.value != "" && ' ' !in t.value
  {
    if header.None? then None
    else
      var parts := Split(header.value, ' ');
      if |parts| >= 2 && parts[1] != "" then Some(parts[1]) else None
  }

  /** The token is the second space-separated word, whatever the first word is
      and whatever follows. */
  lemma BearerTokenOf(scheme: string, token: string, rest: seq<string>)
    requires ' ' !in scheme && ' ' !in token && token != ""
    requires forall k :: 0 <= k < |rest| ==> ' ' !in rest[k]
    ensures BearerToken(Some(Join([scheme, token] + rest, ' '))) == Some(token)
  {
    var parts := [scheme, token] + rest;
    forall k | 0 <= k < |parts| ensures ' ' !in parts[k] {
      if k >= 2 {
        assert parts[k] == rest[k - 2];
      }
    }
    SplitJoin(parts, ' ');
    var split := Split(Join(parts, ' '), ' ');
    assert split[1] == token;
  }

  /** A header that is a single word carries no token. */
  lemma BearerTokenMissing(header: string)
    requires ' ' !in header
    ensures BearerToken(Some(header)) == None
  {
    SplitJoin([header], ' ');
  }

  /** A scheme word with nothing after the space, or no space at all, gives no token. */
  lemma BearerTokenExamples()
    ensures BearerToken(Some("Bearer ")) == None
    ensures BearerToken(Some("abc")) == None
  {
    assert BearerToken(Some("Bearer ")) == None by {
      SplitJoin(["Bearer", ""], ' ');
      assert Join(["Bearer", ""], ' ') == "Bearer ";
    }
    BearerTokenMissing("abc");
  }

  /** What the middleware does with a request. A rejection carries the status it
      is sent with; the user-lookup failure uses `STATUS_CODE.PAGE_NOT_FOUND`,
      which the status table does not define, so its status is `None`. */
  datatype Decision = Admit(user: PublicUser) | Reject(status: Option<int>)

  function Decide(header: Option<string>, jwt: Jwt, now: int, users: map<UserId, User>): (d: Decision)
    ensures d.Admit? ==> d.user.id in users && d.user == Public(d.user.id, users[d.user.id])
    ensures BearerToken(header).None? ==> d == Reject(Some(401))
    ensures BearerToken(header).Some? && jwt.verify(BearerToken(header).value, now).None? ==>
      d == Reject(Some(401))
    ensures BearerToken(header).Some? && jwt.verify(BearerToken(header).value, now).Some?
            && jwt.verify(BearerToken(header).value, now).value.userId !in users ==>
      d == Reject(None)
    ensures d.Admit? <==> BearerToken(header).Some? && jwt.verify(BearerToken(header).value, now).Some?
                           && jwt.verify(BearerToken(header).value, now).value.userId in users
    ensures d.Admit? ==>
      var id := jwt.verify(BearerToken(header).value, now).value.userId;
      d.user == Public(id, users[id])
  {
    match BearerToken(header)
    case None => Reject(Some(Code(Unauthorized)))
    case Some(token) =>
      match jwt.verify(token, now)
      case None => Reject(Some(Code(Unauthorized)))
      case Some(claims) =>
        if claims.userId in users then Admit(Public(claims.userId, users[claims.userId]))
        else Reject(None)
  }

  /** A token signed for a user who is still stored, presented before it
      expires, admits exactly that user (without the password). */
  lemma IssuedTokenAdmitted(jwt: Jwt, scheme: string, u: UserId, iat: int, now: int, users: map<UserId, User>)
    requires JwtLaws(jwt)
    requires ' ' !in scheme
    requires u in users && now < iat + TokenLifetime
    ensures Decide(Some(scheme + " " + jwt.sign(u, iat)), jwt, now, users) == Admit(Public(u, users[u]))
  {
    var token := jwt.sign(u, iat);
    BearerTokenOf(scheme, token, []);
    assert Join([scheme, token], ' ') == scheme + " " + token;
  }

  /** Once the 365 days are over the same header is turned away with 401. */
  lemma ExpiredTokenRejected(jwt: Jwt, scheme: string, u: UserId, iat: int, now: int, users: map<UserId, User>)
    requires JwtLaws(jwt)
    requires ' ' !in scheme
    requires iat + TokenLifetime <= now
    ensures Decide(Some(scheme + " " + jwt.sign(u, iat)), jwt, now, users) == Reject(Some(401))
  {
    var token := jwt.sign(u, iat);
    BearerTokenOf(scheme, token, []);
    assert Join([scheme, token], ' ') == scheme + " " + token;
  }

  /** A valid token whose user has since disappeared is turned away. */
  lemma MissingUserRejected(jwt: Jwt, scheme: string, u: UserId, iat: int, now: int, users: map<UserId, User>)
    requires JwtLaws(jwt)
    requires ' ' !in scheme
    requires u !in users && now < iat + TokenLifetime
    ensures Decide(Some(scheme + " " + jwt.sign(u, iat)), jwt, now, users).Reject?
  {
    var token := jwt.sign(u, iat);
    BearerTokenOf(scheme, token, []);
    assert Join([scheme, token], ' ') == scheme + " " + token;
  }

  /** Whoever gets through holds a token the secret signed for that very user,
      less than 365 days old. */
  lemma AdmittedHoldsIssuedToken(jwt: Jwt, header: Option<string>, now: int, users: map<UserId, User>)
    requires JwtLaws(jwt)
    requires Decide(header, jwt, now, users).Admit?
    ensures var u := Decide(header, jwt, now, users).user;
            exists iat :: BearerToken(header) == Some(jwt.sign(u.id, iat)) && now < iat + TokenLifetime
  {
    var token := BearerToken(header).value;
    var c := jwt.verify(token, now).value;
    assert token == jwt.sign(c.userId, c.iat);
  }

  /** One request and its response, as far as the middleware touches them. */
  class Exchange {
    const authorization: Option<string>
    var userId: Option<UserId>
    var user: Option<PublicUser>
    var nextCalls: nat
    var sent: seq<Option<int>>

    constructor (authorization: Option<string>)
      ensures this.authorization == authorization
      ensures userId == None && user == None && nextCalls == 0 && sent == []
    {
      this.authorization := authorization;
      userId, user := None, None;
      nextCalls, sent := 0, [];
    }
  }

  /** `protect(req, res, next)`: on every path either `next` is called once and
      the identity attached, or exactly one rejection is sent and the request
      is left as it was. */
  method Protect(ex: Exchange, jwt: Jwt, now: int, table: UserTable)
    modifies ex
    ensures match Decide(ex.authorization, jwt, now, table.users)
      case Admit(u) =>
        && ex.userId == Some(u.id) && ex.user == Some(u)
        && ex.nextCalls == old(ex.nextCalls) + 1 && ex.sent == old(ex.sent)
      case Reject(status) =>
        && ex.userId == old(ex.userId) && ex.user == old(ex.user)
        && ex.nextCalls == old(ex.nextCalls) && ex.sent == old(ex.sent) + [status]
  {
    var token := BearerToken(ex.authorization);
    if token.None? {
      ex.sent := ex.sent + [Some(Code(Unauthorized))];
      return;
    }
    var decoded := jwt.verify(token.value, now);
    if decoded.None? {
      ex.sent := ex.sent + [Some(Code(Unauthorized))];
      return;
    }
    var id := decoded.value.userId;
    if id !in table.users {
      ex.sent := ex.sent + [None];
      return;
    }
    var user := Public(id, table.users[id]);
    ex.userId := Some(user.id);
    ex.user := Some(user);
    ex.nextCalls := ex.nextCalls + 1;
  }
}
