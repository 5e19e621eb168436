/**
 * The bearer-token gate in front of the protected routes: it checks the
 * `Authorization` header, extracts and verifies the token, checks the payload, looks
 * the user up, and either answers with an error or attaches the user (without its
 * password) to the request and passes it on.
 */
module AuthGate {
  import opened Wrappers
  import opened Tables
  import opened Js
  import opened Http
  import opened Tokens
  import opened Users

  const HEADER_INVALID := "Authorization header missing or invalid"
  const NO_TOKEN := "Token not provided"
  const BAD_PAYLOAD := "Invalid token payload"
  const NO_USER := "User not found"
  const INTERNAL := "Internal server error"

  /** The gate's verdict: an error reply, or the user to attach before calling `next()`. */
  datatype Outcome = Rejected(status: int, error: string) | Proceed(user: SafeUser)

  /** A present header whose lower-cased form starts with `bearer `. */
  predicate BearerHeader(header: Option<string>)
  {
    header.Some? && StartsWith(Lower(header.value), "bearer ")
  }

  /** `authHeader.split(' ')[1]`; None stands for `undefined`, when there is no second field. */
  function TokenField(h: string): (r: Option<string>)
    ensures r.Some? <==> |Split(h, ' ')| >= 2
    ensures r.Some? ==> r.value == Split(h, ' ')[1] && ' ' !in r.value
  {
    var parts := Split(h, ' ');
    if |parts| >= 2 then Some(parts[1]) else None
  }

  /** The message for each kind of verification error. */
  function VerifyError(v: Verification): (m: string)
    requires !v.Verified?
    ensures v.Expired? <==> m == "Token has expired"
    ensures v.Malformed? <==> m == "Invalid token"
    ensures v.Failed? <==> m == "Token verification failed"
  {
    match v
    case Expired => "Token has expired"
    case Malformed => "Invalid token"
    case Failed => "Token verification failed"
  }

  /** `payload?.userId`: undefined for a payload that is not an object or has no such key. */
  function UserIdOf(payload: Json): (r: Option<Json>)
    ensures r.Some? <==> payload.JObj? && "userId" in payload.fields
    ensures r.Some? ==> r.value == payload.fields["userId"]
  {
    if payload.JObj? && "userId" in payload.fields then Some(payload.fields["userId"]) else None
  }

  /** A truthy string or number. */
  predicate UsableUserId(v: Option<Json>)
  {
    v.Some? && Truthy(v.value) && (v.value.JStr? || v.value.JNum?)
  }

  /**
   * `findUnique({ where: { id: userId } })` on the integer id column: a string or a
   * non-integer number is refused by the store, which throws.
   */
  datatype Lookup = Found(user: User) | Missing | StoreError

  function LookupUser(users: UserTable, userId: Json): (r: Lookup)
    ensures r.StoreError? <==> !(userId.JNum? && IsInteger(userId.n))
    ensures r.Found? ==> exists id :: id in users.rows && users.rows[id] == r.user && id as real == userId.n
    ensures r.Missing? ==> userId.JNum? && forall id :: id in users.rows ==> id as real != userId.n
    ensures (exists id :: id in users.rows && userId == JNum(id as real)) ==> r.Found?
  {
    if userId.JNum? && IsInteger(userId.n) then
      var id := userId.n.Floor;
      match ById(users.rows, id)
      case Some(u) => assert id as nat in users.rows && u == users.rows[id as nat] && id as nat as real == userId.n; Found(u)
      case None => Missing
    else StoreError
  }

  /** What the checks before the lookup make of a request: the 401 message, or the `userId` to look up. */
  datatype Screening = Refused(error: string) | Presents(userId: Json)

  /** The header, token, verification and payload checks of `authMiddleware`, in order. */
  function Screen(header: Option<string>, c: Crypto): (r: Screening)
    ensures r.Presents? <==>
      && BearerHeader(header)
      && TokenField(header.value).Some? && TokenField(header.value).value != ""
      && c.verify(TokenField(header.value).value).Verified?
      && UsableUserId(UserIdOf(c.verify(TokenField(header.value).value).payload))
    ensures r.Presents? ==> UserIdOf(c.verify(TokenField(header.value).value).payload) == Some(r.userId)
    ensures !BearerHeader(header) ==> r == Refused(HEADER_INVALID)
    ensures r.Refused? ==>
      r.error in {HEADER_INVALID, NO_TOKEN, BAD_PAYLOAD, "Token has expired", "Invalid token", "Token verification failed"}
  {
    if !BearerHeader(header) then Refused(HEADER_INVALID)
    else
      var token := TokenField(header.value);
      if token.None? || token.value == "" then Refused(NO_TOKEN)
      else
        var v := c.verify(token.value);
        if !v.Verified? then Refused(VerifyError(v))
        else
          var userId := UserIdOf(v.payload);
          if !UsableUserId(userId) then Refused(BAD_PAYLOAD)
          else Presents(userId.value)
  }

  /**
   * `authMiddleware`: the checks in order, each with its own 401 message; 500 when the
   * store throws. On success the user attached is the stored one without its password.
   */
  function Authenticate(header: Option<string>, c: Crypto, users: UserTable): (r: Outcome)
    ensures !BearerHeader(header) ==> r == Rejected(UNAUTHORIZED, HEADER_INVALID)
    ensures r.Rejected? ==> r.status in {UNAUTHORIZED, SERVER_ERROR}
    ensures r.Rejected? && r.status == SERVER_ERROR ==> r.error == INTERNAL
    ensures Screen(header, c).Refused? ==> r == Rejected(UNAUTHORIZED, Screen(header, c).error)
    ensures r == Rejected(SERVER_ERROR, INTERNAL) <==>
      && Screen(header, c).Presents?
      && !(Screen(header, c).userId.JNum? && IsInteger(Screen(header, c).userId.n))
    ensures r == Rejected(UNAUTHORIZED, NO_USER) <==>
      && Screen(header, c).Presents?
      && Screen(header, c).userId.JNum? && IsInteger(Screen(header, c).userId.n)
      && forall id :: id in users.rows ==> Screen(header, c).userId != JNum(id as real)
    ensures r.Proceed? <==>
      Screen(header, c).Presents? && exists id :: id in users.rows && Screen(header, c).userId == JNum(id as real)
    ensures r.Proceed? ==>
      exists id :: id in users.rows && Screen(header, c).userId == JNum(id as real) && r.user == WithoutPassword(users.rows[id])
  {
    match Screen(header, c)
    case Refused(error) => Rejected(UNAUTHORIZED, error)
    case Presents(userId) =>
      match LookupUser(users, userId)
      case StoreError => Rejected(SERVER_ERROR, INTERNAL)
      case Missing => Rejected(UNAUTHORIZED, NO_USER)
      case Found(u) => Proceed(WithoutPassword(u))
  }

  // ----- properties -----

  /** Every header that passes is a six-letter scheme spelling `bearer` in some case, a space, and the rest. */
  lemma BearerOnly(h: string)
    requires BearerHeader(Some(h))
    ensures |h| >= 7 && Lower(h[..6]) == "bearer" && h[6] == ' '
  {
    var l := Lower(h);
    assert l[..7] == "bearer ";
    assert l[6] == LowerChar(h[6]) == ' ';
    assert forall i :: 0 <= i < 6 ==> Lower(h[..6])[i] == l[i] == "bearer"[i];
  }

  /** A string or number is usable exactly when truthy; nothing else is. */
  lemma UsableUserIds(n: real, s: string, v: Json)
    ensures UsableUserId(Some(JNum(n))) <==> n != 0.0
    ensures UsableUserId(Some(JStr(s))) <==> s != ""
    ensures !v.JNum? && !v.JStr? ==> !UsableUserId(Some(v))
    ensures !UsableUserId(None)
  {
  }

  /** The prefix check ignores case: `Bearer`, `bearer`, `BEARER` all pass. */
  lemma BearerAnyCase(scheme: string, rest: string)
    requires |scheme| == 6 && Lower(scheme) == "bearer"
    ensures BearerHeader(Some(scheme + " " + rest))
  {
    LowerAppend(scheme, " ");
    assert Lower(" ") == " ";
    StartsWithLower(scheme + " ", rest);
  }

  lemma LowerBearer()
    ensures Lower("Bearer") == "bearer"
  {
    var l := Lower("Bearer");
    assert l[0] == LowerChar('B') == 'b';
    assert l[1..] == "earer";
  }

  /** A header that fails the prefix check or has an empty token field is answered without verifying or looking up anything. */
  lemma HeaderChecksFirst(header: Option<string>, c1: Crypto, c2: Crypto, users1: UserTable, users2: UserTable)
    requires !BearerHeader(header) || TokenField(header.value).None? || TokenField(header.value).value == ""
    ensures Authenticate(header, c1, users1) == Authenticate(header, c2, users2)
    ensures Authenticate(header, c1, users1).Rejected? && Authenticate(header, c1, users1).status == UNAUTHORIZED
  {
  }

  /** `Bearer ` with nothing after it, or a second space where the token should start: no token. */
  lemma EmptyTokenField(rest: string, c: Crypto, users: UserTable)
    requires rest == "" || rest[0] == ' '
    ensures Authenticate(Some("Bearer " + rest), c, users) == Rejected(UNAUTHORIZED, NO_TOKEN)
  {
    LowerBearer();
    BearerAnyCase("Bearer", rest);
    EmptySecondField(rest);
  }

  /** The field after `Bearer ` is empty when nothing or another space follows. */
  lemma EmptySecondField(rest: string)
    requires rest == "" || rest[0] == ' '
    ensures TokenField("Bearer " + rest) == Some("")
  {
    assert "Bearer " + rest == "Bearer" + [' '] + rest;
    SplitFirst("Bearer", rest, ' ');
    EmptyFirstField(rest);
  }

  lemma EmptyFirstField(rest: string)
    requires rest == "" || rest[0] == ' '
    ensures Split(rest, ' ')[0] == ""
  {
    if rest != "" {
      assert rest == [] + [' '] + rest[1..];
      SplitFirst([], rest[1..], ' ');
    }
  }

  /** Every verification error is a 401 whose message depends only on the kind of error. */
  lemma VerifyFailure(h: string, c: Crypto, users1: UserTable, users2: UserTable)
    requires BearerHeader(Some(h)) && TokenField(h).Some? && TokenField(h).value != ""
    requires !c.verify(TokenField(h).value).Verified?
    ensures Authenticate(Some(h), c, users1) == Rejected(UNAUTHORIZED, VerifyError(c.verify(TokenField(h).value)))
    ensures Authenticate(Some(h), c, users2) == Authenticate(Some(h), c, users1)
  {
  }

  /** A payload without a truthy string or number `userId` is refused before any lookup. */
  lemma BadPayloadBeforeLookup(h: string, c: Crypto, users1: UserTable, users2: UserTable)
    requires BearerHeader(Some(h)) && TokenField(h).Some? && TokenField(h).value != ""
    requires c.verify(TokenField(h).value).Verified?
    requires !UsableUserId(UserIdOf(c.verify(TokenField(h).value).payload))
    ensures Authenticate(Some(h), c, users1) == Rejected(UNAUTHORIZED, BAD_PAYLOAD)
    ensures Authenticate(Some(h), c, users2) == Authenticate(Some(h), c, users1)
  {
  }

  /** A `userId` of 0 is falsy, so it is refused as a bad payload rather than looked up. */
  lemma ZeroUserId(c: Crypto, users: UserTable, token: string)
    requires token != "" && ' ' !in token
    requires c.verify(token) == Verified(Claims(0))
    ensures Authenticate(Some("Bearer " + token), c, users) == Rejected(UNAUTHORIZED, BAD_PAYLOAD)
  {
    TokenOf(token);
  }

  /** A well-formed token for an id no user has: 401 "User not found". */
  lemma UnknownUser(c: Crypto, users: UserTable, id: nat)
    requires Sound(c) && id !in users.rows && id != 0
    ensures Authenticate(Some("Bearer " + GenerateToken(c, id)), c, users) == Rejected(UNAUTHORIZED, NO_USER)
  {
    TokenOf(GenerateToken(c, id));
    assert Claims(id).fields["userId"] == JNum(id as real);
    assert (id as real).Floor == id;
  }

  /** A token issued for a stored user lets the request through with that user, password removed. */
  lemma ValidTokenProceeds(c: Crypto, users: UserTable, id: nat)
    requires Sound(c) && users.Valid() && id in users.rows
    ensures Authenticate(Some("Bearer " + GenerateToken(c, id)), c, users) == Proceed(WithoutPassword(users.rows[id]))
  {
    TokenOf(GenerateToken(c, id));
    assert Claims(id).fields["userId"] == JNum(id as real);
    assert (id as real).Floor == id;
  }

  /** `Bearer <token>` for a token that is one word: the header passes and the token is extracted. */
  lemma TokenOf(token: string)
    requires token != "" && ' ' !in token
    ensures BearerHeader(Some("Bearer " + token))
    ensures TokenField("Bearer " + token) == Some(token)
  {
    LowerBearer();
    BearerAnyCase("Bearer", token);
    SecondField(token);
  }

  lemma SecondField(token: string)
    requires ' ' !in token
    ensures TokenField("Bearer " + token) == Some(token)
  {
    assert "Bearer " + token == "Bearer" + [' '] + token;
    SplitFirst("Bearer", token, ' ');
  }

  /** One request/response exchange as the gate sees it: `req.user`, the reply sent, and the calls to `next()`. */
  class Exchange {
    var user: Option<SafeUser>
    var response: Option<Reply<()>>
    var nextCalls: nat

    constructor ()
      ensures user == None && response == None && nextCalls == 0
    {
      user := None;
      response := None;
      nextCalls := 0;
    }
  }

  /**
   * The middleware run on one exchange: either it sends the error reply and does not
   * call `next()`, or it attaches the user and calls `next()` once without replying.
   */
  method AuthMiddleware(ex: Exchange, header: Option<string>, c: Crypto, store: UserStore)
    modifies ex
    ensures Authenticate(header, c, store.Snapshot()).Proceed? ==>
      && ex.user == Some(Authenticate(header, c, store.Snapshot()).user)
      && ex.nextCalls == old(ex.nextCalls) + 1
      && ex.response == old(ex.response)
    ensures Authenticate(header, c, store.Snapshot()).Rejected? ==>
      var r := Authenticate(header, c, store.Snapshot());
      && ex.response == Some(Reply(r.status, Error(r.error)))
      && ex.nextCalls == old(ex.nextCalls)
      && ex.user == old(ex.user)
  {
    if header.None? || !StartsWith(Lower(header.value), "bearer ") {
      ex.response := Some(Reply(UNAUTHORIZED, Error(HEADER_INVALID)));
      return;
    }
    var token := TokenField(header.value);
    if token.None? || token.value == "" {
      ex.response := Some(Reply(UNAUTHORIZED, Error(NO_TOKEN)));
      return;
    }
    var v := c.verify(token.value);
    if !v.Verified? {
      ex.response := Some(Reply(UNAUTHORIZED, Error(VerifyError(v))));
      return;
    }
    var userId := UserIdOf(v.payload);
    if !UsableUserId(userId) {
      ex.response := Some(Reply(UNAUTHORIZED, Error(BAD_PAYLOAD)));
      return;
    }
    if !(userId.value.JNum? && IsInteger(userId.value.n)) {
      ex.response := Some(Reply(SERVER_ERROR, Error(INTERNAL)));
      return;
    }
    var found := store.FindUniqueById(userId.value.n.Floor);
    if found.None? {
      ex.response := Some(Reply(UNAUTHORIZED, Error(NO_USER)));
      return;
    }
    ex.user := Some(WithoutPassword(found.value));
    ex.nextCalls := ex.nextCalls + 1;
  }
}
