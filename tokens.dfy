/**
 * The primitives the account handlers use without looking inside: password hashing
 * and comparison (bcrypt), token signing and verification (JSON Web Tokens), bundled
 * so that a handler takes them as one argument.
 */
module Tokens {
  import opened Js

  /** What `jwt.verify` gives: the payload, or the kind of error it throws. */
  datatype Verification =
    | Verified(payload: Json)
    | Expired     // TokenExpiredError
    | Malformed   // JsonWebTokenError
    | Failed      // any other error

  datatype Crypto = Crypto(
    hash: string -> string,
    compare: (string, string) -> bool,
    sign: Json -> string,
    verify: string -> Verification)

  /** The claims `{ userId }` of a session token. */
  function Claims(id: nat): (j: Json)
    ensures j.JObj? && "userId" in j.fields && j.fields["userId"] == JNum(id as real)
  {
    JObj(map["userId" := JNum(id as real)])
  }

  /** `generateToken(userId)`. */
  function GenerateToken(c: Crypto, id: nat): string
  {
    c.sign(Claims(id))
  }

  /**
   * What the handlers rely on: a password matches its own hash, a token signed here
   * verifies to its claims (expiry aside), and a token is one non-empty word.
   */
  ghost predicate Sound(c: Crypto)
  {
    && (forall p :: c.compare(p, c.hash(p)))
    && (forall id: nat :: c.verify(c.sign(Claims(id))) == Verified(Claims(id)))
    && (forall j :: c.sign(j) != "" && ' ' !in c.sign(j))
  }

  /** Under sound primitives two users never get the same session token. */
  lemma TokensDistinct(c: Crypto, a: nat, b: nat)
    requires Sound(c) && a != b
    ensures GenerateToken(c, a) != GenerateToken(c, b)
  {
    assert c.verify(c.sign(Claims(a))) == Verified(Claims(a));
    assert c.verify(c.sign(Claims(b))) == Verified(Claims(b));
    assert Claims(a).fields["userId"] != Claims(b).fields["userId"];
  }

  /** Under sound primitives a session token verifies back to the id it was issued for. */
  lemma GenerateTokenVerifies(c: Crypto, id: nat)
    requires Sound(c)
    ensures var v := c.verify(GenerateToken(c, id));
      v.Verified? && v.payload.JObj? && v.payload.fields["userId"] == JNum(id as real)
  {
  }
}
