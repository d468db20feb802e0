/**
 * Token claims and `generateJWTs`. The JSON Web Token library is a
 * `Signer` value: `sign` picks the secret and lifetime for the token kind,
 * `verify` checks a token under one kind. Neither is interpreted; lemmas
 * that need a round trip assume it explicitly through `Faithful`.
 */
module Tokens {
  import opened Results
  import opened Users

  datatype TokenKind = Access | Refresh

  /** The payload handed to the signer; `None` fields are absent from the token. */
  datatype Claims = Claims(sub: UserId, email: Option<string>, role: Option<string>)

  /** What verification yields: the payload, or the library's error name. */
  datatype VerifyOutcome = Verified(claims: Claims) | Rejected(errorName: string)

  datatype Signer = Signer(sign: (TokenKind, Claims) -> string, verify: (TokenKind, string) -> VerifyOutcome)

  datatype TokenPair = TokenPair(accessToken: string, refreshToken: string)

  /** Verifying a freshly signed token of the same kind gives back its claims. */
  ghost predicate Faithful(s: Signer, kind: TokenKind) {
    forall c :: s.verify(kind, s.sign(kind, c)) == Verified(c)
  }

  /** The two signers produce identical tokens of this kind. */
  ghost predicate AgreeOn(s1: Signer, s2: Signer, kind: TokenKind) {
    forall c :: s1.sign(kind, c) == s2.sign(kind, c)
  }

  /**
   * `generateJWTs`: a refresh token whose payload is the subject alone, and
   * an access token carrying subject, email and role.
   */
  function GenerateJWTs(s: Signer, id: UserId, email: string, role: Option<string>): (r: TokenPair)
    ensures Faithful(s, Refresh) ==> s.verify(Refresh, r.refreshToken) == Verified(Claims(id, None, None))
    ensures Faithful(s, Access) ==> s.verify(Access, r.accessToken) == Verified(Claims(id, Some(email), role))
  {
    var refresh := s.sign(Refresh, Claims(id, None, None));
    var access := s.sign(Access, Claims(id, Some(email), role));
    TokenPair(access, refresh)
  }

  /** The refresh token does not depend on the email or the role: its payload is the id alone. */
  lemma RefreshTokenIgnoresProfile(s: Signer, id: UserId, e1: string, e2: string, r1: Option<string>, r2: Option<string>)
    ensures GenerateJWTs(s, id, e1, r1).refreshToken == GenerateJWTs(s, id, e2, r2).refreshToken
  {
  }

  /** Both tokens name the same subject, the given id. */
  lemma TokensShareSubject(s: Signer, id: UserId, email: string, role: Option<string>)
    requires Faithful(s, Access) && Faithful(s, Refresh)
    ensures var p := GenerateJWTs(s, id, email, role);
            s.verify(Access, p.accessToken).claims.sub == s.verify(Refresh, p.refreshToken).claims.sub == id
  {
  }

  /**
   * Each token goes through its own kind's signer only: changing how the
   * other kind is signed cannot change it.
   */
  lemma EachTokenUsesItsOwnSigner(s1: Signer, s2: Signer, id: UserId, email: string, role: Option<string>)
    ensures AgreeOn(s1, s2, Refresh) ==>
              GenerateJWTs(s1, id, email, role).refreshToken == GenerateJWTs(s2, id, email, role).refreshToken
    ensures AgreeOn(s1, s2, Access) ==>
              GenerateJWTs(s1, id, email, role).accessToken == GenerateJWTs(s2, id, email, role).accessToken
  {
  }
}

/** `shouldRotateRefreshToken`, with the clock reading passed in and the threshold a real number. */
module Rotation {
  import opened Results

  const DefaultThreshold: real := 0.5

  /**
   * Rotate when `iat` or `exp` is absent or zero; otherwise rotate once the
   * token's age strictly exceeds the given fraction of its lifetime.
   */
  function ShouldRotateRefreshToken(iat: Option<int>, exp: Option<int>, now: int, threshold: real): (r: bool)
    ensures iat.None? || exp.None? || iat == Some(0) || exp == Some(0) ==> r
    ensures (iat.Some? && exp.Some? && iat.value != 0 && exp.value != 0
             && now <= iat.value <= exp.value && threshold >= 0.0) ==> !r
  {
    if iat.None? || exp.None? || iat.value == 0 || exp.value == 0 then true
    else
      var age := now - iat.value;
      var lifetime := exp.value - iat.value;
      age as real > lifetime as real * threshold
  }

  /** With the default threshold the rule is: twice the age exceeds the lifetime. */
  lemma DefaultIsHalfLife(iat: int, exp: int, now: int)
    requires iat != 0 && exp != 0
    ensures ShouldRotateRefreshToken(Some(iat), Some(exp), now, DefaultThreshold) <==> 2 * (now - iat) > exp - iat
  {
  }

  /** Exactly at half the lifetime there is no rotation yet; one second later there is. */
  lemma HalfLifeBoundary(iat: int, half: int)
    requires iat != 0 && half > 0 && iat + 2 * half != 0
    ensures !ShouldRotateRefreshToken(Some(iat), Some(iat + 2 * half), iat + half, DefaultThreshold)
    ensures ShouldRotateRefreshToken(Some(iat), Some(iat + 2 * half), iat + half + 1, DefaultThreshold)
  {
  }

  /** Once rotation is due it stays due at every later time. */
  lemma RotationMonotoneInTime(iat: Option<int>, exp: Option<int>, now1: int, now2: int, threshold: real)
    requires now1 <= now2
    requires ShouldRotateRefreshToken(iat, exp, now1, threshold)
    ensures ShouldRotateRefreshToken(iat, exp, now2, threshold)
  {
  }
}
