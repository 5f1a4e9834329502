/** The JSON Web Tokens (RFC 7519) that python-jose signs and checks with
    HS256, abstracted: a token either carries its claims together with the
    key that signed them, or is not a JWT at all. Only a holder of the key
    can produce a token signed with it. */
module Jwt {
  import opened Wrappers

  /** A claim value: a string, or a NumericDate in seconds since the epoch. */
  datatype Claim = Str(text: string) | NumericDate(seconds: int)

  type Claims = map<string, Claim>

  datatype Token = Signed(claims: Claims, key: string) | Malformed(raw: string)

  /** The `JWTError` subclasses that `jwt.decode` raises. */
  datatype JwtError = NotAJwt | BadSignature | BadClaims | Expired

  /** `jwt.encode(claims, key, algorithm="HS256")`. */
  function Encode(claims: Claims, key: string): Token {
    Signed(claims, key)
  }

  /** `exp` is optional; when present it must be a NumericDate that the
      current time has not passed. python-jose (with zero leeway) rejects a
      token only once `exp < now`, so the expiry second itself is accepted,
      one second later than section 4.1.4 of RFC 7519 asks. */
  predicate Unexpired(claims: Claims, now: int) {
    "exp" in claims ==> claims["exp"].NumericDate? && now <= claims["exp"].seconds
  }

  /** `sub` is optional; when present it must be a string (section 4.1.2 of RFC 7519). */
  predicate SubjectIsString(claims: Claims) {
    "sub" in claims ==> claims["sub"].Str?
  }

  /** `jwt.decode(token, key, algorithms=["HS256"])` at time `now`. */
  function Decode(token: Token, key: string, now: int): Result<Claims, JwtError> {
    match token
    case Malformed(_) => Failure(NotAJwt)
    case Signed(claims, signer) =>
      if signer != key then Failure(BadSignature)
      else if !Unexpired(claims, now) then Failure(Expired)
      else if !SubjectIsString(claims) then Failure(BadClaims)
      else Success(claims)
  }

  /** Decoding a token with the key that signed it gives back its claims
      while it is unexpired; decoding succeeds for nothing else. */
  lemma DecodeEncode(claims: Claims, key: string, token: Token, now: int)
    ensures Decode(Encode(claims, key), key, now).Success? <==> Unexpired(claims, now) && SubjectIsString(claims)
    ensures Decode(Encode(claims, key), key, now).Success? ==> Decode(Encode(claims, key), key, now).value == claims
    ensures Decode(token, key, now).Success? ==> token == Encode(Decode(token, key, now).value, key)
  {
  }
}
