/** The bearer-token middleware (backend/middleware/auth.js). jsonwebtoken's `verify`
    is foreign and arrives as a function: `None` when the token is refused (bad
    signature, expired), else the decoded payload. */
module AuthGuard {
  import opened Wrappers
  import Text
  import AuthRoutes

  type Claims = AuthRoutes.Claims
  type UserId = AuthRoutes.UserId

  const Scheme := "Bearer "

  /** What the middleware does with a request: pass it on (`next()`, exactly once)
      with `req.user` set, or answer it. */
  datatype Decision = Next(user: Claims) | Deny(status: int, message: string)

  const NoToken := Deny(401, "No token, authorization denied")
  const BadToken := Deny(401, "Token is not valid")

  /** `req.header('Authorization')?.replace('Bearer ', '')`: the first occurrence of
      "Bearer " anywhere in the header is removed; a header without it passes
      through unchanged; no header gives no token. */
  function ExtractToken(header: Option<string>): (t: Option<string>)
    ensures header.None? <==> t.None?
    ensures header.Some? && !Text.Contains(header.value, Scheme) ==> t == header
    ensures header.Some? ==>
              forall i {:trigger Text.OccursAt(header.value, Scheme, i)} ::
                Text.OccursAt(header.value, Scheme, i)
                && (forall k :: 0 <= k < i ==> !Text.OccursAt(header.value, Scheme, k))
                ==> t == Some(header.value[..i] + header.value[i + |Scheme|..])
  {
    match header
    case None => None
    case Some(h) =>
      var r := Text.ReplaceFirst(h, Scheme, "");
      assert forall i :: 0 <= i <= |h| ==> h[..i] + "" == h[..i];
      Some(r)
  }

  /** The usual header shape gives back exactly the token after the scheme. */
  lemma ExtractBearer(token: string)
    ensures ExtractToken(Some(Scheme + token)) == Some(token)
  {
    Text.ReplaceFirstPrefix(Scheme, token);
  }

  /** The middleware. A missing header, or one that reduces to the empty token, is
      refused before `verify` is consulted; a token `verify` refuses is refused; a
      verified token passes with the whole decoded payload as `req.user`. */
  function Guard(header: Option<string>, verify: (string, Option<string>) -> Option<Claims>, secret: Option<string>): (d: Decision)
    ensures (ExtractToken(header).None? || ExtractToken(header) == Some("")) <==> d == NoToken
    ensures d == BadToken <==>
      ExtractToken(header).Some? && ExtractToken(header).value != "" && verify(ExtractToken(header).value, secret).None?
    ensures d.Next? <==>
      ExtractToken(header).Some? && ExtractToken(header).value != "" && verify(ExtractToken(header).value, secret).Some?
    ensures d.Next? ==> d.user == verify(ExtractToken(header).value, secret).value
  {
    match ExtractToken(header)
    case None => NoToken
    case Some(token) =>
      if token == "" then NoToken
      else
        match verify(token, secret)
        case None => BadToken
        case Some(decoded) => Next(decoded)
  }

  /** "Bearer " with nothing after it is treated like a missing header. */
  lemma SchemeAloneIsNoToken(verify: (string, Option<string>) -> Option<Claims>, secret: Option<string>)
    ensures Guard(Some(Scheme), verify, secret) == NoToken
  {
    ExtractBearer("");
    assert Scheme + "" == Scheme;
  }

  /** The acting id the workout handlers read: `req.user.id`, the top-level `id` of
      the decoded payload. */
  function ActingIdAsRead(user: Claims): Option<UserId> {
    user.id
  }

  /** Every token signup or login issues passes the guard, yet the acting id the
      workout handlers read from it is undefined: the payload carries the id only as
      `user.id`, one level down. */
  lemma IssuedTokenHasNoActingId(token: string, uid: UserId, verify: (string, Option<string>) -> Option<Claims>, secret: Option<string>)
    requires token != ""
    requires verify(token, secret) == Some(AuthRoutes.IssuedClaims(uid))
    ensures Guard(Some(Scheme + token), verify, secret) == Next(AuthRoutes.IssuedClaims(uid))
    ensures ActingIdAsRead(Guard(Some(Scheme + token), verify, secret).user) == None
    ensures Guard(Some(Scheme + token), verify, secret).user.user == Some(AuthRoutes.UserRef(uid))
  {
    ExtractBearer(token);
  }
}
