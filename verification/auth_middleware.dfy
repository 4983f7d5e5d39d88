/**
  The two middlewares of `src/middleware/Authenticate.js`: `authenticate`
  parses `Authorization: Bearer <token>` and verifies the token;
  `authorizeAdmin` admits only users whose `isAdmin` is truthy. Token
  verification (`jwt.verify` with the server secret) is the parameter `verify`:
  the payload for a valid token, `None` when it throws.
 */
module AuthMiddleware {
  import opened Wrappers
  import opened Js
  import opened Text

  /** The JWT payload fields the handlers read. */
  datatype Claims = Claims(email: Value, isAdmin: Value)

  /** A middleware either calls `next()` (with the user it attached) or answers with an error. */
  datatype Gate = Proceed(user: Claims) | Deny(status: int, error: string)

  const NoHeaderMessage := "No authorization header provided"
  const MalformedMessage := "Malformed authorization header"
  const InvalidTokenMessage := "Invalid or expired token"
  const AdminMessage := "Admin access required"

  /**
    `const [scheme, token] = header.split(' ')`, accepted when `scheme` is
    exactly 'Bearer' and `token` is truthy (present and non-empty).
   */
  function BearerToken(h: string): (r: Option<string>)
    ensures r.Some? ==> r.value != [] && ' ' !in r.value
  {
    var parts := SplitOn(h, ' ');
    if parts[0] == "Bearer" && |parts| >= 2 && parts[1] != [] then Some(parts[1]) else None
  }

  /**
    The headers the single-space split accepts, described directly: 'Bearer',
    one space, a non-empty token without spaces, then the end or a space
    (anything after it is ignored).
   */
  predicate BearerShaped(h: string, tok: string)
  {
    && 7 + |tok| <= |h|
    && h[..7] == "Bearer "
    && h[7..7 + |tok|] == tok
    && tok != [] && ' ' !in tok
    && (7 + |tok| == |h| || h[7 + |tok|] == ' ')
  }

  lemma SplitOnHead(s: string, c: char)
    ensures SplitOn(s, c)[0] == s[..IndexOf(s, c)]
    ensures IndexOf(s, c) < |s| ==> SplitOn(s, c)[1..] == SplitOn(s[IndexOf(s, c) + 1..], c)
  {
  }

  lemma BearerTokenIsShaped(h: string)
    requires BearerToken(h).Some?
    ensures BearerShaped(h, BearerToken(h).value)
  {
    var parts := SplitOn(h, ' ');
    SplitOnHead(h, ' ');
    var k := IndexOf(h, ' ');
    assert k < |h|;
    assert k == 6;
    var rest := h[7..];
    SplitOnHead(rest, ' ');
    var tok := BearerToken(h).value;
    assert tok == parts[1] == SplitOn(rest, ' ')[0];
    assert h[7..7 + |tok|] == rest[..|tok|];
  }

  lemma ShapedIsBearerToken(h: string, tok: string)
    requires BearerShaped(h, tok)
    ensures BearerToken(h) == Some(tok)
  {
    assert h[6] == ' ';
    IndexOfAt(h, ' ', 6);
    SplitOnHead(h, ' ');
    var rest := h[7..];
    assert rest[..|tok|] == tok;
    if |tok| < |rest| {
      IndexOfAt(rest, ' ', |tok|);
    } else {
      assert rest == tok;
      IndexOfAbsent(rest, ' ');
    }
    SplitOnHead(rest, ' ');
  }

  /** The single-space parser yields `tok` exactly for the headers shaped around it. */
  lemma BearerTokenIffShaped(h: string, tok: string)
    ensures BearerToken(h) == Some(tok) <==> BearerShaped(h, tok)
  {
    if BearerToken(h) == Some(tok) { BearerTokenIsShaped(h); }
    if BearerShaped(h, tok) { ShapedIsBearerToken(h, tok); }
  }

  /** A leading space, or two spaces after the scheme, make a header malformed. */
  lemma ExtraSpacesAreMalformed(tok: string)
    ensures BearerToken(" Bearer " + tok) == None
    ensures BearerToken("Bearer  " + tok) == None
  {
    var leading := " Bearer " + tok;
    IndexOfAt(leading, ' ', 0);
    SplitOnHead(leading, ' ');
    var doubled := "Bearer  " + tok;
    IndexOfAt(doubled, ' ', 6);
    SplitOnHead(doubled, ' ');
    IndexOfAt(doubled[7..], ' ', 0);
    SplitOnHead(doubled[7..], ' ');
  }

  /**
    `authenticate`: a missing or empty header is 401 'No authorization header
    provided'; a header the split rejects is 401 'Malformed authorization
    header'; a token `verify` rejects is 401 'Invalid or expired token';
    otherwise `next()` runs with the token's payload as the user.
   */
  function Authenticate(header: Option<string>, verify: string -> Option<Claims>): (g: Gate)
    ensures g.Deny? ==> g.status == 401
    ensures g == Deny(401, NoHeaderMessage) <==> header.None? || header.value == []
    ensures g == Deny(401, MalformedMessage) <==> header.Some? && header.value != [] && BearerToken(header.value).None?
    ensures g.Proceed? ==>
      && header.Some?
      && BearerShaped(header.value, BearerToken(header.value).value)
      && verify(BearerToken(header.value).value) == Some(g.user)
  {
    if header.None? || header.value == [] then Deny(401, NoHeaderMessage)
    else
      match BearerToken(header.value)
      case None => Deny(401, MalformedMessage)
      case Some(tok) =>
        BearerTokenIsShaped(header.value);
        match verify(tok)
        case None => Deny(401, InvalidTokenMessage)
        case Some(claims) => Proceed(claims)
  }

  /** A header shaped around `tok` is accepted exactly when `verify` accepts `tok`, and then with its payload. */
  lemma AuthenticateShapedHeader(h: string, tok: string, verify: string -> Option<Claims>)
    requires BearerShaped(h, tok)
    ensures verify(tok).None? ==> Authenticate(Some(h), verify) == Deny(401, InvalidTokenMessage)
    ensures verify(tok).Some? ==> Authenticate(Some(h), verify) == Proceed(verify(tok).value)
  {
    ShapedIsBearerToken(h, tok);
  }

  /** `authorizeAdmin`: 403 'Admin access required' unless there is a user whose `isAdmin` is truthy. */
  function AuthorizeAdmin(user: Option<Claims>): (g: Gate)
    ensures g.Deny? <==> user.None? || !Truthy(user.value.isAdmin)
    ensures g.Deny? ==> g == Deny(403, AdminMessage)
    ensures g.Proceed? ==> g.user == user.value
  {
    if user.None? || !Truthy(user.value.isAdmin) then Deny(403, AdminMessage) else Proceed(user.value)
  }

  /**
    The chain the flight-changing routes run: `authenticate`, then
    `authorizeAdmin`. It refuses with 401 or 403, and lets through only the
    verified payload of the header's token, with a truthy `isAdmin`.
   */
  function AdminGate(header: Option<string>, verify: string -> Option<Claims>): (g: Gate)
    ensures g.Deny? ==> g.status == 401 || g.status == 403
    ensures g.Proceed? ==> Authenticate(header, verify) == Proceed(g.user) && Truthy(g.user.isAdmin)
  {
    match Authenticate(header, verify)
    case Deny(status, error) => Deny(status, error)
    case Proceed(user) => AuthorizeAdmin(Some(user))
  }

  /**
    The chain lets a request through exactly when its header is shaped around a
    token that verifies to a payload whose `isAdmin` is truthy; every refusal
    is 401 or 403.
   */
  lemma AdminGatePasses(header: Option<string>, verify: string -> Option<Claims>)
    ensures AdminGate(header, verify).Proceed? <==>
      header.Some? && (exists tok :: BearerShaped(header.value, tok) && verify(tok).Some? && Truthy(verify(tok).value.isAdmin))
    ensures AdminGate(header, verify).Deny? ==> AdminGate(header, verify).status in {401, 403}
  {
    if header.Some? {
      forall tok | BearerShaped(header.value, tok) ensures BearerToken(header.value) == Some(tok) {
        ShapedIsBearerToken(header.value, tok);
      }
      if AdminGate(header, verify).Proceed? {
        BearerTokenIsShaped(header.value);
      }
    }
  }
}
