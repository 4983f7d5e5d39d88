/**
  The handlers of `src/controllers/AuthController.js`. Password hashing, the
  User table and token signing belong to the authentication service and are
  the parameters `register` and `login`; `jsonwebtoken.verify` is `verify`.
 */
module AuthController {
  import opened Wrappers
  import opened Js
  import opened Text
  import opened Http
  import opened AuthMiddleware

  // ---------------------------------------------------------------- register and login

  /** The fields `postRegister` reads from `req.body`. */
  datatype RegisterBody = RegisterBody(email: Value, password: Value, isAdmin: Value)

  /** The fields `postLogin` reads from `req.body`. */
  datatype LoginBody = LoginBody(email: Value, password: Value)

  const CredentialsMessage := "Email & password required"

  /** `isAdmin ? 1 : 0`: the flag stored for the new user, taken from the request as sent. */
  function AdminFlag(isAdmin: Value): (flag: int)
    ensures flag == 0 || flag == 1
    ensures flag == 1 <==> Truthy(isAdmin)
  {
    if Truthy(isAdmin) then 1 else 0
  }

  /**
    `postRegister`: 400 'Email & password required' when either is falsy;
    otherwise the user is registered with the flag above and the answer is 201
    `{ email }`, or the service's error goes to `next`. `register` yields the
    error the service rejects with, or `None` once the user is stored.
   */
  function PostRegister(b: RegisterBody, register: (Value, Value, int) -> Option<ErrorObject>): (r: Reply<Value>)
    ensures r == Refuse(400, CredentialsMessage) <==> !Truthy(b.email) || !Truthy(b.password)
    ensures r.Respond? && r.status == 201 <==>
      Truthy(b.email) && Truthy(b.password) && register(b.email, b.password, AdminFlag(b.isAdmin)).None?
    ensures r.Respond? && r.status == 201 ==> r.body == Data(b.email)
    ensures r.Next? <==>
      Truthy(b.email) && Truthy(b.password) && register(b.email, b.password, AdminFlag(b.isAdmin)).Some?
    ensures r.Next? ==> r.err == register(b.email, b.password, AdminFlag(b.isAdmin)).value
  {
    if !Truthy(b.email) || !Truthy(b.password) then Refuse(400, CredentialsMessage)
    else
      match register(b.email, b.password, AdminFlag(b.isAdmin))
      case None => Respond(201, Data(b.email))
      case Some(err) => Next(err)
  }

  /**
    `postLogin`: 200 `{ token }` with the token the service signs, or 401 with
    the message of whatever it rejected with; the error never reaches `next`.
   */
  function PostLogin(b: LoginBody, login: (Value, Value) -> Result<string, Value>): (r: Reply<string>)
    ensures r.Respond? && (r.status == 200 || r.status == 401)
    ensures r.status == 200 <==> login(b.email, b.password).Success?
    ensures r.status == 200 ==> r.body == Data(login(b.email, b.password).value)
    ensures r.status == 401 ==> r.body == Error(login(b.email, b.password).error)
  {
    match login(b.email, b.password)
    case Success(token) => Respond(200, Data(token))
    case Failure(message) => Respond(401, Error(message))
  }

  /**
    Registration takes the admin flag from the request: the user a truthy
    `isAdmin` registers holds the flag whose login payload (`isAdmin:
    !!is_admin`) `authorizeAdmin` lets through, and a falsy one holds the flag
    it refuses. Anyone can register an admin.
   */
  lemma SelfRegisteredAdmin(b: RegisterBody, register: (Value, Value, int) -> Option<ErrorObject>)
    ensures AuthorizeAdmin(Some(Claims(b.email, Bool(AdminFlag(b.isAdmin) != 0)))).Proceed? <==> Truthy(b.isAdmin)
    ensures Truthy(b.email) && Truthy(b.password) && register(b.email, b.password, AdminFlag(b.isAdmin)).None? ==>
      PostRegister(b, register) == Respond(201, Data(b.email))
  {
  }

  /**
    A token `postLogin` hands out, sent back as 'Bearer ' and the token, is
    read as that token by both parsers, so the middleware and `getMe` accept
    it exactly when it verifies, with the same payload. A signed JWT is
    base64url text joined by dots, so it has no whitespace.
   */
  lemma LoginTokenAccepted(b: LoginBody, login: (Value, Value) -> Result<string, Value>, verify: string -> Option<Claims>)
    requires login(b.email, b.password).Success?
    requires login(b.email, b.password).value != [] && NoSpace(login(b.email, b.password).value)
    ensures var tok := login(b.email, b.password).value;
      var h := "Bearer " + tok;
      && PostLogin(b, login) == Respond(200, Data(tok))
      && BearerToken(h) == Some(tok)
      && MeToken(h) == Success(tok)
      && (verify(tok).Some? ==>
            && Authenticate(Some(h), verify) == Proceed(verify(tok).value)
            && GetMe(Some(h), verify) == Respond(200, Data(Me(verify(tok).value.email, verify(tok).value.isAdmin))))
  {
    var tok := login(b.email, b.password).value;
    var h := "Bearer " + tok;
    assert ' ' !in tok by {
      forall k | 0 <= k < |tok| ensures tok[k] != ' ' {
        assert !IsSpace(tok[k]);
      }
    }
    assert h[..7] == "Bearer " && h[7..7 + |tok|] == tok;
    ShapedIsBearerToken(h, tok);
    assert "Bearer" + " " + tok == h;
    MeAcceptsRun(" ", tok);
  }

  // ---------------------------------------------------------------- the current user

  /** `{ email, isAdmin }` of the token's payload. */
  datatype Me = Me(email: Value, isAdmin: Value)

  const MeNoHeaderMessage := "No Authorization header provided"
  const MeMalformedMessage := "Malformed Authorization header"
  const NoTokenMessage := "No token provided"

  /**
    `authHeader.trim().split(/\s+/, 2)`: two pieces are needed, the first
    exactly 'Bearer'; an empty second piece is 'No token provided'.
   */
  function MeToken(h: string): (r: Result<string, string>)
    ensures r.Failure? ==> r.error == MeMalformedMessage || r.error == NoTokenMessage
    ensures r.Success? ==> r.value != [] && NoSpace(r.value)
  {
    var parts := SplitWs(Trim(h));
    if |parts| < 2 || parts[0] != "Bearer" then Failure(MeMalformedMessage)
    else if parts[1] == [] then Failure(NoTokenMessage)
    else Success(parts[1])
  }

  /**
    The trimmed headers `getMe` takes `tok` from, described directly: 'Bearer',
    a run of whitespace of any length and kind, then `tok` (non-empty, without
    whitespace) up to the end or the next whitespace.
   */
  predicate MeShaped(t: string, tok: string)
  {
    && 6 < |t| && t[..6] == "Bearer" && IsSpace(t[6])
    && var rest := t[6..];
       var tail := rest[LeadingSpace(rest)..];
       && |tok| <= |tail| && tail[..|tok|] == tok
       && tok != [] && NoSpace(tok)
       && (|tok| == |tail| || IsSpace(tail[|tok|]))
  }

  lemma MeTokenIsShaped(h: string)
    requires MeToken(h).Success?
    ensures MeShaped(Trim(h), MeToken(h).value)
  {
    SplitIsShaped(Trim(h));
  }

  /** A split whose first piece is 'Bearer' and whose second is non-empty comes from a shaped text. */
  lemma SplitIsShaped(t: string)
    requires |SplitWs(t)| >= 2 && SplitWs(t)[0] == "Bearer" && SplitWs(t)[1] != []
    ensures MeShaped(t, SplitWs(t)[1])
  {
    SplitWsHead(t);
    SplitWsSecond(t);
    assert FirstSpace(t) == 6;
  }

  /** The scheme word contains no whitespace. */
  lemma SchemeHasNoSpace()
    ensures NoSpace("Bearer")
  {
  }

  lemma ShapedSplit(t: string, tok: string)
    requires MeShaped(t, tok)
    ensures |SplitWs(t)| >= 2 && SplitWs(t)[0] == "Bearer" && SplitWs(t)[1] == tok
  {
    SchemeHasNoSpace();
    NoSpacePrefix(t, "Bearer");
    FirstSpaceAt(t, 6);
    SplitWsHead(t);
    var rest := t[6..];
    var tail := rest[LeadingSpace(rest)..];
    NoSpacePrefix(tail, tok);
    FirstSpaceAt(tail, |tok|);
    SplitWsHead(tail);
  }

  lemma ShapedIsMeToken(h: string, tok: string)
    requires MeShaped(Trim(h), tok)
    ensures MeToken(h) == Success(tok)
  {
    ShapedSplit(Trim(h), tok);
  }

  /** `getMe`'s parser yields `tok` exactly for the headers whose trimmed text is shaped around it. */
  lemma MeTokenIffShaped(h: string, tok: string)
    ensures MeToken(h) == Success(tok) <==> MeShaped(Trim(h), tok)
  {
    if MeToken(h) == Success(tok) { MeTokenIsShaped(h); }
    if MeShaped(Trim(h), tok) { ShapedIsMeToken(h, tok); }
  }

  /**
    The 'No token provided' branch cannot be taken: after `trim`, a split on
    whitespace runs yields no empty piece.
   */
  lemma MeTokenNeverEmpty(h: string)
    ensures MeToken(h) != Failure(NoTokenMessage)
  {
    var t := Trim(h);
    if t != [] {
      SplitWsTrimmedPiecesNonEmpty(t);
    }
  }

  /**
    `getMe`: 401 'No Authorization header provided' for a missing or empty
    header, 401 with the parser's message for a header it rejects, 401
    'Invalid or expired token' when `verify` rejects the token, and otherwise
    200 with the payload's `email` and `isAdmin`.
   */
  function GetMe(header: Option<string>, verify: string -> Option<Claims>): (r: Reply<Me>)
    ensures r.Respond? && (r.status == 200 || r.status == 401)
    ensures r == Refuse(401, MeNoHeaderMessage) <==> header.None? || header.value == []
    ensures r == Refuse(401, MeMalformedMessage) <==>
      header.Some? && header.value != [] && MeToken(header.value) == Failure(MeMalformedMessage)
    ensures r == Refuse(401, InvalidTokenMessage) <==>
      header.Some? && header.value != [] && MeToken(header.value).Success? && verify(MeToken(header.value).value).None?
    ensures header.Some? && header.value != [] && MeToken(header.value).Success?
            && verify(MeToken(header.value).value).Some? ==>
      var claims := verify(MeToken(header.value).value).value;
      r == Respond(200, Data(Me(claims.email, claims.isAdmin)))
    ensures r.status == 200 ==>
      && header.Some? && MeToken(header.value).Success?
      && MeShaped(Trim(header.value), MeToken(header.value).value)
      && var claims := verify(MeToken(header.value).value);
         claims.Some? && r.body == Data(Me(claims.value.email, claims.value.isAdmin))
  {
    if header.None? || header.value == [] then Refuse(401, MeNoHeaderMessage)
    else
      match MeToken(header.value)
      case Failure(message) => Refuse(401, message)
      case Success(tok) =>
        MeTokenIsShaped(header.value);
        match verify(tok)
        case None => Refuse(401, InvalidTokenMessage)
        case Some(claims) => Respond(200, Data(Me(claims.email, claims.isAdmin)))
  }

  /**
    The two parsers of the same header disagree: `getMe` accepts 'Bearer', any
    whitespace run and a token, while `authenticate` accepts only a single
    space there. A tab rejects the header outright; several spaces, or a space
    followed by other whitespace, leave `authenticate` without this token.
   */
  lemma ParsersDisagree(ws: string, tok: string)
    requires ws != [] && AllSpace(ws) && ws != " "
    requires tok != [] && NoSpace(tok)
    ensures MeToken("Bearer" + ws + tok) == Success(tok)
    ensures BearerToken("Bearer" + ws + tok) != Some(tok)
    ensures ws[0] != ' ' ==> BearerToken("Bearer" + ws + tok) == None
  {
    MeAcceptsRun(ws, tok);
    BearerRefusesRun(ws, tok);
  }

  lemma MeAcceptsRun(ws: string, tok: string)
    requires ws != [] && AllSpace(ws)
    requires tok != [] && NoSpace(tok)
    ensures MeToken("Bearer" + ws + tok) == Success(tok)
  {
    var h := "Bearer" + ws + tok;
    WhitespaceRunIsShaped(ws, tok);
    assert MeShaped(Trim(h), tok);
    ShapedIsMeToken(h, tok);
  }

  lemma BearerRefusesRun(ws: string, tok: string)
    requires ws != [] && AllSpace(ws) && ws != " "
    requires tok != [] && NoSpace(tok)
    ensures BearerToken("Bearer" + ws + tok) != Some(tok)
    ensures ws[0] != ' ' ==> BearerToken("Bearer" + ws + tok) == None
  {
    if ws[0] != ' ' {
      SchemeRunsOn(ws, tok);
    } else {
      SecondPieceIsSpace(ws, tok);
    }
  }

  lemma WhitespaceRunIsShaped(ws: string, tok: string)
    requires ws != [] && AllSpace(ws)
    requires tok != [] && NoSpace(tok)
    ensures Trim("Bearer" + ws + tok) == "Bearer" + ws + tok
    ensures MeShaped("Bearer" + ws + tok, tok)
  {
    BearerRunTrimmed(ws, tok);
    BearerRunShaped(ws, tok);
  }

  lemma BearerRunTrimmed(ws: string, tok: string)
    requires tok != []
    requires NoSpace(tok)
    ensures Trim("Bearer" + ws + tok) == "Bearer" + ws + tok
  {
    var h := "Bearer" + ws + tok;
    assert h[0] == 'B';
    assert h[|h| - 1] == tok[|tok| - 1];
    TrimKeepsTrimmed(h);
  }

  lemma BearerRunShaped(ws: string, tok: string)
    requires ws != [] && AllSpace(ws)
    requires tok != [] && NoSpace(tok)
    ensures MeShaped("Bearer" + ws + tok, tok)
  {
    var h := "Bearer" + ws + tok;
    var rest := h[6..];
    assert rest == ws + tok;
    assert h[..6] == "Bearer";
    assert h[6] == ws[0];
    assert rest[..|ws|] == ws;
    SpacePrefix(rest, ws);
    assert rest[|ws|] == tok[0];
    LeadingSpaceAt(rest, |ws|);
    assert rest[|ws|..] == tok;
  }

  /** Without a space right after 'Bearer', the first piece of `split(' ')` is longer than 'Bearer'. */
  lemma SchemeRunsOn(ws: string, tok: string)
    requires ws != [] && ws[0] != ' '
    ensures BearerToken("Bearer" + ws + tok) == None
  {
    var h := "Bearer" + ws + tok;
    SplitOnHead(h, ' ');
    assert h[6] == ws[0];
    assert |SplitOn(h, ' ')[0]| != 6;
  }

  /** After 'Bearer' and one space, `split(' ')` yields an empty piece or one that starts with whitespace. */
  lemma SecondPieceIsSpace(ws: string, tok: string)
    requires |ws| >= 2 && AllSpace(ws) && ws[0] == ' '
    requires tok != [] && NoSpace(tok)
    ensures BearerToken("Bearer" + ws + tok) != Some(tok)
  {
    var h := "Bearer" + ws + tok;
    IndexOfAt(h, ' ', 6);
    SplitOnHead(h, ' ');
    var after := h[7..];
    SplitOnHead(after, ' ');
    var second := SplitOn(after, ' ')[0];
    assert after[0] == ws[1];
    assert second == [] || second[0] == ws[1];
    assert second == [] || IsSpace(second[0]);
  }

  /** The tab case end to end: `/auth/me` answers 200 for a header every other route refuses as malformed. */
  lemma TabSeparatedHeader(tok: string, verify: string -> Option<Claims>)
    requires tok != [] && NoSpace(tok)
    requires verify(tok).Some?
    ensures GetMe(Some("Bearer\t" + tok), verify) == Respond(200, Data(Me(verify(tok).value.email, verify(tok).value.isAdmin)))
    ensures Authenticate(Some("Bearer\t" + tok), verify) == Deny(401, MalformedMessage)
  {
    var h := "Bearer\t" + tok;
    assert "Bearer" + "\t" + tok == h;
    ParsersDisagree("\t", tok);
    assert MeToken(h) == Success(tok) && BearerToken(h) == None;
  }
}
