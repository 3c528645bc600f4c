/** The authorization gate of backend/middleware/auth.js: `verifyToken` reads
 *  the `authorization` header, extracts the token and verifies it, and the
 *  role gates `isAdmin`, `isTeacher` and `isStudent` compare `req.user.role`.
 *  JWT verification is a parameter: `verify(token)` is `Some(claims)` when
 *  the signature and expiry check succeed and `None` otherwise. */
module Middleware {
  import opened Common

  /** The decoded JWT payload the handlers use. */
  datatype Claims = Claims(id: string, role: string)

  /** What a middleware does: call `next()`, or answer with an error. */
  datatype Gate = Next | Deny(status: nat, message: string)

  /** The outcome of token verification. */
  datatype Authentication = Authenticated(claims: Claims) | Rejected(status: nat, message: string)

  /** The outcome of a router's middleware chain: the handler runs with
   *  `req.user`, or the request is answered with an error. */
  datatype Access = Granted(user: Claims) | Denied(status: nat, message: string)

  /** `authHeader.split(" ")[1]`: the second space-separated field, if any. */
  function TokenField(header: string): Option<string> {
    var fields := Split(header, ' ');
    if |fields| > 1 then Some(fields[1]) else None
  }

  /** The decision `verifyToken` takes for a header value and a verifier. */
  function Authenticate(header: Option<string>, verify: string -> Option<Claims>): (r: Authentication)
    ensures r.Authenticated? ==>
              header.Some? && TokenField(header.value).Some? && verify(TokenField(header.value).value) == Some(r.claims)
    ensures r.Rejected? ==> r.status == 400 || r.status == 401
  {
    if header.None? || !Present(header.value) then
      Rejected(400, "No token provided")
    else
      match TokenField(header.value)
      case None => Rejected(400, "Invalid token format")
      case Some(token) =>
        if !Present(token) then Rejected(400, "Invalid token format")
        else
          match verify(token)
          case None => Rejected(401, "Invalid token")
          case Some(decoded) => Authenticated(decoded)
  }

  /** A header without a value is refused with 400 before anything is verified. */
  lemma MissingHeaderRejected(header: Option<string>, verify: string -> Option<Claims>)
    requires header.None? || header.value == ""
    ensures Authenticate(header, verify) == Rejected(400, "No token provided")
  {
  }

  /** A header with content whose second space-separated field is absent or
   *  empty is refused with 400 "Invalid token format". */
  lemma MalformedHeaderRejected(header: string, verify: string -> Option<Claims>)
    requires header != ""
    requires TokenField(header).None? || TokenField(header) == Some("")
    ensures Authenticate(Some(header), verify) == Rejected(400, "Invalid token format")
  {
  }

  /** Success happens exactly when the second field is a token the verifier
   *  accepts, and the claims are then those the verifier decoded; a token the
   *  verifier refuses gives 401. */
  lemma AuthenticateOutcome(header: string, verify: string -> Option<Claims>)
    requires TokenField(header).Some? && TokenField(header).value != ""
    ensures verify(TokenField(header).value).None? ==>
              Authenticate(Some(header), verify) == Rejected(401, "Invalid token")
    ensures verify(TokenField(header).value).Some? ==>
              Authenticate(Some(header), verify) == Authenticated(verify(TokenField(header).value).value)
  {
    SplitOfEmpty(' ');
  }

  lemma SplitOfEmpty(sep: char)
    ensures Split("", sep) == [""]
  {
  }

  /** `verifyToken` never looks at the first field: any scheme word in front of
   *  the token, "Bearer" or not, gives the same decision. */
  lemma {:induction false} SchemeIgnored(scheme: string, token: string, rest: string,
                                         verify: string -> Option<Claims>)
    requires ' ' !in scheme && ' ' !in token
    requires rest == "" || rest[0] == ' '
    ensures TokenField(scheme + " " + token + rest) == Some(token)
    ensures Authenticate(Some(scheme + " " + token + rest), verify)
         == Authenticate(Some("Bearer " + token), verify)
  {
    TokenAfterScheme(scheme, token, rest);
    TokenAfterScheme("Bearer", token, "");
    assert "Bearer" + " " + token + "" == "Bearer " + token;
    assert (scheme + " " + token + rest)[|scheme|] == ' ';
    assert ("Bearer " + token)[6] == ' ';
  }

  lemma {:induction false} TokenAfterScheme(scheme: string, token: string, rest: string)
    requires ' ' !in scheme && ' ' !in token
    requires rest == "" || rest[0] == ' '
    ensures TokenField(scheme + " " + token + rest) == Some(token)
  {
    var header := scheme + " " + token + rest;
    assert header == scheme + [' '] + (token + rest);
    SplitAfterPiece(scheme, ' ', token + rest);
    if rest == "" {
      assert token + rest == token;
      SplitWithoutSeparator(token, ' ');
    } else {
      assert token + rest == token + [' '] + rest[1..];
      SplitAfterPiece(token, ' ', rest[1..]);
    }
  }

  /** A request as the middleware sees it: the `authorization` header and the
   *  `req.user` slot that `verifyToken` fills. */
  class Request {
    const authorization: Option<string>
    var user: Option<Claims>

    constructor (authorization: Option<string>)
      ensures this.authorization == authorization && user == None
    {
      this.authorization := authorization;
      user := None;
    }
  }

  /** `verifyToken(req, res, next)`: on success `req.user` is assigned the
   *  decoded claims and `next` is the outcome; on any refusal `req.user` is
   *  left as it was and the error is the outcome. */
  method VerifyToken(req: Request, verify: string -> Option<Claims>) returns (g: Gate)
    modifies req
    ensures match Authenticate(req.authorization, verify)
            case Authenticated(c) => g == Next && req.user == Some(c)
            case Rejected(s, m) => g == Deny(s, m) && req.user == old(req.user)
  {
    var header := req.authorization;
    if header.None? || header.value == "" {
      return Deny(400, "No token provided");
    }
    var token := TokenField(header.value);
    if token.None? || token.value == "" {
      return Deny(400, "Invalid token format");
    }
    var decoded := verify(token.value);
    if decoded.None? {
      return Deny(401, "Invalid token");
    }
    req.user := decoded;
    g := Next;
  }

  /** `isAdmin`. */
  function IsAdmin(user: Claims): (g: Gate)
    ensures g == Next <==> user.role == "admin"
  {
    if user.role != "admin" then Deny(403, "Access denied! Admin only.") else Next
  }

  /** `isTeacher`. */
  function IsTeacher(user: Claims): (g: Gate)
    ensures g == Next <==> user.role == "teacher"
  {
    if user.role != "teacher" then Deny(403, "Access denied! You are not a teacher.") else Next
  }

  /** `isStudent`. */
  function IsStudent(user: Claims): (g: Gate)
    ensures g == Next <==> user.role == "student"
  {
    if user.role != "student" then Deny(403, "Access denied! Students only.") else Next
  }

  /** A gate that refuses answers 403 with its own message. */
  lemma RoleGatesDecide(user: Claims)
    ensures user.role != "admin" ==> IsAdmin(user) == Deny(403, "Access denied! Admin only.")
    ensures user.role != "teacher" ==> IsTeacher(user) == Deny(403, "Access denied! You are not a teacher.")
    ensures user.role != "student" ==> IsStudent(user) == Deny(403, "Access denied! Students only.")
  {
  }

  /** No role value passes more than one of the three gates. */
  lemma RoleGatesExclusive(user: Claims)
    ensures !(IsAdmin(user) == Next && IsTeacher(user) == Next)
    ensures !(IsAdmin(user) == Next && IsStudent(user) == Next)
    ensures !(IsTeacher(user) == Next && IsStudent(user) == Next)
  {
  }

  /** `router.use(verifyToken); router.use(gate)`: the chain a router puts in
   *  front of its handlers. */
  function Chain(auth: Authentication, gate: Claims -> Gate): (a: Access)
    ensures a.Granted? <==> auth.Authenticated? && gate(auth.claims) == Next
    ensures a.Granted? ==> a.user == auth.claims
    ensures auth.Rejected? ==> a == Denied(auth.status, auth.message)
  {
    match auth
    case Rejected(s, m) => Denied(s, m)
    case Authenticated(c) =>
      match gate(c)
      case Next => Granted(c)
      case Deny(s, m) => Denied(s, m)
  }

  /** Verification alone, for routes that mount only `verifyToken`. */
  function TokenOnly(auth: Authentication): Access {
    match auth
    case Rejected(s, m) => Denied(s, m)
    case Authenticated(c) => Granted(c)
  }
}
