/** Authentication and role gates (backend/middleware/auth.js). Token
    verification and the user lookup are outside the model: they are
    passed in as functions. */
module Auth {
  import opened Common
  import opened Text
  import Http

  /** `jwt.verify(token)` followed by `decoded.userId`; `None` when
      verification throws (bad signature, malformed or expired token). */
  type Verifier = string -> Option<UserId>

  /** `User.findById(id)`; `None` when no such user exists. */
  type Directory = UserId -> Option<User>

  /** `req.headers.authorization?.split(' ')[1]`, where a missing piece and
      the empty string both count as no token. The scheme word in front is
      never looked at. */
  function BearerToken(header: Option<string>): Option<string> {
    if header.None? then None
    else
      var parts := Split(header.value, ' ');
      if |parts| >= 2 && parts[1] != "" then Some(parts[1]) else None
  }

  /** The token is the word after the first space, whatever the scheme word is. */
  lemma BearerTokenOf(scheme: string, token: string)
    requires ' ' !in scheme && ' ' !in token && token != ""
    ensures BearerToken(Some(scheme + " " + token)) == Some(token)
  {
    SplitAfterFirst(scheme, ' ', token);
    SplitWithoutSeparator(token, ' ');
  }

  /** A header without a space carries no token. */
  lemma NoSpaceNoToken(header: string)
    requires ' ' !in header
    ensures BearerToken(Some(header)) == None
  {
    SplitWithoutSeparator(header, ' ');
  }

  /** An extracted token never contains a space. */
  lemma TokenHasNoSpace(header: Option<string>)
    ensures BearerToken(header).Some? ==> ' ' !in BearerToken(header).value
  {
    if header.Some? {
      SplitPiecesLackSeparator(header.value, ' ');
    }
  }

  /** The decision of `authMiddleware`. */
  datatype Verdict = Authenticated(user: User) | Rejected(status: nat, message: string)

  /** `authMiddleware`'s decision chain: no token, then a token that fails
      verification, then a verified id with no user, each a 401 with its own
      message; otherwise the user found. */
  function Authenticate(header: Option<string>, verify: Verifier, lookup: Directory): (r: Verdict)
    ensures BearerToken(header).None? ==> r == Rejected(401, "Authentication required")
    ensures BearerToken(header).Some? && verify(BearerToken(header).value).None? ==>
      r == Rejected(401, "Invalid or expired token")
    ensures BearerToken(header).Some? && verify(BearerToken(header).value).Some? ==>
      var found := lookup(verify(BearerToken(header).value).value);
      (found.None? ==> r == Rejected(401, "User not found")) &&
      (found.Some? ==> r == Authenticated(found.value))
  {
    match BearerToken(header)
    case None => Rejected(401, "Authentication required")
    case Some(token) =>
      match verify(token)
      case None => Rejected(401, "Invalid or expired token")
      case Some(id) =>
        match lookup(id)
        case None => Rejected(401, "User not found")
        case Some(user) => Authenticated(user)
  }

  /** `authMiddleware`: attaches the user and calls `next()` exactly when
      authentication succeeds; otherwise ends the request with the 401. */
  method AuthMiddleware(req: Http.Request, verify: Verifier, lookup: Directory) returns (g: Http.Gate)
    modifies req`user
    ensures var v := Authenticate(req.authorization, verify, lookup);
      (v.Authenticated? ==> g == Http.Next && req.user == Some(v.user)) &&
      (v.Rejected? ==> g == Http.Halt(v.status, v.message) && req.user == old(req.user))
  {
    var token := BearerToken(req.authorization);
    if token.None? {
      return Http.Halt(401, "Authentication required");
    }
    var id := verify(token.value);
    if id.None? {
      return Http.Halt(401, "Invalid or expired token");
    }
    var user := lookup(id.value);
    if user.None? {
      return Http.Halt(401, "User not found");
    }
    req.user := user;
    g := Http.Next;
  }

  /** `moderatorMiddleware`: only moderators and admins pass. */
  function ModeratorGate(role: Role): (g: Http.Gate)
    ensures g == Http.Next <==> role == Moderator || role == Admin
    ensures g != Http.Next ==> g == Http.Halt(403, "Moderator access required")
  {
    if IsStaff(role) then Http.Next else Http.Halt(403, "Moderator access required")
  }

  /** The user `optionalAuth` attaches: present only when a token is sent,
      verifies and names an existing user. */
  function OptionalUser(header: Option<string>, verify: Verifier, lookup: Directory): Option<User> {
    var token := BearerToken(header);
    if token.None? then None
    else
      var id := verify(token.value);
      if id.None? then None else lookup(id.value)
  }

  /** `optionalAuth` attaches a user exactly when `authMiddleware` would
      let the request through, and the same user. */
  lemma OptionalAgreesWithRequired(header: Option<string>, verify: Verifier, lookup: Directory)
    ensures OptionalUser(header, verify, lookup).Some? <==> Authenticate(header, verify, lookup).Authenticated?
    ensures OptionalUser(header, verify, lookup).Some? ==>
      OptionalUser(header, verify, lookup).value == Authenticate(header, verify, lookup).user
  {
  }

  /** `optionalAuth`: never ends the request; attaches the user when one is
      found and leaves `req.user` alone otherwise. */
  method OptionalAuth(req: Http.Request, verify: Verifier, lookup: Directory) returns (next: bool)
    modifies req`user
    ensures next
    ensures var u := OptionalUser(req.authorization, verify, lookup);
      req.user == if u.Some? then u else old(req.user)
  {
    var token := BearerToken(req.authorization);
    if token.Some? {
      var id := verify(token.value);
      if id.Some? {
        var user := lookup(id.value);
        if user.Some? {
          req.user := user;
        }
      }
    }
    next := true;
  }
}
