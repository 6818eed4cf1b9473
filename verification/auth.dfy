/** The two middlewares of the server: `authenticateToken`, which turns the
    Authorization header into a verified caller, and `authorizeRoles`, which
    admits a caller only when its role is in an allowed list. Signature
    checking of the token is an oracle `verify` supplied by the caller of the
    model. */
module Auth {
  import opened Wrappers
  import Strings

  /** The role a caller acts with, as the server's `===` comparisons of the
      `role` claim tell roles apart. */
  datatype RoleTag = Admin | Teacher | Student | Other(name: string)

  /** An `Other` role never spells one of the three known role names, so
      every claim string denotes exactly one role. */
  type Role = r: RoleTag | r.Other? ==> r.name !in {"admin", "teacher", "student"}
    witness Admin

  /** The claims a token carries once its signature is verified: the user's
      id and the role string it was issued with. */
  datatype Claims = Claims(userId: int, role: string)

  /** The caller the routes act for: the user id and the role its claim denotes. */
  datatype Caller = Caller(userId: int, role: Role)

  /** The string the server compares a role against. */
  function RoleName(r: Role): (name: string)
    ensures r.Other? <==> name !in {"admin", "teacher", "student"}
  {
    match r
    case Admin => "admin"
    case Teacher => "teacher"
    case Student => "student"
    case Other(name) => name
  }

  /** The role a `role` claim denotes, as the server's `===` comparisons read it. */
  function ParseRole(s: string): (r: Role)
    ensures RoleName(r) == s
  {
    if s == "admin" then Admin
    else if s == "teacher" then Teacher
    else if s == "student" then Student
    else Other(s)
  }

  /** Reading back the name of a role gives the role itself. */
  lemma ParseRoleName(r: Role)
    ensures ParseRole(RoleName(r)) == r
  {
  }

  /** The bearer token of an Authorization header: the second space-separated
      piece, provided it is non-empty. The word before it is not checked. An
      absent or empty header has no token. */
  function ExtractToken(header: Option<string>): (t: Option<string>)
    ensures t.Some? ==> header.Some? && t.value != [] && ' ' !in t.value
  {
    match header
    case None => None
    case Some(h) =>
      var pieces := Strings.Split(h, ' ');
      if |pieces| >= 2 && pieces[1] != "" then Some(pieces[1]) else None
  }

  /** Whatever precedes the first space, the token is the run of non-space
      characters that follows it, and there is none when that run is empty. */
  lemma TokenAfterFirstSpace(word: string, token: string, tail: string)
    requires ' ' !in word && ' ' !in token
    requires tail == [] || tail[0] == ' '
    ensures ExtractToken(Some(word + " " + token + tail))
            == if token == [] then None else Some(token)
  {
    var h := word + " " + token + tail;
    assert h == word + [' '] + (token + tail);
    Strings.SplitAtFirst(word, token + tail, ' ');
    if tail == [] {
      assert token + tail == token;
      Strings.SplitNoSep(token, ' ');
    } else {
      assert token + tail == token + [' '] + tail[1..];
      Strings.SplitAtFirst(token, tail[1..], ' ');
    }
  }

  /** A header without a space carries no token. */
  lemma NoSpaceNoToken(h: string)
    requires ' ' !in h
    ensures ExtractToken(Some(h)) == None
  {
    Strings.SplitNoSep(h, ' ');
  }

  /** The header the client builds, `Bearer ${token}`, yields that token back. */
  lemma BearerRoundTrip(token: string)
    requires token != [] && ' ' !in token
    ensures ExtractToken(Some("Bearer " + token)) == Some(token)
  {
    TokenAfterFirstSpace("Bearer", token, []);
    assert "Bearer" + " " + token + [] == "Bearer " + token;
  }

  /** `authenticateToken`: 401 when no token is present, 403 when the token
      does not verify, otherwise the caller its claims describe. */
  function Authenticate(header: Option<string>, verify: string -> Option<Claims>): (r: Reply<Caller>)
    ensures r.Err? ==> r.code == StatusUnauthorized || r.code == StatusForbidden
    ensures r.Err? && r.code == StatusUnauthorized <==> ExtractToken(header).None?
    ensures r.Err? && r.code == StatusForbidden
            <==> ExtractToken(header).Some? && verify(ExtractToken(header).value).None?
    ensures r.Ok? ==>
      && ExtractToken(header).Some?
      && verify(ExtractToken(header).value).Some?
      && var claims := verify(ExtractToken(header).value).value;
      && r.value.userId == claims.userId
      && RoleName(r.value.role) == claims.role
  {
    match ExtractToken(header)
    case None => Err(StatusUnauthorized)
    case Some(token) =>
      match verify(token)
      case None => Err(StatusForbidden)
      case Some(claims) => Ok(StatusOk, Caller(claims.userId, ParseRole(claims.role)))
  }

  /** A verified token whose claim is "admin", "teacher" or "student" is
      served with that role; any other claim is served as an unknown role. */
  lemma ClaimDecidesRole(header: Option<string>, verify: string -> Option<Claims>)
    requires Authenticate(header, verify).Ok?
    ensures var role := Authenticate(header, verify).value.role;
      var claim := verify(ExtractToken(header).value).value.role;
      && (role == Admin <==> claim == "admin")
      && (role == Teacher <==> claim == "teacher")
      && (role == Student <==> claim == "student")
  {
  }

  /** `authorizeRoles(...allowed)`: continue exactly when a caller is present
      and its role is one of the allowed roles; otherwise 403. */
  function AuthorizeRoles(user: Option<Caller>, allowed: seq<Role>): (r: Outcome)
    ensures r.Pass? <==> user.Some? && user.value.role in allowed
    ensures r.Fail? ==> r.code == StatusForbidden
  {
    if user.None? || user.value.role !in allowed then Fail(StatusForbidden) else Pass
  }

  /** The roles every write route admits: `authorizeRoles('teacher', 'admin')`. */
  const Staff: seq<Role> := [Teacher, Admin]

  /** The write routes admit teachers and admins and nobody else. */
  lemma StaffGate(c: Caller)
    ensures AuthorizeRoles(Some(c), Staff).Pass? <==> c.role == Teacher || c.role == Admin
  {
  }
}
