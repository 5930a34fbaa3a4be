/**
 * The access-token service: taking the bearer token out of the Authorization
 * header, and the acceptance pipeline getAndValidateToken / getToken.
 *
 * The JWT library (compact-token decoding, the RSA-SHA256 configuration, the
 * StrictValidAt window) and the access-token repository are collaborators the
 * caller passes in as function values; the clock is the parameter `now`.
 */
module AccessTokenService {
  import opened Wrappers

  // ---------------------------------------------------------------------------
  // getJwtFromRequest with the default tokenPattern /^Bearer\s+(.*?)$/

  /** The characters PCRE's \s matches without the u modifier. */
  predicate IsSpace(c: char)
  {
    c == ' ' || c == '\t' || c == '\n' || c == '\U{000B}' || c == '\U{000C}' || c == '\r'
  }

  predicate AllSpaces(s: string)
  {
    forall i :: 0 <= i < |s| ==> IsSpace(s[i])
  }

  /** The length of the longest run of \s characters at the start of t (what greedy \s+ takes). */
  function LeadingSpaces(t: string): (n: nat)
    ensures n <= |t| && AllSpaces(t[..n])
    ensures n < |t| ==> !IsSpace(t[n])
  {
    if t == [] || !IsSpace(t[0]) then 0
    else
      var n := 1 + LeadingSpaces(t[1..]);
      assert t[..n] == [t[0]] + t[1..][..n - 1];
      n
  }

  /**
   * The shape of a header the default pattern matches: "Bearer", a non-empty
   * run of white space, the captured token (no newline in it), and optionally
   * one final newline.
   */
  predicate Matched(header: string, ws: string, token: string, eol: string)
  {
    && ws != [] && AllSpaces(ws)
    && '\n' !in token
    && (eol == "" || eol == "\n")
    && header == "Bearer" + ws + token + eol
  }

  /**
   * getJwtFromRequest: None for a missing header; otherwise the capture group
   * of /^Bearer\s+(.*?)$/, or None when the header does not match. After
   * "Bearer" the greedy \s+ takes the whole run of white space; the lazy (.*?)
   * then stops at the first place where $ matches, which is the end of the
   * value or just before a final newline. `.` never crosses a newline, so a
   * newline anywhere else in the rest means there is no match.
   */
  function JwtFromHeader(header: Option<string>): (r: Option<string>)
    ensures header.None? ==> r.None?
    ensures r.Some? ==> '\n' !in r.value
    ensures r.Some? ==> exists ws, eol :: Matched(header.value, ws, r.value, eol)
  {
    if header.None? then None
    else
      var h := header.value;
      if |h| < 6 || h[..6] != "Bearer" then None
      else
        var t := h[6..];
        var n := LeadingSpaces(t);
        var rest := t[n..];
        assert h == "Bearer" + t[..n] + rest;
        if n == 0 then None
        else if '\n' !in rest then
          assert Matched(h, t[..n], rest, "");
          Some(rest)
        else if rest[|rest| - 1] == '\n' && '\n' !in rest[..|rest| - 1] then
          assert rest == rest[..|rest| - 1] + "\n";
          assert Matched(h, t[..n], rest[..|rest| - 1], "\n");
          Some(rest[..|rest| - 1])
        else None
  }

  /**
   * "Bearer", at least one white-space character, a token, and at most a
   * final newline: the token comes back, without the newline.
   */
  lemma {:induction false} JwtFromBearerHeader(ws: string, token: string, eol: string)
    requires ws != [] && AllSpaces(ws)
    requires '\n' !in token && (token == [] || !IsSpace(token[0]))
    requires eol == "" || eol == "\n"
    ensures JwtFromHeader(Some("Bearer" + ws + token + eol)) == Some(token)
  {
    var h := "Bearer" + ws + token + eol;
    assert h[..6] == "Bearer";
    if token == [] && eol == "\n" {
      var run := ws + "\n";
      assert h[6..] == run + [];
      assert AllSpaces(run) by {
        assert forall i :: 0 <= i < |ws| ==> run[i] == ws[i];
      }
      LeadingSpacesOfRun(run, []);
      assert h[6..][|run|..] == [];
    } else {
      assert h[6..] == ws + (token + eol);
      LeadingSpacesOfRun(ws, token + eol);
      var rest := h[6..][|ws|..];
      assert rest == token + eol;
      if eol == "\n" {
        assert rest[|rest| - 1] == '\n' && rest[..|rest| - 1] == token;
        assert '\n' in rest;
      } else {
        assert rest == token;
      }
    }
  }

  lemma {:induction false} LeadingSpacesOfRun(ws: string, rest: string)
    requires AllSpaces(ws)
    requires rest == [] || !IsSpace(rest[0])
    ensures LeadingSpaces(ws + rest) == |ws|
  {
    if ws != [] {
      assert (ws + rest)[1..] == ws[1..] + rest;
      LeadingSpacesOfRun(ws[1..], rest);
    } else {
      assert ws + rest == rest;
    }
  }

  /** Headers the default pattern refuses: wrong scheme, no white space after "Bearer", lower case. */
  lemma JwtRefusedHeaders()
    ensures JwtFromHeader(None) == None
    ensures JwtFromHeader(Some("Basic abc")) == None
    ensures JwtFromHeader(Some("Bearer")) == None
    ensures JwtFromHeader(Some("Bearerx")) == None
    ensures JwtFromHeader(Some("bearer x")) == None
  {
    assert "Basic abc"[..6][1] != "Bearer"[1];
    assert "bearer x"[..6][0] != "Bearer"[0];
    var bx := "Bearerx";
    assert bx[..6] == "Bearer" && bx[6..] == "x";
    assert LeadingSpaces("x") == 0;
  }

  /** A newline inside the token (not at the very end) defeats the match. */
  lemma JwtRefusedNewline()
    ensures JwtFromHeader(Some("Bearer x\ny")) == None
  {
    var h := "Bearer x\ny";
    assert h[..6] == "Bearer" && h[6..] == " " + "x\ny";
    LeadingSpacesOfRun(" ", "x\ny");
    assert h[6..][1..] == "x\ny";
  }

  /** A plain bearer header gives its token. */
  lemma JwtAcceptedHeader()
    ensures JwtFromHeader(Some("Bearer xyz123")) == Some("xyz123")
  {
    JwtFromBearerHeader(" ", "xyz123", "");
    assert "Bearer" + " " + "xyz123" + "" == "Bearer xyz123";
  }

  /** The whole run of white space after "Bearer" is dropped, tabs included. */
  lemma JwtSkipsWhiteSpace()
    ensures JwtFromHeader(Some("Bearer \t x")) == Some("x")
  {
    var ws := " \t ";
    assert IsSpace(ws[0]) && IsSpace(ws[1]) && IsSpace(ws[2]);
    JwtFromBearerHeader(ws, "x", "");
    assert "Bearer" + ws + "x" + "" == "Bearer \t x";
  }

  /** "Bearer " with nothing after the space gives the empty token, not None. */
  lemma JwtEmptyToken()
    ensures JwtFromHeader(Some("Bearer ")) == Some("")
  {
    JwtFromBearerHeader(" ", "", "");
    assert "Bearer" + " " + "" + "" == "Bearer ";
  }

  /** A final newline is not part of the token: $ matches just before it. */
  lemma JwtFinalNewline()
    ensures JwtFromHeader(Some("Bearer x\n")) == Some("x")
  {
    JwtFromBearerHeader(" ", "x", "\n");
    assert "Bearer" + " " + "x" + "\n" == "Bearer x\n";
  }

  // ---------------------------------------------------------------------------
  // getAndValidateToken and getToken

  /** What the JWT parser does with the compact token: a token, or one of the three exceptions caught at the parse call. */
  datatype Parsed<T> = Parsed(token: T) | CannotDecodeContent | InvalidTokenStructure | UnsupportedHeaderFound

  /**
   * What isAccessTokenRevoked does: it answers, or it throws. An
   * InvalidArgumentException is told apart from any other exception because
   * getAndValidateToken catches it.
   */
  datatype Revocation =
    | Answered(revoked: bool)
    | ThrewInvalidArgument(message: string)
    | ThrewOther(message: string)

  /**
   * The collaborators of the pipeline.
   * keyError: Some(message) when the public key file cannot be read while the
   *   configuration is built (an InvalidArgumentException).
   * parse: the configured parser.
   * strictValidAt: the StrictValidAt constraint at a given instant.
   * jti: the token's 'jti' claim, None when it has none (null).
   * isRevoked: isAccessTokenRevoked of the access-token repository.
   */
  datatype Collaborators<!T> = Collaborators(
    keyError: Option<string>,
    parse: string -> Parsed<T>,
    strictValidAt: (T, int) -> bool,
    jti: T -> Option<string>,
    isRevoked: Option<string> -> Revocation)

  /**
   * What leaves getAndValidateToken other than an UnauthorizedHttpException.
   * UndefinedVariable: the parse-failure branch builds its message from
   *   $exception, which is not defined there (the caught variable is $e);
   *   reading it fails before any UnauthorizedHttpException exists.
   * RepositoryFailure: an exception from isAccessTokenRevoked that is not an
   *   InvalidArgumentException.
   */
  datatype Escape = UndefinedVariable | RepositoryFailure(message: string)

  /**
   * The ways getAndValidateToken ends: it returns the token, it throws an
   * UnauthorizedHttpException with a message, or something else escapes.
   */
  datatype Outcome<T> = Returned(token: T) | Unauthorized(message: string) | Escaped(escape: Escape)

  const InvalidMessage: string := "Access token is invalid"
  const RevokedMessage: string := "Access token has been revoked"

  /**
   * getAndValidateToken: build the configuration, parse, assert StrictValidAt
   * (the only constraint; no signature constraint is asserted), then ask the
   * repository whether the jti is revoked. An InvalidArgumentException from
   * building the configuration or from the repository becomes an
   * UnauthorizedHttpException with its message.
   */
  function GetAndValidateToken<T>(c: Collaborators<T>, jwt: string, now: int): (r: Outcome<T>)
    ensures r.Returned? <==>
      && c.keyError.None? && c.parse(jwt).Parsed?
      && c.strictValidAt(c.parse(jwt).token, now) && c.isRevoked(c.jti(c.parse(jwt).token)) == Answered(false)
    ensures r.Returned? ==> r.token == c.parse(jwt).token
    ensures r.Escaped? <==>
      && c.keyError.None?
      && (!c.parse(jwt).Parsed? ||
          (c.strictValidAt(c.parse(jwt).token, now) && c.isRevoked(c.jti(c.parse(jwt).token)).ThrewOther?))
    ensures r.Escaped? ==>
      r.escape == (if c.parse(jwt).Parsed? then RepositoryFailure(c.isRevoked(c.jti(c.parse(jwt).token)).message)
                   else UndefinedVariable)
  {
    if c.keyError.Some? then Unauthorized(c.keyError.value)
    else
      match c.parse(jwt)
      case CannotDecodeContent => Escaped(UndefinedVariable)
      case InvalidTokenStructure => Escaped(UndefinedVariable)
      case UnsupportedHeaderFound => Escaped(UndefinedVariable)
      case Parsed(token) =>
        if !c.strictValidAt(token, now) then Unauthorized(InvalidMessage)
        else
          match c.isRevoked(c.jti(token))
          case Answered(revoked) => if revoked then Unauthorized(RevokedMessage) else Returned(token)
          case ThrewInvalidArgument(message) => Unauthorized(message)
          case ThrewOther(message) => Escaped(RepositoryFailure(message))
  }

  /** What getToken does: it returns a token or null, or lets an exception through. */
  datatype TokenResult<T> = Value(token: Option<T>) | Thrown(escape: Escape)

  /** getToken: an UnauthorizedHttpException becomes null; anything else thrown passes through. */
  function GetToken<T>(c: Collaborators<T>, jwt: string, now: int): (r: TokenResult<T>)
    ensures r == Value(None) <==> GetAndValidateToken(c, jwt, now).Unauthorized?
    ensures r.Value? && r.token.Some? <==> GetAndValidateToken(c, jwt, now).Returned?
    ensures r.Value? && r.token.Some? ==> r.token.value == GetAndValidateToken(c, jwt, now).token
    ensures r.Thrown? <==> GetAndValidateToken(c, jwt, now).Escaped?
    ensures r.Thrown? ==> r.escape == GetAndValidateToken(c, jwt, now).escape
  {
    match GetAndValidateToken(c, jwt, now)
    case Returned(token) => Value(Some(token))
    case Unauthorized(_) => Value(None)
    case Escaped(escape) => Thrown(escape)
  }

  /** A token the parser refuses escapes getToken as an error instead of becoming null. */
  lemma ParseFailureEscapesGetToken<T>(c: Collaborators<T>, jwt: string, now: int)
    requires c.keyError.None? && !c.parse(jwt).Parsed?
    ensures GetToken(c, jwt, now) == Thrown(UndefinedVariable)
  {
  }

  /**
   * The repository decides the outcome of a valid token: not revoked returns
   * it, revoked or an InvalidArgumentException gives null from getToken, and
   * any other exception passes through getToken.
   */
  lemma RepositoryDecidesValidToken<T>(c: Collaborators<T>, jwt: string, now: int)
    requires c.keyError.None? && c.parse(jwt).Parsed? && c.strictValidAt(c.parse(jwt).token, now)
    ensures var answer := c.isRevoked(c.jti(c.parse(jwt).token));
      GetToken(c, jwt, now) ==
        match answer
        case Answered(revoked) => if revoked then Value(None) else Value(Some(c.parse(jwt).token))
        case ThrewInvalidArgument(_) => Value(None)
        case ThrewOther(message) => Thrown(RepositoryFailure(message))
  {
  }

  /**
   * The checks run in the order parse, validity, revocation: a token that does
   * not parse gets the same outcome whatever the validity constraint and the
   * repository say, and a token that fails validity gets the same outcome
   * whatever the repository says.
   */
  lemma ChecksRunInOrder<T>(
    c: Collaborators<T>, jwt: string, now: int,
    strictValidAt': (T, int) -> bool, isRevoked': Option<string> -> Revocation)
    ensures !c.parse(jwt).Parsed? ==>
      GetAndValidateToken(c.(strictValidAt := strictValidAt', isRevoked := isRevoked'), jwt, now)
        == GetAndValidateToken(c, jwt, now)
    ensures c.parse(jwt).Parsed? && !c.strictValidAt(c.parse(jwt).token, now) ==>
      GetAndValidateToken(c.(isRevoked := isRevoked'), jwt, now) == GetAndValidateToken(c, jwt, now)
  {
  }

  /**
   * A parsed token that fails the time window, whose jti is revoked, or whose
   * revocation check throws an InvalidArgumentException, is Unauthorized.
   */
  lemma RejectedTokensAreUnauthorized<T>(c: Collaborators<T>, jwt: string, now: int)
    requires c.parse(jwt).Parsed?
    requires
      || !c.strictValidAt(c.parse(jwt).token, now)
      || c.isRevoked(c.jti(c.parse(jwt).token)) == Answered(true)
      || c.isRevoked(c.jti(c.parse(jwt).token)).ThrewInvalidArgument?
    ensures GetAndValidateToken(c, jwt, now).Unauthorized?
    ensures GetToken(c, jwt, now) == Value(None)
  {
  }
}
