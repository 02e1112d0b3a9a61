/** The authentication gate placed in front of protected routes: it parses the
    Authorization header, resolves the token in the session-token table only,
    checks its expiry and binds the token's user id to the request. */
module Middlewares {
  import opened Models
  import opened SessionTokens

  const AuthorizationHeader: string := "Authorization"
  const UserIdKey: string := "user_id"
  const StatusForbidden: nat := 403

  /** Joins `parts` with `sep` between consecutive parts. */
  function Join(parts: seq<string>, sep: char): string {
    if |parts| == 0 then ""
    else if |parts| == 1 then parts[0]
    else parts[0] + [sep] + Join(parts[1..], sep)
  }

  /** `strings.Split(s, sep)` for a one-character separator: one part more
      than there are separators, and no part holds a separator (so
      `Split("", sep)` is `[""]`). */
  function Split(s: string, sep: char): (parts: seq<string>)
    ensures |parts| == multiset(s)[sep] + 1
    ensures forall k :: 0 <= k < |parts| ==> sep !in parts[k]
    decreases |s|
  {
    if s == [] then [[]]
    else
      var rest := Split(s[1..], sep);
      assert multiset(s) == multiset{s[0]} + multiset(s[1..]) by {
        assert s == [s[0]] + s[1..];
      }
      if s[0] == sep then [[]] + rest
      else [[s[0]] + rest[0]] + rest[1..]
  }

  /** Joining a part in front of at least one more part puts a separator
      between them. */
  lemma JoinCons(part: string, rest: seq<string>, sep: char)
    requires |rest| >= 1
    ensures Join([part] + rest, sep) == part + [sep] + Join(rest, sep)
  {
    assert ([part] + rest)[1..] == rest;
  }

  /** Joining the parts back with the separator gives the original string:
      splitting loses nothing. */
  lemma {:induction false} JoinSplit(s: string, sep: char)
    ensures Join(Split(s, sep), sep) == s
    decreases |s|
  {
    if s != [] {
      var rest := Split(s[1..], sep);
      JoinSplit(s[1..], sep);
      JoinSplitStep(s, sep, rest);
    }
  }

  /** One step of `JoinSplit`: if the tail's parts join back to the tail,
      the parts of the whole string join back to the whole string. */
  lemma JoinSplitStep(s: string, sep: char, rest: seq<string>)
    requires s != [] && rest == Split(s[1..], sep)
    requires Join(rest, sep) == s[1..]
    ensures Join(Split(s, sep), sep) == s
  {
    assert s == [s[0]] + s[1..];
    if s[0] == sep {
      assert Split(s, sep) == [[]] + rest;
      JoinCons([], rest, sep);
    } else {
      JoinPrepend(s[0], rest, sep);
    }
  }

  /** Prepending a character to the first part prepends it to the join. */
  lemma JoinPrepend(c: char, parts: seq<string>, sep: char)
    requires |parts| >= 1
    ensures Join([[c] + parts[0]] + parts[1..], sep) == [c] + Join(parts, sep)
  {
    if |parts| > 1 {
      JoinCons([c] + parts[0], parts[1..], sep);
      JoinCons(parts[0], parts[1..], sep);
      assert [parts[0]] + parts[1..] == parts;
    }
  }

  /** A string without the separator is a single part. */
  lemma SplitWithoutSeparator(s: string, sep: char)
    requires sep !in s
    ensures Split(s, sep) == [s]
  {
    assert multiset(s)[sep] == 0;
    JoinSplit(s, sep);
  }

  /** Two separator-free strings joined by one separator split back into
      exactly those two strings. */
  lemma {:induction false} SplitTwoParts(a: string, b: string, sep: char)
    requires sep !in a && sep !in b
    ensures Split(a + [sep] + b, sep) == [a, b]
  {
    var s := a + [sep] + b;
    if a == [] {
      assert s[1..] == b;
      SplitWithoutSeparator(b, sep);
    } else {
      assert s[1..] == a[1..] + [sep] + b;
      SplitTwoParts(a[1..], b, sep);
      assert [s[0]] + a[1..] == a;
    }
  }

  /** `extractBearerTokenFromHeader`: an empty header is an error; otherwise
      the header must contain exactly one space, and the text after it is the
      token. The scheme before the space is not checked. */
  function ExtractBearerTokenFromHeader(header: string): (r: Result<string>)
    ensures header == "" ==> r == Err(InvalidHeader)
    ensures r.Ok? <==> multiset(header)[' '] == 1
    ensures r.Ok? ==> && ' ' !in r.value
                      && |r.value| < |header|
                      && header[|header| - |r.value| - 1..] == " " + r.value
                      && ' ' !in header[..|header| - |r.value| - 1]
  {
    if header == "" then Err(InvalidHeader)
    else
      var token := Split(header, ' ');
      if |token| != 2 then Err(MalformedHeader)
      else
        JoinSplit(header, ' ');
        assert Join(token[1..], ' ') == token[1];
        assert header == token[0] + " " + token[1];
        assert header[..|header| - |token[1]| - 1] == token[0];
        Ok(token[1])
  }

  /** Round trip: any scheme and any token, neither holding a space, joined
      by one space, yield exactly that token. The scheme may be empty. */
  lemma ExtractRoundTrip(scheme: string, token: string)
    requires ' ' !in scheme && ' ' !in token
    ensures ExtractBearerTokenFromHeader(scheme + " " + token) == Ok(token)
  {
    SplitTwoParts(scheme, token, ' ');
  }

  /** "Bearer " (the scheme and the space, nothing after it) is accepted and
      yields the empty token. */
  lemma ExtractSchemeOnly()
    ensures ExtractBearerTokenFromHeader("Bearer ") == Ok("")
  {
    ExtractRoundTrip("Bearer", "");
    assert "Bearer" + " " + "" == "Bearer ";
  }

  /** `isTokenExpired`: an error exactly when the expiry lies strictly before
      `now`; a token expiring at `now` itself is still valid. */
  function IsTokenExpired(token: Token, now: int): (err: Option<Error>)
    ensures err.None? <==> now <= token.expiredAt
    ensures err.Some? ==> err.value == TokenExpired
  {
    if token.expiredAt < now then Some(TokenExpired) else None
  }

  /** Where a request ends up at the gate. */
  datatype Decision = Authenticated(userId: nat) | Rejected(reason: Error)

  /** The gate's decision for `header` against the session-token table
      `sessions` at time `now`. It authenticates exactly the headers whose
      token is a stored, unexpired session token, and then as its owner. */
  function GateDecision(header: string, sessions: seq<Token>, now: int): (d: Decision)
    ensures d.Authenticated? ==>
              exists i :: && 0 <= i < |sessions|
                          && ExtractBearerTokenFromHeader(header) == Ok(sessions[i].value)
                          && sessions[i].userId == d.userId
                          && now <= sessions[i].expiredAt
    ensures UniqueKeys(sessions, ValueOf) ==>
              forall i :: && 0 <= i < |sessions|
                          && ExtractBearerTokenFromHeader(header) == Ok(sessions[i].value)
                          && now <= sessions[i].expiredAt
                          ==> d == Authenticated(sessions[i].userId)
  {
    match ExtractBearerTokenFromHeader(header)
    case Err(e) => Rejected(e)
    case Ok(value) =>
      match Where(sessions, ValueOf, value)
      case Err(e) => Rejected(e)
      case Ok(token) =>
        assert UniqueKeys(sessions, ValueOf) ==>
          forall i :: 0 <= i < |sessions| && sessions[i].value == value ==> token == sessions[i] by {
          if UniqueKeys(sessions, ValueOf) {
            forall i | 0 <= i < |sessions| && sessions[i].value == value ensures token == sessions[i] {
              WhereFindsUnique(sessions, ValueOf, i);
            }
          }
        }
        match IsTokenExpired(token, now)
        case Some(e) => Rejected(e)
        case None =>
          assert token in sessions;
          Authenticated(token.userId)
  }

  /** A header whose token is not in the session-token table is rejected, and
      nothing else about the header or the clock matters. */
  lemma GateRejectsUnknownToken(header: string, sessions: seq<Token>, now: int)
    requires ExtractBearerTokenFromHeader(header).Ok?
    requires forall i :: 0 <= i < |sessions| ==> sessions[i].value != ExtractBearerTokenFromHeader(header).value
    ensures GateDecision(header, sessions, now) == Rejected(RecordNotFound)
  {
    var v := ExtractBearerTokenFromHeader(header).value;
    assert !Contains(sessions, ValueOf, v) by {
      assert forall i :: 0 <= i < |sessions| ==> ValueOf(sessions[i]) != v;
    }
  }

  /** The request context the gate works on (gin's `*gin.Context`): the
      request headers, the per-request key/value store, the status a handler
      aborted with, and whether the rest of the handler chain ran. */
  class Context {
    const headers: map<string, string>
    var keys: map<string, nat>
    var abortStatus: Option<nat>
    var nextCalled: bool

    constructor (headers: map<string, string>)
      ensures this.headers == headers && keys == map[]
      ensures abortStatus == None && !nextCalled
    {
      this.headers := headers;
      keys := map[];
      abortStatus := None;
      nextCalled := false;
    }

    /** The header's value, or "" when the request does not carry it. */
    function GetHeader(name: string): (v: string)
    {
      if name in headers then headers[name] else ""
    }

    method Set(key: string, value: nat)
      modifies this
      ensures keys == old(keys)[key := value]
      ensures abortStatus == old(abortStatus) && nextCalled == old(nextCalled)
    {
      keys := keys[key := value];
    }

    method AbortWithStatus(code: nat)
      modifies this
      ensures abortStatus == Some(code)
      ensures keys == old(keys) && nextCalled == old(nextCalled)
    {
      abortStatus := Some(code);
    }

    method Next()
      modifies this
      ensures nextCalled
      ensures keys == old(keys) && abortStatus == old(abortStatus)
    {
      nextCalled := true;
    }
  }

  /** `AuthRequired` fed with the session-token repository's `FindByValue`.
      On acceptance it binds `user_id` to the token's owner and runs the rest
      of the chain; on every rejection it aborts with 403 and binds nothing.
      It may change only the request context, never a table. */
  method AuthRequired(sessions: SessionTokenRepository, c: Context, now: int)
    requires sessions.Valid()
    modifies c
    ensures match GateDecision(c.GetHeader(AuthorizationHeader), sessions.rows, now)
            case Authenticated(u) =>
              && c.keys == old(c.keys)[UserIdKey := u]
              && c.nextCalled
              && c.abortStatus == old(c.abortStatus)
            case Rejected(_) =>
              && c.keys == old(c.keys)
              && c.abortStatus == Some(StatusForbidden)
              && c.nextCalled == old(c.nextCalled)
  {
    var authorizationHeader := c.GetHeader(AuthorizationHeader);
    var tokenValue := ExtractBearerTokenFromHeader(authorizationHeader);
    if tokenValue.Err? {
      c.AbortWithStatus(StatusForbidden);
      return;
    }

    var token := sessions.FindByValue(tokenValue.value);
    if token.Err? {
      c.AbortWithStatus(StatusForbidden);
      return;
    }

    if IsTokenExpired(token.value, now).Some? {
      c.AbortWithStatus(StatusForbidden);
      return;
    }

    c.Set(UserIdKey, token.value.userId);
    c.Next();
  }
}
