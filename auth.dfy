/** The auth handlers (`Register`, `SignIn`, `Refresh`) and the token-pair
    issuance they share, as decision procedures over the three tables. Each
    handler method is tied to a function of the old tables giving the response
    and the new tables; the properties are proved about those functions. */
module Apis {
  import opened Models
  import opened Users
  import opened SessionTokens
  import opened RefreshTokens
  import Middlewares

  const StatusOK: nat := 200
  const StatusBadRequest: nat := 400
  const StatusInternalServerError: nat := 500

  /** What `c.BindJSON` made of the request body. */
  datatype Body<T> = Unparseable | Parsed(dto: T)

  datatype UserInfoInDto = UserInfoInDto(deviceUuid: string)
  datatype RefreshInDto = RefreshInDto(refreshToken: string)

  /** The JSON answer of a successful `Register`, `SignIn` or `Refresh`. */
  datatype SessionTokenOutDto = SessionTokenOutDto(
    sessionToken: string, sessionExpiredAt: int,
    refreshToken: string, refreshExpiredAt: int)

  /** `c.JSON(200, dto)` or `c.AbortWithStatus(status)`. */
  datatype Response = Json(status: nat, dto: SessionTokenOutDto) | Aborted(status: nat)

  /** The contents of the three tables and the users' id counter. */
  datatype Db = Db(users: seq<User>, nextUserId: nat, sessions: seq<Token>, refreshes: seq<Token>)

  /** The two validity durations (`constants.SessionTokenValidTime` and
      `constants.RefreshTokenValidTime`). */
  datatype ValidTimes = ValidTimes(session: int, refresh: int)

  /** The values the token generator yields during one pair issuance: first
      for the session token, then for the refresh token (None: it failed). */
  datatype Draws = Draws(session: Option<string>, refresh: Option<string>)

  /** The unique indexes of the three tables and the id counter's range. */
  ghost predicate ValidDb(db: Db) {
    && ValidUsers(db.users, db.nextUserId)
    && UniqueKeys(db.sessions, ValueOf)
    && UniqueKeys(db.refreshes, ValueOf)
  }

  /** Both draws produced a value, and neither value is stored yet in the
      table it is meant for. */
  predicate DrawsFresh(db: Db, draws: Draws) {
    && draws.session.Some? && !Contains(db.sessions, ValueOf, draws.session.value)
    && draws.refresh.Some? && !Contains(db.refreshes, ValueOf, draws.refresh.value)
  }

  /** `generateTokenOutDtoWithUserId`: a session token, then a refresh token,
      both for `userId`, with no transaction around the two inserts. It
      succeeds exactly when both draws are fresh; when the session insert
      fails nothing is stored. */
  function IssuePair(db: Db, times: ValidTimes, userId: nat, now: int, draws: Draws)
    : (res: (Result<SessionTokenOutDto>, Db))
    ensures res.0.Ok? <==> DrawsFresh(db, draws)
    ensures draws.session.None? ==> res == (Err(EntropyError), db)
    ensures draws.session.Some? && Contains(db.sessions, ValueOf, draws.session.value) ==>
              res == (Err(UniqueViolation), db)
    ensures res.1.users == db.users && res.1.nextUserId == db.nextUserId
    ensures db.sessions <= res.1.sessions && |res.1.sessions| <= |db.sessions| + 1
    ensures db.refreshes <= res.1.refreshes && |res.1.refreshes| <= |db.refreshes| + 1
    ensures ValidDb(db) ==> ValidDb(res.1)
    ensures res.0.Ok? ==>
              var out := res.0.value;
              && res.1.sessions == db.sessions + [Token(userId, out.sessionToken, now + times.session)]
              && res.1.refreshes == db.refreshes + [Token(userId, out.refreshToken, now + times.refresh)]
              && out.sessionToken == draws.session.value
              && out.refreshToken == draws.refresh.value
              && out.sessionExpiredAt == now + times.session
              && out.refreshExpiredAt == now + times.refresh
    ensures res.0.Err? ==> res.1.refreshes == db.refreshes
  {
    var (session, sessions') := CreateToken(db.sessions, userId, now + times.session, draws.session);
    if session.Err? then (Err(session.error), db)
    else
      var (refresh, refreshes') := CreateToken(db.refreshes, userId, now + times.refresh, draws.refresh);
      if refresh.Err? then (Err(refresh.error), db.(sessions := sessions'))
      else
        var out := SessionTokenOutDto(session.value.value, session.value.expiredAt,
                                      refresh.value.value, refresh.value.expiredAt);
        (Ok(out), db.(sessions := sessions', refreshes := refreshes'))
  }

  /** Issuance is not atomic: when the session insert succeeds and the
      refresh insert fails, the error is reported and the new session token
      stays stored, findable and owned by `userId`. */
  lemma IssuePairLeavesOrphanSession(db: Db, times: ValidTimes, userId: nat, now: int, draws: Draws)
    requires CreateToken(db.sessions, userId, now + times.session, draws.session).0.Ok?
    requires CreateToken(db.refreshes, userId, now + times.refresh, draws.refresh).0.Err?
    ensures var (r, db') := IssuePair(db, times, userId, now, draws);
            && r.Err?
            && db'.refreshes == db.refreshes
            && db'.sessions == db.sessions + [Token(userId, draws.session.value, now + times.session)]
            && Where(db'.sessions, ValueOf, draws.session.value)
               == Ok(Token(userId, draws.session.value, now + times.session))
  {
    CreateThenFindToken(db.sessions, userId, now + times.session, draws.session);
  }

  /** `Register`: 400 for an unreadable body or an invalid UUID, 500 when the
      users insert or the issuance fails, otherwise 200 with the new pair. */
  function RegisterOutcome(db: Db, times: ValidTimes, body: Body<UserInfoInDto>,
                           isValidUuid: string -> bool, now: int, draws: Draws)
    : (res: (Response, Db))
    ensures (body.Unparseable? || !isValidUuid(body.dto.deviceUuid)) ==>
              res == (Aborted(StatusBadRequest), db)
    ensures body.Parsed? && isValidUuid(body.dto.deviceUuid)
            && Contains(db.users, UuidOf, body.dto.deviceUuid) ==>
              res == (Aborted(StatusInternalServerError), db)
    ensures res.0.status in {StatusOK, StatusBadRequest, StatusInternalServerError}
    ensures res.0.Json? <==> res.0.status == StatusOK
    ensures ValidDb(db) ==> ValidDb(res.1)
  {
    match body
    case Unparseable => (Aborted(StatusBadRequest), db)
    case Parsed(userCred) =>
      if !isValidUuid(userCred.deviceUuid) then (Aborted(StatusBadRequest), db)
      else
        var (user, users', nextUserId') := CreateUser(db.users, db.nextUserId, userCred.deviceUuid);
        if user.Err? then (Aborted(StatusInternalServerError), db)
        else
          var db1 := db.(users := users', nextUserId := nextUserId');
          assert ValidDb(db) ==> ValidDb(db1) by {
            if ValidDb(db) { CreateUserKeepsValid(db.users, db.nextUserId, userCred.deviceUuid); }
          }
          var (out, db2) := IssuePair(db1, times, user.value.id, now, draws);
          if out.Err? then (Aborted(StatusInternalServerError), db2)
          else (Json(StatusOK, out.value), db2)
  }

  /** A 200 from `Register` means exactly one user was added, under the
      device UUID sent and an id no earlier user holds, plus exactly one
      session and one refresh token, both owned by that user and expiring one
      validity duration after `now`. */
  lemma RegisterSuccess(db: Db, times: ValidTimes, body: Body<UserInfoInDto>,
                        isValidUuid: string -> bool, now: int, draws: Draws)
    requires ValidDb(db)
    requires RegisterOutcome(db, times, body, isValidUuid, now, draws).0.status == StatusOK
    ensures var (resp, db') := RegisterOutcome(db, times, body, isValidUuid, now, draws);
            var user := User(db.nextUserId, body.dto.deviceUuid);
            && body.Parsed? && isValidUuid(body.dto.deviceUuid)
            && db'.users == db.users + [user]
            && !Contains(db.users, IdOf, user.id)
            && db'.sessions == db.sessions + [Token(user.id, resp.dto.sessionToken, now + times.session)]
            && db'.refreshes == db.refreshes + [Token(user.id, resp.dto.refreshToken, now + times.refresh)]
            && resp.dto.sessionExpiredAt == now + times.session
            && resp.dto.refreshExpiredAt == now + times.refresh
  {
    CreateUserKeepsValid(db.users, db.nextUserId, body.dto.deviceUuid);
  }

  /** `Register` answers 200 exactly when the body is readable, the device
      UUID is valid and not yet registered, and both draws are fresh. */
  lemma RegisterOk(db: Db, times: ValidTimes, body: Body<UserInfoInDto>,
                   isValidUuid: string -> bool, now: int, draws: Draws)
    ensures RegisterOutcome(db, times, body, isValidUuid, now, draws).0.status == StatusOK <==>
              && body.Parsed? && isValidUuid(body.dto.deviceUuid)
              && !Contains(db.users, UuidOf, body.dto.deviceUuid)
              && DrawsFresh(db, draws)
  {
    if body.Parsed? && isValidUuid(body.dto.deviceUuid) && !Contains(db.users, UuidOf, body.dto.deviceUuid) {
      var (_, users', nextUserId') := CreateUser(db.users, db.nextUserId, body.dto.deviceUuid);
      var db1 := db.(users := users', nextUserId := nextUserId');
      assert DrawsFresh(db1, draws) == DrawsFresh(db, draws);
    }
  }

  /** When the user insert succeeds but the issuance fails, `Register`
      answers 500 yet keeps the new user row; that device UUID can then never
      register again. */
  lemma RegisterIssueFailureKeepsUser(db: Db, times: ValidTimes, body: Body<UserInfoInDto>,
                                      isValidUuid: string -> bool, now: int, draws: Draws,
                                      now2: int, draws2: Draws)
    requires body.Parsed? && isValidUuid(body.dto.deviceUuid)
    requires !Contains(db.users, UuidOf, body.dto.deviceUuid)
    requires !DrawsFresh(db, draws)
    ensures var (resp, db') := RegisterOutcome(db, times, body, isValidUuid, now, draws);
            && resp == Aborted(StatusInternalServerError)
            && db'.users == db.users + [User(db.nextUserId, body.dto.deviceUuid)]
            && RegisterOutcome(db', times, body, isValidUuid, now2, draws2) == (Aborted(StatusInternalServerError), db')
  {
    var (_, db') := RegisterOutcome(db, times, body, isValidUuid, now, draws);
    var (_, users', nextUserId') := CreateUser(db.users, db.nextUserId, body.dto.deviceUuid);
    var db1 := db.(users := users', nextUserId := nextUserId');
    assert DrawsFresh(db1, draws) == DrawsFresh(db, draws);
    assert UuidOf(db'.users[|db.users|]) == body.dto.deviceUuid;
  }

  /** End to end: the session token a 200 from `Register` hands out passes
      the gate at once (given a non-negative validity duration and a token
      without spaces), authenticating the new user. */
  lemma RegisterThenAuthenticate(db: Db, times: ValidTimes, body: Body<UserInfoInDto>,
                                 isValidUuid: string -> bool, now: int, draws: Draws, scheme: string)
    requires ValidDb(db)
    requires RegisterOutcome(db, times, body, isValidUuid, now, draws).0.status == StatusOK
    requires 0 <= times.session
    requires ' ' !in scheme
    requires draws.session.Some? ==> ' ' !in draws.session.value
    ensures var (resp, db') := RegisterOutcome(db, times, body, isValidUuid, now, draws);
            Middlewares.GateDecision(scheme + " " + resp.dto.sessionToken, db'.sessions, now)
              == Middlewares.Authenticated(db.nextUserId)
  {
    var (resp, db') := RegisterOutcome(db, times, body, isValidUuid, now, draws);
    RegisterSuccess(db, times, body, isValidUuid, now, draws);
    Middlewares.ExtractRoundTrip(scheme, resp.dto.sessionToken);
    assert ValidDb(db');
    var i := |db.sessions|;
    assert db'.sessions[i] == Token(db.nextUserId, resp.dto.sessionToken, now + times.session);
  }

  /** Registering the same device UUID a second time, right after a
      successful registration, fails with 500 and changes nothing. */
  lemma RegisterTwiceFails(db: Db, times: ValidTimes, body: Body<UserInfoInDto>,
                           isValidUuid: string -> bool, now: int, draws: Draws, now2: int, draws2: Draws)
    requires ValidDb(db)
    requires RegisterOutcome(db, times, body, isValidUuid, now, draws).0.status == StatusOK
    ensures var (_, db') := RegisterOutcome(db, times, body, isValidUuid, now, draws);
            RegisterOutcome(db', times, body, isValidUuid, now2, draws2)
              == (Aborted(StatusInternalServerError), db')
  {
    var (_, db') := RegisterOutcome(db, times, body, isValidUuid, now, draws);
    RegisterSuccess(db, times, body, isValidUuid, now, draws);
    assert UuidOf(db'.users[|db.users|]) == body.dto.deviceUuid;
  }

  /** `SignIn`: like `Register`, but it looks the device up instead of
      inserting it; an unknown device is a 500, not a 404. */
  function SignInOutcome(db: Db, times: ValidTimes, body: Body<UserInfoInDto>,
                         isValidUuid: string -> bool, now: int, draws: Draws)
    : (res: (Response, Db))
    ensures (body.Unparseable? || !isValidUuid(body.dto.deviceUuid)) ==>
              res == (Aborted(StatusBadRequest), db)
    ensures body.Parsed? && isValidUuid(body.dto.deviceUuid)
            && !Contains(db.users, UuidOf, body.dto.deviceUuid) ==>
              res == (Aborted(StatusInternalServerError), db)
    ensures res.1.users == db.users && res.1.nextUserId == db.nextUserId
    ensures res.0.status in {StatusOK, StatusBadRequest, StatusInternalServerError}
    ensures res.0.Json? <==> res.0.status == StatusOK
    ensures ValidDb(db) ==> ValidDb(res.1)
  {
    match body
    case Unparseable => (Aborted(StatusBadRequest), db)
    case Parsed(userCred) =>
      if !isValidUuid(userCred.deviceUuid) then (Aborted(StatusBadRequest), db)
      else
        match Where(db.users, UuidOf, userCred.deviceUuid)
        case Err(_) => (Aborted(StatusInternalServerError), db)
        case Ok(user) =>
          var (out, db') := IssuePair(db, times, user.id, now, draws);
          if out.Err? then (Aborted(StatusInternalServerError), db')
          else (Json(StatusOK, out.value), db')
  }

  /** A 200 from `SignIn` issues exactly one session and one refresh token,
      both for the existing user registered under the device UUID sent. */
  lemma SignInSuccess(db: Db, times: ValidTimes, body: Body<UserInfoInDto>,
                      isValidUuid: string -> bool, now: int, draws: Draws, i: nat)
    requires ValidDb(db)
    requires i < |db.users| && body.Parsed? && db.users[i].deviceUuid == body.dto.deviceUuid
    requires SignInOutcome(db, times, body, isValidUuid, now, draws).0.status == StatusOK
    ensures var (resp, db') := SignInOutcome(db, times, body, isValidUuid, now, draws);
            && db'.sessions == db.sessions + [Token(db.users[i].id, resp.dto.sessionToken, now + times.session)]
            && db'.refreshes == db.refreshes + [Token(db.users[i].id, resp.dto.refreshToken, now + times.refresh)]
  {
    WhereFindsUnique(db.users, UuidOf, i);
  }

  /** `SignIn` answers 200 exactly when the body is readable, the device UUID
      is valid and registered, and both draws are fresh. */
  lemma SignInOk(db: Db, times: ValidTimes, body: Body<UserInfoInDto>,
                 isValidUuid: string -> bool, now: int, draws: Draws)
    ensures SignInOutcome(db, times, body, isValidUuid, now, draws).0.status == StatusOK <==>
              && body.Parsed? && isValidUuid(body.dto.deviceUuid)
              && Contains(db.users, UuidOf, body.dto.deviceUuid)
              && DrawsFresh(db, draws)
  {
  }

  /** `Refresh`: 400 for an unreadable body, an unknown refresh token or one
      whose expiry lies strictly before `now`; 500 when issuance fails;
      otherwise 200 with a new pair for the token's owner. */
  function RefreshOutcome(db: Db, times: ValidTimes, body: Body<RefreshInDto>, now: int, draws: Draws)
    : (res: (Response, Db))
    ensures body.Unparseable? ==> res == (Aborted(StatusBadRequest), db)
    ensures body.Parsed? && !Contains(db.refreshes, ValueOf, body.dto.refreshToken) ==>
              res == (Aborted(StatusBadRequest), db)
    ensures res.1.users == db.users && res.1.nextUserId == db.nextUserId
    ensures res.0.status in {StatusOK, StatusBadRequest, StatusInternalServerError}
    ensures res.0.Json? <==> res.0.status == StatusOK
    ensures ValidDb(db) ==> ValidDb(res.1)
  {
    match body
    case Unparseable => (Aborted(StatusBadRequest), db)
    case Parsed(refreshToken) =>
      match Where(db.refreshes, ValueOf, refreshToken.refreshToken)
      case Err(_) => (Aborted(StatusBadRequest), db)
      case Ok(token) =>
        if token.expiredAt < now then (Aborted(StatusBadRequest), db)
        else
          var (out, db') := IssuePair(db, times, token.userId, now, draws);
          if out.Err? then (Aborted(StatusInternalServerError), db')
          else (Json(StatusOK, out.value), db')
  }

  /** The expiry check of `Refresh` is strict: a stored refresh token is
      turned away with 400 exactly when its expiry lies before `now`, so one
      expiring at `now` itself is still honoured. */
  lemma RefreshExpiry(db: Db, times: ValidTimes, now: int, draws: Draws, i: nat)
    requires ValidDb(db)
    requires i < |db.refreshes|
    ensures var resp := RefreshOutcome(db, times, Parsed(RefreshInDto(db.refreshes[i].value)), now, draws).0;
            resp.status == StatusBadRequest <==> db.refreshes[i].expiredAt < now
  {
    WhereFindsUnique(db.refreshes, ValueOf, i);
  }

  /** A stored refresh token gets 200 from `Refresh` exactly when it has not
      expired (its expiry is not before `now`) and both draws are fresh. */
  lemma RefreshOk(db: Db, times: ValidTimes, now: int, draws: Draws, i: nat)
    requires ValidDb(db)
    requires i < |db.refreshes|
    ensures var resp := RefreshOutcome(db, times, Parsed(RefreshInDto(db.refreshes[i].value)), now, draws).0;
            resp.status == StatusOK <==> now <= db.refreshes[i].expiredAt && DrawsFresh(db, draws)
  {
    WhereFindsUnique(db.refreshes, ValueOf, i);
  }

  /** A 200 from `Refresh` issues exactly one session and one refresh token,
      both owned by the user the presented refresh token belongs to; the new
      refresh value differs from the presented one. */
  lemma RefreshSuccess(db: Db, times: ValidTimes, now: int, draws: Draws, i: nat)
    requires ValidDb(db)
    requires i < |db.refreshes|
    requires RefreshOutcome(db, times, Parsed(RefreshInDto(db.refreshes[i].value)), now, draws).0.status == StatusOK
    ensures var (resp, db') := RefreshOutcome(db, times, Parsed(RefreshInDto(db.refreshes[i].value)), now, draws);
            var owner := db.refreshes[i].userId;
            && now <= db.refreshes[i].expiredAt
            && db'.sessions == db.sessions + [Token(owner, resp.dto.sessionToken, now + times.session)]
            && db'.refreshes == db.refreshes + [Token(owner, resp.dto.refreshToken, now + times.refresh)]
            && resp.dto.refreshToken != db.refreshes[i].value
  {
    WhereFindsUnique(db.refreshes, ValueOf, i);
    var (resp, db') := RefreshOutcome(db, times, Parsed(RefreshInDto(db.refreshes[i].value)), now, draws);
    assert db'.refreshes[i] == db.refreshes[i];
    assert ValueOf(db'.refreshes[|db.refreshes|]) == resp.dto.refreshToken;
  }

  /** Issuing a pair never edits or removes a stored refresh token. */
  lemma IssuePairKeepsRefreshTokens(db: Db, times: ValidTimes, userId: nat, now: int, draws: Draws, v: string)
    requires Where(db.refreshes, ValueOf, v).Ok?
    ensures Where(IssuePair(db, times, userId, now, draws).1.refreshes, ValueOf, v) == Where(db.refreshes, ValueOf, v)
  {
    var refreshes' := IssuePair(db, times, userId, now, draws).1.refreshes;
    if |refreshes'| == |db.refreshes| {
      assert refreshes' == db.refreshes;
    } else {
      var added := refreshes'[|db.refreshes|];
      assert refreshes' == db.refreshes + [added];
      WhereAfterAppend(db.refreshes, added, ValueOf, v);
    }
  }

  /** `Refresh` neither deletes nor alters the refresh token presented to it:
      whatever the outcome, that token is found afterwards exactly as before. */
  lemma RefreshKeepsPresentedToken(db: Db, times: ValidTimes, body: Body<RefreshInDto>, now: int, draws: Draws)
    requires body.Parsed? && Contains(db.refreshes, ValueOf, body.dto.refreshToken)
    ensures var db' := RefreshOutcome(db, times, body, now, draws).1;
            Where(db'.refreshes, ValueOf, body.dto.refreshToken)
              == Where(db.refreshes, ValueOf, body.dto.refreshToken)
  {
    var v := body.dto.refreshToken;
    var token := Where(db.refreshes, ValueOf, v).value;
    if now <= token.expiredAt {
      IssuePairKeepsRefreshTokens(db, times, token.userId, now, draws, v);
    }
  }

  /** The tables are separate partitions: a value held in the refresh-token
      table but not in the session-token table does not pass the gate. */
  lemma RefreshTokenRejectedByGate(db: Db, scheme: string, value: string, now: int)
    requires ' ' !in scheme && ' ' !in value
    requires Contains(db.refreshes, ValueOf, value) && !Contains(db.sessions, ValueOf, value)
    ensures Middlewares.GateDecision(scheme + " " + value, db.sessions, now)
              == Middlewares.Rejected(RecordNotFound)
  {
    Middlewares.ExtractRoundTrip(scheme, value);
    assert forall i :: 0 <= i < |db.sessions| ==> ValueOf(db.sessions[i]) != value;
    Middlewares.GateRejectsUnknownToken(scheme + " " + value, db.sessions, now);
  }

  /** `AuthHandlerImpl`: the three repositories the handlers work on. */
  class AuthHandler {
    const users: UserRepository
    const sessions: SessionTokenRepository
    const refreshes: RefreshTokenRepository

    ghost predicate Valid()
      reads this, users, sessions, refreshes
    {
      users.Valid() && sessions.Valid() && refreshes.Valid()
    }

    /** The current contents of the three tables. */
    function State(): Db
      reads this, users, sessions, refreshes
    {
      Db(users.rows, users.nextId, sessions.rows, refreshes.rows)
    }

    function Times(): ValidTimes {
      ValidTimes(sessions.validTime, refreshes.validTime)
    }

    constructor (users: UserRepository, sessions: SessionTokenRepository, refreshes: RefreshTokenRepository)
      requires users.Valid() && sessions.Valid() && refreshes.Valid()
      ensures Valid()
      ensures this.users == users && this.sessions == sessions && this.refreshes == refreshes
    {
      this.users := users;
      this.sessions := sessions;
      this.refreshes := refreshes;
    }

    method GenerateTokenOutDtoWithUserId(userId: nat, now: int, draws: Draws)
      returns (r: Result<SessionTokenOutDto>)
      requires Valid()
      modifies sessions, refreshes
      ensures Valid()
      ensures (r, State()) == IssuePair(old(State()), Times(), userId, now, draws)
    {
      var sessionToken := sessions.CreateWithUserId(userId, now, draws.session);
      if sessionToken.Err? {
        return Err(sessionToken.error);
      }

      var refreshToken := refreshes.CreateWithUserId(userId, now, draws.refresh);
      if refreshToken.Err? {
        return Err(refreshToken.error);
      }

      r := Ok(SessionTokenOutDto(sessionToken.value.value, sessionToken.value.expiredAt,
                                 refreshToken.value.value, refreshToken.value.expiredAt));
    }

    method Register(body: Body<UserInfoInDto>, isValidUuid: string -> bool, now: int, draws: Draws)
      returns (resp: Response)
      requires Valid()
      modifies users, sessions, refreshes
      ensures Valid()
      ensures (resp, State()) == RegisterOutcome(old(State()), Times(), body, isValidUuid, now, draws)
    {
      if body.Unparseable? {
        return Aborted(StatusBadRequest);
      }
      var userCred := body.dto;
      if !isValidUuid(userCred.deviceUuid) {
        return Aborted(StatusBadRequest);
      }

      var user := users.CreateWithDeviceUUID(userCred.deviceUuid);
      if user.Err? {
        return Aborted(StatusInternalServerError);
      }

      var outDto := GenerateTokenOutDtoWithUserId(user.value.id, now, draws);
      if outDto.Err? {
        return Aborted(StatusInternalServerError);
      }

      resp := Json(StatusOK, outDto.value);
    }

    method SignIn(body: Body<UserInfoInDto>, isValidUuid: string -> bool, now: int, draws: Draws)
      returns (resp: Response)
      requires Valid()
      modifies sessions, refreshes
      ensures Valid()
      ensures (resp, State()) == SignInOutcome(old(State()), Times(), body, isValidUuid, now, draws)
    {
      if body.Unparseable? {
        return Aborted(StatusBadRequest);
      }
      var userCred := body.dto;
      if !isValidUuid(userCred.deviceUuid) {
        return Aborted(StatusBadRequest);
      }

      var user := users.FindByDeviceUUID(userCred.deviceUuid);
      if user.Err? {
        return Aborted(StatusInternalServerError);
      }

      var outDto := GenerateTokenOutDtoWithUserId(user.value.id, now, draws);
      if outDto.Err? {
        return Aborted(StatusInternalServerError);
      }

      resp := Json(StatusOK, outDto.value);
    }

    method Refresh(body: Body<RefreshInDto>, now: int, draws: Draws)
      returns (resp: Response)
      requires Valid()
      modifies sessions, refreshes
      ensures Valid()
      ensures (resp, State()) == RefreshOutcome(old(State()), Times(), body, now, draws)
    {
      if body.Unparseable? {
        return Aborted(StatusBadRequest);
      }
      var refreshToken := body.dto;

      var token := refreshes.FindByValue(refreshToken.refreshToken);
      if token.Err? {
        return Aborted(StatusBadRequest);
      }
      if token.value.expiredAt < now {
        return Aborted(StatusBadRequest);
      }

      var outDto := GenerateTokenOutDtoWithUserId(token.value.userId, now, draws);
      if outDto.Err? {
        return Aborted(StatusInternalServerError);
      }

      resp := Json(StatusOK, outDto.value);
    }
  }
}
