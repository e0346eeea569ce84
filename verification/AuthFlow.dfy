/**
 Login, second factor, sessions, refresh and the transfer gate, over whole runs. A signed token
 is its claims: what verifies under the service's key is what the service issued.
 Amounts are in cents; `now` is the clock in seconds.
 */
module AuthFlow {
  import opened Wrappers
  import opened Money
  import Sessions
  import RefreshTokens
  import MfaThrottle

  datatype Typ = Access | PreAuth

  datatype Claims = Claims(sub: string, exp: nat, typ: Typ, roles: seq<string>, mfa: bool, sid: Option<string>)

  /** What the user table says when it is read. */
  datatype User = User(id: string, active: bool, locked: bool, admin: bool, mfaEnabled: bool, enrolled: bool)

  const ACCESS_TTL: nat := 900
  const PRE_AUTH_TTL: nat := 300

  const CUSTOMER := "customer"
  const ADMIN := "admin"

  function RolesOf(u: User): seq<string> { [if u.admin then ADMIN else CUSTOMER] }

  // ---------- the transfer gate ----------

  const STEP_UP_THRESHOLD: int := 10_000_00

  /** `step_up_required(amount, threshold)` */
  predicate StepUpRequired(amount: int) { amount >= STEP_UP_THRESHOLD }

  /** The rules of the policy for action `transfer`. */
  predicate PolicyAllows(roles: seq<string>, mfa: bool, amount: int) {
    || (CUSTOMER in roles && amount > 0 && amount <= STEP_UP_THRESHOLD)
    || (CUSTOMER in roles && amount > STEP_UP_THRESHOLD && mfa)
  }

  datatype Verdict = Accepted | WrongToken | Expired | BadAmount | StepUpNeeded | Denied

  /** What happens to a transfer request up to the insertion of its row. */
  function Gate(c: Claims, now: nat, amount: int): Verdict {
    if c.exp <= now then Expired
    else if c.typ != Access then WrongToken
    else if !ValidAmount(amount) then BadAmount
    else if StepUpRequired(amount) && !c.mfa then StepUpNeeded
    else if !PolicyAllows(c.roles, c.mfa, amount) then Denied
    else Accepted
  }

  /** Application gate and policy together accept exactly the customer's transfers that need no step-up or had it. */
  lemma GateExactly(c: Claims, now: nat, amount: int)
    ensures Gate(c, now, amount) == Accepted <==>
      && now < c.exp && c.typ == Access && "customer" in c.roles
      && 0 < amount <= 999_999_999_99
      && (amount < 10_000_00 || c.mfa)
  {
  }

  // ---------- the services ----------

  /** A refresh between its steps: the token is rotated, then the session is read, then written back. */
  datatype Flight =
    | Rotated(user: string, sid: string)
    | Fetched(user: string, sid: string, fetched: Sessions.Fetched)

  datatype Transfer = Transfer(claims: Claims, amount: int, at: nat)

  datatype State = State(
    now: nat,
    slots: Sessions.Slots,
    tokens: RefreshTokens.Tokens,
    issued: set<Claims>,
    drawn: set<string>,           // every random id so far
    owner: map<string, string>,   // the user of every session ever created
    totp: map<string, string>,    // sessions created by a second factor that was accepted, and their user
    flights: map<nat, Flight>,    // the refreshes under way
    accepted: seq<Transfer>)

  datatype Event =
    | Tick(seconds: nat)
    | Login(login: User, passwordOk: bool, sid: string, tok: string)
    | MfaVerify(claims: Claims, row: Option<User>, codeOk: bool, sid: string, tok: string)
    | Rotate(id: nat, tok: string, successor: string)
    | FetchSession(id: nat)
    | FinishRefresh(id: nat)
    | Logout(sid: string)
    | RevokeAll(user: string)
    | Pay(claims: Claims, amount: int)

  /** Random ids are new and pairwise different. */
  predicate FreshPair(s: State, sid: string, tok: string) {
    sid !in s.drawn && tok !in s.drawn && sid != tok
  }

  function AccessClaims(s: State, sub: string, roles: seq<string>, sid: string, mfa: bool): Claims {
    Claims(sub, s.now + ACCESS_TTL, Access, roles, mfa, Some(sid))
  }

  /** Creates a session, an access token and a refresh token, as login and second factor both do. */
  function Start(s: State, u: User, mfa: bool, sid: string, tok: string): State {
    var session := Sessions.Session(sid, u.id, RolesOf(u), mfa, s.now, s.now, None, None);
    s.(slots := Sessions.Persist(s.slots, session, s.now),
       tokens := RefreshTokens.Put(s.tokens, tok, RefreshTokens.Entry(u.id, sid, RefreshTokens.LIVE), s.now),
       issued := s.issued + {AccessClaims(s, u.id, RolesOf(u), sid, mfa)},
       drawn := s.drawn + {sid, tok},
       owner := s.owner[sid := u.id])
  }

  /** `login` */
  function DoLogin(s: State, u: User, passwordOk: bool, sid: string, tok: string): State {
    if !u.active || !passwordOk || u.locked then s
    else if u.mfaEnabled then
      s.(issued := s.issued + {Claims(u.id, s.now + PRE_AUTH_TTL, PreAuth, [], false, None)})
    else Start(s, u, false, sid, tok)
  }

  /** `mfa_verify`, past its throttle; `row` is the user row of the subject of the token. */
  function DoMfaVerify(s: State, c: Claims, row: Option<User>, codeOk: bool, sid: string, tok: string): State {
    if c !in s.issued || c.exp <= s.now || c.typ != PreAuth then s
    else if row.None? || row.value.id != c.sub || !row.value.mfaEnabled || !row.value.enrolled then s
    else if !codeOk then s
    else Start(s, row.value, true, sid, tok).(totp := s.totp[sid := row.value.id])
  }

  /** `refresh` rotates the token first. */
  function DoRotate(s: State, id: nat, tok: string, successor: string): State {
    if id in s.flights then s
    else
      var t := s.(tokens := RefreshTokens.AfterRotate(s.tokens, tok, successor, s.now));
      if !RefreshTokens.Mints(s.tokens, tok, s.now) then t
      else
        var e := s.tokens[tok].entry;
        t.(drawn := s.drawn + {successor}, flights := s.flights[id := Rotated(e.user, e.sid)])
  }

  /** Then it reads the session. */
  function DoFetch(s: State, id: nat): State {
    if id in s.flights && s.flights[id].Rotated? then
      var f := s.flights[id];
      s.(flights := s.flights[id := Fetched(f.user, f.sid, Sessions.Fetch(s.slots, f.sid, s.now))])
    else s
  }

  /** Last it writes the session back and issues an access token. */
  function DoFinish(s: State, id: nat): State {
    if id in s.flights && s.flights[id].Fetched? then
      var f := s.flights[id];
      var t := s.(slots := Sessions.Finish(s.slots, f.fetched, s.now), flights := s.flights - {id});
      match f.fetched
      case Loaded(x) => t.(issued := s.issued + {AccessClaims(s, f.user, x.roles, f.sid, x.mfa)})
      case _ => t
    else s
  }

  /** `refresh` with nothing between its steps. */
  function DoRefresh(s: State, tok: string, successor: string): State {
    if !RefreshTokens.Mints(s.tokens, tok, s.now) then
      s.(tokens := RefreshTokens.AfterRotate(s.tokens, tok, successor, s.now))
    else
      var e := s.tokens[tok].entry;
      var t := s.(tokens := RefreshTokens.AfterRotate(s.tokens, tok, successor, s.now),
                  drawn := s.drawn + {successor},
                  slots := Sessions.AfterGet(s.slots, e.sid, s.now));
      match Sessions.Found(s.slots, e.sid, s.now)
      case None => t
      case Some(session) =>
        t.(issued := s.issued + {AccessClaims(s, e.user, session.roles, e.sid, session.mfa)})
  }

  function DoPay(s: State, c: Claims, amount: int): State {
    if c in s.issued && Gate(c, s.now, amount) == Accepted
    then s.(accepted := s.accepted + [Transfer(c, amount, s.now)])
    else s
  }

  function Step(s: State, e: Event): State {
    match e
    case Tick(dt) => s.(now := s.now + dt)
    case Login(u, ok, sid, tok) => if FreshPair(s, sid, tok) then DoLogin(s, u, ok, sid, tok) else s
    case MfaVerify(c, u, ok, sid, tok) => if FreshPair(s, sid, tok) then DoMfaVerify(s, c, u, ok, sid, tok) else s
    case Rotate(id, tok, successor) => if successor !in s.drawn then DoRotate(s, id, tok, successor) else s
    case FetchSession(id) => DoFetch(s, id)
    case FinishRefresh(id) => DoFinish(s, id)
    case Logout(sid) => s.(slots := s.slots - {sid})
    case RevokeAll(user) => s.(slots := Sessions.AfterRevokeAll(s.slots, user, s.now))
    case Pay(c, amount) => DoPay(s, c, amount)
  }

  /** Three steps in a row are a refresh with nothing between its steps. */
  lemma RefreshSteps(s: State, id: nat, tok: string, successor: string)
    requires id !in s.flights && successor !in s.drawn
    ensures Step(Step(Step(s, Rotate(id, tok, successor)), FetchSession(id)), FinishRefresh(id))
         == DoRefresh(s, tok, successor)
  {
    if RefreshTokens.Mints(s.tokens, tok, s.now) {
      var e := s.tokens[tok].entry;
      var f := Fetched(e.user, e.sid, Sessions.Fetch(s.slots, e.sid, s.now));
      assert s.flights[id := Rotated(e.user, e.sid)][id := f] - {id} == s.flights;
    }
  }

  const INITIAL := State(0, map[], map[], {}, {}, map[], map[], map[], [])

  function Run(es: seq<Event>): State {
    if es == [] then INITIAL else Step(Run(es[..|es| - 1]), es[|es| - 1])
  }

  // ---------- where tokens and sessions come from ----------

  /** Claims name a known session of their subject, and one with a second factor if they say so. */
  ghost predicate ClaimsProper(c: Claims, owner: map<string, string>, totp: map<string, string>) {
    if c.typ == PreAuth then !c.mfa && c.roles == [] && c.sid == None
    else
      && c.sid.Some? && c.sid.value in owner && owner[c.sid.value] == c.sub
      && (c.mfa ==> c.sid.value in totp && totp[c.sid.value] == c.sub)
  }

  ghost predicate SessionProper(sid: string, s: Sessions.Session,
                                owner: map<string, string>, totp: map<string, string>) {
    && s.sid == sid && sid in owner && owner[sid] == s.user
    && (s.mfa ==> sid in totp && totp[sid] == s.user)
  }

  ghost predicate SlotsProper(slots: Sessions.Slots, owner: map<string, string>, totp: map<string, string>) {
    forall sid :: sid in slots ==>
      slots[sid].blob.Sealed? && SessionProper(sid, slots[sid].blob.session, owner, totp)
  }

  ghost predicate TokensProper(tokens: RefreshTokens.Tokens, owner: map<string, string>) {
    forall tok :: tok in tokens ==>
      tokens[tok].entry.sid in owner && owner[tokens[tok].entry.sid] == tokens[tok].entry.user
  }

  ghost predicate FlightProper(f: Flight, owner: map<string, string>, totp: map<string, string>) {
    && f.sid in owner && owner[f.sid] == f.user
    && (f.Fetched? && f.fetched.Loaded? ==> SessionProper(f.sid, f.fetched.session, owner, totp))
  }

  ghost predicate Valid(s: State) {
    && (forall c :: c in s.issued ==> ClaimsProper(c, s.owner, s.totp))
    && SlotsProper(s.slots, s.owner, s.totp)
    && TokensProper(s.tokens, s.owner)
    && (forall id :: id in s.flights ==> FlightProper(s.flights[id], s.owner, s.totp))
    && s.owner.Keys <= s.drawn && s.totp.Keys <= s.owner.Keys
    && (forall i :: 0 <= i < |s.accepted| ==>
          var x := s.accepted[i]; x.claims in s.issued && Gate(x.claims, x.at, x.amount) == Accepted)
  }

  lemma ValidStart(s: State, u: User, mfa: bool, sid: string, tok: string, totp: map<string, string>)
    requires Valid(s) && FreshPair(s, sid, tok)
    requires totp == if mfa then s.totp[sid := u.id] else s.totp
    ensures Valid(Start(s, u, mfa, sid, tok).(totp := totp))
  {
    var t := Start(s, u, mfa, sid, tok).(totp := totp);
    assert sid !in s.owner && sid !in s.totp;
    forall c | c in t.issued ensures ClaimsProper(c, t.owner, t.totp) {
      if c in s.issued { assert ClaimsProper(c, s.owner, s.totp); }
    }
  }

  lemma ValidRotate(s: State, id: nat, tok: string, successor: string)
    requires Valid(s) && successor !in s.drawn
    ensures Valid(DoRotate(s, id, tok, successor))
  {
  }

  lemma ValidFetch(s: State, id: nat)
    requires Valid(s)
    ensures Valid(DoFetch(s, id))
  {
  }

  lemma ValidFinish(s: State, id: nat)
    requires Valid(s)
    ensures Valid(DoFinish(s, id))
  {
    if id in s.flights && s.flights[id].Fetched? {
      assert FlightProper(s.flights[id], s.owner, s.totp);
    }
  }

  lemma ValidStep(s: State, e: Event)
    requires Valid(s)
    ensures Valid(Step(s, e))
  {
    match e
    case Login(u, ok, sid, tok) => if FreshPair(s, sid, tok) { ValidStart(s, u, false, sid, tok, s.totp); }
    case MfaVerify(c, row, ok, sid, tok) => if FreshPair(s, sid, tok) { ValidMfa(s, e); }
    case Rotate(id, tok, successor) => if successor !in s.drawn { ValidRotate(s, id, tok, successor); }
    case FetchSession(id) => ValidFetch(s, id);
    case FinishRefresh(id) => ValidFinish(s, id);
    case _ =>
  }

  lemma ValidMfa(s: State, e: Event)
    requires Valid(s) && e.MfaVerify? && FreshPair(s, e.sid, e.tok)
    ensures Valid(Step(s, e))
  {
    match e
    case MfaVerify(c, row, ok, sid, tok) =>
      match row
      case None =>
      case Some(u) => ValidStart(s, u, true, sid, tok, s.totp[sid := u.id]);
  }

  lemma {:induction false} ValidRun(es: seq<Event>)
    ensures Valid(Run(es))
  {
    if es != [] {
      ValidRun(es[..|es| - 1]);
      ValidStep(Run(es[..|es| - 1]), es[|es| - 1]);
    }
  }

  /** In this step `mfa_verify` accepts a code of `user`, who is enrolled and holds an unexpired
      pre-auth token, and creates the session `sid`. */
  ghost predicate SecondFactorNow(s: State, e: Event, sid: string, user: string) {
    && e.MfaVerify? && e.sid == sid && e.codeOk && FreshPair(s, sid, e.tok)
    && e.claims in s.issued && e.claims.typ == PreAuth && s.now < e.claims.exp && e.claims.sub == user
    && e.row.Some? && e.row.value.id == user && e.row.value.mfaEnabled && e.row.value.enrolled
  }

  ghost predicate SecondFactorAt(es: seq<Event>, k: nat, sid: string, user: string) {
    k < |es| && SecondFactorNow(Run(es[..k]), es[k], sid, user)
  }

  lemma SecondFactorEarlier(es: seq<Event>, e: Event, k: nat, sid: string, user: string)
    requires SecondFactorAt(es, k, sid, user)
    ensures SecondFactorAt(es + [e], k, sid, user)
  {
    assert (es + [e])[..k] == es[..k];
  }

  /** A session counts as having a second factor exactly when some step of the run gave it one. */
  lemma {:induction false} SecondFactorExactly(es: seq<Event>, sid: string, user: string)
    ensures sid in Run(es).totp && Run(es).totp[sid] == user <==> exists k: nat :: SecondFactorAt(es, k, sid, user)
  {
    if es != [] {
      var init, e := es[..|es| - 1], es[|es| - 1];
      assert es == init + [e];
      SecondFactorExactly(init, sid, user);
      ValidRun(init);
      if k: nat :| SecondFactorAt(init, k, sid, user) { SecondFactorEarlier(init, e, k, sid, user); }
      if k: nat :| SecondFactorAt(es, k, sid, user) {
        assert es[..k] == init[..k];
        if k < |init| { assert SecondFactorAt(init, k, sid, user); }
      }
      SecondFactorStep(Run(init), e, sid, user);
      assert es[..|init|] == init;
      assert SecondFactorNow(Run(init), e, sid, user) <==> SecondFactorAt(es, |init|, sid, user);
    }
  }

  lemma SecondFactorStep(s: State, e: Event, sid: string, user: string)
    requires Valid(s)
    ensures var t := Step(s, e);
      sid in t.totp && t.totp[sid] == user <==>
        (sid in s.totp && s.totp[sid] == user) || SecondFactorNow(s, e, sid, user)
  {
    if e.MfaVerify? {
      MfaStarts(s, e);
    } else {
      OtherTotp(s, e);
    }
  }

  lemma OtherTotp(s: State, e: Event)
    requires !e.MfaVerify?
    ensures Step(s, e).totp == s.totp
  {
    if e.Login? { LoginStarts(s, e); }
  }

  // ---------- where sessions and tokens come from ----------

  /** In this step `login` accepts the password of an active and unlocked user. */
  ghost predicate PasswordNow(s: State, e: Event) {
    && e.Login? && FreshPair(s, e.sid, e.tok)
    && e.passwordOk && e.login.active && !e.login.locked
  }

  /** The user whose session this step creates: by a password where there is no second factor, or by
      an accepted second factor. */
  ghost function Starter(s: State, e: Event): Option<User> {
    if PasswordNow(s, e) && !e.login.mfaEnabled then Some(e.login)
    else if e.MfaVerify? && e.row.Some? && SecondFactorNow(s, e, e.sid, e.row.value.id) then e.row
    else None
  }

  ghost predicate StartsNow(s: State, e: Event, sid: string, user: string) {
    Starter(s, e).Some? && Starter(s, e).value.id == user && (e.Login? || e.MfaVerify?) && e.sid == sid
  }

  ghost predicate StartsAt(es: seq<Event>, k: nat, sid: string, user: string) {
    k < |es| && StartsNow(Run(es[..k]), es[k], sid, user)
  }

  lemma StartsEarlier(es: seq<Event>, e: Event, k: nat, sid: string, user: string)
    requires k < |es|
    ensures StartsAt(es + [e], k, sid, user) <==> StartsAt(es, k, sid, user)
  {
    assert (es + [e])[..k] == es[..k];
  }

  /** What a login or a second factor does, by who starts a session. */
  ghost function Started(s: State, e: Event): State
    requires e.Login? || e.MfaVerify?
  {
    if Starter(s, e).Some? then
      var u := Starter(s, e).value;
      var t := Start(s, u, e.MfaVerify?, e.sid, e.tok);
      if e.MfaVerify? then t.(totp := s.totp[e.sid := u.id]) else t
    else if PasswordNow(s, e) && e.login.mfaEnabled then
      s.(issued := s.issued + {Claims(e.login.id, s.now + 300, PreAuth, [], false, None)})
    else s
  }

  lemma LoginStarts(s: State, e: Event)
    requires e.Login?
    ensures Step(s, e) == Started(s, e)
  {
  }

  lemma MfaStarts(s: State, e: Event)
    requires e.MfaVerify?
    ensures Step(s, e) == Started(s, e)
  {
  }

  lemma OtherOwner(s: State, e: Event)
    requires !e.Login? && !e.MfaVerify?
    ensures Step(s, e).owner == s.owner
  {
  }

  lemma OwnerStep(s: State, e: Event, sid: string, user: string)
    requires Valid(s)
    ensures var t := Step(s, e);
      sid in t.owner && t.owner[sid] == user <==> (sid in s.owner && s.owner[sid] == user) || StartsNow(s, e, sid, user)
  {
    if e.Login? {
      LoginStarts(s, e);
      StartedOwner(s, e);
    } else if e.MfaVerify? {
      MfaStarts(s, e);
      StartedOwner(s, e);
    } else {
      OtherOwner(s, e);
    }
  }

  lemma StartedOwner(s: State, e: Event)
    requires Valid(s) && (e.Login? || e.MfaVerify?)
    ensures Started(s, e).owner == if Starter(s, e).Some? then s.owner[e.sid := Starter(s, e).value.id] else s.owner
    ensures Starter(s, e).Some? ==> e.sid !in s.owner && e.sid !in s.slots
  {
  }

  /**
   In every run a session belongs to a user if and only if some step created it for that user: a
   login with the right password of an active and unlocked user without a second factor, or an
   accepted second factor.
   */
  lemma {:induction false} SessionsExactly(es: seq<Event>, sid: string, user: string)
    ensures sid in Run(es).owner && Run(es).owner[sid] == user <==> exists k: nat :: StartsAt(es, k, sid, user)
  {
    if es != [] {
      var init, e := es[..|es| - 1], es[|es| - 1];
      assert es == init + [e] && es[..|init|] == init;
      SessionsExactly(init, sid, user);
      ValidRun(init);
      OwnerStep(Run(init), e, sid, user);
      forall k: nat | k < |init| ensures StartsAt(es, k, sid, user) <==> StartsAt(init, k, sid, user) {
        StartsEarlier(init, e, k, sid, user);
      }
      assert StartsNow(Run(init), e, sid, user) <==> StartsAt(es, |init|, sid, user);
      if k: nat :| StartsAt(init, k, sid, user) { assert StartsAt(es, k, sid, user); }
    }
  }

  function RolesFor(u: User): seq<string> { [if u.admin then "admin" else "customer"] }

  /** In this step a token with the claims `c` is issued. */
  ghost predicate IssuesNow(s: State, e: Event, c: Claims) {
    || (Starter(s, e).Some? && (e.Login? || e.MfaVerify?)
        && c == Claims(Starter(s, e).value.id, s.now + 900, Access, RolesFor(Starter(s, e).value),
                    e.MfaVerify?, Some(e.sid)))
    || (PasswordNow(s, e) && e.login.mfaEnabled && c == Claims(e.login.id, s.now + 300, PreAuth, [], false, None))
    || (e.FinishRefresh? && HeldBy(s, e.id).Some?
        && var x := HeldBy(s, e.id).value; c == Claims(x.user, s.now + 900, Access, x.roles, x.mfa, Some(x.sid)))
  }

  ghost predicate IssuesAt(es: seq<Event>, k: nat, c: Claims) {
    k < |es| && IssuesNow(Run(es[..k]), es[k], c)
  }

  lemma IssuesEarlier(es: seq<Event>, e: Event, k: nat, c: Claims)
    requires k < |es|
    ensures IssuesAt(es + [e], k, c) <==> IssuesAt(es, k, c)
  {
    assert (es + [e])[..k] == es[..k];
  }

  lemma StartIssues(s: State, e: Event, c: Claims)
    requires e.Login? || e.MfaVerify?
    ensures c in Started(s, e).issued <==> c in s.issued || IssuesNow(s, e, c)
  {
  }

  lemma FinishIssues(s: State, e: Event, c: Claims)
    requires Valid(s) && e.FinishRefresh?
    ensures c in Step(s, e).issued <==> c in s.issued || IssuesNow(s, e, c)
  {
    if HeldBy(s, e.id).Some? { assert FlightProper(s.flights[e.id], s.owner, s.totp); }
  }

  lemma IssuedStep(s: State, e: Event, c: Claims)
    requires Valid(s)
    ensures c in Step(s, e).issued <==> c in s.issued || IssuesNow(s, e, c)
  {
    if e.Login? {
      LoginStarts(s, e);
      StartIssues(s, e, c);
    } else if e.MfaVerify? {
      MfaStarts(s, e);
      StartIssues(s, e, c);
    } else if e.FinishRefresh? {
      FinishIssues(s, e, c);
    }
  }

  /**
   In every run claims are issued if and only if some step issued them: an access token for a
   session just created, with the role of its user and a second factor if it was created by one; a
   pre-auth token for a right password of an active and unlocked user with a second factor; or an
   access token copied from the session that a refresh holds.
   */
  lemma {:induction false} IssuedExactly(es: seq<Event>, c: Claims)
    ensures c in Run(es).issued <==> exists k: nat :: IssuesAt(es, k, c)
  {
    if es != [] {
      var init, e := es[..|es| - 1], es[|es| - 1];
      assert es == init + [e] && es[..|init|] == init;
      IssuedExactly(init, c);
      ValidRun(init);
      IssuedStep(Run(init), e, c);
      forall k: nat | k < |init| ensures IssuesAt(es, k, c) <==> IssuesAt(init, k, c) {
        IssuesEarlier(init, e, k, c);
      }
      assert IssuesNow(Run(init), e, c) <==> IssuesAt(es, |init|, c);
      if k: nat :| IssuesAt(init, k, c) { assert IssuesAt(es, k, c); }
    }
  }

  /** `x` is the session that this step creates, up to when it was last seen. */
  ghost predicate CreatesNow(s: State, e: Event, x: Sessions.Session) {
    && StartsNow(s, e, x.sid, x.user)
    && x.roles == RolesFor(Starter(s, e).value) && x.mfa == e.MfaVerify? && x.created == s.now
  }

  ghost predicate Originates(es: seq<Event>, x: Sessions.Session) {
    exists k: nat :: k < |es| && CreatesNow(Run(es[..k]), es[k], x)
  }

  lemma OriginatesStill(es: seq<Event>, e: Event, x: Sessions.Session, y: Sessions.Session)
    requires Originates(es, x) && y.(lastSeen := x.lastSeen) == x
    ensures Originates(es + [e], y)
  {
    var k: nat :| k < |es| && CreatesNow(Run(es[..k]), es[k], x);
    assert (es + [e])[..k] == es[..k];
    assert CreatesNow(Run((es + [e])[..k]), (es + [e])[k], y);
  }

  ghost predicate AllOriginate(es: seq<Event>) {
    && (forall sid :: sid in Run(es).slots ==>
          Run(es).slots[sid].blob.Sealed? && Originates(es, Run(es).slots[sid].blob.session))
    && (forall id :: HeldBy(Run(es), id).Some? ==> Originates(es, HeldBy(Run(es), id).value))
  }

  /** A stored session was stored before, was held by a refresh, or is created in this step. */
  ghost predicate Explained(s: State, e: Event, sid: string, blob: Sessions.Blob) {
    && blob.Sealed?
    && var y := blob.session;
       || (sid in s.slots && s.slots[sid].blob == blob)
       || (e.FinishRefresh? && HeldBy(s, e.id).Some?
           && y.(lastSeen := HeldBy(s, e.id).value.lastSeen) == HeldBy(s, e.id).value)
       || CreatesNow(s, e, y)
  }

  lemma StartedSlots(s: State, e: Event, sid: string)
    requires Valid(s) && (e.Login? || e.MfaVerify?) && sid in Started(s, e).slots
    ensures Explained(s, e, sid, Started(s, e).slots[sid].blob)
  {
  }

  lemma FinishedSlots(s: State, e: Event, sid: string)
    requires Valid(s) && e.FinishRefresh? && sid in Step(s, e).slots
    ensures Explained(s, e, sid, Step(s, e).slots[sid].blob)
  {
  }

  lemma OtherSlots(s: State, e: Event, sid: string)
    requires Valid(s) && !e.Login? && !e.MfaVerify? && !e.FinishRefresh? && sid in Step(s, e).slots
    ensures sid in s.slots && s.slots[sid].blob == Step(s, e).slots[sid].blob
  {
  }

  lemma SlotStep(s: State, e: Event, sid: string)
    requires Valid(s) && sid in Step(s, e).slots
    ensures Explained(s, e, sid, Step(s, e).slots[sid].blob)
  {
    if e.Login? {
      LoginStarts(s, e);
      StartedSlots(s, e, sid);
    } else if e.MfaVerify? {
      MfaStarts(s, e);
      StartedSlots(s, e, sid);
    } else if e.FinishRefresh? {
      FinishedSlots(s, e, sid);
    } else {
      OtherSlots(s, e, sid);
    }
  }

  lemma HeldStep(s: State, e: Event, id: nat)
    requires Valid(s) && HeldBy(Step(s, e), id).Some?
    ensures var y := HeldBy(Step(s, e), id).value;
      || HeldBy(s, id) == Some(y)
      || (y.sid in s.slots && s.slots[y.sid].blob == Sessions.Sealed(y))
  {
    if HeldBy(s, id) != HeldBy(Step(s, e), id) { FetchHolds(s, e, id); }
  }

  lemma {:induction false} SessionsOriginate(es: seq<Event>)
    ensures AllOriginate(es)
  {
    if es != [] {
      var init, e := es[..|es| - 1], es[|es| - 1];
      assert es == init + [e] && es[..|init|] == init;
      SessionsOriginate(init);
      ValidRun(init);
      var s, t := Run(init), Run(es);
      forall sid | sid in t.slots ensures t.slots[sid].blob.Sealed? && Originates(es, t.slots[sid].blob.session) {
        SlotStep(s, e, sid);
        var y := t.slots[sid].blob.session;
        if sid in s.slots && s.slots[sid].blob == t.slots[sid].blob {
          OriginatesStill(init, e, y, y);
        } else if CreatesNow(s, e, y) {
          assert CreatesNow(Run(es[..|init|]), es[|init|], y);
        } else {
          OriginatesStill(init, e, HeldBy(s, e.id).value, y);
        }
      }
      forall id | HeldBy(t, id).Some? ensures Originates(es, HeldBy(t, id).value) {
        HeldStep(s, e, id);
        var y := HeldBy(t, id).value;
        OriginatesStill(init, e, y, y);
      }
    }
  }

  /** In every run, whatever is found under a session id is as the step that created it made it. */
  lemma SessionsAreCreated(es: seq<Event>, sid: string)
    requires Sessions.Found(Run(es).slots, sid, Run(es).now).Some?
    ensures Originates(es, Sessions.Found(Run(es).slots, sid, Run(es).now).value)
  {
    SessionsOriginate(es);
    var s := Run(es);
    var x := s.slots[sid].blob.session;
    var k: nat :| k < |es| && CreatesNow(Run(es[..k]), es[k], x);
    assert CreatesNow(Run(es[..k]), es[k], x.(lastSeen := s.now));
  }

  /** A step that creates a session stores it, and a live refresh token for it. */
  lemma StartOpens(s: State, e: Event)
    requires Starter(s, e).Some? && (e.Login? || e.MfaVerify?)
    ensures var u, t := Starter(s, e).value, Step(s, e);
      && Sessions.Found(t.slots, e.sid, s.now)
           == Some(Sessions.Session(e.sid, u.id, RolesFor(u), e.MfaVerify?, s.now, s.now, None, None))
      && e.tok in t.tokens
      && t.tokens[e.tok] == RefreshTokens.Stored(RefreshTokens.Entry(u.id, e.sid, "live"), s.now + 604_800)
  {
    if e.Login? { LoginStarts(s, e); } else { MfaStarts(s, e); }
  }

  /** At step `p` of the run this transfer was requested and accepted. */
  ghost predicate PaidAt(es: seq<Event>, p: nat, x: Transfer) {
    && p < |es| && es[p] == Pay(x.claims, x.amount)
    && var s := Run(es[..p]); x.claims in s.issued && x.at == s.now && Gate(x.claims, s.now, x.amount) == Accepted
  }

  lemma AcceptStep(s: State, e: Event)
    ensures var t := Step(s, e);
      || t.accepted == s.accepted
      || (e.Pay? && e.claims in s.issued && Gate(e.claims, s.now, e.amount) == Accepted
          && t.accepted == s.accepted + [Transfer(e.claims, e.amount, s.now)])
  {
  }

  /** A transfer is accepted exactly when its claims were issued and it passes the gate. */
  lemma PayExactly(s: State, c: Claims, amount: int)
    ensures var t := Step(s, Pay(c, amount));
      if c in s.issued && s.now < c.exp && c.typ == Access && "customer" in c.roles
         && 0 < amount <= 999_999_999_99 && (amount < 10_000_00 || c.mfa)
      then t == s.(accepted := s.accepted + [Transfer(c, amount, s.now)])
      else t == s
  {
  }

  /** Every accepted transfer was accepted at some step, with a token issued before it. */
  lemma {:induction false} AcceptedWasPaid(es: seq<Event>, i: nat) returns (p: nat)
    requires i < |Run(es).accepted|
    ensures PaidAt(es, p, Run(es).accepted[i])
  {
    var init, e := es[..|es| - 1], es[|es| - 1];
    AcceptStep(Run(init), e);
    if i < |Run(init).accepted| {
      p := AcceptedWasPaid(init, i);
      assert es[..p] == init[..p];
    } else {
      p := |init|;
      assert es[..p] == init;
    }
  }

  /**
   In every run, every accepted transfer at or above the threshold was requested with an access
   token whose session an earlier step created for its subject, by accepting the code of an
   enrolled user who held an unexpired pre-auth token.
   */
  lemma LargeTransfersHadSecondFactor(es: seq<Event>, i: nat)
    requires i < |Run(es).accepted| && Run(es).accepted[i].amount >= 10_000_00
    ensures var x := Run(es).accepted[i];
      && x.claims.typ == Access && "customer" in x.claims.roles && x.claims.sid.Some?
      && exists k: nat, p: nat :: k < p && PaidAt(es, p, x) && SecondFactorAt(es, k, x.claims.sid.value, x.claims.sub)
  {
    var x := Run(es).accepted[i];
    var p := AcceptedWasPaid(es, i);
    ValidRun(es[..p]);
    GateExactly(x.claims, x.at, x.amount);
    assert ClaimsProper(x.claims, Run(es[..p]).owner, Run(es[..p]).totp);
    SecondFactorExactly(es[..p], x.claims.sid.value, x.claims.sub);
    var k: nat :| SecondFactorAt(es[..p], k, x.claims.sid.value, x.claims.sub);
    assert es[..p][..k] == es[..k];
    assert SecondFactorAt(es, k, x.claims.sid.value, x.claims.sub);
  }

  /** A pre-auth token never gets a transfer accepted. */
  lemma PreAuthNeverPays(es: seq<Event>, i: nat)
    requires i < |Run(es).accepted|
    ensures Run(es).accepted[i].claims.typ == Access && Run(es).accepted[i].claims in Run(es).issued
  {
    ValidRun(es);
  }

  // ---------- what a refresh issues ----------

  /** The claims that a refresh copies from a session. */
  function Copied(x: Sessions.Session, now: nat): Claims {
    Claims(x.user, now + ACCESS_TTL, Access, x.roles, x.mfa, Some(x.sid))
  }

  /** The session that a refresh holds. */
  function HeldBy(s: State, id: nat): Option<Sessions.Session> {
    if id in s.flights && s.flights[id].Fetched? && s.flights[id].fetched.Loaded?
    then Some(s.flights[id].fetched.session) else None
  }

  /** At step `j` of the run, refresh `id` read the live session `x`. */
  ghost predicate FetchedAt(es: seq<Event>, j: nat, id: nat, x: Sessions.Session) {
    && j < |es| && es[j] == FetchSession(id)
    && Sessions.Fetch(Run(es[..j]).slots, x.sid, Run(es[..j]).now) == Sessions.Loaded(x)
  }

  lemma {:induction false} HeldWasFetched(es: seq<Event>, id: nat) returns (j: nat)
    requires HeldBy(Run(es), id).Some?
    ensures FetchedAt(es, j, id, HeldBy(Run(es), id).value)
  {
    var init, e := es[..|es| - 1], es[|es| - 1];
    ValidRun(init);
    if HeldBy(Run(init), id) == HeldBy(Run(es), id) {
      j := HeldWasFetched(init, id);
      assert es[..j] == init[..j];
    } else {
      j := |init|;
      assert es[..j] == init;
      FetchHolds(Run(init), e, id);
    }
  }

  lemma FetchHolds(s: State, e: Event, id: nat)
    requires Valid(s) && HeldBy(Step(s, e), id).Some? && HeldBy(s, id) != HeldBy(Step(s, e), id)
    ensures e == FetchSession(id)
    ensures var x := HeldBy(Step(s, e), id).value; Sessions.Fetch(s.slots, x.sid, s.now) == Sessions.Loaded(x)
  {
    if e == FetchSession(id) {
      assert FlightProper(s.flights[id], s.owner, s.totp);
    }
  }

  /**
   In every run, the last step of a refresh issues one access token if an earlier step of it read a
   live session, with the subject, roles and second factor of that session, and nothing otherwise.
   */
  lemma RefreshCopiesSession(es: seq<Event>, id: nat)
    ensures var s, t := Run(es), Step(Run(es), FinishRefresh(id));
      match HeldBy(s, id)
      case None => t.issued == s.issued
      case Some(x) => t.issued == s.issued + {Copied(x, s.now)} && exists j: nat :: FetchedAt(es, j, id, x)
  {
    ValidRun(es);
    FinishCopies(Run(es), id);
    if HeldBy(Run(es), id).Some? {
      var j := HeldWasFetched(es, id);
    }
  }

  lemma FinishCopies(s: State, id: nat)
    requires Valid(s)
    ensures match HeldBy(s, id)
      case None => Step(s, FinishRefresh(id)).issued == s.issued
      case Some(x) => Step(s, FinishRefresh(id)).issued == s.issued + {Copied(x, s.now)}
  {
    if HeldBy(s, id).Some? { assert FlightProper(s.flights[id], s.owner, s.totp); }
  }

  // ---------- when a logout is final ----------

  /** No refresh under way has read the session. */
  ghost predicate NoneHolds(s: State, sid: string) {
    forall id :: HeldBy(s, id).Some? ==> HeldBy(s, id).value.sid != sid
  }

  ghost predicate Gone(s: State, sid: string) {
    sid in s.drawn && sid !in s.slots && NoneHolds(s, sid)
  }

  /** A step that is not the last of a refresh neither brings a drawn session back nor issues for it. */
  lemma GoneOther(s: State, e: Event, sid: string)
    requires sid in s.drawn && sid !in s.slots && !e.FinishRefresh?
    ensures sid in Step(s, e).drawn && sid !in Step(s, e).slots
    ensures forall c :: c in Step(s, e).issued && c.sid == Some(sid) ==> c in s.issued
  {
    if e.Login? { LoginStarts(s, e); }
    if e.MfaVerify? { MfaStarts(s, e); }
  }

  lemma NoneHoldsStays(s: State, e: Event, sid: string)
    requires Valid(s) && Gone(s, sid)
    ensures NoneHolds(Step(s, e), sid)
  {
    var t := Step(s, e);
    forall id | HeldBy(t, id).Some? ensures HeldBy(t, id).value.sid != sid {
      if HeldBy(t, id) != HeldBy(s, id) { FetchHolds(s, e, id); }
    }
  }

  lemma GoneStays(s: State, e: Event, sid: string)
    requires Valid(s) && Gone(s, sid)
    ensures Gone(Step(s, e), sid)
    ensures forall c :: c in Step(s, e).issued && c.sid == Some(sid) ==> c in s.issued
  {
    NoneHoldsStays(s, e, sid);
    if e.FinishRefresh? {
      GoneFinish(s, e.id, sid);
    } else {
      GoneOther(s, e, sid);
    }
  }

  lemma GoneFinish(s: State, id: nat, sid: string)
    requires Valid(s) && Gone(s, sid)
    ensures sid in DoFinish(s, id).drawn && sid !in DoFinish(s, id).slots
    ensures forall c :: c in DoFinish(s, id).issued && c.sid == Some(sid) ==> c in s.issued
  {
    if HeldBy(s, id).Some? {
      assert FlightProper(s.flights[id], s.owner, s.totp);
      assert HeldBy(s, id).value.sid != sid;
    }
  }

  function RunOn(s: State, es: seq<Event>): State
    decreases |es|
  {
    if es == [] then s else Step(RunOn(s, es[..|es| - 1]), es[|es| - 1])
  }

  lemma {:induction false} GoneForGood(s: State, more: seq<Event>, sid: string)
    requires Valid(s) && Gone(s, sid)
    ensures Valid(RunOn(s, more)) && Gone(RunOn(s, more), sid)
    ensures forall c :: c in RunOn(s, more).issued && c.sid == Some(sid) ==> c in s.issued
    decreases |more|
  {
    if more != [] {
      var init, e := more[..|more| - 1], more[|more| - 1];
      GoneForGood(s, init, sid);
      GoneStays(RunOn(s, init), e, sid);
      ValidStep(RunOn(s, init), e);
    }
  }

  lemma LogoutGone(s: State, sid: string)
    requires Valid(s) && sid in s.owner && NoneHolds(s, sid)
    ensures Gone(Step(s, Logout(sid)), sid) && Step(s, Logout(sid)).issued == s.issued
  {
    var t := Step(s, Logout(sid));
    forall id ensures HeldBy(t, id) == HeldBy(s, id) {
    }
  }

  /** A logout touches nothing but this session. */
  lemma LogoutIsLocal(s: State, sid: string, other: string)
    requires other != sid
    ensures var t := Step(s, Logout(sid));
      && Sessions.Found(t.slots, other, s.now) == Sessions.Found(s.slots, other, s.now)
      && t == s.(slots := t.slots) && sid !in t.slots
  {
  }

  /** After a logout with no refresh holding the session, nothing ever issues claims that name it. */
  lemma LogoutIsFinal(es: seq<Event>, sid: string, more: seq<Event>)
    requires sid in Run(es).owner && NoneHolds(Run(es), sid)
    ensures var t := RunOn(Step(Run(es), Logout(sid)), more);
      && sid !in t.slots
      && forall c :: c in t.issued && c.sid == Some(sid) ==> c in Run(es).issued
  {
    ValidRun(es);
    ValidStep(Run(es), Logout(sid));
    LogoutGone(Run(es), sid);
    GoneForGood(Step(Run(es), Logout(sid)), more, sid);
  }

  /** A refresh that holds the session undoes the logout: the session is back, with a new access token. */
  lemma LogoutIsUndone(s: State, sid: string, id: nat)
    requires Valid(s) && HeldBy(s, id).Some? && HeldBy(s, id).value.sid == sid
    ensures var x := HeldBy(s, id).value;
      var t := Step(Step(s, Logout(sid)), FinishRefresh(id));
      && sid in t.slots && Sessions.Found(t.slots, sid, s.now) == Some(x.(lastSeen := s.now))
      && Copied(x, s.now) in t.issued
  {
    assert FlightProper(s.flights[id], s.owner, s.totp);
    FinishHeld(Step(s, Logout(sid)), id);
  }

  lemma FinishHeld(s: State, id: nat)
    requires HeldBy(s, id).Some?
    ensures var x := HeldBy(s, id).value;
      && DoFinish(s, id).slots == Sessions.Persist(s.slots, x.(lastSeen := s.now), s.now)
      && AccessClaims(s, s.flights[id].user, x.roles, s.flights[id].sid, x.mfa) in DoFinish(s, id).issued
  {
  }

  lemma RunOnOne(s: State, e: Event)
    ensures RunOn(s, [e]) == Step(s, e)
  {
    assert [e][..0] == [];
  }

  /** So a logout is final exactly when no refresh holds the session. */
  lemma LogoutIsFinalExactly(es: seq<Event>, sid: string)
    requires sid in Run(es).owner
    ensures (forall more :: sid !in RunOn(Step(Run(es), Logout(sid)), more).slots) <==> NoneHolds(Run(es), sid)
  {
    if NoneHolds(Run(es), sid) {
      forall more ensures sid !in RunOn(Step(Run(es), Logout(sid)), more).slots { LogoutIsFinal(es, sid, more); }
    } else {
      ValidRun(es);
      LogoutReturns(Run(es), sid);
    }
  }

  lemma LogoutReturns(s: State, sid: string)
    requires Valid(s) && !NoneHolds(s, sid)
    ensures exists more :: sid in RunOn(Step(s, Logout(sid)), more).slots
  {
    var id :| HeldBy(s, id).Some? && HeldBy(s, id).value.sid == sid;
    LogoutIsUndone(s, sid, id);
    RunOnOne(Step(s, Logout(sid)), FinishRefresh(id));
    assert sid in RunOn(Step(s, Logout(sid)), [FinishRefresh(id)]).slots;
  }

  // ---------- the handlers ----------

  datatype Reply =
    | Refused(status: nat)
    | SecondFactorNext(preAuth: Claims)
    | Signed(access: Claims, refresh: string)

  /** The auth service over its stores; what is ghost only records the run. */
  class AuthService {
    const sessions: Sessions.SessionStore
    const refreshTokens: RefreshTokens.RefreshTokenStore
    const throttle: MfaThrottle.Throttle
    ghost var issued: set<Claims>
    ghost var drawn: set<string>
    ghost var owner: map<string, string>
    ghost var totp: map<string, string>

    ghost function Abs(now: nat): State
      reads this, sessions, refreshTokens
    {
      State(now, sessions.slots, refreshTokens.tokens, issued, drawn, owner, totp, map[], [])
    }

    constructor ()
      ensures Abs(0) == INITIAL && throttle.counters == map[]
      ensures fresh(sessions) && fresh(refreshTokens) && fresh(throttle)
    {
      sessions := new Sessions.SessionStore();
      refreshTokens := new RefreshTokens.RefreshTokenStore();
      throttle := new MfaThrottle.Throttle();
      issued, drawn, owner, totp := {}, {}, map[], map[];
    }

    /** The session and the tokens that login and second factor end with. */
    method Begin(u: User, mfa: bool, sid: string, tok: string, now: nat) returns (r: Reply)
      modifies this, sessions, refreshTokens
      ensures Abs(now) == Start(old(Abs(now)), u, mfa, sid, tok)
      ensures r == Signed(Claims(u.id, now + ACCESS_TTL, Access, RolesOf(u), mfa, Some(sid)), tok)
      ensures totp == old(totp)
    {
      var sess := sessions.Create(sid, u.id, RolesOf(u), mfa, None, None, now);
      var access := Claims(u.id, now + ACCESS_TTL, Access, RolesOf(u), mfa, Some(sess.sid));
      refreshTokens.Issue(tok, u.id, sess.sid, now);
      issued := issued + {access};
      drawn := drawn + {sid, tok};
      owner := owner[sid := u.id];
      r := Signed(access, tok);
    }

    /** A session was opened for `u`, with an access token and a refresh token. */
    ghost predicate Opened(r: Reply, u: User, mfa: bool, sid: string, tok: string, now: nat)
      reads this, sessions, refreshTokens
    {
      && r == Signed(Claims(u.id, now + 900, Access, RolesFor(u), mfa, Some(sid)), tok)
      && r.access in issued
      && Sessions.Found(sessions.slots, sid, now)
           == Some(Sessions.Session(sid, u.id, RolesFor(u), mfa, now, now, None, None))
      && tok in refreshTokens.tokens
      && refreshTokens.tokens[tok] == RefreshTokens.Stored(RefreshTokens.Entry(u.id, sid, "live"), now + 604_800)
    }

    /** `login`, for the row found under the address given, if any. */
    method Login(row: Option<User>, passwordOk: bool, sid: string, tok: string, now: nat) returns (r: Reply)
      modifies this, sessions, refreshTokens
      ensures row.None? ==> Abs(now) == old(Abs(now))
      ensures row.Some? ==> Abs(now) == DoLogin(old(Abs(now)), row.value, passwordOk, sid, tok)
      ensures r == Refused(401) <==> row.None? || !row.value.active || !passwordOk
      ensures r == Refused(423) <==> row.Some? && row.value.active && passwordOk && row.value.locked
      ensures r.Refused? ==> Abs(now) == old(Abs(now)) && (r == Refused(401) || r == Refused(423))
      ensures r.SecondFactorNext? <==>
        row.Some? && row.value.active && passwordOk && !row.value.locked && row.value.mfaEnabled
      ensures r.SecondFactorNext? ==>
        r.preAuth == Claims(row.value.id, now + 300, PreAuth, [], false, None) && r.preAuth in issued
      ensures r.Signed? <==>
        row.Some? && row.value.active && passwordOk && !row.value.locked && !row.value.mfaEnabled
      ensures r.Signed? ==> Opened(r, row.value, false, sid, tok, now)
    {
      if row.None? || !row.value.active || !passwordOk { return Refused(401); }
      var u := row.value;
      if u.locked { return Refused(423); }
      if u.mfaEnabled {
        var pre := Claims(u.id, now + PRE_AUTH_TTL, PreAuth, [], false, None);
        issued := issued + {pre};
        return SecondFactorNext(pre);
      }
      r := Begin(u, false, sid, tok, now);
    }

    /** `mfa_verify`: `text` is the presented token, and `claims` what it decodes to if its signature verifies. */
    method MfaVerify(text: string, claims: Option<Claims>, row: Option<User>, codeOk: bool,
                     sid: string, tok: string, now: nat) returns (r: Reply)
      requires claims.Some? ==> claims.value in issued
      modifies this, sessions, refreshTokens, throttle
      ensures var key := MfaThrottle.RateKey(text);
        throttle.counters == old(throttle.counters)[key := MfaThrottle.Bump(old(throttle.Get(key)), now)]
      ensures claims.Some? && MfaThrottle.Admits(old(throttle.Get(MfaThrottle.RateKey(text))), now) ==>
        Abs(now) == DoMfaVerify(old(Abs(now)), claims.value, row, codeOk, sid, tok)
      ensures claims.None? || !MfaThrottle.Admits(old(throttle.Get(MfaThrottle.RateKey(text))), now) ==>
        Abs(now) == old(Abs(now)) && r.Refused?
      ensures r == Refused(429) <==> !MfaThrottle.Admits(old(throttle.Get(MfaThrottle.RateKey(text))), now)
      ensures r.Signed? <==>
        && MfaThrottle.Admits(old(throttle.Get(MfaThrottle.RateKey(text))), now)
        && claims.Some? && now < claims.value.exp && claims.value.typ == PreAuth
        && row.Some? && row.value.id == claims.value.sub && row.value.mfaEnabled && row.value.enrolled && codeOk
      ensures r.Signed? ==> Opened(r, row.value, true, sid, tok, now) && sid in totp && totp[sid] == row.value.id
      ensures !r.Signed? ==> Abs(now) == old(Abs(now)) && (r == Refused(429) || r == Refused(401))
    {
      var admitted := throttle.Attempt(text, now);
      if !admitted { return Refused(429); }
      if claims.None? || claims.value.exp <= now || claims.value.typ != PreAuth { return Refused(401); }
      if row.None? || row.value.id != claims.value.sub || !row.value.mfaEnabled || !row.value.enrolled {
        return Refused(401);
      }
      if !codeOk { return Refused(401); }
      r := Begin(row.value, true, sid, tok, now);
      totp := totp[sid := row.value.id];
    }

    /** `refresh` */
    method Refresh(presented: string, successor: string, now: nat) returns (r: Reply)
      modifies this, sessions, refreshTokens
      ensures Abs(now) == DoRefresh(old(Abs(now)), presented, successor)
      ensures r.Signed? <==>
        && RefreshTokens.Mints(old(refreshTokens.tokens), presented, now)
        && Sessions.Found(old(sessions.slots), old(refreshTokens.tokens)[presented].entry.sid, now).Some?
      ensures r.Signed? ==>
        var e := old(refreshTokens.tokens)[presented].entry;
        var x := Sessions.Found(old(sessions.slots), e.sid, now).value;
        r == Signed(Claims(e.user, now + 900, Access, x.roles, x.mfa, Some(e.sid)), successor) && r.access in issued
      ensures !r.Signed? ==> r == Refused(401) && issued == old(issued)
    {
      var rot := refreshTokens.Rotate(presented, successor, now);
      if rot.None? { return Refused(401); }
      var (newTok, user, sid) := rot.value;
      drawn := drawn + {successor};
      var sess := sessions.Get(sid, now);
      if sess.None? { return Refused(401); }
      var access := Claims(user, now + ACCESS_TTL, Access, sess.value.roles, sess.value.mfa, Some(sid));
      issued := issued + {access};
      r := Signed(access, newTok);
    }

    /** `logout` */
    method Logout(sid: Option<string>, now: nat)
      modifies sessions
      ensures Abs(now) == if sid.Some? then Step(old(Abs(now)), Event.Logout(sid.value)) else old(Abs(now))
    {
      if sid.Some? { sessions.Revoke(sid.value); }
    }
  }
}
