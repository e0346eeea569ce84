/**
 Credit and debit with an idempotency marker. One request is three steps on shared state: it
 reads the marker, changes the row under its lock, and writes the marker. Requests interleave
 between the steps. Money is in cents.
 */
module Accounts {
  import opened Wrappers
  import opened Money

  datatype Op = Credit | Debit

  datatype Request = Request(op: Op, account: string, amount: int, key: string)

  datatype Account = Account(balance: int, version: nat, active: bool)

  /** When something happened: the number of steps before it, and the clock in seconds. */
  datatype Stamp = Stamp(step: nat, time: nat)

  datatype Phase =
    | New
    | Cleared   // the marker read found nothing and the policy allowed the request
    | Applied   // the row was changed and committed
    | Marked    // the marker was written
    | Replayed  // the marker read found a marker
    | Forbidden | NotFound | Inactive | Insufficient

  datatype Progress = Progress(req: Request, phase: Phase, read: Option<Stamp>, marked: Option<Stamp>)

  /** What a request is answered with: the row as it is read out, or a failure where there is none. */
  datatype Answer = NoRow | Shown(balance: int, active: bool)

  /** The audit record of one application. */
  datatype Entry = Entry(id: nat, req: Request)

  datatype State = State(
    step: nat,
    clock: nat,
    accounts: map<string, Account>,
    markers: map<Marker, nat>,  // the time at which each marker expires
    requests: map<nat, Progress>,
    answers: map<nat, Answer>,
    log: seq<Entry>)

  datatype Event =
    | Tick(seconds: nat)
    | Open(account: string)
    | SetActive(account: string, active: bool)
    | Arrive(id: nat, req: Request)
    | Read(id: nat, allowed: bool)
    | Update(id: nat)
    | Mark(id: nat)
    | Reply(id: nat)  // a request answered from the marker reads the row

  const DAY: nat := 24 * 3600

  /** What an idempotency marker is stored under; `MarkerText` is its key in Redis. */
  datatype Marker = Marker(op: Op, account: string, key: string)

  function MarkerKey(r: Request): Marker { Marker(r.op, r.account, r.key) }

  predicate Visible(markers: map<Marker, nat>, key: Marker, now: nat) {
    key in markers && now < markers[key]
  }

  /** What the locked section does with a request. */
  function Decide(accounts: map<string, Account>, r: Request): Phase {
    if r.account !in accounts then NotFound
    else if !accounts[r.account].active then Inactive
    else if r.op == Debit && accounts[r.account].balance < r.amount then Insufficient
    else Applied
  }

  function Change(a: Account, r: Request): Account {
    a.(balance := if r.op == Credit then a.balance + r.amount else a.balance - r.amount,
       version := a.version + 1)
  }

  /** `_to_out` */
  function ShownAs(a: Account): Answer { Shown(a.balance, a.active) }

  function ReadOut(accounts: map<string, Account>, a: string): Answer {
    if a in accounts then ShownAs(accounts[a]) else NoRow
  }

  function Phased(s: State, id: nat): Phase
    requires id in s.requests
  {
    s.requests[id].phase
  }

  function OpenAccount(s: State, a: string): State {
    if a in s.accounts then s else s.(accounts := s.accounts[a := Account(0, 0, true)])
  }

  function SetStatus(s: State, a: string, active: bool): State {
    if a in s.accounts then s.(accounts := s.accounts[a := s.accounts[a].(active := active)]) else s
  }

  function ArriveRequest(s: State, id: nat, r: Request): State {
    if id in s.requests || !ValidAmount(r.amount) then s
    else s.(requests := s.requests[id := Progress(r, New, None, None)])
  }

  function ReadMarker(s: State, id: nat, allowed: bool): State
    requires id in s.requests && Phased(s, id) == New
  {
    var p := s.requests[id];
    var phase := if Visible(s.markers, MarkerKey(p.req), s.clock) then Replayed
                 else if !allowed then Forbidden else Cleared;
    s.(requests := s.requests[id := p.(phase := phase, read := Some(Stamp(s.step, s.clock)))])
  }

  function UpdateRow(s: State, id: nat): State
    requires id in s.requests && Phased(s, id) == Cleared
  {
    var p := s.requests[id];
    var phase := Decide(s.accounts, p.req);
    var requests := s.requests[id := p.(phase := phase)];
    if phase != Applied then s.(requests := requests)
    else s.(requests := requests,
            accounts := s.accounts[p.req.account := Change(s.accounts[p.req.account], p.req)],
            answers := s.answers[id := ShownAs(Change(s.accounts[p.req.account], p.req))],
            log := s.log + [Entry(id, p.req)])
  }

  function WriteMarker(s: State, id: nat): State
    requires id in s.requests && Phased(s, id) == Applied
  {
    var p := s.requests[id];
    s.(requests := s.requests[id := p.(phase := Marked, marked := Some(Stamp(s.step, s.clock)))],
       markers := s.markers[MarkerKey(p.req) := s.clock + DAY])
  }

  function ReplyToReplay(s: State, id: nat): State
    requires id in s.requests && Phased(s, id) == Replayed && id !in s.answers
  {
    s.(answers := s.answers[id := ReadOut(s.accounts, s.requests[id].req.account)])
  }

  function Act(s: State, e: Event): State {
    match e
    case Tick(dt) => s.(clock := s.clock + dt)
    case Open(a) => OpenAccount(s, a)
    case SetActive(a, b) => SetStatus(s, a, b)
    case Arrive(id, r) => ArriveRequest(s, id, r)
    case Read(id, allowed) =>
      if id in s.requests && Phased(s, id) == New then ReadMarker(s, id, allowed) else s
    case Update(id) => if id in s.requests && Phased(s, id) == Cleared then UpdateRow(s, id) else s
    case Mark(id) => if id in s.requests && Phased(s, id) == Applied then WriteMarker(s, id) else s
    case Reply(id) =>
      if id in s.requests && Phased(s, id) == Replayed && id !in s.answers then ReplyToReplay(s, id) else s
  }

  function Step(s: State, e: Event): State { Act(s, e).(step := s.step + 1) }

  /** Any interleaving; an event that is not enabled only counts as a step. */
  function Run(s: State, es: seq<Event>): State
    decreases |es|
  {
    if es == [] then s else Step(Run(s, es[..|es| - 1]), es[|es| - 1])
  }

  const INITIAL := State(0, 0, map[], map[], map[], map[], [])

  function After(es: seq<Event>): State { Run(INITIAL, es) }

  lemma RunOne(s: State, es: seq<Event>, e: Event)
    ensures Run(s, es + [e]) == Step(Run(s, es), e)
  {
    assert (es + [e])[..|es|] == es;
  }

  // ---------- the ledger ----------

  /** What an application adds to account `a`. */
  function Delta(r: Request, a: string): int {
    if r.account != a then 0 else if r.op == Credit then r.amount else -r.amount
  }

  function Total(log: seq<Entry>, a: string): int {
    if log == [] then 0 else Total(log[..|log| - 1], a) + Delta(log[|log| - 1].req, a)
  }

  function Count(log: seq<Entry>, a: string): nat {
    if log == [] then 0
    else Count(log[..|log| - 1], a) + (if log[|log| - 1].req.account == a then 1 else 0)
  }

  function Credits(log: seq<Entry>, a: string): nat {
    if log == [] then 0
    else Credits(log[..|log| - 1], a) +
         (if log[|log| - 1].req.account == a && log[|log| - 1].req.op == Credit then 1 else 0)
  }

  ghost predicate SumsHold(accounts: map<string, Account>, log: seq<Entry>) {
    forall a :: a in accounts ==>
      accounts[a].balance == Total(log, a) >= 0 && accounts[a].version == Count(log, a)
  }

  ghost predicate LogKnown(accounts: map<string, Account>, log: seq<Entry>) {
    forall i :: 0 <= i < |log| ==> log[i].req.account in accounts && ValidAmount(log[i].req.amount)
  }

  ghost predicate Balanced(s: State) {
    && SumsHold(s.accounts, s.log)
    && LogKnown(s.accounts, s.log)
    && (forall id :: id in s.requests ==> ValidAmount(s.requests[id].req.amount))
  }

  lemma {:induction false} NothingLogged(log: seq<Entry>, a: string)
    requires forall i :: 0 <= i < |log| ==> log[i].req.account != a
    ensures Total(log, a) == 0 && Count(log, a) == 0
  {
    if log != [] { NothingLogged(log[..|log| - 1], a); }
  }

  lemma Logging(log: seq<Entry>, entry: Entry, a: string)
    ensures Total(log + [entry], a) == Total(log, a) + Delta(entry.req, a)
    ensures Count(log + [entry], a) == Count(log, a) + (if entry.req.account == a then 1 else 0)
  {
    assert (log + [entry])[..|log|] == log;
  }

  lemma BalancedOpen(s: State, a: string)
    requires Balanced(s)
    ensures Balanced(OpenAccount(s, a))
  {
    if a !in s.accounts { NothingLogged(s.log, a); }
  }

  lemma BalancedUpdate(s: State, id: nat)
    requires Balanced(s) && id in s.requests && Phased(s, id) == Cleared
    ensures Balanced(UpdateRow(s, id))
  {
    var r := s.requests[id].req;
    if Decide(s.accounts, r) == Applied { SumsUpdate(s.accounts, s.log, Entry(id, r)); }
  }

  /** What one entry does to the sums of one account. */
  lemma SumUpdate(row: Account, log: seq<Entry>, entry: Entry, a: string)
    requires row.balance == Total(log, a) >= 0 && row.version == Count(log, a) && ValidAmount(entry.req.amount)
    requires entry.req.account == a && entry.req.op == Debit ==> row.balance >= entry.req.amount
    ensures var after := if entry.req.account == a then Change(row, entry.req) else row;
      after.balance == Total(log + [entry], a) >= 0 && after.version == Count(log + [entry], a)
  {
    Logging(log, entry, a);
  }

  lemma SumsUpdate(accounts: map<string, Account>, log: seq<Entry>, entry: Entry)
    requires SumsHold(accounts, log) && LogKnown(accounts, log)
    requires Decide(accounts, entry.req) == Applied && ValidAmount(entry.req.amount)
    ensures var r := entry.req; var accounts' := accounts[r.account := Change(accounts[r.account], r)];
      SumsHold(accounts', log + [entry]) && LogKnown(accounts', log + [entry])
  {
    var r := entry.req;
    var accounts' := accounts[r.account := Change(accounts[r.account], r)];
    forall a | a in accounts'
      ensures accounts'[a].balance == Total(log + [entry], a) >= 0 && accounts'[a].version == Count(log + [entry], a)
    {
      SumUpdate(accounts[a], log, entry, a);
    }
    KnownUpdate(accounts, accounts', log, entry);
  }

  lemma KnownUpdate(accounts: map<string, Account>, more: map<string, Account>, log: seq<Entry>, entry: Entry)
    requires LogKnown(accounts, log) && entry.req.account in accounts && ValidAmount(entry.req.amount)
    requires more.Keys == accounts.Keys
    ensures LogKnown(more, log + [entry])
  {
  }

  lemma BalancedStep(s: State, e: Event)
    requires Balanced(s)
    ensures Balanced(Step(s, e))
  {
    if e.Open? {
      BalancedOpen(s, e.account);
    } else if e.Update? {
      if e.id in s.requests && Phased(s, e.id) == Cleared { BalancedUpdate(s, e.id); }
    } else {
      BalancedOther(s, e);
    }
  }

  lemma BalancedOther(s: State, e: Event)
    requires Balanced(s) && !e.Open? && !e.Update?
    ensures Balanced(Step(s, e))
  {
  }

  lemma {:induction false} BalancedRun(es: seq<Event>)
    ensures Balanced(After(es))
    decreases |es|
  {
    if es != [] {
      BalancedRun(es[..|es| - 1]);
      BalancedStep(After(es[..|es| - 1]), es[|es| - 1]);
    }
  }

  /**
   In every run the balance of every account is what its logged credits and debits add up to, it
   is never negative, and its version is the number of applications.
   */
  lemma LedgerHolds(es: seq<Event>, a: string)
    requires a in After(es).accounts
    ensures After(es).accounts[a].balance == Total(After(es).log, a) >= 0
    ensures After(es).accounts[a].version == Count(After(es).log, a)
  {
    BalancedRun(es);
  }

  lemma {:induction false} TotalBound(log: seq<Entry>, a: string)
    requires forall i :: 0 <= i < |log| ==> ValidAmount(log[i].req.amount)
    ensures Total(log, a) <= Credits(log, a) * MAX_AMOUNT
  {
    if log != [] {
      TotalBound(log[..|log| - 1], a);
    }
  }

  /** Up to ten million applied credits, the balance fits `Numeric(18, 2)`: at most 18 digits of cents. */
  lemma FitsNumeric(es: seq<Event>, a: string)
    requires a in After(es).accounts && Credits(After(es).log, a) <= 10_000_000
    ensures 0 <= After(es).accounts[a].balance < 1_000_000_000_000_000_000
  {
    BalancedRun(es);
    TotalBound(After(es).log, a);
  }

  // ---------- idempotency ----------

  ghost predicate HasApplied(s: State, id: nat) {
    id in s.requests && (s.requests[id].phase == Applied || s.requests[id].phase == Marked)
  }

  ghost predicate IsMarked(s: State, id: nat) { id in s.requests && s.requests[id].phase == Marked }

  /** The fields of a request agree with its phase. */
  ghost predicate WellPhased(s: State, id: nat)
    requires id in s.requests
  {
    var p := s.requests[id];
    && (p.read.Some? <==> p.phase != New)
    && (p.marked.Some? <==> p.phase == Marked)
    && (p.read.Some? ==> p.read.value.step < s.step && p.read.value.time <= s.clock)
    && (p.marked.Some? ==> p.marked.value.step < s.step && p.marked.value.time <= s.clock)
  }

  /** A request that wrote its marker guards the key for a day against requests that read later. */
  ghost predicate Guards(s: State, i: nat, j: nat)
    requires i in s.requests && j in s.requests
  {
    var p, q := s.requests[i], s.requests[j];
    p.marked.Some? && q.read.Some? && q.phase != Replayed && MarkerKey(p.req) == MarkerKey(q.req) ==>
      q.read.value.step < p.marked.value.step || q.read.value.time >= p.marked.value.time + DAY
  }

  ghost predicate MarkerOf(s: State, key: Marker, i: nat) {
    IsMarked(s, i) && s.requests[i].marked.Some? && MarkerKey(s.requests[i].req) == key
  }

  ghost predicate AllWellPhased(s: State) {
    forall id :: id in s.requests ==> WellPhased(s, id)
  }

  ghost predicate MarkersLast(s: State) {
    forall i :: IsMarked(s, i) && s.requests[i].marked.Some? ==>
      var key := MarkerKey(s.requests[i].req);
      key in s.markers && s.markers[key] >= s.requests[i].marked.value.time + DAY
  }

  /** The marker under `key` is the one that request `i` wrote. */
  ghost predicate WroteLast(s: State, key: Marker, i: nat) {
    MarkerOf(s, key, i) && key in s.markers && s.markers[key] == s.requests[i].marked.value.time + DAY
  }

  ghost predicate MarkersEarned(s: State) {
    forall key :: key in s.markers ==> exists i :: WroteLast(s, key, i)
  }

  ghost predicate AllGuard(s: State) {
    forall i, j :: i in s.requests && j in s.requests ==> Guards(s, i, j)
  }

  ghost predicate Idempotent(s: State) {
    AllWellPhased(s) && MarkersLast(s) && MarkersEarned(s) && AllGuard(s)
  }

  lemma ReadKeeps(s: State, id: nat, allowed: bool)
    requires Idempotent(s) && id in s.requests && Phased(s, id) == New
    ensures Idempotent(ReadMarker(s, id, allowed).(step := s.step + 1))
  {
    var t := ReadMarker(s, id, allowed).(step := s.step + 1);
    assert WellPhased(s, id);
    forall i, j | i in t.requests && j in t.requests ensures Guards(t, i, j) {
      assert Guards(s, i, j) && WellPhased(s, i);
      if j == id && t.requests[i].marked.Some? { assert IsMarked(s, i); }
    }
    forall key | key in t.markers ensures exists i :: WroteLast(t, key, i) {
      var i :| WroteLast(s, key, i);
      assert WroteLast(t, key, i);
    }
    forall i | IsMarked(t, i) && t.requests[i].marked.Some?
      ensures MarkerKey(t.requests[i].req) in t.markers
      ensures t.markers[MarkerKey(t.requests[i].req)] >= t.requests[i].marked.value.time + DAY
    {
      assert IsMarked(s, i);
    }
  }

  lemma MarkKeeps(s: State, id: nat)
    requires Idempotent(s) && id in s.requests && Phased(s, id) == Applied
    ensures Idempotent(WriteMarker(s, id).(step := s.step + 1))
  {
    var t := WriteMarker(s, id).(step := s.step + 1);
    assert WellPhased(s, id);
    forall i, j | i in t.requests && j in t.requests ensures Guards(t, i, j) {
      assert Guards(s, i, j) && WellPhased(s, j);
    }
    forall key | key in t.markers ensures exists i :: WroteLast(t, key, i) {
      if key == MarkerKey(s.requests[id].req) {
        assert WroteLast(t, key, id);
      } else {
        var i :| WroteLast(s, key, i);
        assert WroteLast(t, key, i);
      }
    }
    MarkLasts(s, id);
  }

  lemma MarkLasts(s: State, id: nat)
    requires Idempotent(s) && id in s.requests && Phased(s, id) == Applied
    ensures MarkersLast(WriteMarker(s, id).(step := s.step + 1))
  {
    var t := WriteMarker(s, id).(step := s.step + 1);
    forall i | IsMarked(t, i) && t.requests[i].marked.Some?
      ensures MarkerKey(t.requests[i].req) in t.markers
      ensures t.markers[MarkerKey(t.requests[i].req)] >= t.requests[i].marked.value.time + DAY
    {
      if i != id { assert IsMarked(s, i) && WellPhased(s, i); }
    }
  }

  /** From `p` to `q` no stamp changed, and no marker was read or written. */
  ghost predicate Quiet(p: Progress, q: Progress) {
    && q == p.(phase := q.phase)
    && (q.phase == p.phase || (p.phase == Cleared && q.phase !in {New, Marked, Replayed}))
  }

  /** The markers and all stamps are left alone. */
  ghost predicate Calm(s: State, t: State) {
    && t.markers == s.markers && s.step <= t.step && s.clock <= t.clock
    && (forall id :: id in s.requests ==> id in t.requests && Quiet(s.requests[id], t.requests[id]))
    && (forall id :: id in t.requests && id !in s.requests ==>
          t.requests[id].phase == New && t.requests[id].read == None && t.requests[id].marked == None)
  }

  lemma CalmKeeps(s: State, t: State)
    requires Idempotent(s) && Calm(s, t)
    ensures Idempotent(t)
  {
    forall i, j | i in t.requests && j in t.requests ensures Guards(t, i, j) {
      if i in s.requests && j in s.requests { assert Guards(s, i, j); }
    }
    forall id | id in t.requests ensures WellPhased(t, id) {
      if id in s.requests { assert WellPhased(s, id); }
    }
    forall key | key in t.markers ensures exists i :: WroteLast(t, key, i) {
      var i :| WroteLast(s, key, i);
      assert WroteLast(t, key, i);
    }
    forall i | IsMarked(t, i) && t.requests[i].marked.Some?
      ensures MarkerKey(t.requests[i].req) in t.markers
      ensures t.markers[MarkerKey(t.requests[i].req)] >= t.requests[i].marked.value.time + DAY
    {
      assert IsMarked(s, i);
    }
  }

  /** Steps that are calm: all but those that read or write a marker. */
  lemma OtherCalm(s: State, e: Event)
    requires e.Tick? || e.Open? || e.SetActive? || e.Arrive? || e.Reply?
    ensures Calm(s, Step(s, e))
  {
  }

  lemma UpdateCalm(s: State, id: nat)
    ensures Calm(s, Step(s, Update(id)))
  {
    if id in s.requests && Phased(s, id) == Cleared { UpdateRowCalm(s, id); }
  }

  lemma UpdateRowCalm(s: State, id: nat)
    requires id in s.requests && Phased(s, id) == Cleared
    ensures Calm(s, UpdateRow(s, id))
  {
  }

  lemma IdleKeeps(s: State)
    requires Idempotent(s)
    ensures Idempotent(s.(step := s.step + 1))
  {
    CalmKeeps(s, s.(step := s.step + 1));
  }

  lemma StepRead(s: State, id: nat, allowed: bool)
    requires Idempotent(s)
    ensures Idempotent(Step(s, Read(id, allowed)))
  {
    if id in s.requests && Phased(s, id) == New {
      ReadKeeps(s, id, allowed);
    } else {
      IdleKeeps(s);
    }
  }

  lemma StepMark(s: State, id: nat)
    requires Idempotent(s)
    ensures Idempotent(Step(s, Mark(id)))
  {
    if id in s.requests && Phased(s, id) == Applied {
      MarkKeeps(s, id);
    } else {
      IdleKeeps(s);
    }
  }

  lemma IdempotentStep(s: State, e: Event)
    requires Idempotent(s)
    ensures Idempotent(Step(s, e))
  {
    match e
    case Read(id, allowed) => StepRead(s, id, allowed);
    case Mark(id) => StepMark(s, id);
    case Update(id) =>
      UpdateCalm(s, id);
      CalmKeeps(s, Step(s, e));
    case _ =>
      OtherCalm(s, e);
      CalmKeeps(s, Step(s, e));
  }

  lemma {:induction false} IdempotentRun(es: seq<Event>)
    ensures Idempotent(After(es))
    decreases |es|
  {
    if es != [] {
      IdempotentRun(es[..|es| - 1]);
      IdempotentStep(After(es[..|es| - 1]), es[|es| - 1]);
    }
  }

  /** The log holds exactly the requests that applied, each once. */
  ghost predicate Logged(s: State) {
    && (forall k :: 0 <= k < |s.log| ==> HasApplied(s, s.log[k].id) && s.requests[s.log[k].id].req == s.log[k].req)
    && (forall k, l :: 0 <= k < l < |s.log| ==> s.log[k].id != s.log[l].id)
    && (forall id :: HasApplied(s, id) ==> InLog(s.log, id))
  }

  ghost predicate InLog(log: seq<Entry>, id: nat) { exists k :: 0 <= k < |log| && log[k].id == id }

  lemma LoggedUpdate(s: State, id: nat)
    requires Logged(s) && id in s.requests && Phased(s, id) == Cleared
    ensures Logged(UpdateRow(s, id))
  {
    var t := UpdateRow(s, id);
    assert forall k :: 0 <= k < |s.log| ==> t.log[k] == s.log[k];
    forall i | HasApplied(t, i) ensures InLog(t.log, i) {
      if i == id {
        assert t.log[|s.log|].id == id;
      } else {
        assert HasApplied(s, i) && InLog(s.log, i);
        var k :| 0 <= k < |s.log| && s.log[k].id == i;
        assert t.log[k].id == i;
      }
    }
  }

  /** A step that changes neither the log nor which requests have applied. */
  lemma LoggedOther(s: State, t: State)
    requires Logged(s) && t.log == s.log
    requires forall id :: HasApplied(t, id) <==> HasApplied(s, id)
    requires forall id :: id in s.requests ==> id in t.requests && t.requests[id].req == s.requests[id].req
    ensures Logged(t)
  {
  }

  lemma LoggedStep(s: State, e: Event)
    requires Logged(s)
    ensures Logged(Step(s, e))
  {
    if e.Update? && e.id in s.requests && Phased(s, e.id) == Cleared {
      LoggedUpdate(s, e.id);
    } else {
      SameApplied(s, e);
      LoggedOther(s, Step(s, e));
    }
  }

  lemma SameApplied(s: State, e: Event)
    requires !(e.Update? && e.id in s.requests && Phased(s, e.id) == Cleared)
    ensures Step(s, e).log == s.log
    ensures forall id :: HasApplied(Step(s, e), id) <==> HasApplied(s, id)
    ensures forall id :: id in s.requests ==>
              id in Step(s, e).requests && Step(s, e).requests[id].req == s.requests[id].req
  {
  }

  lemma {:induction false} LoggedRun(es: seq<Event>)
    ensures Logged(After(es))
    decreases |es|
  {
    if es != [] {
      LoggedRun(es[..|es| - 1]);
      LoggedStep(After(es[..|es| - 1]), es[|es| - 1]);
    }
  }

  // When a request read the marker and when it wrote it, told by the events of the run.

  predicate SameKey(r: Request, q: Request) { r.op == q.op && r.account == q.account && r.key == q.key }

  /** Event `q` of the run is the marker read of request `id`. */
  ghost predicate ReadsAt(es: seq<Event>, q: nat, id: nat) {
    && q < |es| && es[q].Read? && es[q].id == id
    && id in After(es[..q]).requests && After(es[..q]).requests[id].phase == New
  }

  /** Event `m` of the run is the marker write of request `id`, made as `r`. */
  ghost predicate WritesAt(es: seq<Event>, m: nat, id: nat, r: Request) {
    && m < |es| && es[m] == Mark(id)
    && id in After(es[..m]).requests && After(es[..m]).requests[id].phase == Applied
    && After(es[..m]).requests[id].req == r
  }

  /** The stamps of request `id` are the places and times of those events. */
  ghost predicate StampsTell(es: seq<Event>, id: nat)
    requires id in After(es).requests
  {
    var p := After(es).requests[id];
    && (p.read.Some? ==>
          ReadsAt(es, p.read.value.step, id) && p.read.value.time == After(es[..p.read.value.step]).clock)
    && (p.marked.Some? ==>
          && WritesAt(es, p.marked.value.step, id, p.req)
          && p.marked.value.time == After(es[..p.marked.value.step]).clock)
  }

  lemma StepsCounted(es: seq<Event>)
    ensures After(es).step == |es|
  {
    if es != [] { StepsCounted(es[..|es| - 1]); }
  }

  lemma StampsStay(es: seq<Event>, e: Event, id: nat)
    requires id in After(es).requests && StampsTell(es, id)
    requires id in After(es + [e]).requests && After(es + [e]).requests[id].req == After(es).requests[id].req
    requires After(es + [e]).requests[id].read == After(es).requests[id].read
    requires After(es + [e]).requests[id].marked == After(es).requests[id].marked
    ensures StampsTell(es + [e], id)
  {
    var p := After(es).requests[id];
    if p.read.Some? { assert (es + [e])[..p.read.value.step] == es[..p.read.value.step]; }
    if p.marked.Some? { assert (es + [e])[..p.marked.value.step] == es[..p.marked.value.step]; }
  }

  /** A step stamps the request that reads or writes its marker, with its own place and time. */
  lemma StampStep(s: State, e: Event, id: nat)
    requires id in Step(s, e).requests
    ensures var q := Step(s, e).requests[id];
      if id !in s.requests then q.read == None && q.marked == None
      else
        var p := s.requests[id];
        && q.req == p.req
        && (q.read == p.read ||
              (e.Read? && e.id == id && p.phase == New &&
                q.read == Some(Stamp(s.step, s.clock)) && q.marked == p.marked))
        && (q.marked == p.marked ||
              (e == Mark(id) && p.phase == Applied && q.marked == Some(Stamp(s.step, s.clock)) && q.read == p.read))
  {
  }

  lemma StampsNext(es: seq<Event>, e: Event, id: nat)
    requires id in After(es + [e]).requests && (id in After(es).requests ==> StampsTell(es, id))
    ensures StampsTell(es + [e], id)
  {
    var s := After(es);
    RunOne(INITIAL, es, e);
    StepsCounted(es);
    StampStep(s, e, id);
    if id in s.requests {
      var p, q := s.requests[id], After(es + [e]).requests[id];
      assert (es + [e])[..|es|] == es && (es + [e])[|es|] == e;
      if q.read == p.read && q.marked == p.marked {
        StampsStay(es, e, id);
      } else if q.read != p.read {
        if p.marked.Some? { assert (es + [e])[..p.marked.value.step] == es[..p.marked.value.step]; }
      } else {
        if p.read.Some? { assert (es + [e])[..p.read.value.step] == es[..p.read.value.step]; }
      }
    }
  }

  lemma {:induction false} StampsRun(es: seq<Event>, id: nat)
    requires id in After(es).requests
    ensures StampsTell(es, id)
    decreases |es|
  {
    var init, e := es[..|es| - 1], es[|es| - 1];
    assert es == init + [e];
    if id in After(init).requests { StampsRun(init, id); }
    StampsNext(init, e, id);
  }

  lemma {:induction false} WriteStays(es: seq<Event>, m: nat, id: nat, r: Request)
    requires WritesAt(es, m, id, r)
    ensures id in After(es).requests && After(es).requests[id].phase == Marked && After(es).requests[id].req == r
    ensures After(es).requests[id].marked == Some(Stamp(m, After(es[..m]).clock))
    decreases |es|
  {
    var init, e := es[..|es| - 1], es[|es| - 1];
    assert es == init + [e];
    StepsCounted(init);
    if m < |init| {
      assert init[..m] == es[..m];
      WriteStays(init, m, id, r);
      MarkedStays(After(init), e, id);
    } else {
      assert es[..m] == init;
    }
  }

  lemma MarkedStays(s: State, e: Event, id: nat)
    requires id in s.requests && s.requests[id].phase == Marked
    ensures id in Step(s, e).requests && Step(s, e).requests[id] == s.requests[id]
  {
  }

  /** A request like `r` wrote its marker less than a day ago. */
  ghost predicate WrittenToday(es: seq<Event>, r: Request) {
    exists m: nat, i: nat, q: Request ::
      WritesAt(es, m, i, q) && SameKey(q, r) && After(es).clock < After(es[..m]).clock + 86_400
  }

  lemma WrittenTodayExactly(es: seq<Event>, r: Request)
    ensures WrittenToday(es, r) <==> Visible(After(es).markers, MarkerKey(r), After(es).clock)
  {
    var s := After(es);
    IdempotentRun(es);
    if m: nat, i: nat, q: Request :|
         WritesAt(es, m, i, q) && SameKey(q, r) && s.clock < After(es[..m]).clock + 86_400 {
      WriteStays(es, m, i, q);
      assert IsMarked(s, i);
    }
    if Visible(s.markers, MarkerKey(r), s.clock) {
      var i :| WroteLast(s, MarkerKey(r), i);
      StampsRun(es, i);
      assert WritesAt(es, s.requests[i].marked.value.step, i, s.requests[i].req);
    }
  }

  /**
   In every run, two applications with one operation, account and key come from different
   requests, and the second of them read the marker before the first wrote it, or a day later.
   */
  lemma AtMostOncePerDay(es: seq<Event>, k: nat, l: nat)
    requires var log := After(es).log; k < |log| && l < |log| && k != l
    requires var log := After(es).log; SameKey(log[k].req, log[l].req)
    ensures var log := After(es).log;
      && log[k].id != log[l].id
      && exists q: nat :: ReadsAt(es, q, log[l].id) && ReadClearOf(es, q, log[k].id)
  {
    IdempotentRun(es);
    LoggedRun(es);
    var s := After(es);
    var first, second := s.log[k].id, s.log[l].id;
    assert HasApplied(s, first) && HasApplied(s, second);
    assert WellPhased(s, first) && WellPhased(s, second);
    assert Guards(s, first, second);
    StampsRun(es, second);
    var q := s.requests[second].read.value.step;
    forall m: nat, r | WritesAt(es, m, first, r)
      ensures q < m || After(es[..q]).clock >= After(es[..m]).clock + 86_400
    {
      WriteStays(es, m, first, r);
    }
    assert ReadsAt(es, q, second) && ReadClearOf(es, q, first);
  }

  /** The read at `q` came before request `i` wrote its marker, or a day after. */
  ghost predicate ReadClearOf(es: seq<Event>, q: nat, i: nat)
    requires q < |es|
  {
    forall m: nat, r :: WritesAt(es, m, i, r) ==> q < m || After(es[..q]).clock >= After(es[..m]).clock + 86_400
  }

  /**
   A waiting request is answered from the marker exactly when some request with its operation,
   account and key wrote the marker less than a day ago, whatever the policy says.
   */
  lemma ReplayedExactly(es: seq<Event>, id: nat, allowed: bool)
    requires id in After(es).requests && After(es).requests[id].phase == New
    ensures var t := After(es + [Read(id, allowed)]);
      && id in t.requests
      && t.requests[id].phase ==
           if WrittenToday(es, After(es).requests[id].req) then Replayed else if allowed then Cleared else Forbidden
  {
    RunOne(INITIAL, es, Read(id, allowed));
    WrittenTodayExactly(es, After(es).requests[id].req);
  }

  /** A request is taken up exactly when its amount is positive and at most 999,999,999.99. */
  lemma ArrivesExactly(s: State, id: nat, r: Request)
    requires id !in s.requests
    ensures var t := Step(s, Arrive(id, r));
      if 0 < r.amount <= 999_999_999_99 then id in t.requests && t.requests[id] == Progress(r, New, None, None)
      else t.requests == s.requests
  {
  }

  /** A new account is empty and active. */
  lemma OpensExactly(s: State, a: string)
    requires a !in s.accounts
    ensures Step(s, Open(a)).accounts == s.accounts[a := Account(0, 0, true)]
  {
  }

  ghost predicate Opened(es: seq<Event>, a: string) { exists k :: 0 <= k < |es| && es[k] == Open(a) }

  /** What the last change of the account's status said; without any it is active. */
  ghost function StatusSet(es: seq<Event>, a: string): bool {
    if es == [] then true
    else
      var init, e := es[..|es| - 1], es[|es| - 1];
      if e.SetActive? && e.account == a && Opened(init, a) then e.active else StatusSet(init, a)
  }

  lemma OpenedSnoc(es: seq<Event>, e: Event, a: string)
    ensures Opened(es + [e], a) <==> Opened(es, a) || e == Open(a)
  {
    var all := es + [e];
    assert all[|es|] == e;
    if k :| 0 <= k < |es| && es[k] == Open(a) { assert all[k] == Open(a); }
  }

  lemma AccountKept(s: State, e: Event, a: string)
    requires e != Open(a) && !(e.SetActive? && e.account == a)
    ensures a in Step(s, e).accounts <==> a in s.accounts
    ensures a in s.accounts ==> Step(s, e).accounts[a].active == s.accounts[a].active
  {
  }

  /** In every run an account is there exactly when it was opened, and active exactly when the last
      change of its status left it so. */
  lemma {:induction false} StatusExactly(es: seq<Event>, a: string)
    ensures a in After(es).accounts <==> Opened(es, a)
    ensures if Opened(es, a) then After(es).accounts[a].active == StatusSet(es, a) else StatusSet(es, a)
  {
    if es != [] {
      var init, e := es[..|es| - 1], es[|es| - 1];
      assert es == init + [e];
      StatusExactly(init, a);
      RunOne(INITIAL, init, e);
      OpenedSnoc(init, e, a);
      if e != Open(a) && !(e.SetActive? && e.account == a) { AccountKept(After(init), e, a); }
    }
  }

  /** Whether the balance changes once the marker read is past is decided by the row alone. */
  lemma AppliesExactly(es: seq<Event>, id: nat)
    requires id in After(es).requests && After(es).requests[id].phase == Cleared
    ensures var s, t := After(es), After(es + [Update(id)]);
      var r := s.requests[id].req;
      (t.log == s.log + [Entry(id, r)] <==>
        r.account in s.accounts && s.accounts[r.account].active &&
        (r.op == Debit ==> r.amount <= s.accounts[r.account].balance))
      && (t.log == s.log + [Entry(id, r)] || (t.log == s.log && t.accounts == s.accounts))
      && id in t.requests && t.requests[id].phase ==
           if r.account !in s.accounts then NotFound
           else if !s.accounts[r.account].active then Inactive
           else if r.op == Debit && s.accounts[r.account].balance < r.amount then Insufficient
           else Applied
  {
    var es' := es + [Update(id)];
    assert es'[..|es'| - 1] == es;
  }

  /**
   A waiting request that goes through undisturbed changes its account if and only if no request
   like it wrote the marker less than a day ago, the policy allows it, and the row does: it exists,
   is active, and covers a debit.
   */
  lemma AppliesAgainExactly(es: seq<Event>, id: nat, allowed: bool)
    requires id in After(es).requests && After(es).requests[id].phase == New
    ensures var s, t := After(es), After(es + [Read(id, allowed)] + [Update(id)]);
      var r := s.requests[id].req;
      t.log == s.log + [Entry(id, r)] <==>
        (&& !WrittenToday(es, r) && allowed
         && r.account in s.accounts && s.accounts[r.account].active
         && (r.op == Debit ==> r.amount <= s.accounts[r.account].balance))
  {
    var es1 := es + [Read(id, allowed)];
    RunOne(INITIAL, es, Read(id, allowed));
    RunOne(INITIAL, es1, Update(id));
    ReplayedExactly(es, id, allowed);
    if Phased(After(es1), id) == Cleared { AppliesExactly(es1, id); }
  }

  ghost predicate IsWaiting(s: State, id: nat, r: Request) {
    id in s.requests && s.requests[id].req == r && s.requests[id].phase == New
  }

  ghost predicate IsCleared(s: State, id: nat, r: Request) {
    id in s.requests && s.requests[id].req == r && s.requests[id].phase == Cleared
  }

  lemma UpdateLogs(s: State, id: nat, r: Request)
    requires IsCleared(s, id, r) && r.op == Credit && r.account in s.accounts && s.accounts[r.account].active
    ensures var t := Step(s, Update(id));
      && t.log == s.log + [Entry(id, r)]
      && r.account in t.accounts && t.accounts[r.account].active
      && t.accounts[r.account].balance == s.accounts[r.account].balance + r.amount
      && forall j :: j != id && IsCleared(s, j, r) ==> IsCleared(t, j, r)
  {
  }

  lemma ReadClears(s: State, id: nat, r: Request)
    requires IsWaiting(s, id, r) && !Visible(s.markers, MarkerKey(r), s.clock)
    ensures var t := Step(s, Read(id, true));
      && IsCleared(t, id, r)
      && t.markers == s.markers && t.clock == s.clock && t.log == s.log && t.accounts == s.accounts
      && (forall j :: j != id && IsWaiting(s, j, r) ==> IsWaiting(t, j, r))
      && (forall j :: j != id && IsCleared(s, j, r) ==> IsCleared(t, j, r))
  {
  }

  /**
   Two copies of one credit that overlap both apply, whatever the state: each reads the marker
   before either writes it.
   */
  lemma OverlapAppliesTwice(s: State, i: nat, j: nat, r: Request)
    requires i != j && IsWaiting(s, i, r) && IsWaiting(s, j, r) && r.op == Credit
    requires !Visible(s.markers, MarkerKey(r), s.clock)
    requires r.account in s.accounts && s.accounts[r.account].active
    ensures var t := Run(s, [Read(i, true), Read(j, true), Update(i), Update(j)]);
      && t.log == s.log + [Entry(i, r), Entry(j, r)]
      && r.account in t.accounts
      && t.accounts[r.account].balance == s.accounts[r.account].balance + 2 * r.amount
  {
    var s1 := Step(s, Read(i, true));
    ReadClears(s, i, r);
    var s2 := Step(s1, Read(j, true));
    ReadClears(s1, j, r);
    var s3 := Step(s2, Update(i));
    UpdateLogs(s2, i, r);
    UpdateLogs(s3, j, r);
    RunFour(s, Read(i, true), Read(j, true), Update(i), Update(j));
  }

  lemma RunFour(s: State, a: Event, b: Event, c: Event, d: Event)
    ensures Run(s, [a, b, c, d]) == Step(Step(Step(Step(s, a), b), c), d)
  {
    RunOne(s, [], a);
    assert [] + [a] == [a];
    RunOne(s, [a], b);
    assert [a] + [b] == [a, b];
    RunOne(s, [a, b], c);
    assert [a, b] + [c] == [a, b, c];
    RunOne(s, [a, b, c], d);
    assert [a, b, c] + [d] == [a, b, c, d];
  }

  // ---------- what a replay is answered ----------

  /** Each application was answered with the balance that the log gave just after it. */
  ghost predicate Answered(log: seq<Entry>, answers: map<nat, Answer>) {
    forall k: nat :: k < |log| ==> AnsweredAt(log, answers, k)
  }

  ghost predicate AnsweredAt(log: seq<Entry>, answers: map<nat, Answer>, k: nat) {
    k < |log| && log[k].id in answers && answers[log[k].id] == Shown(Total(log[..k + 1], log[k].req.account), true)
  }

  lemma AnsweredNext(log: seq<Entry>, answers: map<nat, Answer>, entry: Entry, answer: Answer)
    requires Answered(log, answers) && forall k :: 0 <= k < |log| ==> log[k].id != entry.id
    requires answer == Shown(Total(log + [entry], entry.req.account), true)
    ensures Answered(log + [entry], answers[entry.id := answer])
  {
    var more, told := log + [entry], answers[entry.id := answer];
    forall k: nat | k < |more| ensures AnsweredAt(more, told, k) {
      if k < |log| {
        assert AnsweredAt(log, answers, k) && more[..k + 1] == log[..k + 1];
      } else {
        assert more[..k + 1] == more;
      }
    }
  }

  lemma AnsweredUpdate(s: State, id: nat)
    requires Answered(s.log, s.answers) && Balanced(s) && Logged(s) && id in s.requests && Phased(s, id) == Cleared
    ensures Answered(UpdateRow(s, id).log, UpdateRow(s, id).answers)
  {
    var r := s.requests[id].req;
    if Decide(s.accounts, r) == Applied {
      NotLogged(s, id);
      BalanceNext(s.accounts, s.log, Entry(id, r));
      AnsweredNext(s.log, s.answers, Entry(id, r), ShownAs(Change(s.accounts[r.account], r)));
    }
  }

  lemma NotLogged(s: State, id: nat)
    requires Logged(s) && id in s.requests && Phased(s, id) == Cleared
    ensures forall k :: 0 <= k < |s.log| ==> s.log[k].id != id
  {
    forall k | 0 <= k < |s.log| ensures s.log[k].id != id { assert HasApplied(s, s.log[k].id); }
  }

  lemma BalanceNext(accounts: map<string, Account>, log: seq<Entry>, entry: Entry)
    requires SumsHold(accounts, log) && Decide(accounts, entry.req) == Applied
    ensures var r := entry.req; ShownAs(Change(accounts[r.account], r)) == Shown(Total(log + [entry], r.account), true)
  {
    Logging(log, entry, entry.req.account);
  }

  lemma AnsweredMore(log: seq<Entry>, answers: map<nat, Answer>, more: map<nat, Answer>)
    requires Answered(log, answers) && forall id :: id in answers ==> id in more && more[id] == answers[id]
    ensures Answered(log, more)
  {
    forall k: nat | k < |log| ensures AnsweredAt(log, more, k) { assert AnsweredAt(log, answers, k); }
  }

  lemma AnsweredStep(s: State, e: Event)
    requires Answered(s.log, s.answers) && Balanced(s) && Logged(s)
    ensures Answered(Step(s, e).log, Step(s, e).answers)
  {
    if e.Update? && e.id in s.requests && Phased(s, e.id) == Cleared {
      AnsweredUpdate(s, e.id);
    } else {
      AnsweredMore(s.log, s.answers, Step(s, e).answers);
    }
  }

  lemma {:induction false} AnsweredRun(es: seq<Event>)
    ensures Answered(After(es).log, After(es).answers)
    decreases |es|
  {
    if es != [] {
      var init := es[..|es| - 1];
      AnsweredRun(init);
      BalancedRun(init);
      LoggedRun(init);
      AnsweredStep(After(init), es[|es| - 1]);
    }
  }

  /** An application with this marker is in the log. */
  ghost predicate HasOriginal(log: seq<Entry>, key: Marker) {
    exists k :: 0 <= k < |log| && MarkerKey(log[k].req) == key
  }

  ghost predicate ReplaysEarned(s: State) {
    forall j :: j in s.requests && s.requests[j].phase == Replayed ==> HasOriginal(s.log, MarkerKey(s.requests[j].req))
  }

  lemma MarkerHasOriginal(s: State, key: Marker)
    requires Idempotent(s) && Logged(s) && key in s.markers
    ensures HasOriginal(s.log, key)
  {
    var i :| WroteLast(s, key, i);
    assert HasApplied(s, i);
    assert InLog(s.log, i);
    var k :| 0 <= k < |s.log| && s.log[k].id == i;
  }

  lemma EarnedStep(s: State, e: Event)
    requires ReplaysEarned(s) && Idempotent(s) && Logged(s)
    ensures ReplaysEarned(Step(s, e))
  {
    var t := Step(s, e);
    LogGrows(s, e);
    forall j | j in t.requests && t.requests[j].phase == Replayed
      ensures HasOriginal(t.log, MarkerKey(t.requests[j].req))
    {
      var key := MarkerKey(t.requests[j].req);
      NewReplay(s, e, j);
      if !HasOriginal(s.log, key) { MarkerHasOriginal(s, key); }
      var k :| 0 <= k < |s.log| && MarkerKey(s.log[k].req) == key;
      assert t.log[k] == s.log[k];
    }
  }

  lemma LogGrows(s: State, e: Event)
    ensures s.log <= Step(s, e).log
  {
  }

  lemma NewReplay(s: State, e: Event, j: nat)
    requires j in Step(s, e).requests && Step(s, e).requests[j].phase == Replayed
    ensures || (j in s.requests && s.requests[j].phase == Replayed && s.requests[j].req == Step(s, e).requests[j].req)
            || MarkerKey(Step(s, e).requests[j].req) in s.markers
  {
  }

  /** Whatever is answered from a marker has an original in the log. */
  lemma {:induction false} EarnedRun(es: seq<Event>)
    ensures ReplaysEarned(After(es))
    decreases |es|
  {
    if es != [] {
      var init := es[..|es| - 1];
      EarnedRun(init);
      IdempotentRun(init);
      LoggedRun(init);
      EarnedStep(After(init), es[|es| - 1]);
    }
  }

  lemma {:induction false} TotalSplit(log: seq<Entry>, k: nat, a: string)
    requires k <= |log|
    ensures Total(log, a) == Total(log[..k], a) + Total(log[k..], a)
    decreases |log|
  {
    if k < |log| {
      var init := log[..|log| - 1];
      TotalSplit(init, k, a);
      assert init[..k] == log[..k] && log[k..][..|log| - 1 - k] == init[k..];
    } else {
      assert log[..k] == log && log[k..] == [];
    }
  }

  ghost predicate AwaitsReply(s: State, j: nat) {
    j in s.requests && s.requests[j].phase == Replayed && j !in s.answers
  }

  /**
   In every run, a replay is answered as the `k`th application on its account was, if and only if
   what was applied to the account since adds up to nothing and the account is active.
   */
  lemma ReplayAnswersExactly(es: seq<Event>, j: nat, k: nat)
    requires AwaitsReply(After(es), j) && k < |After(es).log|
    requires After(es).log[k].req.account == After(es).requests[j].req.account
    ensures var s, t := After(es), After(es + [Reply(j)]);
      var a := s.log[k].req.account;
      && a in s.accounts && j in t.answers && s.log[k].id in t.answers && t.log == s.log
      && (t.answers[j] == t.answers[s.log[k].id] <==> Total(s.log[k + 1..], a) == 0 && s.accounts[a].active)
  {
    RunOne(INITIAL, es, Reply(j));
    BalancedRun(es);
    AnsweredRun(es);
    LoggedRun(es);
    ReplyAnswers(After(es), j, k);
  }

  lemma ReplyAnswers(s: State, j: nat, k: nat)
    requires Balanced(s) && Logged(s) && Answered(s.log, s.answers)
    requires AwaitsReply(s, j) && k < |s.log| && s.log[k].req.account == s.requests[j].req.account
    ensures var t := Step(s, Reply(j));
      var a := s.log[k].req.account;
      && a in s.accounts && j in t.answers && s.log[k].id in t.answers && t.log == s.log
      && (t.answers[j] == t.answers[s.log[k].id] <==> Total(s.log[k + 1..], a) == 0 && s.accounts[a].active)
  {
    assert AnsweredAt(s.log, s.answers, k);
    assert HasApplied(s, s.log[k].id);
    TotalSplit(s.log, k + 1, s.log[k].req.account);
  }

  /** There is such an application in the log, so a replay is never answered with a failure. */
  lemma ReplayIsAnswered(es: seq<Event>, j: nat)
    requires AwaitsReply(After(es), j)
    ensures exists k :: 0 <= k < |After(es).log| && SameKey(After(es).log[k].req, After(es).requests[j].req)
    ensures var t := After(es + [Reply(j)]); j in t.answers && t.answers[j].Shown?
  {
    EarnedRun(es);
    BalancedRun(es);
    RunOne(INITIAL, es, Reply(j));
    var s := After(es);
    var k :| 0 <= k < |s.log| && MarkerKey(s.log[k].req) == MarkerKey(s.requests[j].req);
    assert SameKey(s.log[k].req, s.requests[j].req);
  }

  function FirstColon(s: string): nat {
    if s == [] || s[0] == ':' then 0 else 1 + FirstColon(s[1..])
  }

  lemma {:induction false} FirstColonAfter(a: string, x: string)
    requires ':' !in a
    ensures FirstColon(a + ":" + x) == |a|
  {
    if a != [] {
      FirstColonAfter(a[1..], x);
      assert (a + ":" + x)[1..] == a[1..] + ":" + x;
    }
  }

  lemma ColonSplit(a: string, x: string, b: string, y: string)
    requires ':' !in a && ':' !in b && a + ":" + x == b + ":" + y
    ensures a == b && x == y
  {
    FirstColonAfter(a, x);
    FirstColonAfter(b, y);
    assert a == (a + ":" + x)[..|a|] && b == (b + ":" + y)[..|b|];
    assert x == (a + ":" + x)[|a| + 1..] && y == (b + ":" + y)[|b| + 1..];
  }

  /** `f"idemp:{op}:{account_id}:{idempotency_key}"` */
  function MarkerText(m: Marker): string {
    (if m.op == Credit then "idemp:credit:" else "idemp:debit:") + (m.account + ":" + m.key)
  }

  /** A request's key names its operation, then its account, then the caller's key. */
  lemma MarkerOfRequest(r: Request)
    ensures MarkerText(MarkerKey(r))
         == "idemp:" + (if r.op == Credit then "credit" else "debit") + ":" + r.account + ":" + r.key
  {
    assert "idemp:credit:" == "idemp:" + "credit" + ":" && "idemp:debit:" == "idemp:" + "debit" + ":";
  }

  /** Markers share a key in Redis exactly when the operation agrees and the rest reads the same. */
  lemma MarkerTextExactly(m1: Marker, m2: Marker)
    ensures MarkerText(m1) == MarkerText(m2) <==>
              m1.op == m2.op && m1.account + ":" + m1.key == m2.account + ":" + m2.key
  {
    var k1, k2 := MarkerText(m1), MarkerText(m2);
    assert k1[6] == (if m1.op == Credit then 'c' else 'd') && k2[6] == (if m2.op == Credit then 'c' else 'd');
    var n, m := if m1.op == Credit then 13 else 12, if m2.op == Credit then 13 else 12;
    assert k1[n..] == m1.account + ":" + m1.key;
    assert k2[m..] == m2.account + ":" + m2.key;
  }

  /** That happens for ids with a colon. */
  lemma MarkersClash()
    ensures MarkerText(Marker(Credit, "a:b", "c")) == MarkerText(Marker(Credit, "a", "b:c"))
  {
    MarkerTextExactly(Marker(Credit, "a:b", "c"), Marker(Credit, "a", "b:c"));
    assert "a:b" + ":" + "c" == "a:b:c" == "a" + ":" + "b:c";
  }

  /** Different markers have different keys in Redis, for account ids without a colon. */
  lemma MarkerTextInjective(m1: Marker, m2: Marker)
    requires ':' !in m1.account && ':' !in m2.account && MarkerText(m1) == MarkerText(m2)
    ensures m1 == m2
  {
    MarkerTextExactly(m1, m2);
    ColonSplit(m1.account, m1.key, m2.account, m2.key);
  }

  // ---------- one call, start to end ----------

  /** How a call that nothing overlaps ends. */
  function Outcome(accounts: map<string, Account>, markers: map<Marker, nat>,
                   now: nat, r: Request, allowed: bool): Phase {
    if Visible(markers, MarkerKey(r), now) then Replayed
    else if !allowed then Forbidden
    else if Decide(accounts, r) == Applied then Marked
    else Decide(accounts, r)
  }

  /** `n` steps later, with progress `p` for request `id`. */
  function With(s: State, n: nat, id: nat, p: Progress): State {
    s.(step := s.step + n, requests := s.requests[id := p])
  }

  function Booked(s: State, id: nat, r: Request): State
    requires r.account in s.accounts
  {
    var acc := Change(s.accounts[r.account], r);
    s.(accounts := s.accounts[r.account := acc],
       answers := s.answers[id := ShownAs(acc)],
       log := s.log + [Entry(id, r)])
  }

  function Told(s: State, id: nat, r: Request): State {
    s.(answers := s.answers[id := ReadOut(s.accounts, r.account)])
  }

  /** The progress of a request after its marker read. */
  function AfterRead(s: State, r: Request, allowed: bool): Progress {
    var phase := if Visible(s.markers, MarkerKey(r), s.clock) then Replayed
                 else if !allowed then Forbidden else Cleared;
    Progress(r, phase, Some(Stamp(s.step + 1, s.clock)), None)
  }

  function Final(s: State, id: nat, r: Request, allowed: bool): State {
    var p := AfterRead(s, r, allowed);
    if p.phase == Replayed then With(Told(s, id, r), 5, id, p)
    else if p.phase == Forbidden then With(s, 5, id, p)
    else if Decide(s.accounts, r) != Applied then With(s, 5, id, p.(phase := Decide(s.accounts, r)))
    else
      With(Booked(s, id, r), 5, id, p.(phase := Marked, marked := Some(Stamp(s.step + 3, s.clock))))
        .(markers := s.markers[MarkerKey(r) := s.clock + DAY])
  }

  lemma FinalOutcome(s: State, id: nat, r: Request, allowed: bool)
    ensures id in Final(s, id, r, allowed).requests
    ensures Final(s, id, r, allowed).requests[id].phase == Outcome(s.accounts, s.markers, s.clock, r, allowed)
  {
  }

  lemma WithTwice(s: State, m: nat, n: nat, id: nat, p: Progress, q: Progress)
    ensures With(With(s, m, id, p), n, id, q) == With(s, m + n, id, q)
  {
    assert s.requests[id := p][id := q] == s.requests[id := q];
  }

  lemma CallReads(s: State, id: nat, r: Request, allowed: bool, p: Progress)
    requires p == Progress(r, New, None, None)
    ensures Step(With(s, 1, id, p), Read(id, allowed)) == With(s, 2, id, AfterRead(s, r, allowed))
  {
    WithTwice(s, 1, 1, id, p, AfterRead(s, r, allowed));
  }

  lemma CallUpdates(s: State, id: nat, p: Progress)
    requires p.phase == Cleared
    ensures var d := Decide(s.accounts, p.req);
      Step(With(s, 2, id, p), Update(id))
        == With(if d == Applied then Booked(s, id, p.req) else s, 3, id, p.(phase := d))
  {
    WithTwice(s, 2, 1, id, p, p.(phase := Decide(s.accounts, p.req)));
  }

  lemma CallMarks(s: State, id: nat, p: Progress)
    requires p.phase == Applied
    ensures Step(With(s, 3, id, p), Mark(id))
         == With(s, 4, id, p.(phase := Marked, marked := Some(Stamp(s.step + 3, s.clock))))
              .(markers := s.markers[MarkerKey(p.req) := s.clock + DAY])
  {
    WithTwice(s, 3, 1, id, p, p.(phase := Marked, marked := Some(Stamp(s.step + 3, s.clock))));
  }

  lemma CallReplies(s: State, id: nat, p: Progress)
    requires p.phase == Replayed && id !in s.answers
    ensures Step(With(s, 4, id, p), Reply(id)) == With(Told(s, id, p.req), 5, id, p)
  {
  }

  lemma Idle(s: State, n: nat, id: nat, p: Progress, e: Event)
    requires || (e == Update(id) && p.phase != Cleared) || (e == Mark(id) && p.phase != Applied)
             || (e == Reply(id) && p.phase != Replayed)
    ensures Step(With(s, n, id, p), e) == With(s, n + 1, id, p)
  {
  }

  /** The last three events of a call, from its progress after the marker read. */
  function Rest(s: State, id: nat, p: Progress): State {
    Step(Step(Step(With(s, 2, id, p), Update(id)), Mark(id)), Reply(id))
  }

  lemma CallStops(s: State, id: nat, p: Progress)
    requires p.phase != Cleared && p.phase != Applied && id !in s.answers
    ensures Rest(s, id, p) == if p.phase == Replayed then With(Told(s, id, p.req), 5, id, p) else With(s, 5, id, p)
  {
    Idle(s, 2, id, p, Update(id));
    Idle(s, 3, id, p, Mark(id));
    if p.phase == Replayed {
      CallReplies(s, id, p);
    } else {
      Idle(s, 4, id, p, Reply(id));
    }
  }

  lemma CallRefused(s: State, id: nat, p: Progress)
    requires p.phase == Cleared && Decide(s.accounts, p.req) != Applied
    ensures Rest(s, id, p) == With(s, 5, id, p.(phase := Decide(s.accounts, p.req)))
  {
    var q := p.(phase := Decide(s.accounts, p.req));
    CallUpdates(s, id, p);
    Idle(s, 3, id, q, Mark(id));
    Idle(s, 4, id, q, Reply(id));
  }

  lemma CallApplies(s: State, id: nat, p: Progress)
    requires p.phase == Cleared && Decide(s.accounts, p.req) == Applied
    ensures Rest(s, id, p) ==
      With(Booked(s, id, p.req), 5, id, p.(phase := Marked, marked := Some(Stamp(s.step + 3, s.clock))))
        .(markers := s.markers[MarkerKey(p.req) := s.clock + DAY])
  {
    var q := p.(phase := Applied);
    var m := p.(phase := Marked, marked := Some(Stamp(s.step + 3, s.clock)));
    CallUpdates(s, id, p);
    CallMarks(Booked(s, id, p.req), id, q);
    Idle(Booked(s, id, p.req).(markers := s.markers[MarkerKey(p.req) := s.clock + DAY]), 4, id, m, Reply(id));
  }

  lemma CallArrives(s: State, id: nat, r: Request)
    requires id !in s.requests && ValidAmount(r.amount)
    ensures Step(s, Arrive(id, r)) == With(s, 1, id, Progress(r, New, None, None))
  {
  }

  /** The events of one call. */
  function Call(id: nat, r: Request, allowed: bool): seq<Event> {
    [Arrive(id, r), Read(id, allowed), Update(id), Mark(id)] + [Reply(id)]
  }

  /** With nothing between them they lead to `Final`, whose phase is the outcome. */
  lemma CallEnds(s: State, id: nat, r: Request, allowed: bool)
    requires id !in s.requests && id !in s.answers && ValidAmount(r.amount)
    ensures Run(s, Call(id, r, allowed)) == Final(s, id, r, allowed)
  {
    RunOne(s, [Arrive(id, r), Read(id, allowed), Update(id), Mark(id)], Reply(id));
    RunFour(s, Arrive(id, r), Read(id, allowed), Update(id), Mark(id));
    CallArrives(s, id, r);
    CallReads(s, id, r, allowed, Progress(r, New, None, None));
    CallFinishes(s, id, r, allowed);
  }

  lemma CallFinishes(s: State, id: nat, r: Request, allowed: bool)
    requires id !in s.answers
    ensures Rest(s, id, AfterRead(s, r, allowed)) == Final(s, id, r, allowed)
  {
    var p := AfterRead(s, r, allowed);
    if p.phase != Cleared {
      CallStops(s, id, p);
    } else if Decide(s.accounts, r) == Applied {
      CallApplies(s, id, p);
    } else {
      CallRefused(s, id, p);
    }
  }

  // ---------- a replay that shows another balance ----------

  lemma {:induction false} RunApp(s: State, a: seq<Event>, b: seq<Event>)
    ensures Run(s, a + b) == Run(Run(s, a), b)
    decreases |b|
  {
    if b == [] {
      assert a + b == a;
    } else {
      var init, e := b[..|b| - 1], b[|b| - 1];
      RunApp(s, a, init);
      RunOne(s, a + init, e);
      RunOne(Run(s, a), init, e);
      assert b == init + [e] && a + b == (a + init) + [e];
    }
  }

  ghost predicate Unused(s: State, id: nat) { id !in s.requests && id !in s.answers }

  /** What an undisturbed credit leaves behind. */
  lemma CreditCall(s: State, id: nat, r: Request)
    requires Unused(s, id) && ValidAmount(r.amount) && r.op == Credit
    requires r.account in s.accounts && s.accounts[r.account].active && !Visible(s.markers, MarkerKey(r), s.clock)
    ensures var t := Run(s, Call(id, r, true));
      && r.account in t.accounts && t.accounts[r.account] == Change(s.accounts[r.account], r)
      && t.answers == s.answers[id := ShownAs(Change(s.accounts[r.account], r))]
      && t.markers == s.markers[MarkerKey(r) := s.clock + DAY] && t.clock == s.clock
      && forall i :: i != id && Unused(s, i) ==> Unused(t, i)
  {
    CallEnds(s, id, r, true);
  }

  /** What an undisturbed replay leaves behind. */
  lemma ReplayCall(s: State, id: nat, r: Request)
    requires Unused(s, id) && ValidAmount(r.amount) && Visible(s.markers, MarkerKey(r), s.clock)
    ensures var t := Run(s, Call(id, r, true));
      && t.answers == s.answers[id := ReadOut(s.accounts, r.account)]
      && id in t.requests && t.requests[id].phase == Replayed
  {
    CallEnds(s, id, r, true);
  }

  const TEN := Request(Credit, "acc", 10_00, "key-one")
  const FIVE := Request(Credit, "acc", 5_00, "key-two")

  /** Credit ten, credit five under another key, and send the first request again. */
  function TenFiveTen(): seq<Event> {
    [Open("acc")] + Call(0, TEN, true) + Call(1, FIVE, true) + Call(2, TEN, true)
  }

  lemma TenFiveTenSteps()
    ensures After(TenFiveTen()) ==
      Run(Run(Run(Step(INITIAL, Open("acc")), Call(0, TEN, true)), Call(1, FIVE, true)), Call(2, TEN, true))
  {
    RunOne(INITIAL, [], Open("acc"));
    assert [] + [Open("acc")] == [Open("acc")];
    RunApp(INITIAL, [Open("acc")], Call(0, TEN, true));
    RunApp(INITIAL, [Open("acc")] + Call(0, TEN, true), Call(1, FIVE, true));
    RunApp(INITIAL, [Open("acc")] + Call(0, TEN, true) + Call(1, FIVE, true), Call(2, TEN, true));
  }

  /** The replay is not answered with the original receipt, though it reads the marker after it was written. */
  lemma ReplayShowsAnother()
    ensures var t := After(TenFiveTen());
      && 0 in t.answers && t.answers[0] == Shown(10_00, true)
      && 2 in t.answers && t.answers[2] == Shown(15_00, true)
      && 2 in t.requests && t.requests[2].phase == Replayed
  {
    TenFiveTenSteps();
    var s0 := Step(INITIAL, Open("acc"));
    var s1 := Run(s0, Call(0, TEN, true));
    var s2 := Run(s1, Call(1, FIVE, true));
    assert TEN.key[4] != FIVE.key[4];
    CreditCall(s0, 0, TEN);
    CreditCall(s1, 1, FIVE);
    ReplayCall(s2, 2, TEN);
  }

  // ---------- the handler ----------

  /** The table, the markers and the audit log that `_mutate` works on. */
  class Service {
    var accounts: map<string, Account>
    var markers: map<Marker, nat>
    var log: seq<Entry>

    constructor ()
      ensures accounts == map[] && markers == map[] && log == []
    {
      accounts, markers, log := map[], map[], [];
    }

    /** `_mutate` at time `now`, for a request that no other one overlaps; `allowed` is the policy's answer. */
    method Mutate(id: nat, r: Request, now: nat, allowed: bool) returns (outcome: Phase, answer: Option<Answer>)
      modifies this
      ensures outcome == Outcome(old(accounts), old(markers), now, r, allowed)
      ensures outcome != Marked ==> accounts == old(accounts) && markers == old(markers) && log == old(log)
      ensures outcome == Marked ==>
        && r.account in old(accounts)
        && accounts == old(accounts)[r.account := Change(old(accounts)[r.account], r)]
        && markers == old(markers)[MarkerKey(r) := now + DAY]
        && log == old(log) + [Entry(id, r)]
      ensures answer == if outcome == Marked || outcome == Replayed then Some(ReadOut(accounts, r.account)) else None
    {
      var key := MarkerKey(r);
      if key in markers && now < markers[key] {
        if r.account !in accounts { return Replayed, Some(NoRow); }
        return Replayed, Some(Shown(accounts[r.account].balance, accounts[r.account].active));
      }
      if !allowed { return Forbidden, None; }
      if r.account !in accounts { return NotFound, None; }
      var acc := accounts[r.account];
      if !acc.active { return Inactive, None; }
      if r.op == Credit {
        acc := acc.(balance := acc.balance + r.amount);
      } else {
        if acc.balance < r.amount { return Insufficient, None; }
        acc := acc.(balance := acc.balance - r.amount);
      }
      acc := acc.(version := acc.version + 1);
      accounts := accounts[r.account := acc];
      log := log + [Entry(id, r)];
      answer := Some(Shown(acc.balance, acc.active));
      markers := markers[key := now + DAY];
      outcome := Marked;
    }
  }
}
