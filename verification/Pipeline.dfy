/**
 From transfer requests to velocity: rows, published events, the consumer with its crashes and
 the fraud windows, as one machine over any interleaving.
 */
module Pipeline {
  import T = Transfers
  import C = Consumer
  import F = FraudWindow

  /** How far the handler gets: an exception may end it before or after the set is pruned. */
  datatype Progress = NotStarted | AddedOnly | Complete

  datatype State = State(
    now: nat,
    rows: T.Rows,
    ids: set<string>,
    events: set<T.Published>,          // the events of committed requests, to be sent
    replies: map<string, T.Receipt>,   // by the id drawn for the request
    consumer: C.State<T.Published>,
    velocity: map<string, F.ZSet>,
    handled: seq<F.Handled>)           // every insertion into a window

  datatype Event =
    | Tick(seconds: nat)
    | Request(user: string, payload: T.Payload, risk: real, mfa: bool, id: string)  // it passed the gate
    | Publish(event: T.Published)
    | Forge                            // somebody writes a record whose envelope does not open
    | Fetch
    | Handle(progress: Progress)
    | Commit
    | Crash

  function DoRequest(s: State, user: string, p: T.Payload, risk: real, mfa: bool, id: string): State {
    if id in s.ids then s
    else
      var row := T.RowOf(s.rows, user, p, id, risk);
      s.(rows := T.AfterInsert(s.rows, user, p, id, risk),
         ids := s.ids + {id},
         events := s.events + {T.EventOf(row, user, p, risk, mfa)},
         replies := s.replies[id := T.ReceiptOf(row)])
  }

  function Window(velocity: map<string, F.ZSet>, user: string): F.ZSet { F.At(velocity, user) }

  /** The handler works on the record that the consumer holds. */
  function DoHandle(s: State, progress: Progress): State
    requires s.consumer.phase == C.Handling && C.IsGood(s.consumer.log, s.consumer.committed)
  {
    var e := s.consumer.log[s.consumer.committed].data;
    var z := Window(s.velocity, e.user);
    if progress == NotStarted then s
    else
      var window := if progress == Complete then F.AfterHandle(z, e.tx, s.now) else z[e.tx := s.now];
      s.(velocity := s.velocity[e.user := window],
         handled := s.handled + [F.Handled(e.user, e.tx, s.now)])
  }

  predicate Holds(s: State) {
    s.consumer.phase == C.Handling && C.IsGood(s.consumer.log, s.consumer.committed)
  }

  function Step(s: State, e: Event): State {
    match e
    case Tick(dt) => s.(now := s.now + dt)
    case Request(user, p, risk, mfa, id) => DoRequest(s, user, p, risk, mfa, id)
    case Publish(ev) =>
      if ev in s.events then s.(consumer := C.Step(s.consumer, C.Append(C.Good(ev)))) else s
    case Forge => s.(consumer := C.Step(s.consumer, C.Append(C.Bad)))
    case Fetch => s.(consumer := C.Step(s.consumer, C.Fetch))
    case Handle(progress) => if Holds(s) then DoHandle(s, progress) else s
    case Commit => s.(consumer := C.Step(s.consumer, C.Commit))
    case Crash => s.(consumer := C.Step(s.consumer, C.Crash))
  }

  const INITIAL := State(0, map[], {}, {}, map[], C.Initial(), map[], [])

  function Run(es: seq<Event>): State {
    if es == [] then INITIAL else Step(Run(es[..|es| - 1]), es[|es| - 1])
  }

  // ---------- rows ----------

  /** Rows carry their key, and no two rows share an id. */
  ghost predicate RowsValid(rows: T.Rows, ids: set<string>) {
    && (forall k :: k in rows ==> rows[k].user == k.0 && rows[k].payload.key == k.1 && rows[k].id in ids)
    && (forall k, l :: k in rows && l in rows && rows[k].id == rows[l].id ==> k == l)
  }

  ghost predicate Backs(rows: T.Rows, e: T.Published, k: (string, string)) {
    k in rows && k.0 == e.user && rows[k].id == e.tx
  }

  /** The event carries the id of a row of its user. */
  ghost predicate Backed(rows: T.Rows, e: T.Published) { exists k :: Backs(rows, e, k) }

  ghost predicate LogBacked(rows: T.Rows, log: seq<C.Record<T.Published>>) {
    forall o :: 0 <= o < |log| && log[o].Good? ==> Backed(rows, log[o].data)
  }

  ghost predicate WindowsBacked(rows: T.Rows, velocity: map<string, F.ZSet>) {
    forall user, tx :: user in velocity && tx in velocity[user] ==> tx in IdsOf(rows, user)
  }

  /** The rows of a user, by their idempotency keys. */
  function KeysOf(rows: T.Rows, user: string): set<(string, string)> {
    set k | k in rows && k.0 == user
  }

  function IdsOf(rows: T.Rows, user: string): set<string> {
    set k | k in KeysOf(rows, user) && k in rows :: rows[k].id
  }

  ghost predicate Valid(s: State) {
    && RowsValid(s.rows, s.ids)
    && (forall e :: e in s.events ==> Backed(s.rows, e))
    && LogBacked(s.rows, s.consumer.log)
    && WindowsBacked(s.rows, s.velocity)
  }

  /** Rows are only ever added. */
  ghost predicate Extends(rows: T.Rows, more: T.Rows) {
    forall k :: k in rows ==> k in more && more[k] == rows[k]
  }

  lemma BackedStays(rows: T.Rows, more: T.Rows, e: T.Published)
    requires Extends(rows, more) && Backed(rows, e)
    ensures Backed(more, e)
  {
    var k :| Backs(rows, e, k);
    assert Backs(more, e, k);
  }

  lemma IdsStay(rows: T.Rows, more: T.Rows, user: string)
    requires Extends(rows, more)
    ensures IdsOf(rows, user) <= IdsOf(more, user)
  {
    forall tx | tx in IdsOf(rows, user) ensures tx in IdsOf(more, user) {
      var k :| k in KeysOf(rows, user) && k in rows && rows[k].id == tx;
      assert k in KeysOf(more, user) && more[k].id == tx;
    }
  }

  lemma ValidRequest(s: State, user: string, p: T.Payload, risk: real, mfa: bool, id: string)
    requires Valid(s) && id !in s.ids
    ensures Valid(DoRequest(s, user, p, risk, mfa, id))
  {
    var t := DoRequest(s, user, p, risk, mfa, id);
    assert Extends(s.rows, t.rows);
    forall e | e in t.events ensures Backed(t.rows, e) {
      if e in s.events {
        BackedStays(s.rows, t.rows, e);
      } else {
        assert Backs(t.rows, e, (user, p.key));
      }
    }
    forall o | 0 <= o < |t.consumer.log| && t.consumer.log[o].Good? ensures Backed(t.rows, t.consumer.log[o].data) {
      BackedStays(s.rows, t.rows, s.consumer.log[o].data);
    }
    forall u, tx | u in t.velocity && tx in t.velocity[u] ensures tx in IdsOf(t.rows, u) {
      IdsStay(s.rows, t.rows, u);
    }
  }

  lemma BackedId(rows: T.Rows, e: T.Published)
    requires Backed(rows, e)
    ensures e.tx in IdsOf(rows, e.user)
  {
    var k :| Backs(rows, e, k);
    assert k in KeysOf(rows, e.user);
  }

  lemma ValidHandle(s: State, progress: Progress)
    requires Valid(s) && Holds(s)
    ensures Valid(DoHandle(s, progress))
  {
    var e := s.consumer.log[s.consumer.committed].data;
    BackedId(s.rows, e);
  }

  /** Only the consumer changes, and its log gains at most one record, which is backed if it is valid. */
  lemma ValidConsumer(s: State, c: C.State<T.Published>)
    requires Valid(s)
    requires c.log == s.consumer.log ||
      exists r :: c.log == s.consumer.log + [r] && (r.Good? ==> Backed(s.rows, r.data))
    ensures Valid(s.(consumer := c))
  {
  }

  lemma ValidPublish(s: State, ev: T.Published)
    requires Valid(s) && ev in s.events
    ensures Valid(Step(s, Publish(ev)))
  {
    var r := C.Good(ev);
    var c := C.Step(s.consumer, C.Append(r));
    assert c.log == s.consumer.log + [r] && Backed(s.rows, r.data);
    ValidConsumer(s, c);
  }

  lemma ValidForge(s: State)
    requires Valid(s)
    ensures Valid(Step(s, Forge))
  {
    var r: C.Record<T.Published> := C.Bad;
    var c := C.Step(s.consumer, C.Append(r));
    assert c.log == s.consumer.log + [r];
    ValidConsumer(s, c);
  }

  lemma ValidStep(s: State, e: Event)
    requires Valid(s)
    ensures Valid(Step(s, e))
  {
    match e
    case Tick(dt) =>
    case Request(user, p, risk, mfa, id) =>
      if id !in s.ids { ValidRequest(s, user, p, risk, mfa, id); }
    case Publish(ev) =>
      if ev in s.events { ValidPublish(s, ev); }
    case Forge => ValidForge(s);
    case Handle(progress) =>
      if Holds(s) { ValidHandle(s, progress); }
    case Fetch => ValidConsumer(s, C.Step(s.consumer, C.Fetch));
    case Commit => ValidConsumer(s, C.Step(s.consumer, C.Commit));
    case Crash => ValidConsumer(s, C.Step(s.consumer, C.Crash));
  }

  lemma {:induction false} ValidRun(es: seq<Event>)
    ensures Valid(Run(es))
  {
    if es != [] {
      ValidRun(es[..|es| - 1]);
      ValidStep(Run(es[..|es| - 1]), es[|es| - 1]);
    }
  }

  lemma RowsOnlyGrow(s: State, e: Event)
    ensures Extends(s.rows, Step(s, e).rows)
  {
  }

  /** A row once written is there, unchanged, in every continuation of the run: a replay gets its receipt. */
  lemma {:induction false} RowsAreKept(es: seq<Event>, more: seq<Event>)
    ensures Extends(Run(es).rows, Run(es + more).rows)
  {
    if more == [] {
      assert es + more == es;
    } else {
      var init := more[..|more| - 1];
      RowsAreKept(es, init);
      assert (es + more)[..|es + more| - 1] == es + init;
      RowsOnlyGrow(Run(es + init), more[|more| - 1]);
    }
  }

  // ---------- velocity ----------

  lemma {:induction false} ImageSize(rows: T.Rows, ks: set<(string, string)>)
    requires ks <= rows.Keys
    ensures |set k | k in ks :: rows[k].id| <= |ks|
  {
    if ks != {} {
      var x :| x in ks;
      ImageSize(rows, ks - {x});
      assert (set k | k in ks :: rows[k].id) == (set k | k in ks - {x} :: rows[k].id) + {rows[x].id};
    }
  }

  /** The idempotency keys that the user has sent. */
  function KeysSent(es: seq<Event>, user: string): set<string> {
    set i | 0 <= i < |es| && es[i].Request? && es[i].user == user :: es[i].payload.key
  }

  lemma {:induction false} RowsWereSent(es: seq<Event>, k: (string, string))
    requires k in Run(es).rows
    ensures k.1 in KeysSent(es, k.0)
  {
    var init, e := es[..|es| - 1], es[|es| - 1];
    if k in Run(init).rows {
      RowsWereSent(init, k);
      var i :| 0 <= i < |init| && init[i].Request? && init[i].user == k.0 && init[i].payload.key == k.1;
      assert es[i] == init[i];
    } else {
      NewRow(Run(init), e, k);
      assert es[|init|] == e;
    }
  }

  lemma NewRow(s: State, e: Event, k: (string, string))
    requires k !in s.rows && k in Step(s, e).rows
    ensures e.Request? && e.user == k.0 && e.payload.key == k.1
  {
  }

  /** A set of pairs with one first component is no larger than the second components allow. */
  lemma {:induction false} PairsBound(ks: set<(string, string)>, user: string, keys: set<string>)
    requires forall k :: k in ks ==> k.0 == user && k.1 in keys
    ensures |ks| <= |keys|
  {
    if ks != {} {
      var x :| x in ks;
      forall k | k in ks - {x} ensures k.1 in keys - {x.1} {
        assert (k.0, k.1) == k && (x.0, x.1) == x;
      }
      PairsBound(ks - {x}, user, keys - {x.1});
    }
  }

  /**
   In every run, whatever is retried, redelivered or crashes, a user's window never holds more
   members than the user has rows, and the user has no more rows than idempotency keys sent.
   */
  lemma VelocityIsNeverInflated(es: seq<Event>, user: string, span: int, now: nat)
    ensures F.Velocity(Window(Run(es).velocity, user), span, now) <= |KeysOf(Run(es).rows, user)|
    ensures |KeysOf(Run(es).rows, user)| <= |KeysSent(es, user)|
  {
    ValidRun(es);
    var s := Run(es);
    var z := Window(s.velocity, user);
    assert F.InRange(z, now - span, now) <= IdsOf(s.rows, user);
    F.SubsetSize(F.InRange(z, now - span, now), IdsOf(s.rows, user));
    var ks := KeysOf(s.rows, user);
    ImageSize(s.rows, ks);
    assert IdsOf(s.rows, user) == set k | k in ks :: s.rows[k].id;
    forall k | k in ks ensures k.0 == user && k.1 in KeysSent(es, user) { RowsWereSent(es, k); }
    PairsBound(ks, user, KeysSent(es, user));
  }

  /** The windows tell the insertions made so far, whichever handlers stopped half way. */
  ghost predicate Timely(s: State) {
    && F.Ordered(s.handled) && (s.handled != [] ==> s.handled[|s.handled| - 1].at <= s.now)
    && F.AllRepresent(s.velocity, s.handled)
  }

  lemma TimelyHandle(s: State, progress: Progress)
    requires Timely(s) && Holds(s)
    ensures Timely(DoHandle(s, progress))
  {
    var e := s.consumer.log[s.consumer.committed].data;
    var x := F.Handled(e.user, e.tx, s.now);
    F.OrderedNext(s.handled, x);
    if progress == Complete {
      F.RepresentsNext(s.velocity, s.handled, x);
    } else if progress == AddedOnly {
      F.RepresentsAdded(s.velocity, s.handled, x);
    }
  }

  lemma TimelyStep(s: State, e: Event)
    requires Timely(s)
    ensures Timely(Step(s, e))
  {
    if e.Handle? && Holds(s) { TimelyHandle(s, e.progress); }
  }

  lemma {:induction false} TimelyRun(es: seq<Event>)
    ensures Timely(Run(es))
  {
    if es != [] {
      TimelyRun(es[..|es| - 1]);
      TimelyStep(Run(es[..|es| - 1]), es[|es| - 1]);
    }
  }

  /** The counts that a handler takes at `now` for a user are those of the insertions `h`. */
  ghost predicate Counted(z: F.ZSet, h: seq<F.Handled>, user: string, now: nat) {
    && F.Velocity(z, F.DAY, now) == |F.LastAfter(h, user, now - 86_400)|
    && F.Velocity(z, F.HOUR, now) == |F.LastAfter(h, user, now - 3_601)|
    && 1 <= F.Velocity(z, F.HOUR, now) <= F.Velocity(z, F.DAY, now)
  }

  lemma CountedNext(velocity: map<string, F.ZSet>, h: seq<F.Handled>, e: F.Handled)
    requires F.Ordered(h) && (h != [] ==> h[|h| - 1].at <= e.at) && F.AllRepresent(velocity, h)
    ensures Counted(F.AfterHandle(F.At(velocity, e.user), e.tx, e.at), h + [e], e.user, e.at)
  {
    F.WindowNext(velocity, h, e);
  }

  /**
   In every run, whatever handlers stopped half way before, a handler that gets as far as counting
   counts the transactions of the user last inserted within a day, and within an hour.
   */
  lemma CountsAreExact(es: seq<Event>)
    requires Holds(Run(es))
    ensures var s := Run(es); var t := Step(s, Handle(Complete));
      var user := s.consumer.log[s.consumer.committed].data.user;
      Counted(Window(t.velocity, user), t.handled, user, s.now)
  {
    TimelyRun(es);
    var s := Run(es);
    var e := s.consumer.log[s.consumer.committed].data;
    CountedNext(s.velocity, s.handled, F.Handled(e.user, e.tx, s.now));
  }

  // ---------- what the topic tells of the rows ----------

  function Terms(p: T.Payload): (string, string, int, string) { (p.src, p.dst, p.amount, p.currency) }

  predicate SameTerms(ev: T.Published, row: T.Row) {
    (ev.src, ev.dst, ev.amount, ev.currency) == Terms(row.payload)
  }

  /** The row whose id the event carries has its terms. */
  ghost predicate Tells(rows: T.Rows, ev: T.Published) {
    exists k :: k in rows && rows[k].id == ev.tx && SameTerms(ev, rows[k])
  }

  /** Step `i` of the run is a request that gets a row. */
  ghost predicate IsRequest(es: seq<Event>, i: nat) {
    i < |es| && es[i].Request? && es[i].id !in Run(es[..i]).ids
  }

  ghost function EventAt(es: seq<Event>, i: nat): T.Published
    requires IsRequest(es, i)
  {
    var e, rows := es[i], Run(es[..i]).rows;
    T.EventOf(T.RowOf(rows, e.user, e.payload, e.id, e.risk), e.user, e.payload, e.risk, e.mfa)
  }

  /** Request `j` is the first of its user under its key, and request `i` is one of them. */
  ghost predicate IsFirst(es: seq<Event>, j: nat, i: nat) {
    && IsRequest(es, j) && IsRequest(es, i) && j <= i
    && es[j].user == es[i].user && es[j].payload.key == es[i].payload.key
    && forall m: nat :: m < j && IsRequest(es, m) ==>
          !(es[m].user == es[i].user && es[m].payload.key == es[i].payload.key)
  }

  /** The row under a key is that of the first request with it, and there is none without one. */
  lemma {:induction false} RowIsFirst(es: seq<Event>, user: string, key: string) returns (j: nat)
    requires (user, key) in Run(es).rows
    ensures IsFirst(es, j, j) && es[j].user == user && es[j].payload.key == key
    ensures Run(es).rows[(user, key)] == T.Row(es[j].id, user, es[j].payload, es[j].risk, "pending")
  {
    var init, e := es[..|es| - 1], es[|es| - 1];
    assert es == init + [e] && es[..|init|] == init;
    if (user, key) in Run(init).rows {
      j := RowIsFirst(init, user, key);
      assert es[j] == init[j];
      FirstStays(init, e, j);
      RowsOnlyGrow(Run(init), e);
    } else {
      j := |init|;
      NewRow(Run(init), e, (user, key));
      forall m: nat | m < j && IsRequest(es, m) ensures !(es[m].user == user && es[m].payload.key == key) {
        if es[m].user == user && es[m].payload.key == key {
          IsRequestPrefix(init, e, m);
          RequestHasRow(init, m);
        }
      }
    }
  }

  lemma IsRequestPrefix(es: seq<Event>, e: Event, m: nat)
    requires m < |es|
    ensures IsRequest(es + [e], m) <==> IsRequest(es, m)
  {
    assert (es + [e])[..m] == es[..m];
  }

  lemma FirstStays(es: seq<Event>, e: Event, j: nat)
    requires IsFirst(es, j, j)
    ensures IsFirst(es + [e], j, j)
  {
    var g := es + [e];
    forall m: nat | m <= j ensures IsRequest(g, m) <==> IsRequest(es, m) { IsRequestPrefix(es, e, m); }
    assert forall m: nat :: m <= j ==> g[m] == es[m];
  }

  /** After a request there is a row under its key. */
  lemma RequestHasRow(es: seq<Event>, i: nat)
    requires IsRequest(es, i)
    ensures (es[i].user, es[i].payload.key) in Run(es).rows
    ensures Run(es).rows[(es[i].user, es[i].payload.key)]
         == T.RowOf(Run(es[..i]).rows, es[i].user, es[i].payload, es[i].id, es[i].risk)
  {
    assert es[..i + 1][..i] == es[..i] && es[..i + 1] + es[i + 1..] == es;
    RowsAreKept(es[..i + 1], es[i + 1..]);
  }

  /** There is one first request. */
  lemma FirstIsOne(es: seq<Event>, j: nat, k: nat, i: nat)
    requires IsFirst(es, j, i) && IsFirst(es, k, k)
    requires es[k].user == es[i].user && es[k].payload.key == es[i].payload.key
    ensures j == k
  {
  }

  /** The row of request `i` is told by the first request under its key. */
  lemma RowTold(es: seq<Event>, j: nat, i: nat)
    requires IsFirst(es, j, i)
    ensures T.RowOf(Run(es[..i]).rows, es[i].user, es[i].payload, es[i].id, es[i].risk)
         == T.Row(es[j].id, es[i].user, es[j].payload, es[j].risk, "pending")
  {
    RequestHasRow(es, i);
    var k := RowIsFirst(es, es[i].user, es[i].payload.key);
    FirstIsOne(es, j, k, i);
  }

  lemma ReplyStep(s: State, e: Event, id: string)
    requires Valid(s) && RepliesDrawn(s)
    ensures RepliesDrawn(Step(s, e))
    ensures id in s.replies ==> id in Step(s, e).replies && Step(s, e).replies[id] == s.replies[id]
  {
  }

  ghost predicate RepliesDrawn(s: State) { s.replies.Keys <= s.ids }

  lemma {:induction false} RepliesRun(es: seq<Event>)
    ensures RepliesDrawn(Run(es))
  {
    if es != [] {
      RepliesRun(es[..|es| - 1]);
      ValidRun(es[..|es| - 1]);
      ReplyStep(Run(es[..|es| - 1]), es[|es| - 1], "");
    }
  }

  lemma {:induction false} ReplyKept(es: seq<Event>, i: nat)
    requires IsRequest(es, i)
    ensures es[i].id in Run(es).replies
    ensures Run(es).replies[es[i].id]
         == T.ReceiptOf(T.RowOf(Run(es[..i]).rows, es[i].user, es[i].payload, es[i].id, es[i].risk))
  {
    var init, e := es[..|es| - 1], es[|es| - 1];
    assert es == init + [e];
    if i < |init| {
      IsRequestPrefix(init, e, i);
      assert init[..i] == es[..i];
      ReplyKept(init, i);
      RepliesRun(init);
      ValidRun(init);
      ReplyStep(Run(init), e, es[i].id);
    }
  }

  /**
   In every run each accepted request is answered with the id, the status, the terms and the risk of
   the first accepted request of its user under its key: a first request with its own, a replay with
   those of the original.
   */
  lemma RepliesExactly(es: seq<Event>, j: nat, i: nat)
    requires IsFirst(es, j, i)
    ensures var p := es[j].payload;
      && es[i].id in Run(es).replies
      && Run(es).replies[es[i].id] == T.Receipt(es[j].id, "pending", p.amount, p.currency, p.src, p.dst, es[j].risk)
  {
    ReplyKept(es, i);
    RowTold(es, j, i);
  }

  /** Each request has a first one. */
  lemma FirstExists(es: seq<Event>, i: nat) returns (j: nat)
    requires IsRequest(es, i)
    ensures IsFirst(es, j, i)
  {
    RequestHasRow(es, i);
    j := RowIsFirst(es, es[i].user, es[i].payload.key);
  }

  /**
   In every run the event produced for a request carries the id of that first request, and the user,
   the terms, the memo, the risk and the second factor of the request itself.
   */
  lemma EventsExactly(es: seq<Event>, ev: T.Published)
    ensures ev in Run(es).events <==> exists i: nat, j: nat :: IsFirst(es, j, i) && ev == EventFor(es, j, i)
  {
    SourcedRun(es);
    if ev in Run(es).events {
      assert Comes(es, ev);
      var i: nat :| IsRequest(es, i) && EventAt(es, i) == ev;
      var j := FirstExists(es, i);
      RowTold(es, j, i);
      assert IsFirst(es, j, i) && ev == EventFor(es, j, i);
    }
    if i: nat, j: nat :| IsFirst(es, j, i) && ev == EventFor(es, j, i) {
      RowTold(es, j, i);
      EventIsKept(es, i);
    }
  }

  ghost function EventFor(es: seq<Event>, j: nat, i: nat): T.Published
    requires IsFirst(es, j, i)
  {
    var e, p := es[i], es[i].payload;
    T.Published(es[j].id, e.user, p.src, p.dst, p.amount, p.currency, p.memo, e.risk, e.mfa)
  }

  /** The request reuses a key of the user, with other terms than those of the row under it. */
  ghost predicate Reuses(es: seq<Event>, i: nat) {
    && IsRequest(es, i)
    && var e, rows := es[i], Run(es[..i]).rows;
       && (e.user, e.payload.key) in rows
       && Terms(rows[(e.user, e.payload.key)].payload) != Terms(e.payload)
  }

  ghost predicate OnTopic(s: State, ev: T.Published) {
    exists o: nat :: C.IsGood(s.consumer.log, o) && s.consumer.log[o].data == ev
  }

  ghost predicate Comes(es: seq<Event>, ev: T.Published) { exists i: nat :: IsRequest(es, i) && EventAt(es, i) == ev }

  lemma ComesStill(es: seq<Event>, e: Event, ev: T.Published)
    requires Comes(es, ev)
    ensures Comes(es + [e], ev)
  {
    var i: nat :| IsRequest(es, i) && EventAt(es, i) == ev;
    assert (es + [e])[..i] == es[..i];
    assert IsRequest(es + [e], i) && EventAt(es + [e], i) == ev;
  }

  /** Every event comes from a request of the run, and what is on the topic is such an event. */
  ghost predicate Sourced(es: seq<Event>) {
    && (forall ev :: ev in Run(es).events ==> Comes(es, ev))
    && (forall o: nat :: C.IsGood(Run(es).consumer.log, o) ==> Run(es).consumer.log[o].data in Run(es).events)
  }

  lemma SourcedNext(es: seq<Event>, e: Event)
    requires Sourced(es)
    ensures Sourced(es + [e])
  {
    var g := es + [e];
    assert g[..|es|] == es;
    forall ev | ev in Run(g).events ensures Comes(g, ev) {
      if ev in Run(es).events {
        ComesStill(es, e, ev);
      } else {
        assert IsRequest(g, |es|) && EventAt(g, |es|) == ev;
      }
    }
    TopicFrom(Run(es), e);
  }

  lemma TopicFrom(s: State, e: Event)
    requires forall o: nat :: C.IsGood(s.consumer.log, o) ==> s.consumer.log[o].data in s.events
    ensures var t := Step(s, e); forall o: nat :: C.IsGood(t.consumer.log, o) ==> t.consumer.log[o].data in t.events
  {
  }

  lemma {:induction false} SourcedRun(es: seq<Event>)
    ensures Sourced(es)
  {
    if es != [] {
      SourcedRun(es[..|es| - 1]);
      SourcedNext(es[..|es| - 1], es[|es| - 1]);
      assert es[..|es| - 1] + [es[|es| - 1]] == es;
    }
  }

  /** The event of a request tells of its row in every continuation, unless the request reused a key. */
  lemma EventTells(es: seq<Event>, i: nat)
    requires IsRequest(es, i)
    ensures Tells(Run(es).rows, EventAt(es, i)) <==> !Reuses(es, i)
  {
    var e := es[i];
    var k := (e.user, e.payload.key);
    assert es[..i + 1][..i] == es[..i] && es[..i + 1] + es[i + 1..] == es;
    RowsAreKept(es[..i + 1], es[i + 1..]);
    ValidRun(es);
    var row := T.RowOf(Run(es[..i]).rows, e.user, e.payload, e.id, e.risk);
    assert k in Run(es[..i + 1]).rows && Run(es[..i + 1]).rows[k] == row;
    OnlyRow(Run(es), EventAt(es, i), k);
  }

  /** Ids are unique, so one row decides. */
  lemma OnlyRow(s: State, ev: T.Published, k: (string, string))
    requires RowsValid(s.rows, s.ids) && k in s.rows && s.rows[k].id == ev.tx
    ensures Tells(s.rows, ev) <==> SameTerms(ev, s.rows[k])
  {
  }

  lemma {:induction false} EventIsKept(es: seq<Event>, i: nat)
    requires IsRequest(es, i)
    ensures EventAt(es, i) in Run(es).events
  {
    var init := es[..|es| - 1];
    if i < |init| {
      assert init[..i] == es[..i];
      EventIsKept(init, i);
      EventsGrow(Run(init), es[|es| - 1]);
    }
  }

  lemma EventsGrow(s: State, e: Event)
    ensures s.events <= Step(s, e).events
  {
  }

  /** In every run, all events that the service produces tell of their rows if and only if no
      request reused a key with other terms. */
  lemma EventsTellExactly(es: seq<Event>)
    ensures (forall ev :: ev in Run(es).events ==> Tells(Run(es).rows, ev)) <==> !exists i: nat :: Reuses(es, i)
  {
    SourcedRun(es);
    if i: nat :| Reuses(es, i) {
      EventTells(es, i);
      EventIsKept(es, i);
    } else {
      forall ev | ev in Run(es).events ensures Tells(Run(es).rows, ev) {
        assert Comes(es, ev);
        var i: nat :| IsRequest(es, i) && EventAt(es, i) == ev;
        EventTells(es, i);
      }
    }
  }

  /**
   In every run, all valid records on the topic have the terms of the row whose id they carry, if
   and only if none of them comes from a request that reused a key with other terms.
   */
  lemma TopicTellsExactly(es: seq<Event>)
    ensures (forall ev :: OnTopic(Run(es), ev) ==> Tells(Run(es).rows, ev)) <==>
            !exists i: nat :: Reuses(es, i) && OnTopic(Run(es), EventAt(es, i))
  {
    SourcedRun(es);
    if i: nat :| Reuses(es, i) && OnTopic(Run(es), EventAt(es, i)) {
      EventTells(es, i);
    } else {
      forall ev | OnTopic(Run(es), ev) ensures Tells(Run(es).rows, ev) {
        assert Comes(es, ev);
        var i: nat :| IsRequest(es, i) && EventAt(es, i) == ev;
        EventTells(es, i);
      }
    }
  }

  /** Two requests under one key with different amounts, and the event of the second. */
  function Reusing(user: string, p: T.Payload, q: T.Payload): seq<Event> {
    [Request(user, p, 0.0, true, "one"), Request(user, q, 0.0, true, "two")]
  }

  /** The topic then holds an amount that no row holds. */
  lemma ReuseIsPublished(user: string, p: T.Payload, q: T.Payload)
    requires p.key == q.key && p.amount != q.amount
    ensures var ev := T.Published("one", user, q.src, q.dst, q.amount, q.currency, q.memo, 0.0, true);
      var s := Run(Reusing(user, p, q) + [Publish(ev)]);
      OnTopic(s, ev) && forall k :: k in s.rows ==> s.rows[k].payload.amount != ev.amount
  {
    var ev := T.Published("one", user, q.src, q.dst, q.amount, q.currency, q.memo, 0.0, true);
    var es := Reusing(user, p, q);
    RunSnoc([], es[0]);
    RunSnoc([es[0]], es[1]);
    assert [] + [es[0]] == [es[0]] && [es[0]] + [es[1]] == es;
    RunSnoc(es, Publish(ev));
    var s1 := Step(INITIAL, es[0]);
    assert s1.rows == map[(user, p.key) := T.Row("one", user, p, 0.0, T.PENDING)] && s1.ids == {"one"};
    assert "two" !in s1.ids by { assert "one"[0] != "two"[0]; }
    var s2 := Step(s1, es[1]);
    assert s2.rows == s1.rows && ev in s2.events;
    var s3 := Step(s2, Publish(ev));
    assert s3.consumer.log == [C.Good(ev)];
    assert C.IsGood(s3.consumer.log, 0);
  }

  lemma RunSnoc(es: seq<Event>, e: Event)
    ensures Run(es + [e]) == Step(Run(es), e)
  {
    assert (es + [e])[..|es|] == es;
  }
}
