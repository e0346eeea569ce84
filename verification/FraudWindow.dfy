/**
 The features of the fraud worker for one transaction event: velocity from a pruned sorted set,
 the amount score from a trimmed list, and whether the destination is new. `now` is in whole
 seconds and does not decrease.
 */
module FraudWindow {
  import opened Wrappers
  import ZScore

  datatype TxEvent = TxEvent(tx: string, user: string, amount: real, src: string, dst: string)

  /** One user's sorted set: the score of each member. */
  type ZSet = map<string, nat>

  const HOUR: int := 3600
  const DAY: int := 86400
  const SEEN_TTL: nat := 60 * 60 * 24 * 90

  /** `ZREMRANGEBYSCORE key 0 hi` */
  function RemoveUpTo(z: ZSet, hi: int): ZSet {
    map tx | tx in z && hi < z[tx] :: z[tx]
  }

  /** The members that `ZCOUNT key lo hi` counts. */
  function InRange(z: ZSet, lo: int, hi: int): set<string> {
    set tx | tx in z && lo <= z[tx] <= hi
  }

  /** The window after `tx` was handled at `now`. */
  function AfterHandle(z: ZSet, tx: string, now: nat): ZSet {
    RemoveUpTo(z[tx := now], now - DAY)
  }

  function Velocity(z: ZSet, span: int, now: nat): nat { |InRange(z, now - span, now)| }

  // ---------- the full history ----------

  datatype Handled = Handled(user: string, tx: string, at: nat)

  ghost predicate Ordered(h: seq<Handled>) {
    forall i, j :: 0 <= i <= j < |h| ==> h[i].at <= h[j].at
  }

  /** When `user` last had `tx` handled. */
  function Last(h: seq<Handled>, user: string, tx: string): Option<nat> {
    if h == [] then None
    else
      var e := h[|h| - 1];
      if e.user == user && e.tx == tx then Some(e.at) else Last(h[..|h| - 1], user, tx)
  }

  /** The transactions of `user` last handled after `lo`. */
  function LastAfter(h: seq<Handled>, user: string, lo: int): set<string> {
    set i | 0 <= i < |h| && h[i].user == user
         && Last(h, user, h[i].tx).Some? && lo < Last(h, user, h[i].tx).value :: h[i].tx
  }

  /** When `user` last had anything handled. */
  function Latest(h: seq<Handled>, user: string): Option<nat> {
    if h == [] then None
    else if h[|h| - 1].user == user then Some(h[|h| - 1].at)
    else Latest(h[..|h| - 1], user)
  }

  /** The transaction was last handled within a day of the user's latest event. */
  predicate IsRecent(h: seq<Handled>, user: string, tx: string) {
    && Last(h, user, tx).Some? && Latest(h, user).Some?
    && Latest(h, user).value - 86_400 < Last(h, user, tx).value
  }

  /** The set holds last times only, and all those within a day of the user's latest event. */
  ghost predicate Represents(z: ZSet, h: seq<Handled>, user: string) {
    && (forall tx :: tx in z ==> Last(h, user, tx) == Some(z[tx]))
    && (forall tx :: IsRecent(h, user, tx) ==> tx in z)
  }

  /** The set was pruned at `now`. */
  predicate Pruned(z: ZSet, now: nat) { forall tx :: tx in z ==> now - DAY < z[tx] }

  lemma LastNext(h: seq<Handled>, e: Handled, user: string, tx: string)
    ensures Last(h + [e], user, tx) == if e.user == user && e.tx == tx then Some(e.at) else Last(h, user, tx)
    ensures Latest(h + [e], user) == if e.user == user then Some(e.at) else Latest(h, user)
  {
    assert (h + [e])[..|h|] == h;
  }

  lemma {:induction false} LastOccurs(h: seq<Handled>, user: string, tx: string)
    ensures Last(h, user, tx).Some? <==> exists i :: 0 <= i < |h| && h[i].user == user && h[i].tx == tx
    ensures Last(h, user, tx).Some? ==> Latest(h, user).Some?
    ensures Ordered(h) && Last(h, user, tx).Some? ==>
      Last(h, user, tx).value <= Latest(h, user).value <= h[|h| - 1].at
  {
    if h != [] {
      var init := h[..|h| - 1];
      LastOccurs(init, user, tx);
      if i :| 0 <= i < |h| && h[i].user == user && h[i].tx == tx {
        if i < |h| - 1 { assert init[i] == h[i]; }
      }
    }
  }

  lemma {:induction false} LatestBound(h: seq<Handled>, user: string)
    requires Ordered(h) && Latest(h, user).Some?
    ensures h != [] && Latest(h, user).value <= h[|h| - 1].at
  {
    if h[|h| - 1].user != user { LatestBound(h[..|h| - 1], user); }
  }

  /** Handling an event keeps the representation, for its own user and for every other; so does a
      handler that stops after the insertion. */
  lemma HandleRepresents(z: ZSet, h: seq<Handled>, e: Handled, user: string)
    requires Ordered(h + [e]) && Represents(z, h, user)
    ensures e.user == user ==> Represents(AfterHandle(z, e.tx, e.at), h + [e], user)
    ensures e.user == user ==> Represents(z[e.tx := e.at], h + [e], user)
    ensures e.user != user ==> Represents(z, h + [e], user)
  {
    var g := h + [e];
    assert Ordered(h) by { assert forall i :: 0 <= i < |h| ==> g[i] == h[i]; }
    forall tx ensures Last(g, user, tx) == if e.user == user && e.tx == tx then Some(e.at) else Last(h, user, tx) {
      LastNext(h, e, user, tx);
    }
    LastNext(h, e, user, e.tx);
    if Latest(h, user).Some? {
      LatestBound(h, user);
      assert g[|h| - 1].at <= g[|h|].at;
    }
    forall tx ensures Last(h, user, tx).Some? ==> Latest(h, user).Some? { LastOccurs(h, user, tx); }
  }

  lemma MembersAfter(z: ZSet, h: seq<Handled>, user: string, lo: int, now: nat)
    requires Ordered(h) && Represents(z, h, user) && Latest(h, user) == Some(now) && now - DAY <= lo
    ensures InRange(z, lo + 1, now) == LastAfter(h, user, lo)
  {
    forall tx ensures tx in InRange(z, lo + 1, now) <==> tx in LastAfter(h, user, lo) {
      LastOccurs(h, user, tx);
      if tx in LastAfter(h, user, lo) {
        var i :| 0 <= i < |h| && h[i].user == user && h[i].tx == tx;
        assert Last(h, user, tx).value <= now;
      }
    }
  }

  /** Nothing is left at or below the day's boundary, so the inclusive count is the strict one. */
  lemma BoundaryIsEmpty(z: ZSet, now: nat)
    requires Pruned(z, now)
    ensures InRange(z, now - DAY, now) == InRange(z, now - DAY + 1, now)
  {
  }

  /**
   The counts taken from the pruned window are those of the full history: transactions last
   handled strictly within a day, and within an hour with its boundary; and 1 <= hour <= day.
   */
  lemma VelocityIsExact(z: ZSet, h: seq<Handled>, user: string, now: nat)
    requires Ordered(h) && Represents(z, h, user) && Pruned(z, now)
    requires h != [] && h[|h| - 1].user == user && h[|h| - 1].at == now
    ensures Velocity(z, DAY, now) == |LastAfter(h, user, now - 86_400)|
    ensures Velocity(z, HOUR, now) == |LastAfter(h, user, now - 3_601)|
    ensures 1 <= Velocity(z, HOUR, now) <= Velocity(z, DAY, now)
  {
    BoundaryIsEmpty(z, now);
    MembersAfter(z, h, user, now - DAY, now);
    MembersAfter(z, h, user, now - HOUR - 1, now);
    var tx := h[|h| - 1].tx;
    assert tx in InRange(z, now - HOUR, now);
    SubsetSize({tx}, InRange(z, now - HOUR, now));
    SubsetSize(InRange(z, now - HOUR, now), InRange(z, now - DAY, now));
  }

  lemma SubsetSize<T>(a: set<T>, b: set<T>)
    requires a <= b
    ensures |a| <= |b|
  {
    assert b == a + (b - a);
  }

  /** Handling one event twice leaves the window as handling it once, at the later time. */
  lemma RedeliveryIsIdempotent(z: ZSet, tx: string, now: nat, later: nat)
    requires now <= later
    ensures AfterHandle(AfterHandle(z, tx, now), tx, later) == AfterHandle(z, tx, later)
  {
  }

  // ---------- amounts and destinations ----------

  /** `LPUSH` and `LTRIM key 0 100` */
  function PushAmount(xs: seq<real>, amount: real): (r: seq<real>)
    ensures 0 < |r| <= ZScore.SAMPLE_MAX && r[0] == amount
  {
    var all := [amount] + xs;
    if |all| <= ZScore.SAMPLE_MAX then all else all[..ZScore.SAMPLE_MAX]
  }

  /** The list after `n` deliveries of one amount. */
  function Pushed(xs: seq<real>, amount: real, n: nat): seq<real> {
    if n == 0 then xs else PushAmount(Pushed(xs, amount, n - 1), amount)
  }

  function Copies(amount: real, n: nat): (r: seq<real>)
    ensures |r| == n
  {
    seq(n, i => amount)
  }

  /** A redelivered event is not recognised: the sample holds its amount once for each delivery. */
  lemma {:induction false} RedeliveryRepeatsAmount(xs: seq<real>, amount: real, n: nat)
    requires |xs| <= ZScore.SAMPLE_MAX
    ensures var all := Copies(amount, n) + xs;
      Pushed(xs, amount, n) == if |all| <= 101 then all else all[..101]
  {
    if n > 0 {
      RedeliveryRepeatsAmount(xs, amount, n - 1);
      assert Copies(amount, n) + xs == [amount] + (Copies(amount, n - 1) + xs);
    } else {
      assert Copies(amount, 0) + xs == xs;
    }
  }

  /** The destinations seen, and when the whole set expires. */
  datatype Seen = Seen(dsts: set<string>, expires: nat)

  function LiveDsts(seen: Seen, now: nat): set<string> {
    if now < seen.expires then seen.dsts else {}
  }

  /** A destination handled for the user, and when. */
  datatype Visit = Visit(dst: string, at: nat)

  /** The set after these visits, from an empty one. */
  function SeenAfter(vs: seq<Visit>): Seen {
    if vs == [] then Seen({}, 0)
    else AfterVisit(SeenAfter(vs[..|vs| - 1]), vs[|vs| - 1].dst, vs[|vs| - 1].at)
  }

  function AfterVisit(seen: Seen, dst: string, now: nat): Seen {
    Seen(LiveDsts(seen, now) + {dst}, now + SEEN_TTL)
  }

  /** What follows visit `j`, the next one or `now`, does so within ninety days. */
  ghost predicate FollowedSoon(vs: seq<Visit>, j: nat, now: nat) {
    j < |vs| && (if j + 1 < |vs| then vs[j + 1].at else now) < vs[j].at + 7_776_000
  }

  /** The destination was visited, and from then on to `now` the user never paused for ninety days. */
  ghost predicate VisitedSince(vs: seq<Visit>, i: nat, dst: string, now: nat) {
    i < |vs| && vs[i].dst == dst && forall j: nat :: i <= j < |vs| ==> FollowedSoon(vs, j, now)
  }

  lemma FollowedNext(vs: seq<Visit>, v: Visit, j: nat, now: nat)
    requires j < |vs|
    ensures FollowedSoon(vs + [v], j, now) <==> FollowedSoon(vs, j, v.at)
  {
  }

  lemma VisitedNext(vs: seq<Visit>, v: Visit, i: nat, dst: string, now: nat)
    requires i < |vs|
    ensures VisitedSince(vs + [v], i, dst, now) <==> VisitedSince(vs, i, dst, v.at) && now < v.at + 7_776_000
  {
    var more := vs + [v];
    forall j: nat | j < |vs| ensures FollowedSoon(more, j, now) <==> FollowedSoon(vs, j, v.at) {
      FollowedNext(vs, v, j, now);
    }
    assert FollowedSoon(more, |vs|, now) <==> now < v.at + 7_776_000;
  }

  /**
   In every run of a user's events a destination counts as seen if and only if an event went there
   and no pause of ninety days has followed.
   */
  lemma {:induction false} SeenExactly(vs: seq<Visit>, dst: string, now: nat)
    ensures dst in LiveDsts(SeenAfter(vs), now) <==> exists i: nat :: VisitedSince(vs, i, dst, now)
    decreases |vs|
  {
    if vs != [] {
      var init, v := vs[..|vs| - 1], vs[|vs| - 1];
      assert vs == init + [v];
      SeenExactly(init, dst, v.at);
      forall i: nat | i < |init|
        ensures VisitedSince(vs, i, dst, now) <==> VisitedSince(init, i, dst, v.at) && now < v.at + 7_776_000
      {
        VisitedNext(init, v, i, dst, now);
      }
      assert FollowedSoon(vs, |init|, now) <==> now < v.at + 7_776_000;
      assert VisitedSince(vs, |init|, dst, now) <==> v.dst == dst && now < v.at + 7_776_000;
      if i: nat :| VisitedSince(init, i, dst, v.at) {
        assert VisitedSince(vs, i, dst, now) <==> now < v.at + 7_776_000;
      }
    }
  }

  datatype Features = Features(velocity1h: nat, velocity24h: nat, z: real, newDst: bool)

  class FraudStore {
    /** Whether the client answers a membership query with a Boolean, rather than with 0 or 1. */
    const booleanReplies: bool
    var velocity: map<string, ZSet>
    var amounts: map<string, seq<real>>
    var seen: map<string, Seen>
    ghost var log: seq<Handled>

    function AmountsOf(user: string): seq<real>
      reads this
    {
      if user in amounts then amounts[user] else []
    }

    function SeenOf(user: string): Seen
      reads this
    {
      if user in seen then seen[user] else Seen({}, 0)
    }

    ghost predicate Valid()
      reads this
    {
      Ordered(log) && AllRepresent(velocity, log)
    }

    constructor (booleanReplies: bool)
      ensures Valid() && log == [] && this.booleanReplies == booleanReplies
    {
      this.booleanReplies := booleanReplies;
      velocity, amounts, seen := map[], map[], map[];
      log := [];
    }

    /** The velocity part of `handle`. */
    method CountVelocity(e: TxEvent, now: nat) returns (velocity1h: nat, velocity24h: nat)
      requires Valid() && (log != [] ==> log[|log| - 1].at <= now)
      modifies this`velocity, this`log
      ensures Valid() && log == old(log) + [Handled(e.user, e.tx, now)]
      ensures velocity == old(velocity)[e.user := AfterHandle(At(old(velocity), e.user), e.tx, now)]
      ensures velocity24h == |LastAfter(log, e.user, now - 86_400)|
      ensures velocity1h == |LastAfter(log, e.user, now - 3_601)|
      ensures 1 <= velocity1h <= velocity24h
    {
      WindowNext(velocity, log, Handled(e.user, e.tx, now));
      var window := At(velocity, e.user)[e.tx := now];
      window := RemoveUpTo(window, now - DAY);
      velocity1h := |InRange(window, now - HOUR, now)|;
      velocity24h := |InRange(window, now - DAY, now)|;
      velocity := velocity[e.user := window];
      log := log + [Handled(e.user, e.tx, now)];
    }

    /** The amount part of `handle`; `sd` is the standard deviation that the library returns. */
    method ScoreAmount(e: TxEvent, sd: real) returns (z: real)
      requires ZScore.IsStdev(PushAmount(AmountsOf(e.user), e.amount), sd)
      modifies this`amounts
      ensures amounts == old(amounts)[e.user := PushAmount(old(AmountsOf(e.user)), e.amount)]
      ensures z == ZScore.Score(PushAmount(old(AmountsOf(e.user)), e.amount), sd) && -10.0 <= z <= 10.0
    {
      var amts := PushAmount(AmountsOf(e.user), e.amount);
      z := 0.0;
      if |amts| >= 5 {
        var mean := ZScore.Mean(amts);
        z := (e.amount - mean) / (if sd == 0.0 then 1.0 else sd);
      }
      ZScore.ScoreBounded(amts, sd);
      amounts := amounts[e.user := amts];
    }

    /** `handle` up to its verdict. A destination is new if the answer is the object `False`. */
    method Handle(e: TxEvent, now: nat, sd: real) returns (f: Features)
      requires Valid() && (log != [] ==> log[|log| - 1].at <= now)
      requires ZScore.IsStdev(PushAmount(AmountsOf(e.user), e.amount), sd)
      modifies this
      ensures Valid() && log == old(log) + [Handled(e.user, e.tx, now)]
      ensures f.velocity24h == |LastAfter(log, e.user, now - 86_400)|
      ensures f.velocity1h == |LastAfter(log, e.user, now - 3_601)|
      ensures 1 <= f.velocity1h <= f.velocity24h
      ensures f.z == ZScore.Score(PushAmount(old(AmountsOf(e.user)), e.amount), sd) && -10.0 <= f.z <= 10.0
      ensures f.newDst <==> booleanReplies && e.dst !in LiveDsts(old(SeenOf(e.user)), now)
      ensures velocity == old(velocity)[e.user := AfterHandle(At(old(velocity), e.user), e.tx, now)]
      ensures amounts == old(amounts)[e.user := PushAmount(old(AmountsOf(e.user)), e.amount)]
      ensures seen == old(seen)[e.user := AfterVisit(old(SeenOf(e.user)), e.dst, now)]
    {
      var velocity1h, velocity24h := CountVelocity(e, now);
      var z := ScoreAmount(e, sd);
      var dsts := LiveDsts(SeenOf(e.user), now);
      var newDst := booleanReplies && e.dst !in dsts;
      seen := seen[e.user := Seen(dsts + {e.dst}, now + SEEN_TTL)];
      f := Features(velocity1h, velocity24h, z, newDst);
    }
  }

  function At(velocity: map<string, ZSet>, user: string): ZSet {
    if user in velocity then velocity[user] else map[]
  }

  ghost predicate AllRepresent(velocity: map<string, ZSet>, h: seq<Handled>) {
    forall user :: Represents(At(velocity, user), h, user)
  }

  lemma OrderedNext(h: seq<Handled>, e: Handled)
    requires Ordered(h) && (h != [] ==> h[|h| - 1].at <= e.at)
    ensures Ordered(h + [e])
  {
  }

  lemma RepresentsNext(velocity: map<string, ZSet>, h: seq<Handled>, e: Handled)
    requires Ordered(h + [e]) && AllRepresent(velocity, h)
    ensures AllRepresent(velocity[e.user := AfterHandle(At(velocity, e.user), e.tx, e.at)], h + [e])
  {
    var velocity' := velocity[e.user := AfterHandle(At(velocity, e.user), e.tx, e.at)];
    forall user ensures Represents(At(velocity', user), h + [e], user) {
      HandleRepresents(At(velocity, user), h, e, user);
    }
  }

  /** A handler that stops after the insertion. */
  lemma RepresentsAdded(velocity: map<string, ZSet>, h: seq<Handled>, e: Handled)
    requires Ordered(h + [e]) && AllRepresent(velocity, h)
    ensures AllRepresent(velocity[e.user := At(velocity, e.user)[e.tx := e.at]], h + [e])
  {
    var velocity' := velocity[e.user := At(velocity, e.user)[e.tx := e.at]];
    forall user ensures Represents(At(velocity', user), h + [e], user) {
      HandleRepresents(At(velocity, user), h, e, user);
    }
  }

  /** Everything that handling one event establishes about the windows. */
  lemma WindowNext(velocity: map<string, ZSet>, h: seq<Handled>, e: Handled)
    requires Ordered(h) && (h != [] ==> h[|h| - 1].at <= e.at) && AllRepresent(velocity, h)
    ensures Ordered(h + [e])
    ensures AllRepresent(velocity[e.user := AfterHandle(At(velocity, e.user), e.tx, e.at)], h + [e])
    ensures var z := AfterHandle(At(velocity, e.user), e.tx, e.at);
      && Velocity(z, DAY, e.at) == |LastAfter(h + [e], e.user, e.at - 86_400)|
      && Velocity(z, HOUR, e.at) == |LastAfter(h + [e], e.user, e.at - 3_601)|
      && 1 <= Velocity(z, HOUR, e.at) <= Velocity(z, DAY, e.at)
  {
    OrderedNext(h, e);
    RepresentsNext(velocity, h, e);
    HandleRepresents(At(velocity, e.user), h, e, e.user);
    VelocityIsExact(AfterHandle(At(velocity, e.user), e.tx, e.at), h + [e], e.user, e.at);
  }
}
