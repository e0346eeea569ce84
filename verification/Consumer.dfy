/**
 The consuming loop on one partition: fetch, check the envelope, hand over, commit. A crash may
 come at any point; the consumer then starts again at the committed offset.
 */
module Consumer {

  /** A record of the log: its envelope opens to some data, or is rejected. */
  datatype Record<+T> = Bad | Good(data: T)

  datatype Phase = Idle | Skipping | Handling

  /** `delivered` lists the offsets handed to the handler, in order. */
  datatype State<+T> = State(
    log: seq<Record<T>>, committed: nat, pos: nat, phase: Phase, delivered: seq<nat>, crashes: nat)

  datatype Event<+T> = Append(record: Record<T>) | Fetch | Commit | Crash

  function Step<T>(s: State<T>, e: Event<T>): State<T> {
    match e
    case Append(r) => s.(log := s.log + [r])
    case Fetch =>
      if s.phase != Idle || s.pos >= |s.log| then s
      else if s.log[s.pos].Bad? then s.(pos := s.pos + 1, phase := Skipping)
      else s.(pos := s.pos + 1, phase := Handling, delivered := s.delivered + [s.pos])
    case Commit => if s.phase == Idle then s else s.(committed := s.pos, phase := Idle)
    case Crash => s.(pos := s.committed, phase := Idle, crashes := s.crashes + 1)
  }

  function Initial<T>(): State<T> { State([], 0, 0, Idle, [], 0) }

  function Run<T>(es: seq<Event<T>>): State<T> {
    if es == [] then Initial() else Step(Run(es[..|es| - 1]), es[|es| - 1])
  }

  function Offsets(delivered: seq<nat>): set<nat> { set i | 0 <= i < |delivered| :: delivered[i] }

  predicate IsGood<T>(log: seq<Record<T>>, o: nat) { o < |log| && log[o].Good? }

  /** The fetched record is the one after the committed ones, and only it can be in doubt. */
  ghost predicate Placed<T>(s: State<T>) {
    && s.committed <= s.pos <= |s.log|
    && s.pos == (if s.phase == Idle then s.committed else s.committed + 1)
    && (s.phase == Handling ==> s.log[s.committed].Good? && s.committed in Offsets(s.delivered))
    && (s.phase == Skipping ==> s.log[s.committed].Bad?)
  }

  ghost predicate Covered<T>(s: State<T>) {
    && (forall o :: 0 <= o < s.committed && IsGood(s.log, o) ==> o in Offsets(s.delivered))
    && (forall o :: o in Offsets(s.delivered) ==> o <= s.committed && IsGood(s.log, o))
  }

  /** Every delivery comes after a delivery of every earlier valid record. */
  ghost predicate InOrder<T>(s: State<T>) {
    forall i, o :: 0 <= i < |s.delivered| && 0 <= o < s.delivered[i] && IsGood(s.log, o) ==>
      o in Offsets(s.delivered[..i])
  }

  /** Redeliveries are paid for by crashes; one is in hand when the next record was delivered before. */
  ghost predicate Paid<T>(s: State<T>) {
    |s.delivered| + (if s.phase == Idle && s.committed in Offsets(s.delivered) then 1 else 0)
      <= |Offsets(s.delivered)| + s.crashes
  }

  ghost predicate Valid<T>(s: State<T>) { Placed(s) && Covered(s) && InOrder(s) && Paid(s) }

  lemma OffsetsNext(d: seq<nat>, o: nat)
    ensures Offsets(d + [o]) == Offsets(d) + {o}
  {
    assert (d + [o])[|d|] == o;
    forall x | x in Offsets(d) ensures x in Offsets(d + [o]) {
      var i :| 0 <= i < |d| && d[i] == x;
      assert (d + [o])[i] == x;
    }
  }

  lemma FetchValid<T>(s: State<T>)
    requires Valid(s) && s.phase == Idle && s.pos < |s.log| && s.log[s.pos].Good?
    ensures Valid(Step(s, Fetch))
  {
    var t := Step(s, Fetch);
    OffsetsNext(s.delivered, s.pos);
    forall i, o | 0 <= i < |t.delivered| && 0 <= o < t.delivered[i] && IsGood(t.log, o)
      ensures o in Offsets(t.delivered[..i])
    {
      if i < |s.delivered| {
        assert t.delivered[..i] == s.delivered[..i];
      } else {
        assert t.delivered[..i] == s.delivered;
      }
    }
    if s.pos in Offsets(s.delivered) {
      assert Offsets(t.delivered) == Offsets(s.delivered);
    }
  }

  lemma AppendValid<T>(s: State<T>, r: Record<T>)
    requires Valid(s)
    ensures Valid(Step(s, Append(r)))
  {
    var t := Step(s, Append(r));
    assert forall o :: 0 <= o < |s.log| ==> t.log[o] == s.log[o];
    forall i, o | 0 <= i < |t.delivered| && 0 <= o < t.delivered[i] && IsGood(t.log, o)
      ensures o in Offsets(t.delivered[..i])
    {
      assert t.delivered[i] in Offsets(s.delivered);
      assert IsGood(s.log, o);
    }
  }

  lemma CommitValid<T>(s: State<T>)
    requires Valid(s) && s.phase != Idle
    ensures Valid(Step(s, Commit))
  {
    var t := Step(s, Commit);
    assert t.delivered == s.delivered && t.log == s.log;
    assert Placed(t);
    assert Covered(t);
    assert InOrder(t);
    assert t.committed !in Offsets(t.delivered);
  }

  lemma SkipValid<T>(s: State<T>)
    requires Valid(s) && s.phase == Idle && s.pos < |s.log| && s.log[s.pos].Bad?
    ensures Valid(Step(s, Fetch))
  {
    var t := Step(s, Fetch);
    assert t.delivered == s.delivered && t.log == s.log && t.committed == s.committed;
    assert Placed(t) && Covered(t) && InOrder(t) && Paid(t);
  }

  lemma CrashValid<T>(s: State<T>)
    requires Valid(s)
    ensures Valid(Step(s, Crash))
  {
    var t := Step(s, Crash);
    assert t.delivered == s.delivered && t.log == s.log && t.committed == s.committed;
    assert Placed(t) && Covered(t) && InOrder(t) && Paid(t);
  }

  lemma StepValid<T>(s: State<T>, e: Event<T>)
    requires Valid(s)
    ensures Valid(Step(s, e))
  {
    match e {
      case Append(r) => AppendValid(s, r);
      case Fetch =>
        if s.phase != Idle || s.pos >= |s.log| {
          assert Step(s, e) == s;
        } else if s.log[s.pos].Good? {
          FetchValid(s);
        } else {
          SkipValid(s);
        }
      case Commit =>
        if s.phase == Idle {
          assert Step(s, e) == s;
        } else {
          CommitValid(s);
        }
      case Crash => CrashValid(s);
    }
  }

  lemma {:induction false} RunValid<T>(es: seq<Event<T>>)
    ensures Valid(Run(es))
  {
    if es == [] {
      assert Offsets(Run(es).delivered) == {};
    } else {
      RunValid(es[..|es| - 1]);
      StepValid(Run(es[..|es| - 1]), es[|es| - 1]);
    }
  }

  /** In every run, each record below the committed offset was invalid or handed to the handler. */
  lemma NothingLost<T>(es: seq<Event<T>>, o: nat)
    requires o < Run(es).committed
    ensures var s := Run(es); o < |s.log| && (s.log[o].Bad? || o in s.delivered)
  {
    RunValid(es);
    var s := Run(es);
    assert s.log[o].Good? ==> IsGood(s.log, o);
  }

  /** In every run only valid records are delivered, each after every valid record before it. */
  lemma DeliveredInOrder<T>(es: seq<Event<T>>, i: nat)
    requires i < |Run(es).delivered|
    ensures var s := Run(es);
      && IsGood(s.log, s.delivered[i])
      && forall o :: 0 <= o < s.delivered[i] && IsGood(s.log, o) ==> o in s.delivered[..i]
  {
    RunValid(es);
    var s := Run(es);
    assert s.delivered[i] in Offsets(s.delivered);
  }

  function Crashes<T>(es: seq<Event<T>>): nat {
    if es == [] then 0 else Crashes(es[..|es| - 1]) + (if es[|es| - 1].Crash? then 1 else 0)
  }

  lemma {:induction false} CrashesCounted<T>(es: seq<Event<T>>)
    ensures Run(es).crashes == Crashes(es)
  {
    if es != [] { CrashesCounted(es[..|es| - 1]); }
  }

  /** In every run there are at most as many redeliveries as crashes. */
  lemma RedeliveriesBounded<T>(es: seq<Event<T>>)
    ensures |Run(es).delivered| <= |Offsets(Run(es).delivered)| + Crashes(es)
  {
    RunValid(es);
    CrashesCounted(es);
  }

  // ---------- the loop without crashes ----------

  /** The offsets of the valid records in `lo..|log|`. */
  function GoodFrom<T>(log: seq<Record<T>>, lo: nat): seq<nat>
    requires lo <= |log|
    decreases |log| - lo
  {
    if lo == |log| then []
    else (if log[lo].Good? then [lo] else []) + GoodFrom(log, lo + 1)
  }

  /** In ascending order, exactly these offsets. */
  lemma {:induction false} GoodFromExactly<T>(log: seq<Record<T>>, lo: nat)
    requires lo <= |log|
    ensures var os := GoodFrom(log, lo);
      && (forall i, j :: 0 <= i < j < |os| ==> os[i] < os[j])
      && forall o :: o in os <==> lo <= o < |log| && log[o].Good?
    decreases |log| - lo
  {
    if lo < |log| {
      GoodFromExactly(log, lo + 1);
      var more := GoodFrom(log, lo + 1);
      if log[lo].Good? {
        var os := [lo] + more;
        forall i, j | 0 <= i < j < |os| ensures os[i] < os[j] {
          assert os[j] == more[j - 1] && more[j - 1] in more;
          if i > 0 { assert os[i] == more[i - 1]; }
        }
      }
    }
  }

  /** `n` records consumed without a crash. */
  function Rounds<T>(n: nat): seq<Event<T>> {
    if n == 0 then [] else [Fetch, Commit] + Rounds(n - 1)
  }

  /** The state that these events lead to from `s`. */
  function Continue<T>(s: State<T>, es: seq<Event<T>>): State<T>
    decreases |es|
  {
    if es == [] then s else Continue(Step(s, es[0]), es[1..])
  }

  lemma {:induction false} ContinueSnoc<T>(s: State<T>, es: seq<Event<T>>, e: Event<T>)
    ensures Continue(s, es + [e]) == Step(Continue(s, es), e)
    decreases |es|
  {
    if es == [] {
      assert Continue(s, [e]) == Continue(Step(s, e), []);
    } else {
      ContinueSnoc(Step(s, es[0]), es[1..], e);
      assert (es + [e])[1..] == es[1..] + [e];
    }
  }

  lemma {:induction false} RunContinues<T>(es: seq<Event<T>>, more: seq<Event<T>>)
    ensures Run(es + more) == Continue(Run(es), more)
    decreases |more|
  {
    if more == [] {
      assert es + more == es;
    } else {
      var init, e := more[..|more| - 1], more[|more| - 1];
      assert more == init + [e];
      assert (es + more)[..|es + more| - 1] == es + init;
      RunContinues(es, init);
      ContinueSnoc(Run(es), init, e);
    }
  }

  lemma ContinueRound<T>(s: State<T>, n: nat)
    requires n > 0
    ensures Continue(s, Rounds(n)) == Continue(Step(Step(s, Fetch), Commit), Rounds(n - 1))
  {
    var es: seq<Event<T>> := Rounds(n);
    assert es[0] == Fetch && es[1..][0] == Commit && es[1..][1..] == Rounds(n - 1);
  }

  /** From `lo` on the loop has consumed the whole log. */
  predicate Consumed<T(==)>(s: State<T>, t: State<T>, lo: nat) {
    && lo <= |s.log| && t.log == s.log && t.committed == |s.log|
    && t.delivered == s.delivered + GoodFrom(s.log, lo)
  }

  lemma {:induction false} RoundsConsume<T>(s: State<T>, n: nat)
    requires s.phase == Idle && s.pos == s.committed && s.pos + n == |s.log|
    ensures Consumed(s, Continue(s, Rounds(n)), s.pos)
    decreases n
  {
    if n > 0 {
      ContinueRound(s, n);
      var t := Step(Step(s, Fetch), Commit);
      RoundsConsume(t, n - 1);
      assert t.log == s.log && t.pos == s.pos + 1;
      assert t.delivered == s.delivered + (if s.log[s.pos].Good? then [s.pos] else []);
    }
  }

  /** A restart, and `n` records consumed after it. */
  function Restart<T>(n: nat): seq<Event<T>> { [Crash] + Rounds(n) }

  lemma ContinueRestart<T>(s: State<T>, n: nat)
    ensures Continue(s, Restart(n)) == Continue(Step(s, Crash), Rounds(n))
  {
    var es: seq<Event<T>> := Restart(n);
    assert es[0] == Crash && es[1..] == Rounds(n);
  }

  lemma ConsumedAfter<T>(s: State<T>, u: State<T>, t: State<T>, lo: nat)
    requires u.log == s.log && u.delivered == s.delivered && Consumed(u, t, lo)
    ensures Consumed(s, t, lo)
  {
  }

  lemma RestartConsumes<T>(s: State<T>, n: nat)
    requires s.committed + n == |s.log|
    ensures Consumed(s, Continue(s, Restart(n)), s.committed)
  {
    ContinueRestart(s, n);
    var u := Step(s, Crash);
    RoundsConsume(u, n);
    ConsumedAfter(s, u, Continue(u, Rounds(n)), s.committed);
  }

  /**
   From wherever a run has come the loop gets to the end of the log: once it is restarted and crashes
   no more it commits every record, and delivers in order exactly the valid ones from the committed
   offset on.
   */
  lemma RunsToEnd<T>(es: seq<Event<T>>, n: nat)
    requires Run(es).committed + n == |Run(es).log|
    ensures Consumed(Run(es), Run(es + Restart(n)), Run(es).committed)
  {
    RunContinues(es, Restart(n));
    RestartConsumes(Run(es), n);
  }

  class Partition<T> {
    var log: seq<Record<T>>
    var committed: nat
    var position: nat
    var delivered: seq<nat>

    constructor (log: seq<Record<T>>)
      ensures this.log == log && committed == 0 && position == 0 && delivered == []
    {
      this.log, committed, position, delivered := log, 0, 0, [];
    }

    /** `stream` driven to the end of the log: no invalid record blocks it. */
    method Drain()
      requires position == committed <= |log|
      modifies this`committed, this`position, this`delivered
      ensures committed == position == |log|
      ensures delivered == old(delivered) + GoodFrom(log, old(committed))
    {
      while position < |log|
        invariant position == committed <= |log|
        invariant delivered + GoodFrom(log, position) == old(delivered) + GoodFrom(log, old(committed))
      {
        var msg := log[position];
        position := position + 1;
        if msg.Bad? {
          committed := position;
          continue;
        }
        delivered := delivered + [position - 1];
        committed := position;
      }
    }
  }
}
