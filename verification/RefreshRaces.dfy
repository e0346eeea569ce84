/**
 Rotations of refresh tokens that overlap. `rotate` reads the entry, writes its mark, and only then
 issues the successor; between these steps other rotations may run.
 */
module RefreshRaces {
  import opened Wrappers
  import R = RefreshTokens

  datatype Event =
    | Issued(tok: string, user: string, sid: string)
    | Reads(id: nat, tok: string)
    | Marks(id: nat)
    | Mints(id: nat, successor: string)

  datatype Timed = Timed(event: Event, at: nat)

  /** A rotation that found its token, and the entry it read. */
  datatype Call = Call(tok: string, entry: R.Entry, marked: bool, minted: bool)

  datatype State = State(tokens: R.Tokens, drawn: set<string>, calls: map<nat, Call>)

  /** The entry that the call read lets it through. */
  predicate Admitted(s: State, id: nat) { id in s.calls && s.calls[id].entry.state != "used" }

  predicate MayMark(s: State, id: nat) { id in s.calls && !s.calls[id].marked }

  predicate MayMint(s: State, id: nat, successor: string) {
    Admitted(s, id) && s.calls[id].marked && !s.calls[id].minted && successor !in s.drawn
  }

  function IssueStep(s: State, tok: string, e: R.Entry, now: nat): State {
    s.(tokens := R.Put(s.tokens, tok, e.(state := "live"), now), drawn := s.drawn + {tok})
  }

  function MarkStep(s: State, id: nat, now: nat): State
    requires MayMark(s, id)
  {
    var c := s.calls[id];
    var mark := if c.entry.state == "used" then "compromised" else "used";
    s.(tokens := R.Put(s.tokens, c.tok, c.entry.(state := mark), now), calls := s.calls[id := c.(marked := true)])
  }

  function Step(s: State, e: Timed): State {
    match e.event
    case Issued(tok, user, sid) =>
      if tok in s.drawn then s else IssueStep(s, tok, R.Entry(user, sid, "live"), e.at)
    case Reads(id, tok) =>
      if id in s.calls || !R.Live(s.tokens, tok, e.at) then s
      else s.(calls := s.calls[id := Call(tok, s.tokens[tok].entry, false, false)])
    case Marks(id) => if MayMark(s, id) then MarkStep(s, id, e.at) else s
    case Mints(id, successor) =>
      if !MayMint(s, id, successor) then s
      else
        var c := s.calls[id];
        IssueStep(s, successor, c.entry, e.at).(calls := s.calls[id := c.(minted := true)])
  }

  const INITIAL := State(map[], {}, map[])

  function Run(h: seq<Timed>): State {
    if h == [] then INITIAL else Step(Run(h[..|h| - 1]), h[|h| - 1])
  }

  lemma RunSnoc(h: seq<Timed>, e: Timed)
    ensures Run(h + [e]) == Step(Run(h), e)
  {
    assert (h + [e])[..|h|] == h;
  }

  // ---------- one call with nothing between its steps ----------

  /** It does what `rotate` as one step does. */
  lemma Undisturbed(s: State, id: nat, tok: string, successor: string, now: nat)
    requires id !in s.calls && successor !in s.drawn
    ensures var read := Step(s, Timed(Reads(id, tok), now));
      var t := Step(Step(read, Timed(Marks(id), now)), Timed(Mints(id, successor), now));
      && t.tokens == R.AfterRotate(s.tokens, tok, successor, now)
      && (id in t.calls && t.calls[id].minted <==> R.Mints(s.tokens, tok, now))
  {
  }

  // ---------- what a mark does to the calls that follow ----------

  ghost predicate Known(s: State) {
    && s.tokens.Keys == s.drawn
    && forall id :: id in s.calls ==> s.calls[id].tok in s.drawn
  }

  lemma {:induction false} KnownRun(h: seq<Timed>)
    ensures Known(Run(h))
  {
    if h != [] { KnownRun(h[..|h| - 1]); }
  }

  /** A call that read `tok` writes its mark; `admitted` says what it had read. */
  predicate MarksNow(s: State, e: Event, tok: string, admitted: bool) {
    e.Marks? && MayMark(s, e.id) && s.calls[e.id].tok == tok && (Admitted(s, e.id) <==> admitted)
  }

  /** It does so at step `j`. */
  ghost predicate MarksAt(h: seq<Timed>, j: nat, tok: string, admitted: bool) {
    j < |h| && MarksNow(Run(h[..j]), h[j].event, tok, admitted)
  }

  /** The last mark on `tok` is one of a call that was let through. */
  ghost predicate MarkedLast(h: seq<Timed>, m: nat, tok: string) {
    MarksAt(h, m, tok, true) && forall j: nat :: m < j < |h| ==> !MarksAt(h, j, tok, false)
  }

  lemma MarksEarlier(h: seq<Timed>, e: Timed, j: nat, tok: string, admitted: bool)
    requires j < |h|
    ensures MarksAt(h + [e], j, tok, admitted) <==> MarksAt(h, j, tok, admitted)
  {
    assert (h + [e])[..j] == h[..j];
  }

  predicate IsUsed(s: State, tok: string) { tok in s.tokens && s.tokens[tok].entry.state == "used" }

  lemma OtherSteps(s: State, e: Timed, tok: string)
    requires Known(s) && !e.event.Marks?
    ensures IsUsed(Step(s, e), tok) <==> IsUsed(s, tok)
  {
  }

  lemma MarkSteps(s: State, e: Timed, tok: string)
    requires e.event.Marks?
    ensures IsUsed(Step(s, e), tok) <==>
      MarksNow(s, e.event, tok, true) || (IsUsed(s, tok) && !MarksNow(s, e.event, tok, false))
  {
  }

  /** The step leaves `tok` used: by the mark of a call that was let through, or as it was. */
  lemma UsedStep(h: seq<Timed>, e: Timed, tok: string)
    ensures IsUsed(Run(h + [e]), tok) <==>
      MarksAt(h + [e], |h|, tok, true) || (IsUsed(Run(h), tok) && !MarksAt(h + [e], |h|, tok, false))
  {
    KnownRun(h);
    RunSnoc(h, e);
    assert (h + [e])[..|h|] == h && (h + [e])[|h|] == e;
    if e.event.Marks? {
      MarkSteps(Run(h), e, tok);
    } else {
      OtherSteps(Run(h), e, tok);
    }
  }

  lemma MarkedLastNext(h: seq<Timed>, e: Timed, m: nat, tok: string)
    requires m < |h|
    ensures MarkedLast(h + [e], m, tok) <==> MarkedLast(h, m, tok) && !MarksAt(h + [e], |h|, tok, false)
  {
    var all := h + [e];
    MarksEarlier(h, e, m, tok, true);
    forall j: nat | j < |h| ensures MarksAt(all, j, tok, false) <==> MarksAt(h, j, tok, false) {
      MarksEarlier(h, e, j, tok, false);
    }
  }

  /**
   In every history, with anything between the steps of each rotation: a token is in the state that
   refuses a call if and only if a call that was let through has marked it, and no refused call since.
   */
  lemma {:induction false} UsedExactly(h: seq<Timed>, tok: string)
    ensures IsUsed(Run(h), tok) <==> exists m: nat :: MarkedLast(h, m, tok)
  {
    if h != [] {
      var init, e := h[..|h| - 1], h[|h| - 1];
      assert h == init + [e];
      UsedExactly(init, tok);
      UsedStep(init, e, tok);
      forall m: nat | m < |init|
        ensures MarkedLast(h, m, tok) <==> MarkedLast(init, m, tok) && !MarksAt(h, |init|, tok, false)
      {
        MarkedLastNext(init, e, m, tok);
      }
      assert MarkedLast(h, |init|, tok) <==> MarksAt(h, |init|, tok, true);
      if MarksAt(h, |init|, tok, true) { assert !MarksAt(h, |init|, tok, false); }
      if m: nat :| MarkedLast(init, m, tok) { assert m < |init|; }
    }
  }

  /** So a call that finds its token is let through unless such a mark stands. */
  lemma AdmittedExactly(h: seq<Timed>, id: nat, tok: string, now: nat)
    requires id !in Run(h).calls && R.Live(Run(h).tokens, tok, now)
    ensures Admitted(Run(h + [Timed(Reads(id, tok), now)]), id) <==> !exists m: nat :: MarkedLast(h, m, tok)
  {
    RunSnoc(h, Timed(Reads(id, tok), now));
    UsedExactly(h, tok);
  }

  /** Two calls that both read the live token before either marks it. */
  function Overlap(a: nat, b: nat, tok: string, x: string, y: string, now: nat): seq<Timed> {
    [Timed(Reads(a, tok), now), Timed(Reads(b, tok), now), Timed(Marks(a), now), Timed(Mints(a, x), now),
     Timed(Marks(b), now), Timed(Mints(b, y), now)]
  }

  function After(s: State, es: seq<Timed>): State
    decreases |es|
  {
    if es == [] then s else After(Step(s, es[0]), es[1..])
  }

  /** The family for which one token mints twice: both get a live successor for its user and session. */
  lemma OverlapMintsTwice(s: State, a: nat, b: nat, tok: string, x: string, y: string, now: nat)
    requires Known(s) && a !in s.calls && b !in s.calls && a != b
    requires x !in s.drawn && y !in s.drawn && x != y && R.Mints(s.tokens, tok, now)
    ensures var t := After(s, Overlap(a, b, tok, x, y, now));
      var e := s.tokens[tok].entry;
      && x in t.tokens && t.tokens[x].entry == R.Entry(e.user, e.sid, "live")
      && y in t.tokens && t.tokens[y].entry == R.Entry(e.user, e.sid, "live")
  {
    var es := Overlap(a, b, tok, x, y, now);
    var s1 := Step(s, es[0]);
    var s2 := Step(s1, es[1]);
    var s3 := Step(s2, es[2]);
    var s4 := Step(s3, es[3]);
    var s5 := Step(s4, es[4]);
    var s6 := Step(s5, es[5]);
    assert s2.calls[a] == s2.calls[b] == Call(tok, s.tokens[tok].entry, false, false);
    assert s4.tokens[x].entry == s.tokens[tok].entry.(state := "live");
    assert s6.tokens[y].entry == s.tokens[tok].entry.(state := "live");
    AfterSix(s, es);
  }

  /** Such a run from an empty store. */
  lemma OneTokenTwoSuccessors(user: string, sid: string, tok: string, x: string, y: string)
    requires tok != x && tok != y && x != y
    ensures var t := After(INITIAL, [Timed(Issued(tok, user, sid), 0)] + Overlap(0, 1, tok, x, y, 604_799));
      && x in t.tokens && t.tokens[x].entry == R.Entry(user, sid, "live")
      && y in t.tokens && t.tokens[y].entry == R.Entry(user, sid, "live")
  {
    var issue, more := Timed(Issued(tok, user, sid), 0), Overlap(0, 1, tok, x, y, 604_799);
    assert ([issue] + more)[1..] == more;
    OverlapMintsTwice(Step(INITIAL, issue), 0, 1, tok, x, y, 604_799);
  }

  lemma AfterSix(s: State, es: seq<Timed>)
    requires |es| == 6
    ensures After(s, es) == Step(Step(Step(Step(Step(Step(s, es[0]), es[1]), es[2]), es[3]), es[4]), es[5])
  {
    AfterTwo(s, es);
    var t := Step(Step(s, es[0]), es[1]);
    AfterTwo(t, es[2..]);
    AfterTwo(Step(Step(t, es[2]), es[3]), es[2..][2..]);
    assert es[2..][2..] == es[4..] && es[4..][2..] == [];
  }

  lemma AfterTwo(s: State, es: seq<Timed>)
    requires |es| >= 2
    ensures After(s, es) == After(Step(Step(s, es[0]), es[1]), es[2..])
  {
    var t := Step(s, es[0]);
    assert After(s, es) == After(t, es[1..]);
    assert After(t, es[1..]) == After(Step(t, es[1..][0]), es[1..][1..]);
    assert es[1..][1..] == es[2..];
  }

  // ---------- a call goes through its steps once ----------

  /** At step `j` call `id` writes its mark. */
  ghost predicate MarkedAt(h: seq<Timed>, j: nat, id: nat) {
    j < |h| && h[j].event == Marks(id) && MayMark(Run(h[..j]), id)
  }

  /** At step `j` it issues its successor. */
  ghost predicate MintedAt(h: seq<Timed>, j: nat, id: nat) {
    j < |h| && h[j].event.Mints? && h[j].event.id == id && MayMint(Run(h[..j]), id, h[j].event.successor)
  }

  lemma MintedEarlier(h: seq<Timed>, e: Timed, j: nat, id: nat)
    requires j < |h|
    ensures MintedAt(h + [e], j, id) <==> MintedAt(h, j, id)
    ensures MarkedAt(h + [e], j, id) <==> MarkedAt(h, j, id)
  {
    assert (h + [e])[..j] == h[..j];
  }

  lemma MintSteps(s: State, e: Timed, id: nat)
    ensures var t := Step(s, e);
      && (id in t.calls && t.calls[id].minted <==>
            || (id in s.calls && s.calls[id].minted)
            || (e.event.Mints? && e.event.id == id && MayMint(s, id, e.event.successor)))
      && (id in t.calls && t.calls[id].marked <==>
            (id in s.calls && s.calls[id].marked) || (e.event == Marks(id) && MayMark(s, id)))
  {
  }

  /** What the state knows of a call is what the history tells. */
  lemma {:induction false} StepsTold(h: seq<Timed>, id: nat)
    ensures id in Run(h).calls && Run(h).calls[id].minted <==> exists j: nat :: MintedAt(h, j, id)
    ensures id in Run(h).calls && Run(h).calls[id].marked <==> exists j: nat :: MarkedAt(h, j, id)
  {
    if h != [] {
      var init, e := h[..|h| - 1], h[|h| - 1];
      assert h == init + [e] && h[..|init|] == init;
      StepsTold(init, id);
      MintSteps(Run(init), e, id);
      forall j: nat | j < |init|
        ensures (MintedAt(h, j, id) <==> MintedAt(init, j, id)) && (MarkedAt(h, j, id) <==> MarkedAt(init, j, id))
      {
        MintedEarlier(init, e, j, id);
      }
      assert MintedAt(h, |init|, id) <==>
        e.event.Mints? && e.event.id == id && MayMint(Run(init), id, e.event.successor);
      assert MarkedAt(h, |init|, id) <==> e.event == Marks(id) && MayMark(Run(init), id);
      if j: nat :| MintedAt(init, j, id) { assert MintedAt(h, j, id); }
      if j: nat :| MarkedAt(init, j, id) { assert MarkedAt(h, j, id); }
    }
  }

  lemma StepsOfPrefix(h: seq<Timed>, j: nat, i: nat, id: nat)
    requires i < j <= |h|
    ensures MintedAt(h[..j], i, id) <==> MintedAt(h, i, id)
    ensures MarkedAt(h[..j], i, id) <==> MarkedAt(h, i, id)
  {
    assert h[..j][..i] == h[..i] && h[..j][i] == h[i];
  }

  lemma NotAgain(h: seq<Timed>, i: nat, j: nat, id: nat)
    requires i < j < |h|
    ensures !(MintedAt(h, i, id) && MintedAt(h, j, id)) && !(MarkedAt(h, i, id) && MarkedAt(h, j, id))
  {
    StepsTold(h[..j], id);
    StepsOfPrefix(h, j, i, id);
  }

  /** In every history each rotation marks once and mints once, and mints only after its mark. */
  lemma StepsOnce(h: seq<Timed>, i: nat, j: nat, id: nat)
    ensures MintedAt(h, i, id) && MintedAt(h, j, id) ==> i == j
    ensures MarkedAt(h, i, id) && MarkedAt(h, j, id) ==> i == j
    ensures MintedAt(h, j, id) ==> exists k: nat :: k < j && MarkedAt(h, k, id)
  {
    if i < j < |h| { NotAgain(h, i, j, id); }
    if j < i < |h| { NotAgain(h, j, i, id); }
    if MintedAt(h, j, id) {
      StepsTold(h[..j], id);
      var k: nat :| MarkedAt(h[..j], k, id);
      StepsOfPrefix(h, j, k, id);
    }
  }
}
