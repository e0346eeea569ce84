/**
 Refresh tokens with rotation and reuse marking. An entry is stored as the text
 `user|sid|state`; only the state `used` is tested when a token is presented.
 */
module RefreshTokens {
  import opened Wrappers

  // ---------- the stored text ----------

  datatype Entry = Entry(user: string, sid: string, state: string)

  const LIVE := "live"
  const USED := "used"
  const COMPROMISED := "compromised"

  function Encode(e: Entry): string { e.user + "|" + e.sid + "|" + e.state }

  /** `v.split("|")` */
  function Split(v: string): (r: seq<string>)
    ensures r != []
  {
    if v == [] then [[]]
    else
      var rest := Split(v[1..]);
      if v[0] == '|' then [[]] + rest else [[v[0]] + rest[0]] + rest[1..]
  }

  /** Unpacking into three names; any other number of parts is an error. */
  function Decode(v: string): Option<Entry> {
    var parts := Split(v);
    if |parts| == 3 then Some(Entry(parts[0], parts[1], parts[2])) else None
  }

  lemma {:induction false} SplitCount(v: string)
    ensures |Split(v)| == 1 <==> '|' !in v
    ensures '|' !in v ==> Split(v) == [v]
  {
    if v != [] {
      SplitCount(v[1..]);
      assert v == [v[0]] + v[1..];
      assert '|' in v <==> v[0] == '|' || '|' in v[1..];
    }
  }

  lemma {:induction false} SplitApp(a: string, b: string)
    ensures |Split(a + "|" + b)| == |Split(a)| + |Split(b)|
    ensures '|' !in a ==> Split(a + "|" + b) == [a] + Split(b)
  {
    var s := a + "|" + b;
    if a == [] {
      assert s == "|" + b && s[1..] == b;
    } else {
      SplitApp(a[1..], b);
      assert s[1..] == a[1..] + "|" + b;
      assert a == [a[0]] + a[1..];
    }
  }

  lemma PartsCount(e: Entry)
    requires '|' !in e.state
    ensures |Split(Encode(e))| == 3 <==> '|' !in e.user && '|' !in e.sid
  {
    SplitApp(e.user + "|" + e.sid, e.state);
    SplitApp(e.user, e.sid);
    SplitCount(e.user);
    SplitCount(e.sid);
    SplitCount(e.state);
  }

  /** An entry survives storage if and only if neither id contains the separator. */
  lemma DecodeEncode(e: Entry)
    requires '|' !in e.state
    ensures Decode(Encode(e)) == Some(e) <==> '|' !in e.user && '|' !in e.sid
  {
    PartsCount(e);
    if '|' !in e.user && '|' !in e.sid {
      assert Encode(e) == e.user + "|" + (e.sid + "|" + e.state);
      SplitApp(e.user, e.sid + "|" + e.state);
      SplitApp(e.sid, e.state);
      SplitCount(e.state);
    }
  }

  // ---------- the store ----------

  datatype Stored = Stored(entry: Entry, expires: nat)

  type Tokens = map<string, Stored>

  const TTL: nat := 7 * 24 * 3600

  predicate Live(tokens: Tokens, tok: string, now: nat) {
    tok in tokens && now < tokens[tok].expires
  }

  function Put(tokens: Tokens, tok: string, e: Entry, now: nat): Tokens {
    tokens[tok := Stored(e, now + TTL)]
  }

  /** Presenting `tok` mints a successor. */
  predicate Mints(tokens: Tokens, tok: string, now: nat) {
    Live(tokens, tok, now) && tokens[tok].entry.state != USED
  }

  function AfterRotate(tokens: Tokens, tok: string, successor: string, now: nat): Tokens {
    if !Live(tokens, tok, now) then tokens
    else
      var e := tokens[tok].entry;
      if e.state == USED then Put(tokens, tok, e.(state := COMPROMISED), now)
      else Put(Put(tokens, tok, e.(state := USED), now), successor, e.(state := LIVE), now)
  }

  class RefreshTokenStore {
    var tokens: Tokens

    constructor ()
      ensures tokens == map[]
    {
      tokens := map[];
    }

    /** `issue(user, sid)`, with the random token drawn. */
    method Issue(tok: string, user: string, sid: string, now: nat)
      modifies this
      ensures tokens == Put(old(tokens), tok, Entry(user, sid, LIVE), now)
    {
      tokens := tokens[tok := Stored(Entry(user, sid, LIVE), now + TTL)];
    }

    /** `rotate(presented)`, where `successor` is the token drawn if one is needed. */
    method Rotate(presented: string, successor: string, now: nat) returns (r: Option<(string, string, string)>)
      modifies this
      ensures tokens == AfterRotate(old(tokens), presented, successor, now)
      ensures r.Some? <==> Mints(old(tokens), presented, now)
      ensures r.Some? ==> var e := old(tokens)[presented].entry; r.value == (successor, e.user, e.sid)
    {
      if presented !in tokens || tokens[presented].expires <= now { return None; }
      var e := tokens[presented].entry;
      if e.state == "used" {
        tokens := tokens[presented := Stored(Entry(e.user, e.sid, "compromised"), now + TTL)];
        return None;
      }
      tokens := tokens[presented := Stored(Entry(e.user, e.sid, "used"), now + TTL)];
      Issue(successor, e.user, e.sid, now);
      return Some((successor, e.user, e.sid));
    }
  }

  // ---------- runs ----------

  datatype Op =
    | Issue(tok: string, user: string, sid: string)
    | Present(tok: string, successor: string)

  datatype Timed = Timed(op: Op, at: nat)

  /** The store, with what has happened so far. */
  datatype State = State(
    tokens: Tokens,
    owner: map<string, (string, string)>,  // user and sid of every token ever drawn
    uses: map<string, nat>)                // how often a token was presented and found

  /** Tokens are random: an operation that would draw a known one does not happen. */
  predicate Fresh(s: State, tok: string) { tok !in s.owner }

  function IssueStep(s: State, tok: string, user: string, sid: string, now: nat): State {
    State(Put(s.tokens, tok, Entry(user, sid, LIVE), now), s.owner[tok := (user, sid)], s.uses[tok := 0])
  }

  function PresentStep(s: State, tok: string, successor: string, now: nat): State {
    if !Live(s.tokens, tok, now) || tok !in s.uses then s
    else
      var t := s.(tokens := AfterRotate(s.tokens, tok, successor, now), uses := s.uses[tok := s.uses[tok] + 1]);
      if !Mints(s.tokens, tok, now) then t
      else
        var e := s.tokens[tok].entry;
        t.(owner := s.owner[successor := (e.user, e.sid)],
           uses := t.uses[successor := 0])
  }

  function Step(s: State, o: Timed): State {
    match o.op
    case Issue(tok, user, sid) => if Fresh(s, tok) then IssueStep(s, tok, user, sid, o.at) else s
    case Present(tok, successor) => if Fresh(s, successor) then PresentStep(s, tok, successor, o.at) else s
  }

  const INITIAL := State(map[], map[], map[])

  function Run(s: State, os: seq<Timed>): State {
    if os == [] then s else Step(Run(s, os[..|os| - 1]), os[|os| - 1])
  }

  /** The state of a token after it was presented `n` times. */
  function StateAfter(n: nat): string {
    if n == 0 then LIVE else if n % 2 == 1 then USED else COMPROMISED
  }

  ghost predicate Consistent(s: State, tok: string)
    requires tok in s.tokens
  {
    && tok in s.owner && tok in s.uses
    && s.tokens[tok].entry == Entry(s.owner[tok].0, s.owner[tok].1, StateAfter(s.uses[tok]))
  }

  ghost predicate Valid(s: State) {
    forall tok :: tok in s.tokens ==> Consistent(s, tok)
  }

  lemma ValidStep(s: State, o: Timed)
    requires Valid(s)
    ensures Valid(Step(s, o))
    ensures forall tok :: tok in s.owner ==> tok in Step(s, o).owner && Step(s, o).owner[tok] == s.owner[tok]
  {
    if o.op.Present? && Fresh(s, o.op.successor) && Live(s.tokens, o.op.tok, o.at) {
      ValidPresent(s, o.op.tok, o.op.successor, o.at);
    }
  }

  lemma ValidPresent(s: State, tok: string, successor: string, now: nat)
    requires Valid(s) && Fresh(s, successor) && Live(s.tokens, tok, now)
    ensures Valid(PresentStep(s, tok, successor, now))
  {
    var t := PresentStep(s, tok, successor, now);
    assert Consistent(s, tok);
    assert tok != successor;
    forall x | x in t.tokens ensures Consistent(t, x) {
      if x != tok && x != successor { assert Consistent(s, x); }
    }
  }

  lemma {:induction false} ValidRun(os: seq<Timed>)
    ensures Valid(Run(INITIAL, os))
  {
    if os != [] {
      ValidRun(os[..|os| - 1]);
      ValidStep(Run(INITIAL, os[..|os| - 1]), os[|os| - 1]);
    }
  }

  // ---------- what the operations alone say ----------

  /** When `tok` was last written: by its issue, as a successor, or by a presentation that found it. */
  ghost function Written(os: seq<Timed>, tok: string): Option<nat>
    decreases |os|, 1
  {
    if os == [] then None
    else if Writes(os[..|os| - 1], os[|os| - 1], tok) then Some(os[|os| - 1].at)
    else Written(os[..|os| - 1], tok)
  }

  /** At `now` the token is found: it was last written less than a week ago. */
  ghost predicate Finds(os: seq<Timed>, tok: string, now: nat)
    decreases |os|, 2
  {
    Written(os, tok).Some? && now < Written(os, tok).value + 604_800
  }

  /** Operation `o`, after `os`, presents `tok` and finds it. */
  ghost predicate FoundBy(os: seq<Timed>, o: Timed, tok: string)
    decreases |os|, 3
  {
    o.op.Present? && o.op.tok == tok && Written(os, o.op.successor) == None && Finds(os, tok, o.at)
  }

  /** How many presentations found the token. */
  ghost function Findings(os: seq<Timed>, tok: string): nat
    decreases |os|, 0
  {
    if os == [] then 0
    else Findings(os[..|os| - 1], tok) + (if FoundBy(os[..|os| - 1], os[|os| - 1], tok) then 1 else 0)
  }

  ghost predicate Writes(os: seq<Timed>, o: Timed, tok: string)
    decreases |os|, 4
  {
    match o.op
    case Issue(x, _, _) => x == tok && Written(os, x) == None
    case Present(x, y) => FoundBy(os, o, x) && (tok == x || (tok == y && Findings(os, x) % 2 == 0))
  }

  /** The store holds what the operations say. */
  ghost predicate Told(s: State, os: seq<Timed>, tok: string) {
    && (tok in s.owner <==> Written(os, tok).Some?)
    && (tok in s.tokens <==> Written(os, tok).Some?)
    && (tok in s.tokens ==> s.tokens[tok].expires == Written(os, tok).value + 604_800)
    && (if tok in s.uses then s.uses[tok] else 0) == Findings(os, tok)
    && (tok in s.tokens ==> tok in s.uses && s.tokens[tok].entry.state == StateAfter(s.uses[tok]))
  }

  lemma WrittenSnoc(os: seq<Timed>, o: Timed, tok: string)
    ensures Written(os + [o], tok) == if Writes(os, o, tok) then Some(o.at) else Written(os, tok)
    ensures Findings(os + [o], tok) == Findings(os, tok) + (if FoundBy(os, o, tok) then 1 else 0)
  {
    assert (os + [o])[..|os|] == os;
  }

  /** A token that was never written was never found. */
  lemma {:induction false} UnwrittenUnfound(os: seq<Timed>, tok: string)
    requires Written(os, tok) == None
    ensures Findings(os, tok) == 0
    decreases |os|
  {
    if os != [] {
      var init, o := os[..|os| - 1], os[|os| - 1];
      assert os == init + [o];
      WrittenSnoc(init, o, tok);
      UnwrittenUnfound(init, tok);
    }
  }

  ghost predicate AllTold(s: State, os: seq<Timed>) { forall tok :: Told(s, os, tok) }

  lemma ToldIssue(s: State, os: seq<Timed>, o: Timed, tok: string)
    requires AllTold(s, os) && o.op.Issue?
    ensures Told(Step(s, o), os + [o], tok)
  {
    WrittenSnoc(os, o, tok);
    assert Told(s, os, tok) && Told(s, os, o.op.tok);
    if tok == o.op.tok && Written(os, tok) == None { UnwrittenUnfound(os, tok); }
  }

  lemma FoundByMeans(os: seq<Timed>, o: Timed, tok: string)
    ensures FoundBy(os, o, tok) <==>
      && o.op.Present? && o.op.tok == tok && Written(os, o.op.successor) == None
      && Written(os, tok).Some? && o.at < Written(os, tok).value + 604_800
  {
  }

  lemma WritesMeans(os: seq<Timed>, o: Timed, tok: string)
    requires o.op.Present?
    ensures Writes(os, o, tok) <==>
      FoundBy(os, o, o.op.tok) && (tok == o.op.tok || (tok == o.op.successor && Findings(os, o.op.tok) % 2 == 0))
  {
  }

  /** What a presentation does to the store. */
  lemma PresentMeans(s: State, os: seq<Timed>, o: Timed)
    requires AllTold(s, os) && o.op.Present?
    ensures FoundBy(os, o, o.op.tok) <==> Fresh(s, o.op.successor) && Live(s.tokens, o.op.tok, o.at)
    ensures !FoundBy(os, o, o.op.tok) ==> Step(s, o) == s
    ensures FoundBy(os, o, o.op.tok) ==>
      && o.op.tok in s.uses && (Mints(s.tokens, o.op.tok, o.at) <==> Findings(os, o.op.tok) % 2 == 0)
  {
    FoundByMeans(os, o, o.op.tok);
    assert Told(s, os, o.op.tok) && Told(s, os, o.op.successor);
  }

  lemma ToldPresent(s: State, os: seq<Timed>, o: Timed, tok: string)
    requires AllTold(s, os) && o.op.Present?
    ensures Told(Step(s, o), os + [o], tok)
  {
    var x, y := o.op.tok, o.op.successor;
    WrittenSnoc(os, o, tok);
    WritesMeans(os, o, tok);
    PresentMeans(s, os, o);
    FoundByMeans(os, o, tok);
    assert Told(s, os, tok);
    if FoundBy(os, o, x) {
      ToldFound(s, os, o, tok);
    }
  }

  lemma ToldFound(s: State, os: seq<Timed>, o: Timed, tok: string)
    requires AllTold(s, os) && FoundBy(os, o, o.op.tok)
    ensures Told(Step(s, o), os + [o], tok)
  {
    var x, y := o.op.tok, o.op.successor;
    WrittenSnoc(os, o, tok);
    WritesMeans(os, o, tok);
    PresentMeans(s, os, o);
    FoundByMeans(os, o, x);
    FoundByMeans(os, o, tok);
    assert Told(s, os, tok) && Told(s, os, x);
    UnwrittenUnfound(os, y);
  }

  lemma {:induction false} ToldRun(os: seq<Timed>)
    ensures AllTold(Run(INITIAL, os), os)
  {
    if os != [] {
      var init, o := os[..|os| - 1], os[|os| - 1];
      ToldRun(init);
      assert os == init + [o];
      forall tok ensures Told(Run(INITIAL, os), os, tok) {
        if o.op.Issue? {
          ToldIssue(Run(INITIAL, init), init, o, tok);
        } else {
          ToldPresent(Run(INITIAL, init), init, o, tok);
        }
      }
    }
  }

  /**
   In every run, presenting a token mints a successor if and only if the last operation that wrote
   it was less than a week ago, and an even number of presentations found it before.
   */
  lemma MintsExactly(os: seq<Timed>, tok: string, now: nat)
    ensures Mints(Run(INITIAL, os).tokens, tok, now) <==> Finds(os, tok, now) && Findings(os, tok) % 2 == 0
  {
    ToldRun(os);
    assert Told(Run(INITIAL, os), os, tok);
  }

  predicate Presents(o: Timed, tok: string) { o.op.Present? && o.op.tok == tok }

  lemma {:induction false} UntouchedRun(s: State, os: seq<Timed>, tok: string)
    requires Valid(s) && tok in s.tokens
    requires forall i :: 0 <= i < |os| ==> !Presents(os[i], tok)
    ensures var t := Run(s, os);
      Valid(t) && tok in t.tokens && t.tokens[tok] == s.tokens[tok]
  {
    if os != [] {
      var init := os[..|os| - 1];
      UntouchedRun(s, init, tok);
      var t := Run(s, init);
      ValidStep(t, os[|os| - 1]);
      assert Consistent(t, tok);
    }
  }

  /** Of two consecutive presentations of one token, whatever happens in between, at most one mints. */
  lemma ConsecutiveMintOnce(os: seq<Timed>, tok: string, x: string, now: nat, between: seq<Timed>, later: nat)
    requires forall i :: 0 <= i < |between| ==> !Presents(between[i], tok)
    requires Fresh(Run(INITIAL, os), x)
    ensures var s := Run(INITIAL, os);
      var t := Run(Step(s, Timed(Present(tok, x), now)), between);
      !(Mints(s.tokens, tok, now) && Mints(t.tokens, tok, later))
  {
    ValidRun(os);
    var s := Run(INITIAL, os);
    if Mints(s.tokens, tok, now) {
      assert Consistent(s, tok);
      var s1 := Step(s, Timed(Present(tok, x), now));
      ValidStep(s, Timed(Present(tok, x), now));
      assert s1.tokens[tok].entry.state == USED;
      UntouchedRun(s1, between, tok);
    }
  }

  /** Presenting a used token changes its own entry only: the session's other tokens stay as they are. */
  lemma ReuseIsLocal(tokens: Tokens, tok: string, successor: string, now: nat)
    requires Live(tokens, tok, now) && tokens[tok].entry.state == "used"
    ensures var after := AfterRotate(tokens, tok, successor, now);
      && after.Keys == tokens.Keys
      && after[tok].entry == tokens[tok].entry.(state := "compromised")
      && (forall other :: other in tokens && other != tok ==> after[other] == tokens[other])
      && Mints(after, tok, now)
  {
  }

  /** Operation `i` issues `tok` to `user` for the session `sid`. */
  ghost predicate IssuedAt(os: seq<Timed>, i: nat, tok: string, user: string, sid: string) {
    i < |os| && os[i].op == Issue(tok, user, sid) && Written(os[..i], tok) == None
  }

  /** Operation `i` presents `tok` and mints `successor`. */
  ghost predicate MintedAt(os: seq<Timed>, i: nat, tok: string, successor: string) {
    && i < |os| && os[i].op == Present(tok, successor)
    && FoundBy(os[..i], os[i], tok) && Findings(os[..i], tok) % 2 == 0
  }

  /** `d` is reached by `n` rotations from a token issued to `user` for `sid`. */
  ghost predicate Descends(os: seq<Timed>, user: string, sid: string, d: string, n: nat)
    decreases n
  {
    if n == 0 then exists i: nat :: IssuedAt(os, i, d, user, sid)
    else exists i: nat, tok :: MintedAt(os, i, tok, d) && Descends(os, user, sid, tok, n - 1)
  }

  lemma OwnerStays(s: State, o: Timed, tok: string)
    requires tok in s.owner
    ensures tok in Step(s, o).owner && Step(s, o).owner[tok] == s.owner[tok]
  {
  }

  lemma {:induction false} OwnerKept(os: seq<Timed>, n: nat, tok: string)
    requires n <= |os| && tok in Run(INITIAL, os[..n]).owner
    ensures tok in Run(INITIAL, os).owner && Run(INITIAL, os).owner[tok] == Run(INITIAL, os[..n]).owner[tok]
    decreases |os|
  {
    if n < |os| {
      var init := os[..|os| - 1];
      assert init[..n] == os[..n];
      OwnerKept(init, n, tok);
      OwnerStays(Run(INITIAL, init), os[|os| - 1], tok);
    } else {
      assert os[..n] == os;
    }
  }

  lemma RunAt(os: seq<Timed>, i: nat)
    requires i < |os|
    ensures Run(INITIAL, os[..i + 1]) == Step(Run(INITIAL, os[..i]), os[i])
  {
    assert os[..i + 1][..i] == os[..i];
  }

  lemma IssuedOwner(os: seq<Timed>, i: nat, tok: string, user: string, sid: string)
    requires IssuedAt(os, i, tok, user, sid)
    ensures tok in Run(INITIAL, os).owner && Run(INITIAL, os).owner[tok] == (user, sid)
  {
    ToldRun(os[..i]);
    assert Told(Run(INITIAL, os[..i]), os[..i], tok);
    RunAt(os, i);
    OwnerKept(os, i + 1, tok);
  }

  lemma MintedOwner(os: seq<Timed>, i: nat, tok: string, successor: string)
    requires MintedAt(os, i, tok, successor)
    ensures var s := Run(INITIAL, os);
      tok in s.owner && successor in s.owner && s.owner[successor] == s.owner[tok]
  {
    var s := Run(INITIAL, os[..i]);
    ToldRun(os[..i]);
    ValidRun(os[..i]);
    PresentMeans(s, os[..i], os[i]);
    assert Consistent(s, tok);
    RunAt(os, i);
    MintOwner(s, os[i]);
    OwnerKept(os, i + 1, tok);
    OwnerKept(os, i + 1, successor);
  }

  lemma MintOwner(s: State, o: Timed)
    requires Valid(s) && o.op.Present? && Fresh(s, o.op.successor) && o.op.tok in s.uses
    requires Mints(s.tokens, o.op.tok, o.at)
    ensures var t := Step(s, o);
      && o.op.tok in t.owner && o.op.successor in t.owner && t.owner[o.op.successor] == t.owner[o.op.tok]
  {
    assert Consistent(s, o.op.tok);
  }

  /** In every run all descendants of a token carry the user and the session it was issued for. */
  lemma {:induction false} FamilyKeepsOwner(os: seq<Timed>, user: string, sid: string, d: string, n: nat)
    requires Descends(os, user, sid, d, n)
    ensures var s := Run(INITIAL, os);
      && d in s.owner && s.owner[d] == (user, sid)
      && (d in s.tokens ==> s.tokens[d].entry.user == user && s.tokens[d].entry.sid == sid)
    decreases n
  {
    if n == 0 {
      var i: nat :| IssuedAt(os, i, d, user, sid);
      IssuedOwner(os, i, d, user, sid);
    } else {
      var i: nat, tok :| MintedAt(os, i, tok, d) && Descends(os, user, sid, tok, n - 1);
      FamilyKeepsOwner(os, user, sid, tok, n - 1);
      MintedOwner(os, i, tok, d);
    }
    ValidRun(os);
    if d in Run(INITIAL, os).tokens { assert Consistent(Run(INITIAL, os), d); }
  }

  /** `d` is reached by rotations from a token issued to `user` for `sid`. */
  ghost predicate HasRoot(os: seq<Timed>, user: string, sid: string, d: string) {
    exists n: nat :: Descends(os, user, sid, d, n)
  }

  /** What a step issues or mints it draws anew. */
  lemma DrawnNow(os: seq<Timed>, o: Timed, d: string)
    requires d !in Run(INITIAL, os).owner && d in Run(INITIAL, os + [o]).owner
    ensures var all := os + [o];
      if o.op.Issue? then o.op.tok == d && IssuedAt(all, |os|, d, o.op.user, o.op.sid)
      else
        && MintedAt(all, |os|, o.op.tok, d) && o.op.tok in Run(INITIAL, os).owner
        && Run(INITIAL, all).owner[d] == Run(INITIAL, os).owner[o.op.tok]
  {
    var s, all := Run(INITIAL, os), os + [o];
    assert all[..|os|] == os;
    ToldRun(os);
    assert Told(s, os, d);
    if o.op.Present? {
      ValidRun(os);
      PresentMeans(s, os, o);
      assert Consistent(s, o.op.tok);
    }
  }

  lemma {:induction false} DescendsGrows(os: seq<Timed>, o: Timed, user: string, sid: string, d: string, n: nat)
    requires Descends(os, user, sid, d, n)
    ensures Descends(os + [o], user, sid, d, n)
    decreases n
  {
    var all := os + [o];
    if n == 0 {
      var i: nat :| IssuedAt(os, i, d, user, sid);
      assert all[..i] == os[..i];
      assert IssuedAt(all, i, d, user, sid);
    } else {
      var i: nat, tok :| MintedAt(os, i, tok, d) && Descends(os, user, sid, tok, n - 1);
      DescendsGrows(os, o, user, sid, tok, n - 1);
      assert all[..i] == os[..i];
      assert MintedAt(all, i, tok, d);
    }
  }

  lemma RootGrows(os: seq<Timed>, o: Timed, user: string, sid: string, d: string)
    requires HasRoot(os, user, sid, d)
    ensures HasRoot(os + [o], user, sid, d)
  {
    var n: nat :| Descends(os, user, sid, d, n);
    DescendsGrows(os, o, user, sid, d, n);
  }

  lemma MintHasRoot(os: seq<Timed>, i: nat, user: string, sid: string, tok: string, d: string)
    requires HasRoot(os, user, sid, tok) && MintedAt(os, i, tok, d)
    ensures HasRoot(os, user, sid, d)
  {
    var n: nat :| Descends(os, user, sid, tok, n);
    assert Descends(os, user, sid, d, n + 1);
  }

  lemma {:induction false} AllHaveRoots(os: seq<Timed>, d: string)
    requires d in Run(INITIAL, os).owner
    ensures var owner := Run(INITIAL, os).owner[d]; HasRoot(os, owner.0, owner.1, d)
  {
    var init, o := os[..|os| - 1], os[|os| - 1];
    var s := Run(INITIAL, init);
    assert os == init + [o];
    if d in s.owner {
      AllHaveRoots(init, d);
      OwnerStays(s, o, d);
      RootGrows(init, o, s.owner[d].0, s.owner[d].1, d);
    } else {
      DrawnNow(init, o, d);
      if o.op.Issue? {
        assert Descends(os, o.op.user, o.op.sid, d, 0);
      } else {
        var p := s.owner[o.op.tok];
        AllHaveRoots(init, o.op.tok);
        RootGrows(init, o, p.0, p.1, o.op.tok);
        MintHasRoot(os, |init|, p.0, p.1, o.op.tok, d);
      }
    }
  }

  /** In every run a token in the store is one user's for one session if and only if rotations lead to it
      from a token issued to that user for that session. */
  lemma FamilyExactly(os: seq<Timed>, user: string, sid: string, d: string)
    requires d in Run(INITIAL, os).tokens
    ensures var e := Run(INITIAL, os).tokens[d].entry;
      e.user == user && e.sid == sid <==> HasRoot(os, user, sid, d)
  {
    ValidRun(os);
    assert Consistent(Run(INITIAL, os), d);
    AllHaveRoots(os, d);
    if HasRoot(os, user, sid, d) {
      var n: nat :| Descends(os, user, sid, d, n);
      FamilyKeepsOwner(os, user, sid, d, n);
    }
  }
}
