/**
 The attempt counter in front of TOTP verification: `INCR`, and on the first increment an
 expiry of fifteen minutes. Attempts beyond the tenth of a window are rejected; they still count.
 */
module MfaThrottle {

  const WINDOW: nat := 15 * 60
  const MAX_ATTEMPTS: nat := 10

  /** One counter key: its value, and when it expires. */
  datatype Counter = Counter(cnt: nat, expires: nat)

  predicate InWindow(c: Counter, now: nat) { c.cnt > 0 && now < c.expires }

  function Bump(c: Counter, now: nat): Counter {
    if InWindow(c, now) then c.(cnt := c.cnt + 1) else Counter(1, now + WINDOW)
  }

  predicate Admits(c: Counter, now: nat) { Bump(c, now).cnt <= MAX_ATTEMPTS }

  type Counters = map<string, Counter>

  function At(counters: Counters, key: string): Counter {
    if key in counters then counters[key] else Counter(0, 0)
  }

  /** The counters, by the first 32 characters of the presented token. */
  class Throttle {
    var counters: Counters

    constructor ()
      ensures counters == map[]
    {
      counters := map[];
    }

    function Get(key: string): Counter
      reads this
    {
      At(counters, key)
    }

    /** The throttle of `mfa_verify`: true when the attempt may go on. */
    method Attempt(token: string, now: nat) returns (admitted: bool)
      modifies this
      ensures var key := RateKey(token);
        && admitted == Admits(old(Get(key)), now)
        && counters == old(counters)[key := Bump(old(Get(key)), now)]
    {
      var key := RateKey(token);
      var cnt := 0;
      if key in counters && counters[key].cnt > 0 && now < counters[key].expires {
        cnt := counters[key].cnt;
      }
      cnt := cnt + 1;
      if cnt == 1 {
        counters := counters[key := Counter(cnt, now + WINDOW)];
      } else {
        counters := counters[key := counters[key].(cnt := cnt)];
      }
      admitted := cnt <= MAX_ATTEMPTS;
    }
  }

  /** `f"mfa:verify:{token[:32]}"` */
  function RateKey(token: string): string {
    "mfa:verify:" + if |token| <= 32 then token else token[..32]
  }

  // ---------- runs of attempts on one key ----------

  ghost predicate Sorted(times: seq<nat>) {
    forall i, j :: 0 <= i <= j < |times| ==> times[i] <= times[j]
  }

  predicate Within(t: nat, lo: nat, hi: nat) { lo <= t <= hi }

  /** How many of the attempts at `times` are admitted and fall in `lo..hi`, ends included. */
  function Admitted(c: Counter, times: seq<nat>, lo: nat, hi: nat): nat
    decreases |times|
  {
    if times == [] then 0
    else
      (if Admits(c, times[0]) && Within(times[0], lo, hi) then 1 else 0)
        + Admitted(Bump(c, times[0]), times[1..], lo, hi)
  }

  /** What is left of the current window. */
  function Left(c: Counter): nat {
    if c.cnt >= MAX_ATTEMPTS then 0 else MAX_ATTEMPTS - c.cnt
  }

  /** A bound on the attempts still admitted in `lo..lo+WINDOW`. */
  function Bound(c: Counter, lo: nat): nat {
    if c.cnt > 0 && c.expires > lo + WINDOW then Left(c)
    else if c.cnt > 0 && c.expires > lo then Left(c) + MAX_ATTEMPTS
    else 2 * MAX_ATTEMPTS
  }

  lemma {:induction false} NoneLater(c: Counter, times: seq<nat>, lo: nat, hi: nat)
    requires forall i :: 0 <= i < |times| ==> hi < times[i]
    ensures Admitted(c, times, lo, hi) == 0
    decreases |times|
  {
    if times != [] { NoneLater(Bump(c, times[0]), times[1..], lo, hi); }
  }

  lemma {:induction false} AdmittedBound(c: Counter, times: seq<nat>, lo: nat)
    requires Sorted(times)
    ensures Admitted(c, times, lo, lo + WINDOW) <= Bound(c, lo)
    decreases |times|
  {
    if times != [] {
      if times[0] > lo + WINDOW {
        NoneLater(c, times, lo, lo + WINDOW);
      } else {
        AdmittedBound(Bump(c, times[0]), times[1..], lo);
      }
    }
  }

  /** No more than twenty attempts on one key are admitted in any fifteen minutes. */
  lemma AtMostTwenty(times: seq<nat>, lo: nat)
    requires Sorted(times)
    ensures Admitted(Counter(0, 0), times, lo, lo + 900) <= 20
  {
    AdmittedBound(Counter(0, 0), times, lo);
  }

  /** From the first attempt of a window until it expires, at most ten are admitted. */
  lemma AtMostTenPerWindow(c: Counter, times: seq<nat>, start: nat)
    requires Sorted(times) && times != [] && times[0] == start && !InWindow(c, start)
    ensures Admitted(c, times, start, start + 899) <= 10
  {
    WindowBound(Bump(c, start), times[1..], start);
  }

  lemma {:induction false} WindowBound(c: Counter, times: seq<nat>, start: nat)
    requires Sorted(times) && c.cnt > 0 && c.expires == start + WINDOW
    ensures Admitted(c, times, start, start + WINDOW - 1) <= Left(c)
    decreases |times|
  {
    if times != [] {
      if times[0] >= start + WINDOW {
        NoneLater(c, times, start, start + WINDOW - 1);
      } else {
        WindowBound(Bump(c, times[0]), times[1..], start);
      }
    }
  }

  /** `n` attempts at the moment `t`. */
  function Burst(n: nat, t: nat): seq<nat> { seq(n, i => t) }

  lemma {:induction false} BurstAdmitted(c: Counter, n: nat, t: nat, more: seq<nat>, lo: nat, hi: nat)
    requires InWindow(c, t) && Within(t, lo, hi) && c.cnt + n <= MAX_ATTEMPTS
    ensures Admitted(c, Burst(n, t) + more, lo, hi) == n + Admitted(c.(cnt := c.cnt + n), more, lo, hi)
    decreases n
  {
    if n == 0 {
      assert Burst(n, t) + more == more;
    } else {
      BurstAdmitted(Bump(c, t), n - 1, t, more, lo, hi);
      assert (Burst(n, t) + more)[1..] == Burst(n - 1, t) + more;
    }
  }

  lemma FreshBurst(c: Counter, t: nat, more: seq<nat>, lo: nat, hi: nat)
    requires !InWindow(c, t) && Within(t, lo, hi)
    ensures Admitted(c, Burst(10, t) + more, lo, hi) == 10 + Admitted(Counter(10, t + WINDOW), more, lo, hi)
  {
    var times := Burst(10, t) + more;
    assert times[1..] == Burst(9, t) + more;
    BurstAdmitted(Counter(1, t + WINDOW), 9, t, more, lo, hi);
  }

  /** The bound is reached: ten attempts at a window's start and ten at its end. */
  lemma TwentyIsReached(t: nat)
    ensures var times := Burst(10, t) + Burst(10, t + 900);
      Sorted(times) && Admitted(Counter(0, 0), times, t, t + 900) == 20
  {
    FreshBurst(Counter(0, 0), t, Burst(10, t + WINDOW), t, t + WINDOW);
    FreshBurst(Counter(10, t + WINDOW), t + WINDOW, [], t, t + WINDOW);
    assert Burst(10, t + WINDOW) + [] == Burst(10, t + WINDOW);
  }

  // ---------- runs of attempts with tokens ----------

  datatype Try = Try(token: string, at: nat)

  /** What an attempt is counted under: `RateKey`, or the whole token. */
  type KeyOf = string -> string

  function Whole(token: string): string { token }

  /** The counters after the first `n` attempts. */
  function After(key: KeyOf, ts: seq<Try>, n: nat): Counters
    requires n <= |ts|
  {
    if n == 0 then map[]
    else
      var cs := After(key, ts, n - 1);
      var k := key(ts[n - 1].token);
      cs[k := Bump(At(cs, k), ts[n - 1].at)]
  }

  ghost predicate InOrder(ts: seq<Try>) {
    forall i, j :: 0 <= i <= j < |ts| ==> ts[i].at <= ts[j].at
  }

  predicate Refused(key: KeyOf, ts: seq<Try>, i: nat)
    requires i < |ts|
  {
    !Admits(At(After(key, ts, i), key(ts[i].token)), ts[i].at)
  }

  /** How many of the attempts from `w` on and before `i` are counted under `k`. */
  function Uses(key: KeyOf, ts: seq<Try>, k: string, w: nat, i: nat): nat
    requires i <= |ts|
  {
    if i <= w then 0 else Uses(key, ts, k, w, i - 1) + (if key(ts[i - 1].token) == k then 1 else 0)
  }

  /** Attempt `w` opens a window of `k`: every window of `k` opened before has expired. */
  ghost predicate Opens(key: KeyOf, ts: seq<Try>, k: string, w: nat) {
    && w < |ts| && key(ts[w].token) == k
    && forall v: nat :: v < w && Opens(key, ts, k, v) ==> ts[v].at + 900 <= ts[w].at
  }

  /** The counter of `k` counts from `w`, the last attempt to open a window of `k`. */
  ghost predicate Tracks(key: KeyOf, ts: seq<Try>, k: string, n: nat, c: Counter, w: nat) {
    && w < n <= |ts| && Opens(key, ts, k, w)
    && c == Counter(Uses(key, ts, k, w, n), ts[w].at + WINDOW) && c.cnt > 0
    && forall v: nat :: w < v < n ==> !Opens(key, ts, k, v)
  }

  lemma {:induction false} NoUses(key: KeyOf, ts: seq<Try>, k: string, n: nat)
    requires n <= |ts| && Uses(key, ts, k, 0, n) == 0
    ensures At(After(key, ts, n), k) == Counter(0, 0)
    ensures forall v: nat :: v < n ==> key(ts[v].token) != k
  {
    if n > 0 { NoUses(key, ts, k, n - 1); }
  }

  lemma {:induction false} CounterTracks(key: KeyOf, ts: seq<Try>, k: string, n: nat) returns (w: nat)
    requires InOrder(ts) && n <= |ts| && Uses(key, ts, k, 0, n) > 0
    ensures Tracks(key, ts, k, n, At(After(key, ts, n), k), w)
  {
    var c := At(After(key, ts, n - 1), k);
    if Uses(key, ts, k, 0, n - 1) == 0 {
      NoUses(key, ts, k, n - 1);
      w := n - 1;
    } else {
      w := CounterTracks(key, ts, k, n - 1);
      if key(ts[n - 1].token) == k {
        w := TrackNext(key, ts, k, n, c, w);
      } else {
        assert !Opens(key, ts, k, n - 1);
      }
    }
  }

  /** One more attempt under `k`: it is counted in the window, or opens the next. */
  lemma TrackNext(key: KeyOf, ts: seq<Try>, k: string, n: nat, c: Counter, w: nat) returns (x: nat)
    requires InOrder(ts) && 0 < n <= |ts| && Tracks(key, ts, k, n - 1, c, w) && key(ts[n - 1].token) == k
    ensures Tracks(key, ts, k, n, Bump(c, ts[n - 1].at), x)
  {
    if ts[n - 1].at < ts[w].at + WINDOW {
      x := w;
      assert !Opens(key, ts, k, n - 1);
    } else {
      x := n - 1;
      forall v: nat | v < n - 1 && Opens(key, ts, k, v) ensures ts[v].at + WINDOW <= ts[n - 1].at {
        if v < w { assert ts[v].at + WINDOW <= ts[w].at <= ts[n - 1].at; }
      }
      assert Opens(key, ts, k, n - 1);
    }
  }

  /** Attempt `i` falls in the window that attempt `w` opened. */
  ghost predicate InWindowOf(key: KeyOf, ts: seq<Try>, w: nat, i: nat) {
    w < i < |ts| && Opens(key, ts, key(ts[i].token), w) && ts[i].at < ts[w].at + 900
  }

  ghost predicate Exhausted(key: KeyOf, ts: seq<Try>, w: nat, i: nat) {
    InWindowOf(key, ts, w, i) && Uses(key, ts, key(ts[i].token), w, i) >= 10
  }

  /**
   In every run an attempt is refused if and only if ten earlier attempts in the current window
   used tokens with the same key.
   */
  lemma RefusedExactly(key: KeyOf, ts: seq<Try>, i: nat)
    requires InOrder(ts) && i < |ts|
    ensures Refused(key, ts, i) <==> exists w: nat :: Exhausted(key, ts, w, i)
  {
    var k := key(ts[i].token);
    var c := At(After(key, ts, i), k);
    if Uses(key, ts, k, 0, i) == 0 {
      NoUses(key, ts, k, i);
    } else {
      var w := CounterTracks(key, ts, k, i);
      forall v: nat | InWindowOf(key, ts, v, i) ensures v == w { OneWindow(key, ts, k, i, c, w, v); }
      if Refused(key, ts, i) { assert Exhausted(key, ts, w, i); }
    }
  }

  /** There is one current window. */
  lemma OneWindow(key: KeyOf, ts: seq<Try>, k: string, i: nat, c: Counter, w: nat, v: nat)
    requires InOrder(ts) && i < |ts| && key(ts[i].token) == k && Tracks(key, ts, k, i, c, w)
    requires InWindowOf(key, ts, v, i)
    ensures v == w
  {
    assert ts[w].at <= ts[i].at;
  }

  /** The attempts counted under the key of `token` that used another token. */
  function Others(ts: seq<Try>, token: string, w: nat, i: nat): nat
    requires i <= |ts|
  {
    if i <= w then 0
    else Others(ts, token, w, i - 1) +
         (if RateKey(ts[i - 1].token) == RateKey(token) && ts[i - 1].token != token then 1 else 0)
  }

  lemma {:induction false} OwnAndOthers(ts: seq<Try>, token: string, w: nat, i: nat)
    requires i <= |ts|
    ensures Uses(RateKey, ts, RateKey(token), w, i) == Uses(Whole, ts, token, w, i) + Others(ts, token, w, i)
  {
    if i > w { OwnAndOthers(ts, token, w, i - 1); }
  }

  /**
   Where the shared window is also one of the token alone, an attempt gets the verdict of a counter
   per token if and only if the attempts with other tokens do not use up what the token left.
   */
  lemma VerdictPerTokenExactly(ts: seq<Try>, w: nat, i: nat)
    requires InOrder(ts) && InWindowOf(RateKey, ts, w, i) && InWindowOf(Whole, ts, w, i)
    ensures var own, others := Uses(Whole, ts, ts[i].token, w, i), Others(ts, ts[i].token, w, i);
      (Refused(RateKey, ts, i) <==> Refused(Whole, ts, i)) <==> (own < 10 ==> own + others < 10)
  {
    var token := ts[i].token;
    OwnAndOthers(ts, token, w, i);
    OnlyWindow(RateKey, ts, w, i);
    OnlyWindow(Whole, ts, w, i);
  }

  lemma OnlyWindow(key: KeyOf, ts: seq<Try>, w: nat, i: nat)
    requires InOrder(ts) && InWindowOf(key, ts, w, i)
    ensures Refused(key, ts, i) <==> Uses(key, ts, key(ts[i].token), w, i) >= 10
  {
    var k := key(ts[i].token);
    RefusedExactly(key, ts, i);
    SomeUse(key, ts, k, w, i);
    var x := CounterTracks(key, ts, k, i);
    forall v: nat | InWindowOf(key, ts, v, i) ensures v == w {
      OneWindow(key, ts, k, i, At(After(key, ts, i), k), x, v);
      OneWindow(key, ts, k, i, At(After(key, ts, i), k), x, w);
    }
    if Uses(key, ts, k, w, i) >= 10 { assert Exhausted(key, ts, w, i); }
  }

  lemma {:induction false} SomeUse(key: KeyOf, ts: seq<Try>, k: string, w: nat, i: nat)
    requires w < i <= |ts| && key(ts[w].token) == k
    ensures Uses(key, ts, k, 0, i) > 0
  {
    if w < i - 1 { SomeUse(key, ts, k, w, i - 1); }
  }

  /** One attempt with `b`, ten with `a` late in that window, and one more with `a` after it. */
  function LateTen(a: string, b: string): (ts: seq<Try>)
    ensures |ts| == 12
  {
    seq(12, i => if i == 0 then Try(b, 0) else Try(a, if i < 11 then 800 else 900))
  }

  lemma {:induction false} LateCounters(a: string, b: string, n: nat)
    requires a != b && RateKey(a) == RateKey(b) && 1 <= n <= 11
    ensures At(After(RateKey, LateTen(a, b), n), RateKey(a)) == Counter(n, WINDOW)
    ensures At(After(Whole, LateTen(a, b), n), a) == if n == 1 then Counter(0, 0) else Counter(n - 1, 800 + WINDOW)
  {
    if n > 1 { LateCounters(a, b, n - 1); }
  }

  /** Where the windows differ, other tokens can also help: the eleventh attempt with `a` within 100
      seconds is admitted, though a counter per token refuses it. */
  lemma OthersRelieve(a: string, b: string)
    requires a != b && RateKey(a) == RateKey(b)
    ensures !Refused(RateKey, LateTen(a, b), 11) && Refused(Whole, LateTen(a, b), 11)
  {
    LateCounters(a, b, 11);
  }

  // ---------- when the throttle counts per token ----------

  ghost predicate Over(ts: seq<Try>, tokens: iset<string>) {
    forall i :: 0 <= i < |ts| ==> ts[i].token in tokens
  }

  /** Every verdict of the run is the one that a counter per token gives. */
  ghost predicate PerToken(ts: seq<Try>) {
    forall i: nat :: i < |ts| ==> (Refused(RateKey, ts, i) <==> Refused(Whole, ts, i))
  }

  function FirstOf(token: string): string { token[..if |token| < 32 then |token| else 32] }

  /** Two tokens share a counter exactly when they share their first 32 characters. */
  lemma RateKeyExactly(a: string, b: string)
    ensures RateKey(a) == RateKey(b) <==> FirstOf(a) == FirstOf(b)
  {
    assert RateKey(a)[11..] == FirstOf(a) && RateKey(b)[11..] == FirstOf(b);
  }

  ghost predicate KeysApart(tokens: iset<string>) {
    forall a, b :: a in tokens && b in tokens && FirstOf(a) == FirstOf(b) ==> a == b
  }

  lemma {:induction false} SameCounters(ts: seq<Try>, tokens: iset<string>, n: nat, token: string)
    requires Over(ts, tokens) && KeysApart(tokens) && n <= |ts| && token in tokens
    ensures At(After(RateKey, ts, n), RateKey(token)) == At(After(Whole, ts, n), token)
  {
    if n > 0 {
      SameCounters(ts, tokens, n - 1, token);
      SameCounters(ts, tokens, n - 1, ts[n - 1].token);
      RateKeyExactly(token, ts[n - 1].token);
    }
  }

  /** Ten attempts with `a`, and one with `b`. */
  function TenThenOne(a: string, b: string): (ts: seq<Try>)
    ensures |ts| == 11
  {
    seq(11, i => Try(if i < 10 then a else b, 0))
  }

  /** When the two share their first 32 characters, the only attempt with `b` is refused. */
  lemma OthersExhaust(a: string, b: string)
    requires a != b && RateKey(a) == RateKey(b)
    ensures Refused(RateKey, TenThenOne(a, b), 10) && !Refused(Whole, TenThenOne(a, b), 10)
  {
    var ts := TenThenOne(a, b);
    FirstTen(RateKey, ts, RateKey(a), 10);
    FirstTen(Whole, ts, a, 10);
    NoOther(ts, b, 10);
    NoUses(Whole, ts, b, 10);
  }

  lemma {:induction false} FirstTen(key: KeyOf, ts: seq<Try>, k: string, n: nat)
    requires n <= 10 && |ts| == 11 && forall i :: 0 <= i < 10 ==> ts[i].at == 0 && key(ts[i].token) == k
    ensures At(After(key, ts, n), k) == if n == 0 then Counter(0, 0) else Counter(n, WINDOW)
  {
    if n > 0 { FirstTen(key, ts, k, n - 1); }
  }

  lemma {:induction false} NoOther(ts: seq<Try>, b: string, n: nat)
    requires n <= |ts| && forall i :: 0 <= i < n ==> ts[i].token != b
    ensures Uses(Whole, ts, b, 0, n) == 0
  {
    if n > 0 { NoOther(ts, b, n - 1); }
  }

  /**
   The throttle counts per token, in every run over some tokens, if and only if no two of them share
   their first 32 characters.
   */
  lemma PerTokenExactly(tokens: iset<string>)
    ensures (forall ts :: InOrder(ts) && Over(ts, tokens) ==> PerToken(ts)) <==> KeysApart(tokens)
  {
    if KeysApart(tokens) {
      forall ts: seq<Try> | InOrder(ts) && Over(ts, tokens) ensures PerToken(ts) {
        forall i: nat | i < |ts| ensures Refused(RateKey, ts, i) <==> Refused(Whole, ts, i) {
          SameCounters(ts, tokens, i, ts[i].token);
        }
      }
    } else {
      var a, b :| a in tokens && b in tokens && FirstOf(a) == FirstOf(b) && a != b;
      RateKeyExactly(a, b);
      OthersExhaust(a, b);
      assert Over(TenThenOne(a, b), tokens) && InOrder(TenThenOne(a, b));
      assert !PerToken(TenThenOne(a, b));
    }
  }

  // ---------- tokens of one issuer ----------

  type Byte = b: nat | b < 256

  function Digit64(n: nat): char
    requires n < 64
  {
    if n < 26 then ('A' as int + n) as char
    else if n < 52 then ('a' as int + n - 26) as char
    else if n < 62 then ('0' as int + n - 52) as char
    else if n == 62 then '-' else '_'
  }

  function Group(a: Byte, b: Byte, c: Byte): (t: string)
    ensures |t| == 4
  {
    [Digit64(a / 4), Digit64(a % 4 * 16 + b / 16), Digit64(b % 16 * 4 + c / 64), Digit64(c % 64)]
  }

  /** Base64 for URLs, without padding. */
  function Base64(bytes: seq<Byte>): string {
    if |bytes| == 0 then []
    else if |bytes| == 1 then Group(bytes[0], 0, 0)[..2]
    else if |bytes| == 2 then Group(bytes[0], bytes[1], 0)[..3]
    else Group(bytes[0], bytes[1], bytes[2]) + Base64(bytes[3..])
  }

  /** The number that a character of the alphabet stands for. */
  function Sextet(c: char): nat {
    if 'A' <= c <= 'Z' then c as int - 'A' as int
    else if 'a' <= c <= 'z' then c as int - 'a' as int + 26
    else if '0' <= c <= '9' then c as int - '0' as int + 52
    else if c == '-' then 62 else 63
  }

  /** The bytes, or the characters, read as one number behind `acc`. */
  function Read256(acc: nat, bytes: seq<Byte>): nat
    decreases |bytes|
  {
    if bytes == [] then acc else Read256(acc * 256 + bytes[0], bytes[1..])
  }

  function Read64(acc: nat, text: string): nat
    decreases |text|
  {
    if text == [] then acc else Read64(acc * 64 + Sextet(text[0]), text[1..])
  }

  lemma Read64Two(acc: nat, t: string)
    requires |t| >= 2
    ensures Read64(acc, t) == Read64((acc * 64 + Sextet(t[0])) * 64 + Sextet(t[1]), t[2..])
  {
    assert t[1..][1..] == t[2..];
  }

  lemma Read64Four(acc: nat, t: string, n: nat)
    requires |t| >= 4
    requires n == (((acc * 64 + Sextet(t[0])) * 64 + Sextet(t[1])) * 64 + Sextet(t[2])) * 64 + Sextet(t[3])
    ensures Read64(acc, t) == Read64(n, t[4..])
  {
    var m := (acc * 64 + Sextet(t[0])) * 64 + Sextet(t[1]);
    Read64Two(acc, t);
    Read64Two(m, t[2..]);
    assert t[2..][2..] == t[4..];
  }

  /** Three bytes behind `acc`. */
  function Number(acc: nat, a: nat, b: nat, c: nat): nat { acc * 16_777_216 + a * 65_536 + b * 256 + c }

  lemma Read256One(acc: nat, bytes: seq<Byte>, n: nat)
    requires bytes != [] && n == acc * 256 + bytes[0]
    ensures Read256(acc, bytes) == Read256(n, bytes[1..])
  {
  }

  lemma Read256Three(acc: nat, bytes: seq<Byte>, n: nat)
    requires |bytes| >= 3 && n == Number(acc, bytes[0], bytes[1], bytes[2])
    ensures Read256(acc, bytes) == Read256(n, bytes[3..])
  {
    var l: nat := acc * 256 + bytes[0];
    var m: nat := l * 256 + bytes[1];
    Read256One(acc, bytes, l);
    Read256One(l, bytes[1..], m);
    Read256One(m, bytes[1..][1..], n);
    assert bytes[1..][1..][1..] == bytes[3..];
  }

  lemma NumberOfDigits(acc: nat, a: Byte, b: Byte, c: Byte)
    ensures Number(acc, a, b, c)
         == (((acc * 64 + a / 4) * 64 + (a % 4 * 16 + b / 16)) * 64 + (b % 16 * 4 + c / 64)) * 64 + c % 64
  {
  }

  lemma GroupExactly(acc: nat, a: Byte, b: Byte, c: Byte, rest: string)
    ensures Read64(acc, Group(a, b, c) + rest) == Read64(Number(acc, a, b, c), rest)
  {
    var t := Group(a, b, c) + rest;
    GroupSextets(a, b, c);
    NumberOfDigits(acc, a, b, c);
    Read64Four(acc, t, Number(acc, a, b, c));
    assert t[4..] == rest;
  }

  lemma GroupSextets(a: Byte, b: Byte, c: Byte)
    ensures var t := Group(a, b, c);
      && Sextet(t[0]) == a / 4 && Sextet(t[1]) == a % 4 * 16 + b / 16
      && Sextet(t[2]) == b % 16 * 4 + c / 64 && Sextet(t[3]) == c % 64
  {
    SextetOfDigit(a / 4);
    SextetOfDigit(a % 4 * 16 + b / 16);
    SextetOfDigit(b % 16 * 4 + c / 64);
    SextetOfDigit(c % 64);
  }

  lemma SextetOfDigit(n: nat)
    requires n < 64
    ensures Sextet(Digit64(n)) == n
  {
  }

  lemma Base64Three(acc: nat, bytes: seq<Byte>, n: nat)
    requires |bytes| >= 3 && n == Number(acc, bytes[0], bytes[1], bytes[2])
    ensures Read64(acc, Base64(bytes)) == Read64(n, Base64(bytes[3..]))
  {
    GroupExactly(acc, bytes[0], bytes[1], bytes[2], Base64(bytes[3..]));
  }

  /** What the bits that fill up the last character multiply by. */
  function Filling(n: nat): nat { if n % 3 == 0 then 1 else if n % 3 == 1 then 16 else 4 }

  lemma {:induction false} Base64Length(bytes: seq<Byte>)
    ensures |Base64(bytes)| == (4 * |bytes| + 2) / 3
    decreases |bytes|
  {
    if |bytes| > 2 { Base64Length(bytes[3..]); }
  }

  /** The encoded text is the number of the bytes, filled up to whole characters. */
  predicate Encodes(acc: nat, bytes: seq<Byte>) {
    Read64(acc, Base64(bytes)) == Read256(acc, bytes) * Filling(|bytes|)
  }

  lemma EncodesThree(acc: nat, bytes: seq<Byte>, n: nat)
    requires |bytes| >= 3 && n == Number(acc, bytes[0], bytes[1], bytes[2]) && Encodes(n, bytes[3..])
    ensures Encodes(acc, bytes)
  {
    var rest := bytes[3..];
    Base64Three(acc, bytes, n);
    Read256Three(acc, bytes, n);
    FillingThree(|bytes|);
    SameProduct(Read64(acc, Base64(bytes)), Read64(n, Base64(rest)), Read256(n, rest), Read256(acc, bytes),
                Filling(|rest|), Filling(|bytes|));
  }

  lemma FillingThree(n: nat)
    requires n >= 3
    ensures Filling(n - 3) == Filling(n)
  {
  }

  lemma SameProduct(p: nat, q: nat, r: nat, s: nat, f: nat, g: nat)
    requires p == q && q == r * f && s == r && f == g
    ensures p == s * g
  {
  }

  lemma {:induction false} Base64Exactly(acc: nat, bytes: seq<Byte>)
    ensures Encodes(acc, bytes)
    decreases |bytes|
  {
    if bytes == [] {
    } else if |bytes| == 1 {
      TailOne(acc, bytes);
    } else if |bytes| == 2 {
      TailTwo(acc, bytes);
    } else {
      var n := Number(acc, bytes[0], bytes[1], bytes[2]);
      Base64Exactly(n, bytes[3..]);
      EncodesThree(acc, bytes, n);
    }
  }

  lemma TailOne(acc: nat, bytes: seq<Byte>)
    requires |bytes| == 1
    ensures Read64(acc, Base64(bytes)) == Read256(acc, bytes) * 16
  {
    Read64Two(acc, Base64(bytes));
    GroupSextets(bytes[0], 0, 0);
    assert bytes[1..] == [] && Base64(bytes)[2..] == [];
  }

  lemma TailTwo(acc: nat, bytes: seq<Byte>)
    requires |bytes| == 2
    ensures Read64(acc, Base64(bytes)) == Read256(acc, bytes) * 4
  {
    var t := Base64(bytes);
    GroupSextets(bytes[0], bytes[1], 0);
    var m := (acc * 64 + Sextet(t[0])) * 64 + Sextet(t[1]);
    Read64Two(acc, t);
    assert t[2..][1..] == [] && bytes[1..][1..] == [];
    assert Read64(m, t[2..]) == m * 64 + Sextet(t[2]);
    var n: nat := acc * 256 + bytes[0];
    assert Read256(n, bytes[1..]) == n * 256 + bytes[1];
  }

  lemma {:induction false} Base64Start(bytes: seq<Byte>, n: nat)
    requires |bytes| >= 3 * n
    ensures |Base64(bytes)| >= 4 * n && Base64(bytes)[..4 * n] == Base64(bytes[..3 * n])
  {
    if n > 0 {
      Base64Start(bytes[3..], n - 1);
      assert bytes[..3 * n][3..] == bytes[3..][..3 * (n - 1)];
    }
  }

  /** A signed token is the encoded header, a dot, and more. */
  predicate IsToken(token: string, header: seq<Byte>) {
    |Base64(header)| < |token| && token[..|Base64(header)|] == Base64(header) && token[|Base64(header)|] == '.'
  }

  /** Tokens whose headers agree on their first 24 bytes share one counter, whoever they are for. */
  lemma HeaderDecidesKey(t1: string, h1: seq<Byte>, t2: string, h2: seq<Byte>)
    requires |h1| >= 24 && |h2| >= 24 && h1[..24] == h2[..24]
    ensures IsToken(t1, h1) && IsToken(t2, h2) ==> RateKey(t1) == RateKey(t2)
  {
    Base64Start(h1, 8);
    Base64Start(h2, 8);
    if IsToken(t1, h1) && IsToken(t2, h2) {
      assert t1[..32] == Base64(h1)[..32] && t2[..32] == Base64(h2)[..32];
    }
  }
}
