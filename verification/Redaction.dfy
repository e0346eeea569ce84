/**
 The first two redaction patterns of the log filter: a run of exactly 13 or of exactly 16 digits,
 with no digit on either side, is replaced by a tag. `digits` is what `\d` matches.
 */
module Redaction {
  import opened Wrappers

  /** Tags by the length of the run they replace. */
  type Rules = map<nat, string>

  const CNIC: Rules := map[13 := "<CNIC_REDACTED>"]
  const PAN: Rules := map[16 := "<PAN_REDACTED>"]

  predicate StartsDigit(digits: set<char>, s: string) { s != [] && s[0] in digits }

  /** Length of the leading run of digits. */
  function RunLen(digits: set<char>, s: string): (n: nat)
    ensures n <= |s|
    ensures forall i :: 0 <= i < n ==> s[i] in digits
    ensures n < |s| ==> s[n] !in digits
  {
    if StartsDigit(digits, s) then 1 + RunLen(digits, s[1..]) else 0
  }

  // ---------- the regular expression, as the matcher scans it ----------

  /** `(?<!\d)\d{n}(?!\d)` matches at the head of `s`, which `inRun` says is preceded by a digit. */
  predicate MatchesHere(digits: set<char>, n: nat, s: string, inRun: bool) {
    && !inRun
    && n <= |s|
    && (forall i :: 0 <= i < n ==> s[i] in digits)
    && (n < |s| ==> s[n] !in digits)
  }

  /** `pattern.sub(tag, s)` from some position on, left to right. */
  function Sub(digits: set<char>, n: nat, tag: string, s: string, inRun: bool): string
    requires n > 0
    decreases |s|
  {
    if s == [] then []
    else if MatchesHere(digits, n, s, inRun) then tag + Sub(digits, n, tag, s[n..], true)
    else [s[0]] + Sub(digits, n, tag, s[1..], s[0] in digits)
  }

  // ---------- redaction by whole runs ----------

  function Redact(digits: set<char>, rules: Rules, s: string): string
    decreases |s|
  {
    var n := RunLen(digits, s);
    if s == [] then []
    else if n == 0 then [s[0]] + Redact(digits, rules, s[1..])
    else (if n in rules then rules[n] else s[..n]) + Redact(digits, rules, s[n..])
  }

  /** Tags are not empty and hold no digit; no rule is for runs of length 0. */
  predicate Inert(digits: set<char>, rules: Rules) {
    && 0 !in rules
    && forall n :: n in rules ==> rules[n] != [] && forall i :: 0 <= i < |rules[n]| ==> rules[n][i] !in digits
  }

  lemma SubSkip(digits: set<char>, n: nat, tag: string, s: string, inRun: bool)
    requires n > 0 && s != [] && !MatchesHere(digits, n, s, inRun)
    ensures Sub(digits, n, tag, s, inRun) == [s[0]] + Sub(digits, n, tag, s[1..], s[0] in digits)
  {
  }

  lemma SubAtBreak(digits: set<char>, n: nat, tag: string, s: string)
    requires n > 0 && !StartsDigit(digits, s)
    ensures Sub(digits, n, tag, s, true) == Sub(digits, n, tag, s, false)
  {
  }

  lemma RunLenStep(digits: set<char>, s: string)
    requires StartsDigit(digits, s)
    ensures var r := RunLen(digits, s);
      r > 0 && RunLen(digits, s[1..]) == r - 1
      && s[..r] == [s[0]] + s[1..][..r - 1] && s[1..][r - 1..] == s[r..]
  {
    var r := RunLen(digits, s);
    assert r == 1 + RunLen(digits, s[1..]);
    HeadSlice(s, r);
  }

  lemma HeadSlice(s: string, r: nat)
    requires 0 < r <= |s|
    ensures s[..r] == [s[0]] + s[1..][..r - 1] && s[1..][r - 1..] == s[r..]
  {
  }

  lemma HeadJoins(s: string, r: nat, more: string)
    requires 0 < r <= |s|
    ensures [s[0]] + (s[1..][..r - 1] + more) == s[..r] + more
  {
    HeadSlice(s, r);
  }

  lemma {:induction false} SubInsideRun(digits: set<char>, n: nat, tag: string, s: string)
    requires n > 0
    ensures var r := RunLen(digits, s);
      Sub(digits, n, tag, s, true) == s[..r] + Sub(digits, n, tag, s[r..], false)
    decreases |s|
  {
    if StartsDigit(digits, s) {
      SubSkip(digits, n, tag, s, true);
      SubInsideRun(digits, n, tag, s[1..]);
      RunLenStep(digits, s);
    } else {
      SubAtBreak(digits, n, tag, s);
      assert s[..0] == [] && s[0..] == s;
    }
  }

  /** At the start of a run the pattern matches exactly when the run has length `n`. */
  lemma MatchIsRun(digits: set<char>, n: nat, s: string)
    requires n > 0
    ensures MatchesHere(digits, n, s, false) <==> RunLen(digits, s) == n
  {
    var r := RunLen(digits, s);
    assert r < |s| ==> s[r] !in digits;
  }

  /** The scan takes a run as a whole. */
  lemma SubRun(digits: set<char>, n: nat, tag: string, s: string)
    requires n > 0 && StartsDigit(digits, s)
    ensures var r := RunLen(digits, s);
      Sub(digits, n, tag, s, false) == (if r == n then tag else s[..r]) + Sub(digits, n, tag, s[r..], false)
  {
    MatchIsRun(digits, n, s);
    if RunLen(digits, s) == n {
      SubAtBreak(digits, n, tag, s[n..]);
    } else {
      SubSkip(digits, n, tag, s, false);
      SubPastRun(digits, n, tag, s);
    }
  }

  lemma SubPastRun(digits: set<char>, n: nat, tag: string, s: string)
    requires n > 0 && StartsDigit(digits, s)
    ensures var r := RunLen(digits, s);
      [s[0]] + Sub(digits, n, tag, s[1..], true) == s[..r] + Sub(digits, n, tag, s[r..], false)
  {
    var r := RunLen(digits, s);
    RunLenStep(digits, s);
    SubInsideRun(digits, n, tag, s[1..]);
    HeadJoins(s, r, Sub(digits, n, tag, s[r..], false));
  }

  lemma RedactOne(digits: set<char>, n: nat, tag: string, s: string)
    requires n > 0 && s != []
    ensures var r, rules := RunLen(digits, s), map[n := tag];
      Redact(digits, rules, s) ==
        if r == 0 then [s[0]] + Redact(digits, rules, s[1..])
        else (if r == n then tag else s[..r]) + Redact(digits, rules, s[r..])
  {
  }

  /** The left-to-right scan of one pattern is the redaction of whole runs. */
  lemma {:induction false} SubIsRedact(digits: set<char>, n: nat, tag: string, s: string)
    requires n > 0
    ensures Sub(digits, n, tag, s, false) == Redact(digits, map[n := tag], s)
    decreases |s|
  {
    if s != [] {
      var r := RunLen(digits, s);
      RedactOne(digits, n, tag, s);
      if r == 0 {
        MatchIsRun(digits, n, s);
        SubSkip(digits, n, tag, s, false);
        SubIsRedact(digits, n, tag, s[1..]);
      } else {
        SubRun(digits, n, tag, s);
        SubIsRedact(digits, n, tag, s[r..]);
      }
    }
  }

  // ---------- what redaction does to the text around it ----------

  lemma {:induction false} RunLenApp(digits: set<char>, w: string, t: string)
    requires forall i :: 0 <= i < |w| ==> w[i] in digits
    requires !StartsDigit(digits, t)
    ensures RunLen(digits, w + t) == |w|
  {
    if w == [] {
      assert w + t == t;
    } else {
      RunLenApp(digits, w[1..], t);
      assert (w + t)[1..] == w[1..] + t;
    }
  }

  /** What a run becomes. */
  function Masked(rules: Rules, w: string): string {
    if |w| in rules then rules[|w|] else w
  }

  lemma RedactHeadRun(digits: set<char>, rules: Rules, w: string, t: string)
    requires w != [] && (forall i :: 0 <= i < |w| ==> w[i] in digits) && !StartsDigit(digits, t)
    ensures Redact(digits, rules, w + t) == Masked(rules, w) + Redact(digits, rules, t)
  {
    RunLenApp(digits, w, t);
    assert (w + t)[..|w|] == w && (w + t)[|w|..] == t;
  }

  lemma RedactHeadChar(digits: set<char>, rules: Rules, c: char, t: string)
    requires c !in digits
    ensures Redact(digits, rules, [c] + t) == [c] + Redact(digits, rules, t)
  {
    assert ([c] + t)[1..] == t;
  }

  /** Where no digit run is cut, redaction acts on the two sides independently. */
  lemma {:induction false} RedactApp(digits: set<char>, rules: Rules, a: string, b: string)
    requires !StartsDigit(digits, b)
    ensures Redact(digits, rules, a + b) == Redact(digits, rules, a) + Redact(digits, rules, b)
    decreases |a|
  {
    if a == [] {
      assert a + b == b;
    } else {
      var w, rest := FirstPiece(digits, rules, a);
      RedactApp(digits, rules, rest, b);
      Assoc(w, rest, b);
      PieceKept(digits, rules, w, rest, b);
      Assoc(Redact(digits, rules, w), Redact(digits, rules, rest), Redact(digits, rules, b));
    }
  }

  lemma Assoc(a: string, b: string, c: string)
    ensures a + b + c == a + (b + c)
  {
  }

  /** A single non-digit, or a whole run. */
  predicate IsPiece(digits: set<char>, w: string) {
    w != [] && (if w[0] in digits then forall i :: 0 <= i < |w| ==> w[i] in digits else |w| == 1)
  }

  lemma FirstPiece(digits: set<char>, rules: Rules, a: string) returns (w: string, rest: string)
    requires a != []
    ensures a == w + rest && |rest| < |a| && IsPiece(digits, w)
    ensures w[0] in digits ==> !StartsDigit(digits, rest)
    ensures Redact(digits, rules, a) == Redact(digits, rules, w) + Redact(digits, rules, rest)
  {
    var r := RunLen(digits, a);
    var k := if r == 0 then 1 else r;
    w, rest := a[..k], a[k..];
    PieceKept(digits, rules, w, rest, []);
    assert rest + [] == rest;
  }

  lemma PieceKept(digits: set<char>, rules: Rules, w: string, rest: string, b: string)
    requires IsPiece(digits, w) && (w[0] in digits ==> !StartsDigit(digits, rest + b))
    ensures Redact(digits, rules, w + (rest + b)) == Redact(digits, rules, w) + Redact(digits, rules, rest + b)
  {
    if w[0] in digits {
      RedactHeadRun(digits, rules, w, rest + b);
      RedactRun(digits, rules, w);
    } else {
      assert w == [w[0]];
      RedactHeadChar(digits, rules, w[0], rest + b);
      RedactPlain(digits, rules, w);
    }
  }

  lemma {:induction false} RedactPlain(digits: set<char>, rules: Rules, w: string)
    requires forall i :: 0 <= i < |w| ==> w[i] !in digits
    ensures Redact(digits, rules, w) == w
  {
    if w != [] {
      RedactPlain(digits, rules, w[1..]);
      assert w == [w[0]] + w[1..];
    }
  }

  lemma RedactRun(digits: set<char>, rules: Rules, w: string)
    requires w != [] && forall i :: 0 <= i < |w| ==> w[i] in digits
    ensures Redact(digits, rules, w) == Masked(rules, w)
  {
    RedactHeadRun(digits, rules, w, []);
    assert w + [] == w && Masked(rules, w) + [] == Masked(rules, w);
  }

  lemma StartKept(digits: set<char>, rules: Rules, s: string)
    requires Inert(digits, rules)
    ensures StartsDigit(digits, Redact(digits, rules, s)) ==> StartsDigit(digits, s)
  {
  }

  /** Two passes in sequence are one pass with both sets of rules, the first taking precedence. */
  lemma {:induction false} Compose(digits: set<char>, r1: Rules, r2: Rules, s: string)
    requires Inert(digits, r1)
    ensures Redact(digits, r2, Redact(digits, r1, s)) == Redact(digits, r2 + r1, s)
    decreases |s|
  {
    var n := RunLen(digits, s);
    if s == [] {
    } else if n == 0 {
      Compose(digits, r1, r2, s[1..]);
      RedactHeadChar(digits, r2, s[0], Redact(digits, r1, s[1..]));
    } else {
      var rest := Redact(digits, r1, s[n..]);
      var w := if n in r1 then r1[n] else s[..n];
      Compose(digits, r1, r2, s[n..]);
      StartKept(digits, r1, s[n..]);
      RedactApp(digits, r2, w, rest);
      if n in r1 {
        RedactPlain(digits, r2, w);
      } else {
        RedactRun(digits, r2, w);
      }
    }
  }

  /** A maximal run of exactly `n` digits stands at position `i`. */
  ghost predicate HasRun(digits: set<char>, s: string, i: nat, n: nat) {
    && i + n <= |s|
    && (forall k :: i <= k < i + n ==> s[k] in digits)
    && (i > 0 ==> s[i - 1] !in digits)
    && (i + n < |s| ==> s[i + n] !in digits)
  }

  lemma RunInSuffix(digits: set<char>, a: string, b: string, i: nat, n: nat)
    requires HasRun(digits, a + b, i, n) && |a| <= i
    ensures HasRun(digits, b, i - |a|, n)
  {
    var s := a + b;
    assert forall k :: 0 <= k < |b| ==> b[k] == s[|a| + k];
  }

  lemma RunInPrefix(digits: set<char>, a: string, b: string, i: nat, n: nat)
    requires a != [] && (forall k :: 0 <= k < |a| ==> a[k] in digits) && !StartsDigit(digits, b)
    requires HasRun(digits, a + b, i, n) && i < |a|
    ensures i == 0 && (n > 0 ==> n == |a|)
  {
    var s := a + b;
    assert forall k :: 0 <= k < |a| ==> s[k] == a[k];
    assert b != [] ==> s[|a|] == b[0];
  }

  /** No run of a redacted length survives. */
  lemma {:induction false} NoRunRemains(digits: set<char>, rules: Rules, s: string, i: nat, n: nat)
    requires Inert(digits, rules) && n in rules
    ensures !HasRun(digits, Redact(digits, rules, s), i, n)
    decreases |s|
  {
    var out := Redact(digits, rules, s);
    if HasRun(digits, out, i, n) {
      var r := RunLen(digits, s);
      var k := if r == 0 then 1 else r;
      var w := if r == 0 then [s[0]] else if r in rules then rules[r] else s[..r];
      var rest := Redact(digits, rules, s[k..]);
      assert out == w + rest;
      assert i < |w| ==> out[i] == w[i];
      if |w| <= i {
        RunInSuffix(digits, w, rest, i, n);
        NoRunRemains(digits, rules, s[k..], i - |w|, n);
      } else if r > 0 && r !in rules {
        StartKept(digits, rules, s[k..]);
        RunInPrefix(digits, w, rest, i, n);
      }
    }
  }

  lemma RunFromSuffix(digits: set<char>, s: string, k: nat, i: nat, n: nat)
    requires 0 < k <= |s| && HasRun(digits, s[k..], i, n) && n > 0
    requires s[k - 1] !in digits || !StartsDigit(digits, s[k..])
    ensures HasRun(digits, s, k + i, n)
  {
    assert forall j :: 0 <= j < |s[k..]| ==> s[k..][j] == s[k + j];
  }

  lemma {:induction false} UnchangedWithoutRun(digits: set<char>, rules: Rules, s: string)
    requires 0 !in rules
    requires forall i, n :: n in rules ==> !HasRun(digits, s, i, n)
    ensures Redact(digits, rules, s) == s
    decreases |s|
  {
    if s != [] {
      var r := RunLen(digits, s);
      var k := if r == 0 then 1 else r;
      assert s == s[..k] + s[k..];
      assert r > 0 ==> HasRun(digits, s, 0, r);
      forall i, n | n in rules ensures !HasRun(digits, s[k..], i, n) {
        if HasRun(digits, s[k..], i, n) { RunFromSuffix(digits, s, k, i, n); }
      }
      UnchangedWithoutRun(digits, rules, s[k..]);
    }
  }

  /** A text is left alone if and only if it holds no run of a redacted length. */
  lemma UnchangedExactly(digits: set<char>, rules: Rules, s: string)
    requires Inert(digits, rules)
    ensures Redact(digits, rules, s) == s <==> forall i, n :: n in rules ==> !HasRun(digits, s, i, n)
  {
    if Redact(digits, rules, s) == s {
      forall i: nat, n | n in rules ensures !HasRun(digits, s, i, n) {
        NoRunRemains(digits, rules, s, i, n);
      }
    } else if forall i, n :: n in rules ==> !HasRun(digits, s, i, n) {
      UnchangedWithoutRun(digits, rules, s);
    }
  }

  // ---------- the filter ----------

  lemma TagsInert(digits: set<char>)
    requires forall c :: c in "<CNIC_REDACTED>" || c in "<PAN_REDACTED>" ==> c !in digits
    ensures Inert(digits, CNIC) && Inert(digits, PAN) && Inert(digits, PAN + CNIC)
  {
  }

  /** The log record: its message, and whether formatting arguments are still attached. */
  class Record {
    var msg: string
    var args: seq<string>

    constructor (msg: string, args: seq<string>)
      ensures this.msg == msg && this.args == args
    {
      this.msg, this.args := msg, args;
    }

    /** `filter(record)` up to its second pattern, where `message` is the formatted message if
        formatting succeeds. */
    method Filter(digits: set<char>, message: Option<string>) returns (keep: bool)
      requires forall c :: c in "<CNIC_REDACTED>" || c in "<PAN_REDACTED>" ==> c !in digits
      modifies this
      ensures keep
      ensures message.None? ==> msg == old(msg) && args == old(args)
      ensures message.Some? ==>
        && args == []
        && msg == Redact(digits, map[13 := "<CNIC_REDACTED>", 16 := "<PAN_REDACTED>"], message.value)
        && forall i :: !HasRun(digits, msg, i, 13) && !HasRun(digits, msg, i, 16)
    {
      if message.None? { return true; }
      var patterns := [(13, "<CNIC_REDACTED>"), (16, "<PAN_REDACTED>")];
      var text := message.value;
      TagsInert(digits);
      for k := 0 to |patterns|
        invariant k == 0 ==> text == message.value
        invariant k == 1 ==> text == Redact(digits, CNIC, message.value)
        invariant k == 2 ==> text == Redact(digits, PAN, Redact(digits, CNIC, message.value))
      {
        SubIsRedact(digits, patterns[k].0, patterns[k].1, text);
        text := Sub(digits, patterns[k].0, patterns[k].1, text, false);
      }
      Compose(digits, CNIC, PAN, message.value);
      assert PAN + CNIC == map[13 := "<CNIC_REDACTED>", 16 := "<PAN_REDACTED>"];
      forall i: nat ensures !HasRun(digits, text, i, 13) && !HasRun(digits, text, i, 16) {
        NoRunRemains(digits, PAN + CNIC, message.value, i, 13);
        NoRunRemains(digits, PAN + CNIC, message.value, i, 16);
      }
      msg := text;
      args := [];
      keep := true;
    }
  }

  /** The order of the two passes does not matter, and a second filtering changes nothing. */
  lemma PassesCommute(digits: set<char>, s: string)
    requires forall c :: c in "<CNIC_REDACTED>" || c in "<PAN_REDACTED>" ==> c !in digits
    ensures Redact(digits, PAN, Redact(digits, CNIC, s)) == Redact(digits, CNIC, Redact(digits, PAN, s))
    ensures var out := Redact(digits, PAN + CNIC, s); Redact(digits, PAN + CNIC, out) == out
  {
    TagsInert(digits);
    Compose(digits, CNIC, PAN, s);
    Compose(digits, PAN, CNIC, s);
    assert PAN + CNIC == CNIC + PAN;
    Compose(digits, PAN + CNIC, PAN + CNIC, s);
    assert (PAN + CNIC) + (PAN + CNIC) == PAN + CNIC;
  }
}
