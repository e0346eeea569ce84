/**
 Python `str` values. A string is a sequence of code points, and a lone surrogate
 is allowed, which is why Dafny's own `char` (Unicode scalar values only) does not serve.
 */
module Text {

  type CodePoint = c: nat | c < 0x11_0000

  type Text = seq<CodePoint>

  /** The code points of a literal. */
  function Chars(s: string): (t: Text)
    ensures |t| == |s|
  {
    seq(|s|, i requires 0 <= i < |s| => s[i] as int)
  }

  predicate High(c: CodePoint) { 0xD800 <= c <= 0xDBFF }

  predicate Low(c: CodePoint) { 0xDC00 <= c <= 0xDFFF }

  predicate StartsLow(t: Text) { t != [] && Low(t[0]) }

  /** The supplementary code point that a surrogate pair stands for. */
  function Pair(hi: CodePoint, lo: CodePoint): CodePoint
    requires High(hi) && Low(lo)
  {
    0x1_0000 + (hi - 0xD800) * 0x400 + (lo - 0xDC00)
  }

  /** No high surrogate is directly followed by a low one. */
  predicate NoPair(t: Text) {
    forall i :: 0 <= i < |t| - 1 ==> !(High(t[i]) && Low(t[i + 1]))
  }

  /** The text with every adjacent high and low surrogate fused into one code point. */
  function Join(t: Text): Text {
    if t == [] then []
    else if |t| >= 2 && High(t[0]) && Low(t[1]) then [Pair(t[0], t[1])] + Join(t[2..])
    else [t[0]] + Join(t[1..])
  }

  /** Fusing is the identity exactly on texts without an adjacent pair. */
  lemma {:induction false} JoinFixed(t: Text)
    ensures |Join(t)| <= |t|
    ensures Join(t) == t <==> NoPair(t)
  {
    if t == [] {
    } else if |t| >= 2 && High(t[0]) && Low(t[1]) {
      JoinFixed(t[2..]);
      assert !NoPair(t);
    } else {
      JoinFixed(t[1..]);
      assert t == [t[0]] + t[1..];
      if NoPair(t[1..]) {
        forall i | 0 <= i < |t| - 1 ensures !(High(t[i]) && Low(t[i + 1])) {
          if i > 0 {
            assert t[1..][i - 1] == t[i] && t[1..][i] == t[i + 1];
          }
        }
      }
      if NoPair(t) {
        forall i | 0 <= i < |t[1..]| - 1 ensures !(High(t[1..][i]) && Low(t[1..][i + 1])) {
          assert t[1..][i] == t[i + 1] && t[1..][i + 1] == t[i + 2];
        }
      }
    }
  }

  /** Fused text holds no adjacent pair. */
  lemma {:induction false} JoinClean(t: Text)
    ensures NoPair(Join(t)) && Join(Join(t)) == Join(t)
    ensures StartsLow(Join(t)) ==> StartsLow(t)
  {
    if t != [] {
      var c := if |t| >= 2 && High(t[0]) && Low(t[1]) then Pair(t[0], t[1]) else t[0];
      var more := if |t| >= 2 && High(t[0]) && Low(t[1]) then t[2..] else t[1..];
      JoinClean(more);
      var r := Join(t);
      assert r == [c] + Join(more);
      forall i | 0 <= i < |r| - 1 ensures !(High(r[i]) && Low(r[i + 1])) {
        assert r[i + 1] == Join(more)[i];
        if i > 0 { assert r[i] == Join(more)[i - 1]; }
      }
    }
    JoinFixed(Join(t));
  }

  /** A text that fuses to one without supplementary code points was not changed. */
  lemma {:induction false} JoinBasic(t: Text)
    requires forall i :: 0 <= i < |Join(t)| ==> Join(t)[i] < 0x1_0000
    ensures Join(t) == t
  {
    if t != [] {
      assert Join(t)[0] < 0x1_0000;
      assert Join(t) == [t[0]] + Join(t[1..]);
      forall i | 0 <= i < |Join(t[1..])| ensures Join(t[1..])[i] < 0x1_0000 {
        assert Join(t)[i + 1] == Join(t[1..])[i];
      }
      JoinBasic(t[1..]);
    }
  }

  /** Python's order on strings: by code point, a proper prefix first. */
  predicate LexLe(a: Text, b: Text) {
    a == [] || (b != [] && (a[0] < b[0] || (a[0] == b[0] && LexLe(a[1..], b[1..]))))
  }

  /** At the first place where they differ, `a` has the lower code point. */
  ghost predicate DiffersBelow(a: Text, b: Text, i: nat) {
    i < |a| && i < |b| && a[..i] == b[..i] && a[i] < b[i]
  }

  /** The order is that of the first difference, and a prefix comes first. */
  lemma {:induction false} LexExactly(a: Text, b: Text)
    ensures LexLe(a, b) <==> a <= b || exists i: nat :: DiffersBelow(a, b, i)
  {
    if a == [] {
    } else if b == [] || a[0] > b[0] {
      forall i: nat ensures !DiffersBelow(a, b, i) {
        if b != [] { DiffersHead(a, b, i); }
      }
    } else if a[0] < b[0] {
      assert DiffersBelow(a, b, 0);
    } else {
      LexExactly(a[1..], b[1..]);
      LexSame(a, b);
    }
  }

  lemma DiffersHead(a: Text, b: Text, i: nat)
    requires a != [] && b != []
    ensures DiffersBelow(a, b, i) ==> a[0] <= b[0]
  {
    if i > 0 && DiffersBelow(a, b, i) { assert a[..i][0] == a[0] && b[..i][0] == b[0]; }
  }

  lemma LexSame(a: Text, b: Text)
    requires a != [] && b != [] && a[0] == b[0]
    ensures a <= b <==> a[1..] <= b[1..]
    ensures (exists i: nat :: DiffersBelow(a, b, i)) <==> exists i: nat :: DiffersBelow(a[1..], b[1..], i)
  {
    assert a == [a[0]] + a[1..] && b == [b[0]] + b[1..];
    if i: nat :| DiffersBelow(a, b, i) {
      assert a[1..][..i - 1] == a[..i][1..] == b[..i][1..] == b[1..][..i - 1];
      assert DiffersBelow(a[1..], b[1..], i - 1);
    }
    if i: nat :| DiffersBelow(a[1..], b[1..], i) {
      assert a[..i + 1] == [a[0]] + a[1..][..i] && b[..i + 1] == [b[0]] + b[1..][..i];
      assert DiffersBelow(a, b, i + 1);
    }
  }

  lemma {:induction false} LexTotal(a: Text, b: Text)
    ensures LexLe(a, b) || LexLe(b, a)
    ensures LexLe(a, b) && LexLe(b, a) ==> a == b
  {
    if a != [] && b != [] && a[0] == b[0] {
      LexTotal(a[1..], b[1..]);
      assert a == [a[0]] + a[1..] && b == [b[0]] + b[1..];
    }
  }

  lemma {:induction false} LexTrans(a: Text, b: Text, c: Text)
    requires LexLe(a, b) && LexLe(b, c)
    ensures LexLe(a, c)
  {
    if a != [] && a[0] == b[0] == c[0] {
      LexTrans(a[1..], b[1..], c[1..]);
    }
  }

  ghost predicate IsFirst(k: Text, ks: set<Text>) {
    k in ks && forall j | j in ks :: LexLe(k, j)
  }

  lemma {:induction false} FirstExists(ks: set<Text>)
    requires ks != {}
    ensures exists k :: IsFirst(k, ks)
  {
    var x :| x in ks;
    var rest := ks - {x};
    LexTotal(x, x);
    if rest == {} {
      assert ks == {x};
      assert IsFirst(x, ks);
    } else {
      FirstExists(rest);
      var y :| IsFirst(y, rest);
      LexTotal(x, y);
      if LexLe(x, y) {
        forall j | j in ks ensures LexLe(x, j) {
          if j != x { LexTrans(x, y, j); }
        }
        assert IsFirst(x, ks);
      } else {
        assert IsFirst(y, ks);
      }
    }
  }

  /** `sorted(ks)` */
  ghost function Sorted(ks: set<Text>): (r: seq<Text>)
    ensures |r| == |ks| && forall k :: k in r <==> k in ks
  {
    if ks == {} then []
    else
      FirstExists(ks);
      var k :| IsFirst(k, ks);
      [k] + Sorted(ks - {k})
  }

  lemma SortedHead(ks: set<Text>)
    requires ks != {}
    ensures var r := Sorted(ks); IsFirst(r[0], ks) && r[1..] == Sorted(ks - {r[0]})
  {
    FirstExists(ks);
  }

  /** Strictly ascending. */
  ghost predicate Ascends(r: seq<Text>) {
    forall i, j :: 0 <= i < j < |r| ==> LexLe(r[i], r[j]) && r[i] != r[j]
  }

  lemma AscendsCons(k: Text, r: seq<Text>)
    requires Ascends(r) && forall j :: j in r ==> LexLe(k, j) && k != j
    ensures Ascends([k] + r)
  {
    var s := [k] + r;
    forall i, j | 0 <= i < j < |s| ensures LexLe(s[i], s[j]) && s[i] != s[j] {
      assert s[j] == r[j - 1];
      if i > 0 { assert s[i] == r[i - 1]; }
    }
  }

  /** The list is strictly ascending. */
  lemma {:induction false} SortedAscends(ks: set<Text>)
    ensures Ascends(Sorted(ks))
  {
    if ks != {} {
      var r := Sorted(ks);
      SortedHead(ks);
      SortedAscends(ks - {r[0]});
      AscendsCons(r[0], r[1..]);
      assert r == [r[0]] + r[1..];
    }
  }

  lemma AscendsTail(r: seq<Text>, ks: set<Text>)
    requires Ascends(r) && r != [] && forall k :: k in r <==> k in ks
    ensures IsFirst(r[0], ks)
    ensures Ascends(r[1..]) && forall k :: k in r[1..] <==> k in ks - {r[0]}
  {
    LexTotal(r[0], r[0]);
    forall k | k in ks ensures LexLe(r[0], k) {
      var i :| 0 <= i < |r| && r[i] == k;
    }
    assert r == [r[0]] + r[1..];
    assert r[0] !in r[1..];
  }

  /** Sorting finds the only strictly ascending list. */
  lemma {:induction false} SortedUnique(r: seq<Text>, ks: set<Text>)
    requires Ascends(r) && forall k :: k in r <==> k in ks
    ensures r == Sorted(ks)
    decreases |r|
  {
    if r == [] {
      assert ks == {};
    } else {
      var s := Sorted(ks);
      assert r[0] in ks;
      SortedHead(ks);
      AscendsTail(r, ks);
      LexTotal(r[0], s[0]);
      SortedUnique(r[1..], ks - {r[0]});
      assert r == [r[0]] + r[1..] && s == [s[0]] + s[1..];
    }
  }
}
