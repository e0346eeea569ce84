/**
 What strings and numbers look like in JSON texts, written down without reference to the parser,
 and that the parser takes exactly these.
 */
module JsonTokens {
  import opened Wrappers
  import opened Text
  import opened Json

  // ---------- strings ----------

  /** One character of a string literal: itself, a backslash and a letter, or `\uXXXX`. */
  datatype Piece = Plain(c: CodePoint) | Short(i: nat) | Unit(digits: Text)

  const SHORT_LETTERS: Text := ['"' as int, '\\' as int, '/' as int, 'b' as int,
    'f' as int, 'n' as int, 'r' as int, 't' as int]
  const SHORT_MEANINGS: Text := [0x22, 0x5C, 0x2F, 0x08, 0x0C, 0x0A, 0x0D, 0x09]

  predicate IsHex(c: CodePoint) {
    '0' as int <= c <= '9' as int || 'a' as int <= c <= 'f' as int || 'A' as int <= c <= 'F' as int
  }

  function HexOf(c: CodePoint): (n: nat)
    requires IsHex(c)
    ensures n < 16
  {
    if c <= '9' as int then c - '0' as int
    else if c <= 'F' as int then c - 'A' as int + 10
    else c - 'a' as int + 10
  }

  predicate PieceOk(p: Piece) {
    match p
    case Plain(c) => c >= 0x20 && c != '"' as int && c != '\\' as int
    case Short(i) => i < 8
    case Unit(d) => |d| == 4 && IsHex(d[0]) && IsHex(d[1]) && IsHex(d[2]) && IsHex(d[3])
  }

  ghost predicate PiecesOk(ps: seq<Piece>) { forall i :: 0 <= i < |ps| ==> PieceOk(ps[i]) }

  function Spelling(p: Piece): Text
    requires PieceOk(p)
  {
    match p
    case Plain(c) => [c]
    case Short(i) => ['\\' as int, SHORT_LETTERS[i]]
    case Unit(d) => ['\\' as int, 'u' as int] + d
  }

  function CodeOf(p: Piece): (c: CodePoint)
    requires PieceOk(p)
    ensures p.Unit? ==> c < 0x1_0000
  {
    match p
    case Plain(c) => c
    case Short(i) => SHORT_MEANINGS[i]
    case Unit(d) => HexOf(d[0]) * 0x1000 + HexOf(d[1]) * 0x100 + HexOf(d[2]) * 0x10 + HexOf(d[3])
  }

  /** Two units that spell a surrogate pair. */
  predicate IsPair(ps: seq<Piece>)
    requires |ps| >= 2 ==> PieceOk(ps[0]) && PieceOk(ps[1])
  {
    |ps| >= 2 && ps[0].Unit? && ps[1].Unit? && High(CodeOf(ps[0])) && Low(CodeOf(ps[1]))
  }

  /** The string that the pieces spell: units that make a pair are one character. */
  ghost function Spelled(ps: seq<Piece>): Text
    requires PiecesOk(ps)
  {
    if ps == [] then []
    else if IsPair(ps) then [Pair(CodeOf(ps[0]), CodeOf(ps[1]))] + Spelled(ps[2..])
    else [CodeOf(ps[0])] + Spelled(ps[1..])
  }

  /** The pieces, the closing quote, and `tail`. */
  ghost function PiecesTo(ps: seq<Piece>, tail: Text): Text
    requires PiecesOk(ps)
  {
    if ps == [] then ['"' as int] + tail else Spelling(ps[0]) + PiecesTo(ps[1..], tail)
  }

  lemma HexAgrees(c: CodePoint)
    ensures HexVal(c) == if IsHex(c) then Some(HexOf(c)) else None
  {
  }

  lemma UnitRead(d: Text, rest: Text)
    requires PieceOk(Unit(d))
    ensures ReadU(Spelling(Unit(d)) + rest) == Some(CodeOf(Unit(d)))
    ensures (Spelling(Unit(d)) + rest)[6..] == rest
  {
    var s := Spelling(Unit(d)) + rest;
    assert s[2..] == d + rest;
    HexAgrees(d[0]);
    HexAgrees(d[1]);
    HexAgrees(d[2]);
    HexAgrees(d[3]);
  }

  lemma UnitFound(s: Text) returns (d: Text)
    requires ReadU(s).Some?
    ensures PieceOk(Unit(d)) && |s| >= 6 && s == Spelling(Unit(d)) + s[6..] && ReadU(s) == Some(CodeOf(Unit(d)))
  {
    ReadUBound(s);
    d := s[2..6];
    HexAgrees(s[2]);
    HexAgrees(s[3]);
    HexAgrees(s[4]);
    HexAgrees(s[5]);
    assert s == Spelling(Unit(d)) + s[6..];
    UnitRead(d, s[6..]);
  }

  lemma ShortAgrees(i: nat)
    requires i < 8
    ensures SHORT_LETTERS[i] != SMALL_U && ShortUnescape(SHORT_LETTERS[i]) == Some(SHORT_MEANINGS[i])
  {
  }

  lemma ShortFound(e: CodePoint) returns (i: nat)
    requires ShortUnescape(e).Some?
    ensures i < 8 && e == SHORT_LETTERS[i] && ShortUnescape(e) == Some(SHORT_MEANINGS[i])
  {
    i := if e == 0x22 then 0 else if e == 0x5C then 1 else if e == 0x2F then 2 else if e == 0x62 then 3
         else if e == 0x66 then 4 else if e == 0x6E then 5 else if e == 0x72 then 6 else 7;
  }

  /** What the pieces spell starts a unit exactly when the first piece is one. */
  lemma PiecesStart(ps: seq<Piece>, tail: Text)
    requires PiecesOk(ps)
    ensures StartsU(PiecesTo(ps, tail)) <==> ps != [] && ps[0].Unit?
    ensures ps != [] && ps[0].Unit? ==> ReadU(PiecesTo(ps, tail)) == Some(CodeOf(ps[0]))
  {
    if ps != [] {
      match ps[0]
      case Plain(c) =>
      case Short(i) => ShortAgrees(i);
      case Unit(d) => UnitRead(d, PiecesTo(ps[1..], tail));
    }
  }

  lemma PieceRead(p: Piece, rest: Text)
    requires PieceOk(p)
    requires p.Unit? && High(CodeOf(p)) ==> NoLowNext(rest)
    ensures Spelling(p) != [] && Spelling(p)[0] != QUOTE
    ensures ReadChar(Spelling(p) + rest) == Some((CodeOf(p), rest))
  {
    var s := Spelling(p) + rest;
    match p
    case Plain(c) => assert s[1..] == rest;
    case Short(i) =>
      ShortAgrees(i);
      assert s[2..] == rest;
    case Unit(d) => UnitRead(d, rest);
  }

  lemma PairRead(p: Piece, q: Piece, rest: Text)
    requires PieceOk(p) && PieceOk(q) && IsPair([p, q])
    ensures Spelling(p) != [] && Spelling(p)[0] != QUOTE
    ensures ReadChar(Spelling(p) + (Spelling(q) + rest)) == Some((Pair(CodeOf(p), CodeOf(q)), rest))
  {
    var more := Spelling(q) + rest;
    var s := Spelling(p) + more;
    UnitRead(p.digits, more);
    UnitRead(q.digits, rest);
    assert s[6..] == more && s[12..] == more[6..];
  }

  /** Spelled pieces are read as the string they spell. */
  lemma {:induction false} PiecesRead(ps: seq<Piece>, tail: Text)
    requires PiecesOk(ps)
    ensures ParseChars(PiecesTo(ps, tail)) == Some((Spelled(ps), tail))
    decreases |ps|
  {
    var s := PiecesTo(ps, tail);
    if ps == [] {
      assert s[1..] == tail;
    } else if IsPair(ps) {
      var more := PiecesTo(ps[2..], tail);
      assert ps[1..][1..] == ps[2..];
      assert s == Spelling(ps[0]) + (Spelling(ps[1]) + more);
      assert IsPair([ps[0], ps[1]]);
      PairRead(ps[0], ps[1], more);
      PiecesRead(ps[2..], tail);
      ParseCharsStep(s, Pair(CodeOf(ps[0]), CodeOf(ps[1])), more, Spelled(ps[2..]), tail);
    } else {
      var more := PiecesTo(ps[1..], tail);
      PiecesStart(ps[1..], tail);
      PieceRead(ps[0], more);
      PiecesRead(ps[1..], tail);
      ParseCharsStep(s, CodeOf(ps[0]), more, Spelled(ps[1..]), tail);
    }
  }

  lemma PiecesCons(p: Piece, ps: seq<Piece>, tail: Text)
    requires PieceOk(p) && PiecesOk(ps)
    ensures PiecesOk([p] + ps) && PiecesTo([p] + ps, tail) == Spelling(p) + PiecesTo(ps, tail)
    ensures Spelled([p] + ps) ==
      if IsPair([p] + ps) then [Pair(CodeOf(p), CodeOf(ps[0]))] + Spelled(ps[1..]) else [CodeOf(p)] + Spelled(ps)
  {
    var all := [p] + ps;
    assert all[1..] == ps;
    if ps != [] { assert all[2..] == ps[1..]; }
  }

  /** One piece, or the two of a pair, for each character that is read. */
  lemma CharFound(s: Text) returns (p: Piece, q: Option<Piece>)
    requires s != [] && s[0] != QUOTE && ReadChar(s).Some?
    ensures PieceOk(p)
    ensures var (c, s1) := ReadChar(s).value;
      if q.None? then c == CodeOf(p) && s == Spelling(p) + s1 && (p.Unit? && High(c) ==> NoLowNext(s1))
      else
        && PieceOk(q.value) && IsPair([p, q.value]) && c == Pair(CodeOf(p), CodeOf(q.value))
        && s == Spelling(p) + (Spelling(q.value) + s1)
  {
    var (c, s1) := ReadChar(s).value;
    q := None;
    if s[0] != BACKSLASH {
      p := Plain(s[0]);
    } else if s[1] != SMALL_U {
      var i := ShortFound(s[1]);
      p := Short(i);
    } else {
      var d := UnitFound(s);
      p := Unit(d);
      var u := CodeOf(p);
      if High(u) && StartsU(s[6..]) {
        var e := UnitFound(s[6..]);
        if Low(CodeOf(Unit(e))) {
          q := Some(Unit(e));
          assert s[12..] == s[6..][6..];
        }
      }
    }
  }

  /** A string that is read was spelled. */
  lemma {:induction false} PiecesFound(s: Text) returns (ps: seq<Piece>)
    requires ParseChars(s).Some?
    ensures PiecesOk(ps) && s == PiecesTo(ps, ParseChars(s).value.1) && ParseChars(s).value.0 == Spelled(ps)
    decreases |s|
  {
    var (t, rest) := ParseChars(s).value;
    if s[0] == QUOTE {
      ps := [];
    } else {
      var (c, s1) := ReadChar(s).value;
      var p, q := CharFound(s);
      var qs := PiecesFound(s1);
      if q.None? {
        ps := [p] + qs;
        PiecesCons(p, qs, rest);
        PiecesStart(qs, rest);
      } else {
        PiecesCons(q.value, qs, rest);
        PiecesCons(p, [q.value] + qs, rest);
        assert ([q.value] + qs)[1..] == qs;
        ps := [p] + ([q.value] + qs);
      }
    }
  }

  // ---------- numbers ----------

  predicate IsDecimal(c: CodePoint) { '0' as int <= c <= '9' as int }

  ghost predicate AllDecimal(t: Text) { forall i :: 0 <= i < |t| ==> IsDecimal(t[i]) }

  /** An optional sign, the whole part, an optional fraction, and an optional exponent behind its mark. */
  datatype Numeral = Numeral(negative: bool, whole: Text, fraction: Text, mark: Text, exponent: Text)

  const MARKS: set<Text> := {
    ['e' as int], ['E' as int], ['e' as int, '+' as int], ['E' as int, '+' as int],
    ['e' as int, '-' as int], ['E' as int, '-' as int]
  }

  /** No leading zero, and an exponent exactly behind a mark. */
  ghost predicate NumeralOk(n: Numeral) {
    && n.whole != [] && AllDecimal(n.whole) && (n.whole[0] == '0' as int ==> |n.whole| == 1)
    && AllDecimal(n.fraction)
    && (if n.mark == [] then n.exponent == [] else n.mark in MARKS && n.exponent != [] && AllDecimal(n.exponent))
  }

  function Fraction(n: Numeral): Text { if n.fraction == [] then [] else ['.' as int] + n.fraction }

  function Sign(negative: bool): Text { if negative then ['-' as int] else [] }

  function NumeralText(n: Numeral): Text { Sign(n.negative) + n.whole + Fraction(n) + n.mark + n.exponent }

  ghost predicate IsNumeral(tok: Text) { exists n :: NumeralOk(n) && NumeralText(n) == tok }

  /** What Python takes for a number. */
  ghost predicate IsNumber(tok: Text) {
    IsNumeral(tok) || tok == NAN || tok == INFINITY || tok == NEG_INFINITY
  }

  lemma {:induction false} DigitsOf(t: Text, rest: Text)
    requires AllDecimal(t) && (rest == [] || !IsDecimal(rest[0]))
    ensures Digits(t + rest) == |t|
  {
    if t == [] {
      assert t + rest == rest;
    } else {
      DigitsOf(t[1..], rest);
      assert (t + rest)[1..] == t[1..] + rest;
    }
  }

  lemma {:induction false} DigitsAre(s: Text)
    ensures AllDecimal(s[..Digits(s)])
    ensures Digits(s) < |s| ==> !IsDecimal(s[Digits(s)])
  {
    if s != [] && IsDigit(s[0]) {
      DigitsAre(s[1..]);
      var d := Digits(s[1..]);
      forall i | 0 <= i < d + 1 ensures IsDecimal(s[i]) {
        if i > 0 { assert s[1..][..d][i - 1] == s[i]; }
      }
    }
  }

  lemma ExponentRead(mark: Text, exponent: Text)
    requires mark in MARKS && exponent != [] && AllDecimal(exponent)
    ensures ExpLen(mark + exponent) == |mark| + |exponent|
  {
    var t := mark + exponent;
    assert t[|mark|..] == exponent;
    DigitsOf(exponent, []);
    assert exponent + [] == exponent;
    assert IsDecimal(exponent[0]);
  }

  /** What stands behind the whole part. */
  function Behind(n: Numeral): Text { Fraction(n) + (n.mark + n.exponent) }

  lemma FractionRead(n: Numeral, e: Text)
    requires AllDecimal(n.fraction) && (e == [] || e[0] == 'e' as int || e[0] == 'E' as int)
    ensures FracLen(Fraction(n) + e) == |Fraction(n)|
    ensures (Fraction(n) + e)[|Fraction(n)|..] == e
    ensures Fraction(n) + e == [] || !IsDecimal((Fraction(n) + e)[0])
  {
    if n.fraction == [] {
      assert Fraction(n) + e == e;
    } else {
      assert (Fraction(n) + e)[1..] == n.fraction + e;
      DigitsOf(n.fraction, e);
    }
  }

  lemma MarkRead(n: Numeral)
    requires NumeralOk(n)
    ensures var e := n.mark + n.exponent;
      ExpLen(e) == |e| && (e == [] || e[0] == 'e' as int || e[0] == 'E' as int)
  {
    if n.mark != [] { ExponentRead(n.mark, n.exponent); }
  }

  lemma BehindRead(n: Numeral)
    requires NumeralOk(n)
    ensures TailLen(Behind(n)) == |Behind(n)|
    ensures Behind(n) == [] || !IsDecimal(Behind(n)[0])
  {
    MarkRead(n);
    FractionRead(n, n.mark + n.exponent);
  }

  lemma WholeRead(negative: bool, whole: Text, b: Text)
    requires whole != [] && AllDecimal(whole) && (whole[0] == '0' as int ==> |whole| == 1)
    requires b == [] || !IsDecimal(b[0])
    ensures var sign, t := Sign(negative), Sign(negative) + (whole + b);
      IntLen(t) == |sign| + |whole| && t[|sign| + |whole|..] == b
  {
    var sign, t := Sign(negative), Sign(negative) + (whole + b);
    assert t[|sign|..] == whole + b;
    DigitsOf(whole, b);
    assert IsDecimal(whole[0]) && t[|sign|] == whole[0];
  }

  lemma NumeralRead(n: Numeral)
    requires NumeralOk(n)
    ensures NumeralText(n) != [] && DecimalLen(NumeralText(n)) == |NumeralText(n)|
  {
    var b := Behind(n);
    BehindRead(n);
    WholeRead(n.negative, n.whole, b);
    Joined(n);
  }

  lemma Joined(n: Numeral)
    ensures NumeralText(n) == Sign(n.negative) + (n.whole + Behind(n))
    ensures NumeralText(n) == (Sign(n.negative) + n.whole) + Fraction(n) + (n.mark + n.exponent)
  {
  }

  lemma ExponentFound(s: Text) returns (mark: Text, exponent: Text)
    ensures s[..ExpLen(s)] == mark + exponent
    ensures if mark == [] then exponent == [] else mark in MARKS && exponent != [] && AllDecimal(exponent)
  {
    mark, exponent := [], [];
    var l := ExpLen(s);
    if l > 0 {
      var k := if s[1] == 0x2B || s[1] == 0x2D then 2 else 1;
      mark, exponent := s[..k], s[k..l];
      DigitsAre(s[k..]);
      assert s[k..][..l - k] == exponent;
      assert s[..l] == mark + exponent;
      assert mark == [s[0]] || mark == [s[0], s[1]];
    }
  }

  lemma FractionFound(s: Text) returns (fraction: Text)
    ensures AllDecimal(fraction)
    ensures s[..FracLen(s)] == if fraction == [] then [] else ['.' as int] + fraction
  {
    fraction := [];
    var l := FracLen(s);
    if l > 0 {
      fraction := s[1..l];
      DigitsAre(s[1..]);
      assert s[1..][..l - 1] == fraction;
    }
  }

  lemma WholeFound(s: Text) returns (negative: bool, whole: Text)
    requires IntLen(s) > 0
    ensures whole != [] && AllDecimal(whole) && (whole[0] == '0' as int ==> |whole| == 1)
    ensures s[..IntLen(s)] == Sign(negative) + whole
  {
    negative := s[0] == 0x2D;
    var m := if negative then 1 else 0;
    whole := s[m..IntLen(s)];
    DigitsAre(s[m..]);
    var d := Digits(s[m..]);
    forall i | 0 <= i < |whole| ensures IsDecimal(whole[i]) {
      assert whole[i] == s[m..][..d][i];
    }
  }

  lemma NumeralFound(s: Text) returns (n: Numeral)
    requires DecimalLen(s) > 0
    ensures NumeralOk(n) && NumeralText(n) == s[..DecimalLen(s)]
  {
    var i := IntLen(s);
    var negative, whole := WholeFound(s);
    var fraction := FractionFound(s[i..]);
    var f := FracLen(s[i..]);
    var mark, exponent := ExponentFound(s[i..][f..]);
    n := Numeral(negative, whole, fraction, mark, exponent);
    ThreeParts(s, i, f, ExpLen(s[i..][f..]));
    Joined(n);
  }

  lemma ThreeParts(s: Text, i: nat, f: nat, l: nat)
    requires i + f + l <= |s|
    ensures s[..i + f + l] == s[..i] + s[i..][..f] + s[i..][f..][..l]
  {
    assert s[i..][f..] == s[i + f..];
  }

  lemma WordChars()
    ensures Chars("NaN") == NAN && Chars("Infinity") == INFINITY && Chars("-Infinity") == NEG_INFINITY
    ensures NULL == Chars("null") && TRUE == Chars("true") && FALSE == Chars("false")
  {
  }

  /** The scanner takes a whole token for a number exactly when it is one. */
  lemma NumberExactly(tok: Text)
    ensures ValidNumber(tok) <==> IsNumber(tok)
  {
    if IsNumeral(tok) { NumeralValid(tok); }
    if ValidNumber(tok) {
      NumberFound(tok);
      assert tok[..|tok|] == tok;
    }
  }

  lemma NumeralValid(tok: Text)
    requires IsNumeral(tok)
    ensures ValidNumber(tok)
  {
    var n :| NumeralOk(n) && NumeralText(n) == tok;
    NumeralRead(n);
  }

  /** What the scanner takes from any text is a number. */
  lemma NumberFound(s: Text)
    requires NumLen(s) > 0
    ensures IsNumber(s[..NumLen(s)])
  {
    if DecimalLen(s) > 0 {
      var n := NumeralFound(s);
      assert IsNumeral(s[..NumLen(s)]);
    }
  }
}
