/**
 `json.dumps(v, sort_keys=True, separators=(",", ":"))` and `json.loads`, as the signed
 envelopes and the audit chain use them. Numbers are opaque tokens: `canon` stands for
 Python reading a number and printing it again.
 */
module Json {
  import opened Wrappers
  import opened Text

  datatype Json =
    | Null
    | Bool(b: bool)
    | Num(tok: Text)
    | Str(s: Text)
    | Arr(items: seq<Json>)
    | Obj(fields: map<Text, Json>)

  const NULL: Text := [0x6E, 0x75, 0x6C, 0x6C] // null
  const TRUE: Text := [0x74, 0x72, 0x75, 0x65] // true
  const FALSE: Text := [0x66, 0x61, 0x6C, 0x73, 0x65] // false
  const NAN: Text := [0x4E, 0x61, 0x4E] // NaN
  const INFINITY: Text := [0x49, 0x6E, 0x66, 0x69, 0x6E, 0x69, 0x74, 0x79] // Infinity
  const NEG_INFINITY: Text := [0x2D, 0x49, 0x6E, 0x66, 0x69, 0x6E, 0x69, 0x74, 0x79] // -Infinity

  const QUOTE: CodePoint := 0x22
  const BACKSLASH: CodePoint := 0x5C
  const COMMA: CodePoint := 0x2C
  const COLON: CodePoint := 0x3A
  const LBRACKET: CodePoint := 0x5B
  const RBRACKET: CodePoint := 0x5D
  const LBRACE: CodePoint := 0x7B
  const RBRACE: CodePoint := 0x7D
  const SMALL_U: CodePoint := 0x75

  // ---------- strings: printing ----------

  function HexDigit(n: nat): CodePoint
    requires n < 16
  {
    if n < 10 then 0x30 + n else 0x57 + n
  }

  function HexVal(c: CodePoint): Option<nat> {
    if 0x30 <= c <= 0x39 then Some(c - 0x30)
    else if 0x61 <= c <= 0x66 then Some(c - 0x57)
    else if 0x41 <= c <= 0x46 then Some(c - 0x37)
    else None
  }

  function Hex4(n: nat): Text
    requires n < 0x1_0000
  {
    [HexDigit(n / 16 / 16 / 16), HexDigit(n / 16 / 16 % 16), HexDigit(n / 16 % 16), HexDigit(n % 16)]
  }

  /** The letter after the backslash, for the characters that have a short escape. */
  function ShortEscape(c: CodePoint): Option<CodePoint> {
    if c == 0x22 then Some(0x22)
    else if c == 0x5C then Some(0x5C)
    else if c == 0x0A then Some(0x6E)
    else if c == 0x0D then Some(0x72)
    else if c == 0x09 then Some(0x74)
    else if c == 0x0C then Some(0x66)
    else if c == 0x08 then Some(0x62)
    else None
  }

  function ShortUnescape(e: CodePoint): Option<CodePoint> {
    if e == 0x22 then Some(0x22)
    else if e == 0x5C then Some(0x5C)
    else if e == 0x2F then Some(0x2F)
    else if e == 0x62 then Some(0x08)
    else if e == 0x66 then Some(0x0C)
    else if e == 0x6E then Some(0x0A)
    else if e == 0x72 then Some(0x0D)
    else if e == 0x74 then Some(0x09)
    else None
  }

  function HiOf(c: CodePoint): CodePoint
    requires c >= 0x1_0000
  {
    0xD800 + (c - 0x1_0000) / 0x400
  }

  function LoOf(c: CodePoint): CodePoint
    requires c >= 0x1_0000
  {
    0xDC00 + (c - 0x1_0000) % 0x400
  }

  function UEscape(n: nat): Text
    requires n < 0x1_0000
  {
    [BACKSLASH, SMALL_U] + Hex4(n)
  }

  function EscapeChar(c: CodePoint): Text {
    if ShortEscape(c).Some? then [BACKSLASH, ShortEscape(c).value]
    else if 0x20 <= c <= 0x7E then [c]
    else if c < 0x1_0000 then UEscape(c)
    else UEscape(HiOf(c)) + UEscape(LoOf(c))
  }

  /** The literal of `t` after its opening quote, followed by `tail`. */
  function EscapeTo(t: Text, tail: Text): Text {
    if t == [] then [QUOTE] + tail else EscapeChar(t[0]) + EscapeTo(t[1..], tail)
  }

  // ---------- strings: parsing ----------

  function ParseHex4(s: Text): Option<nat>
  {
    if |s| < 4 then None
    else
      match (HexVal(s[0]), HexVal(s[1]), HexVal(s[2]), HexVal(s[3]))
      case (Some(a), Some(b), Some(c), Some(d)) => Some(((a * 16 + b) * 16 + c) * 16 + d)
      case _ => None
  }

  /** A `\uXXXX` escape at the head of `s`. */
  function ReadU(s: Text): Option<nat>
  {
    if |s| >= 2 && s[0] == BACKSLASH && s[1] == SMALL_U then ParseHex4(s[2..]) else None
  }

  predicate StartsU(s: Text) { |s| >= 2 && s[0] == BACKSLASH && s[1] == SMALL_U }

  lemma ReadUBound(s: Text)
    ensures ReadU(s).Some? ==> |s| >= 6 && ReadU(s).value < 0x1_0000
  {
  }

  /** One character of a string literal; `s` is not at the closing quote. */
  function ReadChar(s: Text): (r: Option<(CodePoint, Text)>)
    requires s != [] && s[0] != QUOTE
    ensures r.Some? ==> |r.value.1| < |s|
  {
    if s[0] != BACKSLASH then
      (if s[0] < 0x20 then None else Some((s[0], s[1..])))
    else if |s| < 2 then None
    else if s[1] != SMALL_U then
      (match ShortUnescape(s[1])
       case None => None
       case Some(c) => Some((c, s[2..])))
    else
      match ReadU(s)
      case None => None
      case Some(u) =>
        ReadUBound(s);
        if High(u) && StartsU(s[6..]) then
          (match ReadU(s[6..])
           case None => None
           case Some(v) =>
             ReadUBound(s[6..]);
             if Low(v) then Some((Pair(u, v), s[12..])) else Some((u, s[6..])))
        else Some((u, s[6..]))
  }

  /** The rest of a string literal, up to and past its closing quote. */
  function ParseChars(s: Text): (r: Option<(Text, Text)>)
    ensures r.Some? ==> |r.value.1| < |s|
    decreases |s|
  {
    if s == [] then None
    else if s[0] == QUOTE then Some(([], s[1..]))
    else
      match ReadChar(s)
      case None => None
      case Some((c, s1)) =>
        match ParseChars(s1)
        case None => None
        case Some((t, s2)) => Some(([c] + t, s2))
  }

  // ---------- strings: the two are inverse up to Join ----------

  lemma HexDigitVal(n: nat)
    requires n < 16
    ensures HexVal(HexDigit(n)) == Some(n)
  {
  }

  lemma Hex4Round(n: nat, rest: Text)
    requires n < 0x1_0000
    ensures ParseHex4(Hex4(n) + rest) == Some(n)
  {
    HexDigitVal(n / 16 / 16 / 16);
    HexDigitVal(n / 16 / 16 % 16);
    HexDigitVal(n / 16 % 16);
    HexDigitVal(n % 16);
  }

  lemma ReadUEscape(n: nat, rest: Text)
    requires n < 0x1_0000
    ensures ReadU(UEscape(n) + rest) == Some(n)
    ensures (UEscape(n) + rest)[6..] == rest
  {
    var s := UEscape(n) + rest;
    assert s[2..] == Hex4(n) + rest;
    Hex4Round(n, rest);
  }

  /** What follows cannot be taken for the second half of a surrogate pair. */
  predicate NoLowNext(s: Text) {
    StartsU(s) ==> ReadU(s).Some? && !(ReadU(s).value < 0x11_0000 && Low(ReadU(s).value))
  }

  lemma ReadEscaped(c: CodePoint, rest: Text)
    requires High(c) ==> NoLowNext(rest)
    ensures EscapeChar(c) != [] && EscapeChar(c)[0] != QUOTE
    ensures ReadChar(EscapeChar(c) + rest) == Some((c, rest))
  {
    var s := EscapeChar(c) + rest;
    if ShortEscape(c).Some? {
      assert s[2..] == rest;
    } else if 0x20 <= c <= 0x7E {
      assert s[1..] == rest;
    } else if c < 0x1_0000 {
      ReadUEscape(c, rest);
    } else {
      var tail := UEscape(LoOf(c)) + rest;
      assert s == UEscape(HiOf(c)) + tail;
      ReadUEscape(HiOf(c), tail);
      ReadUEscape(LoOf(c), rest);
      assert s[12..] == s[6..][6..];
      assert High(HiOf(c)) && Low(LoOf(c)) && Pair(HiOf(c), LoOf(c)) == c;
    }
  }

  lemma PairCode(hi: CodePoint, lo: CodePoint)
    requires High(hi) && Low(lo)
    ensures HiOf(Pair(hi, lo)) == hi && LoOf(Pair(hi, lo)) == lo
  {
  }

  lemma EscapePair(hi: CodePoint, lo: CodePoint)
    requires High(hi) && Low(lo)
    ensures EscapeChar(Pair(hi, lo)) == EscapeChar(hi) + EscapeChar(lo)
  {
    PairCode(hi, lo);
    assert EscapeChar(hi) == UEscape(hi);
    assert EscapeChar(lo) == UEscape(lo);
  }

  lemma ReadPair(hi: CodePoint, lo: CodePoint, rest: Text)
    requires High(hi) && Low(lo)
    ensures EscapeChar(hi)[0] != QUOTE
    ensures ReadChar(EscapeChar(hi) + EscapeChar(lo) + rest) == Some((Pair(hi, lo), rest))
  {
    EscapePair(hi, lo);
    ReadEscaped(Pair(hi, lo), rest);
  }

  lemma EscapeTwo(t: Text, tail: Text)
    requires |t| >= 2
    ensures EscapeTo(t, tail) == EscapeChar(t[0]) + EscapeChar(t[1]) + EscapeTo(t[2..], tail)
  {
    assert t[1..][1..] == t[2..];
    assert EscapeTo(t[1..], tail) == EscapeChar(t[1]) + EscapeTo(t[2..], tail);
  }

  lemma UEscapeNoLow(n: CodePoint, rest: Text)
    requires n < 0x1_0000 && !Low(n)
    ensures NoLowNext(UEscape(n) + rest)
  {
    ReadUEscape(n, rest);
  }

  lemma PlainNoLow(c: CodePoint, rest: Text)
    requires ShortEscape(c).Some? || 0x20 <= c <= 0x7E
    ensures NoLowNext(EscapeChar(c) + rest)
  {
  }

  lemma PairNoLow(c: CodePoint, rest: Text)
    requires c >= 0x1_0000
    ensures NoLowNext(EscapeChar(c) + rest)
  {
    assert EscapeChar(c) + rest == UEscape(HiOf(c)) + (UEscape(LoOf(c)) + rest);
    UEscapeNoLow(HiOf(c), UEscape(LoOf(c)) + rest);
  }

  lemma EscapedNoLow(t: Text, tail: Text)
    requires !StartsLow(t)
    ensures NoLowNext(EscapeTo(t, tail))
  {
    if t != [] {
      var c := t[0];
      var more := EscapeTo(t[1..], tail);
      if ShortEscape(c).Some? || 0x20 <= c <= 0x7E {
        PlainNoLow(c, more);
      } else if c < 0x1_0000 {
        UEscapeNoLow(c, more);
      } else {
        PairNoLow(c, more);
      }
    }
  }

  /** `s` reads as the character `c` and then as a literal with the characters `t`. */
  lemma ParseCharsStep(s: Text, c: CodePoint, s1: Text, t: Text, rest: Text)
    requires s != [] && s[0] != QUOTE && ReadChar(s) == Some((c, s1)) && ParseChars(s1) == Some((t, rest))
    ensures ParseChars(s) == Some(([c] + t, rest))
  {
  }

  /** Reading a printed string gives it back with adjacent surrogates fused. */
  lemma {:induction false} ParseEscaped(t: Text, tail: Text)
    ensures ParseChars(EscapeTo(t, tail)) == Some((Join(t), tail))
    decreases |t|
  {
    var s := EscapeTo(t, tail);
    if t == [] {
      assert s[1..] == tail;
    } else if |t| >= 2 && High(t[0]) && Low(t[1]) {
      var more := EscapeTo(t[2..], tail);
      EscapeTwo(t, tail);
      ReadPair(t[0], t[1], more);
      ParseEscaped(t[2..], tail);
      ParseCharsStep(s, Pair(t[0], t[1]), more, Join(t[2..]), tail);
    } else {
      var more := EscapeTo(t[1..], tail);
      if High(t[0]) { EscapedNoLow(t[1..], tail); }
      ReadEscaped(t[0], more);
      ParseEscaped(t[1..], tail);
      ParseCharsStep(s, t[0], more, Join(t[1..]), tail);
    }
  }

  /** Fusing surrogates does not change what is printed. */
  lemma {:induction false} EscapeJoin(t: Text, tail: Text)
    ensures EscapeTo(Join(t), tail) == EscapeTo(t, tail)
    decreases |t|
  {
    if t == [] {
    } else if |t| >= 2 && High(t[0]) && Low(t[1]) {
      EscapeJoin(t[2..], tail);
      EscapeTwo(t, tail);
      EscapePair(t[0], t[1]);
      assert Join(t)[1..] == Join(t[2..]);
    } else {
      EscapeJoin(t[1..], tail);
      assert Join(t)[1..] == Join(t[1..]);
    }
  }

  // ---------- numbers ----------

  predicate IsDigit(c: CodePoint) { 0x30 <= c <= 0x39 }

  /** Length of the leading run of digits. */
  function Digits(s: Text): (n: nat)
    ensures n <= |s|
  {
    if s != [] && IsDigit(s[0]) then 1 + Digits(s[1..]) else 0
  }

  /** `-?(0|[1-9]\d*)`, or 0 when it does not match. */
  function IntLen(s: Text): (n: nat)
    ensures n <= |s|
  {
    var m := if s != [] && s[0] == 0x2D then 1 else 0;
    var d := Digits(s[m..]);
    if d == 0 then 0 else if s[m] == 0x30 then m + 1 else m + d
  }

  /** `(\.\d+)?` */
  function FracLen(s: Text): (n: nat)
    ensures n <= |s|
  {
    if s != [] && s[0] == 0x2E && Digits(s[1..]) > 0 then 1 + Digits(s[1..]) else 0
  }

  /** `([eE][-+]?\d+)?` */
  function ExpLen(s: Text): (n: nat)
    ensures n <= |s|
  {
    if s != [] && (s[0] == 0x65 || s[0] == 0x45) then
      var m := if |s| > 1 && (s[1] == 0x2B || s[1] == 0x2D) then 2 else 1;
      var d := Digits(s[m..]);
      if d > 0 then m + d else 0
    else 0
  }

  /** The fraction and the exponent. */
  function TailLen(s: Text): (n: nat)
    ensures n <= |s|
  {
    var f := FracLen(s);
    f + ExpLen(s[f..])
  }

  function DecimalLen(s: Text): (n: nat)
    ensures n <= |s|
  {
    var i := IntLen(s);
    if i == 0 then 0 else i + TailLen(s[i..])
  }

  /** How much of `s` the scanner takes for a number; 0 for none. */
  function NumLen(s: Text): (n: nat)
    ensures n <= |s|
  {
    if DecimalLen(s) > 0 then DecimalLen(s)
    else if NAN <= s then 3
    else if INFINITY <= s then 8
    else if NEG_INFINITY <= s then 9
    else 0
  }

  predicate ValidNumber(tok: Text) { tok != [] && NumLen(tok) == |tok| }

  predicate IsSpace(c: CodePoint) { c == 0x20 || c == 0x09 || c == 0x0A || c == 0x0D }

  /** What may follow a value. */
  predicate Delimited(rest: Text) {
    rest == [] || IsSpace(rest[0]) || rest[0] == COMMA || rest[0] == RBRACKET || rest[0] == RBRACE
  }

  lemma {:induction false} DigitsApp(t: Text, rest: Text)
    requires Delimited(rest)
    ensures Digits(t + rest) == Digits(t)
  {
    if t == [] {
      assert t + rest == rest;
    } else {
      DigitsApp(t[1..], rest);
      assert (t + rest)[1..] == t[1..] + rest;
    }
  }

  lemma TailApp(t: Text, rest: Text)
    requires Delimited(rest)
    ensures TailLen(t + rest) == TailLen(t)
  {
    FracApp(t, rest);
    var f := FracLen(t);
    assert (t + rest)[f..] == t[f..] + rest;
    ExpApp(t[f..], rest);
  }

  lemma DecimalApp(t: Text, rest: Text)
    requires Delimited(rest)
    ensures DecimalLen(t + rest) == DecimalLen(t)
  {
    IntApp(t, rest);
    var i := IntLen(t);
    assert (t + rest)[i..] == t[i..] + rest;
    TailApp(t[i..], rest);
  }

  lemma IntApp(t: Text, rest: Text)
    requires Delimited(rest)
    ensures IntLen(t + rest) == IntLen(t)
  {
    var s := t + rest;
    if t == [] {
      assert s == rest && !(s != [] && s[0] == 0x2D) && s[0..] == rest;
      DigitsApp([], rest);
      assert [] + rest == rest;
    } else {
      var m := if t[0] == 0x2D then 1 else 0;
      assert s[0] == t[0] && s[m..] == t[m..] + rest;
      DigitsApp(t[m..], rest);
      if Digits(t[m..]) > 0 { assert s[m] == t[m]; }
    }
  }

  lemma FracApp(t: Text, rest: Text)
    requires Delimited(rest)
    ensures FracLen(t + rest) == FracLen(t)
  {
    if t == [] {
      assert t + rest == rest;
    } else {
      assert (t + rest)[1..] == t[1..] + rest;
      DigitsApp(t[1..], rest);
    }
  }

  lemma ExpApp(t: Text, rest: Text)
    requires Delimited(rest)
    ensures ExpLen(t + rest) == ExpLen(t)
  {
    if t == [] {
      assert t + rest == rest;
    } else {
      var m := if |t| > 1 && (t[1] == 0x2B || t[1] == 0x2D) then 2 else 1;
      assert (t + rest)[m..] == t[m..] + rest;
      DigitsApp(t[m..], rest);
    }
  }

  /** A printed number is read back whole, whatever delimiter follows it. */
  lemma NumberRead(tok: Text, rest: Text)
    requires ValidNumber(tok) && Delimited(rest)
    ensures NumLen(tok + rest) == |tok|
    ensures tok[0] == 0x2D || IsDigit(tok[0]) || tok[0] == 0x4E || tok[0] == 0x49
  {
    DecimalApp(tok, rest);
    NumberKinds(tok);
  }

  lemma NumberKinds(tok: Text)
    requires ValidNumber(tok)
    ensures DecimalLen(tok) == |tok| || tok == NAN || tok == INFINITY || tok == NEG_INFINITY
  {
  }

  predicate IsSmall(c: CodePoint) { 0x61 <= c <= 0x7A }

  // ---------- values: printing ----------

  /** The compact text of `v` followed by `tail`; members come in ascending order of their keys. */
  ghost function PrintTo(v: Json, tail: Text): Text
    decreases v, 1, 0
  {
    match v
    case Null => NULL + tail
    case Bool(b) => (if b then TRUE else FALSE) + tail
    case Num(tok) => tok + tail
    case Str(s) => [QUOTE] + EscapeTo(s, tail)
    case Arr(items) =>
      [LBRACKET] + (if items == [] then [RBRACKET] + tail else ItemsTo(items, tail))
    case Obj(fields) =>
      var ks := Sorted(fields.Keys);
      [LBRACE] + (if ks == [] then [RBRACE] + tail else FieldsTo(v, ks, tail))
  }

  /** The elements of a non-empty array, its closing bracket, and `tail`. */
  ghost function ItemsTo(items: seq<Json>, tail: Text): Text
    requires items != []
    decreases items, 0, 0
  {
    PrintTo(items[0], if |items| == 1 then [RBRACKET] + tail else [COMMA] + ItemsTo(items[1..], tail))
  }

  /** The members of the object `v` at the keys `ks`, its closing brace, and `tail`. */
  ghost function FieldsTo(v: Json, ks: seq<Text>, tail: Text): Text
    requires v.Obj? && ks != [] && forall k :: k in ks ==> k in v.fields
    decreases v, 0, |ks|
  {
    FieldTo(v, ks[0], if |ks| == 1 then [RBRACE] + tail else [COMMA] + FieldsTo(v, ks[1..], tail))
  }

  ghost function FieldTo(v: Json, k: Text, tail: Text): Text
    requires v.Obj? && k in v.fields
    decreases v, 0, 0
  {
    [QUOTE] + EscapeTo(k, [COLON] + PrintTo(v.fields[k], tail))
  }

  /** `json.dumps(v, sort_keys=True, separators=(",", ":"))` */
  ghost function Print(v: Json): Text { PrintTo(v, []) }

  // ---------- values: parsing ----------

  function SkipWs(s: Text): (r: Text)
    ensures |r| <= |s|
  {
    if s != [] && IsSpace(s[0]) then SkipWs(s[1..]) else s
  }

  type Canon = Text -> Text

  /** A value as it is read, with the members of each object in the order of the text. */
  datatype Tree =
    | Leaf(v: Json)
    | Items(items: seq<Tree>)
    | Members(members: seq<Member>)

  datatype Member = Member(key: Text, value: Tree)

  /** The value that a tree stands for. */
  function ToJson(t: Tree): Json
    decreases t, 0
  {
    match t
    case Leaf(v) => v
    case Items(items) => Arr(seq(|items|, i requires 0 <= i < |items| => ToJson(items[i])))
    case Members(members) => Obj(ToMap(members))
  }

  /** The dictionary filled with the members in turn: the last of equal keys wins. */
  function ToMap(ms: seq<Member>): map<Text, Json>
    decreases ms, 0
  {
    if ms == [] then map[] else map[ms[0].key := ToJson(ms[0].value)] + ToMap(ms[1..])
  }

  function ParseStr(s: Text): (r: Option<(Tree, Text)>)
    ensures r.Some? ==> |r.value.1| < |s|
  {
    match ParseChars(s)
    case None => None
    case Some((t, rest)) => Some((Leaf(Str(t)), rest))
  }

  /** `null`, `true`, `false` or a number. */
  function ParseAtom(canon: Canon, s: Text): (r: Option<(Tree, Text)>)
    ensures r.Some? ==> |r.value.1| < |s|
  {
    if NULL <= s then Some((Leaf(Null), s[4..]))
    else if TRUE <= s then Some((Leaf(Bool(true)), s[4..]))
    else if FALSE <= s then Some((Leaf(Bool(false)), s[5..]))
    else if NumLen(s) > 0 then Some((Leaf(Num(canon(s[..NumLen(s)]))), s[NumLen(s)..]))
    else None
  }

  /** One value at the head of `s`, and what follows it. */
  function ParseValue(canon: Canon, s: Text): (r: Option<(Tree, Text)>)
    ensures r.Some? ==> |r.value.1| < |s|
    decreases |s|, 0
  {
    if s == [] then None
    else if s[0] == QUOTE then ParseStr(s[1..])
    else if s[0] == LBRACE then ParseObj(canon, SkipWs(s[1..]))
    else if s[0] == LBRACKET then ParseArr(canon, SkipWs(s[1..]))
    else ParseAtom(canon, s)
  }

  /** An array after its opening bracket. */
  function ParseArr(canon: Canon, s: Text): (r: Option<(Tree, Text)>)
    ensures r.Some? ==> |r.value.1| < |s|
    decreases |s|, 2
  {
    if s != [] && s[0] == RBRACKET then Some((Items([]), s[1..]))
    else
      match ParseItems(canon, s)
      case None => None
      case Some((items, rest)) => Some((Items(items), rest))
  }

  /** The elements of a non-empty array, past its closing bracket. */
  function ParseItems(canon: Canon, s: Text): (r: Option<(seq<Tree>, Text)>)
    ensures r.Some? ==> |r.value.1| < |s|
    decreases |s|, 1
  {
    match ParseValue(canon, s)
    case None => None
    case Some((v, s1)) =>
      var s2 := SkipWs(s1);
      if s2 == [] then None
      else if s2[0] == RBRACKET then Some(([v], s2[1..]))
      else if s2[0] == COMMA then
        (match ParseItems(canon, SkipWs(s2[1..]))
         case None => None
         case Some((vs, rest)) => Some(([v] + vs, rest)))
      else None
  }

  /** An object after its opening brace. */
  function ParseObj(canon: Canon, s: Text): (r: Option<(Tree, Text)>)
    ensures r.Some? ==> |r.value.1| < |s|
    decreases |s|, 3
  {
    if s != [] && s[0] == RBRACE then Some((Members([]), s[1..]))
    else
      match ParseFields(canon, s)
      case None => None
      case Some((ms, rest)) => Some((Members(ms), rest))
  }

  /** `"key": value` at the head of `s`. */
  function ParseField(canon: Canon, s: Text): (r: Option<(Member, Text)>)
    ensures r.Some? ==> |r.value.1| < |s|
    decreases |s|, 1
  {
    if s == [] || s[0] != QUOTE then None
    else
      match ParseChars(s[1..])
      case None => None
      case Some((k, s1)) =>
        var s2 := SkipWs(s1);
        if s2 == [] || s2[0] != COLON then None
        else
          match ParseValue(canon, SkipWs(s2[1..]))
          case None => None
          case Some((v, s3)) => Some((Member(k, v), s3))
  }

  /** The members of a non-empty object, past its closing brace. */
  function ParseFields(canon: Canon, s: Text): (r: Option<(seq<Member>, Text)>)
    ensures r.Some? ==> |r.value.1| < |s|
    decreases |s|, 2
  {
    match ParseField(canon, s)
    case None => None
    case Some((m, s1)) =>
      var s2 := SkipWs(s1);
      if s2 == [] then None
      else if s2[0] == RBRACE then Some(([m], s2[1..]))
      else if s2[0] == COMMA then
        (match ParseFields(canon, SkipWs(s2[1..]))
         case None => None
         case Some((ms, rest)) => Some(([m] + ms, rest)))
      else None
  }

  /** `json.loads`: one value with white space around it and nothing else. */
  function Loads(canon: Canon, s: Text): Option<Json> {
    match ParseValue(canon, SkipWs(s))
    case None => None
    case Some((t, rest)) => if SkipWs(rest) == [] then Some(ToJson(t)) else None
  }

  // ---------- reading back what was printed ----------

  /** Every number is a token that Python prints, so that reading it changes nothing. */
  ghost predicate Printable(canon: Canon, v: Json) {
    match v
    case Num(tok) => ValidNumber(tok) && canon(tok) == tok
    case Arr(items) => forall i :: 0 <= i < |items| ==> Printable(canon, items[i])
    case Obj(fields) => forall k :: k in fields ==> Printable(canon, fields[k])
    case _ => true
  }

  /** What a reader makes of the text of `v`: strings and keys are joined. */
  ghost function TreeOf(v: Json): Tree
    decreases v, 1, 0
  {
    match v
    case Str(s) => Leaf(Str(Join(s)))
    case Arr(items) => Items(seq(|items|, i requires 0 <= i < |items| => TreeOf(items[i])))
    case Obj(fields) => Members(MembersAt(v, Sorted(fields.Keys)))
    case _ => Leaf(v)
  }

  ghost function MembersAt(v: Json, ks: seq<Text>): (ms: seq<Member>)
    requires v.Obj? && forall k :: k in ks ==> k in v.fields
    ensures |ms| == |ks|
    decreases v, 0, |ks|
  {
    if ks == [] then [] else [MemberAt(v, ks[0])] + MembersAt(v, ks[1..])
  }

  ghost function MemberAt(v: Json, k: Text): Member
    requires v.Obj? && k in v.fields
    decreases v, 0, 0
  {
    Member(Join(k), TreeOf(v.fields[k]))
  }

  /** `json.loads(json.dumps(v))` */
  ghost function Relayed(v: Json): Json { ToJson(TreeOf(v)) }

  /** The next token of `s` is not preceded by white space. */
  predicate Tight(s: Text) { s != [] && !IsSpace(s[0]) }

  lemma PrintHead(canon: Canon, v: Json, tail: Text)
    requires Printable(canon, v)
    ensures Tight(PrintTo(v, tail)) && PrintTo(v, tail)[0] != RBRACKET
  {
    if v.Num? { NumberRead(v.tok, []); }
  }

  // One step of the parser.

  lemma AtomNum(canon: Canon, s: Text)
    requires NumLen(s) > 0 && !IsSmall(s[0])
    ensures ParseAtom(canon, s) == Some((Leaf(Num(canon(s[..NumLen(s)]))), s[NumLen(s)..]))
  {
  }

  lemma ReadNum(canon: Canon, tok: Text, rest: Text)
    requires ValidNumber(tok) && Delimited(rest)
    ensures ParseValue(canon, tok + rest) == Some((Leaf(Num(canon(tok))), rest))
  {
    NumberRead(tok, rest);
    var s := tok + rest;
    assert s[..|tok|] == tok && s[|tok|..] == rest;
    AtomNum(canon, s);
  }

  lemma ReadWord(canon: Canon, rest: Text)
    ensures ParseValue(canon, NULL + rest) == Some((Leaf(Null), rest))
    ensures ParseValue(canon, TRUE + rest) == Some((Leaf(Bool(true)), rest))
    ensures ParseValue(canon, FALSE + rest) == Some((Leaf(Bool(false)), rest))
  {
    assert (NULL + rest)[4..] == rest;
    assert (TRUE + rest)[4..] == rest;
    assert (FALSE + rest)[5..] == rest;
  }

  lemma ReadEmpty(canon: Canon, rest: Text)
    ensures ParseValue(canon, [LBRACKET] + ([RBRACKET] + rest)) == Some((Items([]), rest))
    ensures ParseValue(canon, [LBRACE] + ([RBRACE] + rest)) == Some((Members([]), rest))
  {
    assert ([LBRACKET] + ([RBRACKET] + rest))[1..] == [RBRACKET] + rest;
    assert ([LBRACE] + ([RBRACE] + rest))[1..] == [RBRACE] + rest;
    assert ([RBRACKET] + rest)[1..] == rest;
    assert ([RBRACE] + rest)[1..] == rest;
  }

  lemma ReadArr(canon: Canon, s: Text, items: seq<Tree>, rest: Text)
    requires Tight(s) && s[0] != RBRACKET && ParseItems(canon, s) == Some((items, rest))
    ensures ParseValue(canon, [LBRACKET] + s) == Some((Items(items), rest))
  {
    assert ([LBRACKET] + s)[1..] == s;
  }

  lemma ReadObj(canon: Canon, s: Text, ms: seq<Member>, rest: Text)
    requires s != [] && s[0] == QUOTE && ParseFields(canon, s) == Some((ms, rest))
    ensures ParseValue(canon, [LBRACE] + s) == Some((Members(ms), rest))
  {
    assert ([LBRACE] + s)[1..] == s;
  }

  lemma ReadLastItem(canon: Canon, s: Text, v: Tree, rest: Text)
    requires ParseValue(canon, s) == Some((v, [RBRACKET] + rest))
    ensures ParseItems(canon, s) == Some(([v], rest))
  {
    assert ([RBRACKET] + rest)[1..] == rest;
  }

  lemma ReadItem(canon: Canon, s: Text, v: Tree, s1: Text, vs: seq<Tree>, rest: Text)
    requires ParseValue(canon, s) == Some((v, [COMMA] + s1)) && Tight(s1)
    requires ParseItems(canon, s1) == Some((vs, rest))
    ensures ParseItems(canon, s) == Some(([v] + vs, rest))
  {
    assert ([COMMA] + s1)[1..] == s1;
  }

  lemma ReadField(canon: Canon, k: Text, s: Text, v: Tree, rest: Text)
    requires Tight(s) && ParseValue(canon, s) == Some((v, rest))
    ensures ParseField(canon, [QUOTE] + EscapeTo(k, [COLON] + s)) == Some((Member(Join(k), v), rest))
  {
    ParseEscaped(k, [COLON] + s);
    assert ([QUOTE] + EscapeTo(k, [COLON] + s))[1..] == EscapeTo(k, [COLON] + s);
    assert ([COLON] + s)[1..] == s;
  }

  lemma ReadLastField(canon: Canon, s: Text, m: Member, rest: Text)
    requires ParseField(canon, s) == Some((m, [RBRACE] + rest))
    ensures ParseFields(canon, s) == Some(([m], rest))
  {
    assert ([RBRACE] + rest)[1..] == rest;
  }

  lemma ReadMoreFields(canon: Canon, s: Text, m: Member, s1: Text, ms: seq<Member>, rest: Text)
    requires ParseField(canon, s) == Some((m, [COMMA] + s1)) && Tight(s1)
    requires ParseFields(canon, s1) == Some((ms, rest))
    ensures ParseFields(canon, s) == Some(([m] + ms, rest))
  {
    assert ([COMMA] + s1)[1..] == s1;
  }

  /** A printed value is read back as its tree, and nothing after it is consumed. */
  lemma {:induction false} ValueRound(canon: Canon, v: Json, tail: Text)
    requires Printable(canon, v) && Delimited(tail)
    ensures ParseValue(canon, PrintTo(v, tail)) == Some((TreeOf(v), tail))
    decreases v, 1, 0
  {
    match v
    case Null => ReadWord(canon, tail);
    case Bool(b) => ReadWord(canon, tail);
    case Num(tok) => ReadNum(canon, tok, tail);
    case Str(t) =>
      ParseEscaped(t, tail);
      assert PrintTo(v, tail)[1..] == EscapeTo(t, tail);
    case Arr(items) => ArrRound(canon, items, tail);
    case Obj(fields) => ObjRound(canon, v, tail);
  }

  lemma {:induction false} ArrRound(canon: Canon, items: seq<Json>, tail: Text)
    requires Printable(canon, Arr(items))
    ensures ParseValue(canon, PrintTo(Arr(items), tail)) == Some((TreeOf(Arr(items)), tail))
    decreases Arr(items), 0, 0
  {
    if items == [] {
      ReadEmpty(canon, tail);
      assert TreeOf(Arr(items)).items == [];
    } else {
      ItemsRound(canon, items, tail);
      ItemsHead(canon, items, tail);
      ReadArr(canon, ItemsTo(items, tail), TreeOf(Arr(items)).items, tail);
    }
  }

  lemma ItemsHead(canon: Canon, items: seq<Json>, tail: Text)
    requires items != [] && Printable(canon, items[0])
    ensures Tight(ItemsTo(items, tail)) && ItemsTo(items, tail)[0] != RBRACKET
  {
    PrintHead(canon, items[0], if |items| == 1 then [RBRACKET] + tail else [COMMA] + ItemsTo(items[1..], tail));
  }

  lemma ArrParts(canon: Canon, items: seq<Json>)
    requires items != [] && Printable(canon, Arr(items))
    ensures Printable(canon, items[0]) && Printable(canon, Arr(items[1..]))
  {
  }

  lemma TreeItemsStep(items: seq<Json>)
    requires items != []
    ensures TreeOf(Arr(items)).items == [TreeOf(items[0])] + TreeOf(Arr(items[1..])).items
  {
    var n := TreeOf(Arr(items)).items;
    var m := TreeOf(Arr(items[1..])).items;
    assert |n| == |items| && |m| == |items| - 1;
    forall i | 0 <= i < |n| ensures n[i] == ([TreeOf(items[0])] + m)[i] {
      if i > 0 { assert items[1..][i - 1] == items[i]; }
    }
  }

  lemma {:induction false} ItemsRound(canon: Canon, items: seq<Json>, tail: Text)
    requires items != [] && Printable(canon, Arr(items))
    ensures ParseItems(canon, ItemsTo(items, tail)) == Some((TreeOf(Arr(items)).items, tail))
    decreases items, 0, 0
  {
    var s := ItemsTo(items, tail);
    ArrParts(canon, items);
    TreeItemsStep(items);
    if |items| == 1 {
      ValueRound(canon, items[0], [RBRACKET] + tail);
      ReadLastItem(canon, s, TreeOf(items[0]), tail);
      assert TreeOf(Arr(items[1..])).items == [];
      assert [TreeOf(items[0])] + [] == [TreeOf(items[0])];
    } else {
      var more := items[1..];
      var s1 := ItemsTo(more, tail);
      ValueRound(canon, items[0], [COMMA] + s1);
      ArrParts(canon, more);
      ItemsHead(canon, more, tail);
      ItemsRound(canon, more, tail);
      ReadItem(canon, s, TreeOf(items[0]), s1, TreeOf(Arr(more)).items, tail);
    }
  }

  lemma {:induction false} ObjRound(canon: Canon, v: Json, tail: Text)
    requires v.Obj? && Printable(canon, v)
    ensures ParseValue(canon, PrintTo(v, tail)) == Some((TreeOf(v), tail))
    decreases v, 0, |v.fields| + 1
  {
    var ks := Sorted(v.fields.Keys);
    if ks == [] {
      ReadEmpty(canon, tail);
    } else {
      FieldsRound(canon, v, ks, tail);
      FieldsHead(v, ks, tail);
      ReadObj(canon, FieldsTo(v, ks, tail), MembersAt(v, ks), tail);
    }
  }

  lemma {:induction false} FieldRound(canon: Canon, v: Json, k: Text, tail: Text)
    requires v.Obj? && k in v.fields && Printable(canon, v) && Delimited(tail)
    ensures ParseField(canon, FieldTo(v, k, tail)) == Some((MemberAt(v, k), tail))
    decreases v, 0, 0
  {
    ValueRound(canon, v.fields[k], tail);
    PrintHead(canon, v.fields[k], tail);
    ReadField(canon, k, PrintTo(v.fields[k], tail), TreeOf(v.fields[k]), tail);
  }

  lemma FieldsHead(v: Json, ks: seq<Text>, tail: Text)
    requires v.Obj? && ks != [] && forall k :: k in ks ==> k in v.fields
    ensures Tight(FieldsTo(v, ks, tail)) && FieldsTo(v, ks, tail)[0] == QUOTE
  {
  }

  lemma MembersAtOne(v: Json, ks: seq<Text>)
    requires v.Obj? && |ks| == 1 && ks[0] in v.fields
    ensures MembersAt(v, ks) == [MemberAt(v, ks[0])]
  {
    assert MembersAt(v, ks[1..]) == [];
  }

  lemma {:induction false} FieldsRound(canon: Canon, v: Json, ks: seq<Text>, tail: Text)
    requires v.Obj? && Printable(canon, v)
    requires ks != [] && forall k :: k in ks ==> k in v.fields
    ensures ParseFields(canon, FieldsTo(v, ks, tail)) == Some((MembersAt(v, ks), tail))
    decreases v, 0, |ks|
  {
    var k := ks[0];
    if |ks| == 1 {
      FieldRound(canon, v, k, [RBRACE] + tail);
      ReadLastField(canon, FieldsTo(v, ks, tail), MemberAt(v, k), tail);
      MembersAtOne(v, ks);
    } else {
      var s1 := FieldsTo(v, ks[1..], tail);
      FieldRound(canon, v, k, [COMMA] + s1);
      FieldsRound(canon, v, ks[1..], tail);
      FieldsHead(v, ks[1..], tail);
      ReadMoreFields(canon, FieldsTo(v, ks, tail), MemberAt(v, k), s1, MembersAt(v, ks[1..]), tail);
    }
  }

  /** Reading what was printed, for every value. */
  lemma LoadsRelayed(canon: Canon, v: Json)
    requires Printable(canon, v)
    ensures Loads(canon, Print(v)) == Some(Relayed(v))
  {
    PrintHead(canon, v, []);
    ValueRound(canon, v, []);
  }

  // ---------- the text determines the tree, and the tree the text ----------

  lemma {:induction false} SameText(v: Json, w: Json, tail: Text)
    requires TreeOf(v) == TreeOf(w)
    ensures PrintTo(v, tail) == PrintTo(w, tail)
    decreases v, 1, 0
  {
    match v
    case Str(s) =>
      EscapeJoin(s, tail);
      EscapeJoin(w.s, tail);
    case Arr(items) =>
      assert |TreeOf(v).items| == |items| && |TreeOf(w).items| == |w.items|;
      forall i | 0 <= i < |items| ensures TreeOf(items[i]) == TreeOf(w.items[i]) {
        assert TreeOf(v).items[i] == TreeOf(w).items[i];
      }
      if items != [] { ItemsSame(items, w.items, tail); }
    case Obj(fields) =>
      var ks, ls := Sorted(fields.Keys), Sorted(w.fields.Keys);
      assert MembersAt(v, ks) == MembersAt(w, ls);
      if ks != [] { FieldsSame(v, ks, w, ls, tail); }
    case _ =>
  }

  lemma {:induction false} ItemsSame(vs: seq<Json>, ws: seq<Json>, tail: Text)
    requires vs != [] && |vs| == |ws| && forall i :: 0 <= i < |vs| ==> TreeOf(vs[i]) == TreeOf(ws[i])
    ensures ItemsTo(vs, tail) == ItemsTo(ws, tail)
    decreases vs, 0, 0
  {
    if |vs| == 1 {
      SameText(vs[0], ws[0], [RBRACKET] + tail);
    } else {
      ItemsSame(vs[1..], ws[1..], tail);
      SameText(vs[0], ws[0], [COMMA] + ItemsTo(vs[1..], tail));
    }
  }

  lemma {:induction false} FieldSame(v: Json, k: Text, w: Json, l: Text, tail: Text)
    requires v.Obj? && w.Obj? && k in v.fields && l in w.fields && MemberAt(v, k) == MemberAt(w, l)
    ensures FieldTo(v, k, tail) == FieldTo(w, l, tail)
    decreases v, 0, 0
  {
    SameText(v.fields[k], w.fields[l], tail);
    EscapeJoin(k, [COLON] + PrintTo(v.fields[k], tail));
    EscapeJoin(l, [COLON] + PrintTo(v.fields[k], tail));
  }

  lemma {:induction false} FieldsSame(v: Json, ks: seq<Text>, w: Json, ls: seq<Text>, tail: Text)
    requires v.Obj? && w.Obj? && ks != [] && |ks| == |ls|
    requires (forall k :: k in ks ==> k in v.fields) && (forall l :: l in ls ==> l in w.fields)
    requires MembersAt(v, ks) == MembersAt(w, ls)
    ensures FieldsTo(v, ks, tail) == FieldsTo(w, ls, tail)
    decreases v, 0, |ks|
  {
    assert MembersAt(v, ks)[0] == MemberAt(v, ks[0]) && MembersAt(w, ls)[0] == MemberAt(w, ls[0]);
    if |ks| == 1 {
      FieldSame(v, ks[0], w, ls[0], [RBRACE] + tail);
    } else {
      assert MembersAt(v, ks[1..]) == MembersAt(v, ks)[1..];
      assert MembersAt(w, ls[1..]) == MembersAt(w, ls)[1..];
      FieldsSame(v, ks[1..], w, ls[1..], tail);
      FieldSame(v, ks[0], w, ls[0], [COMMA] + FieldsTo(v, ks[1..], tail));
    }
  }

  /** Two values have one canonical text exactly when a reader makes the same of them. */
  lemma TextExactly(canon: Canon, v: Json, w: Json)
    requires Printable(canon, v) && Printable(canon, w)
    ensures Print(v) == Print(w) <==> TreeOf(v) == TreeOf(w)
  {
    ValueRound(canon, v, []);
    ValueRound(canon, w, []);
    if TreeOf(v) == TreeOf(w) { SameText(v, w, []); }
  }

  // ---------- values whose keys are clean ----------

  /** No key contains an adjacent surrogate pair. */
  ghost predicate KeysClean(v: Json) {
    match v
    case Arr(items) => forall i :: 0 <= i < |items| ==> KeysClean(items[i])
    case Obj(fields) => forall k :: k in fields ==> NoPair(k) && KeysClean(fields[k])
    case _ => true
  }

  /** No key and no string contains an adjacent surrogate pair. */
  ghost predicate Clean(v: Json) {
    match v
    case Str(s) => NoPair(s)
    case Arr(items) => forall i :: 0 <= i < |items| ==> Clean(items[i])
    case Obj(fields) => forall k :: k in fields ==> NoPair(k) && Clean(fields[k])
    case _ => true
  }

  /** The value with every string value joined. */
  ghost function Norm(v: Json): Json {
    match v
    case Str(s) => Str(Join(s))
    case Arr(items) => Arr(seq(|items|, i requires 0 <= i < |items| => Norm(items[i])))
    case Obj(fields) => Obj(map k | k in fields :: Norm(fields[k]))
    case _ => v
  }

  lemma {:induction false} NormFixed(v: Json)
    requires KeysClean(v)
    ensures Norm(v) == v <==> Clean(v)
  {
    match v
    case Str(s) => JoinFixed(s);
    case Arr(items) =>
      forall i | 0 <= i < |items| ensures Norm(items[i]) == items[i] <==> Clean(items[i]) {
        NormFixed(items[i]);
      }
      var n := Norm(v).items;
      assert n == items <==> forall i :: 0 <= i < |items| ==> n[i] == items[i];
    case Obj(fields) =>
      forall k | k in fields ensures Norm(fields[k]) == fields[k] <==> Clean(fields[k]) {
        NormFixed(fields[k]);
      }
      var n := Norm(v).fields;
      assert n == fields <==> forall k :: k in fields ==> n[k] == fields[k];
    case _ =>
  }

  lemma {:induction false} CleanKeys(v: Json)
    ensures Clean(v) ==> KeysClean(v)
  {
    match v
    case Arr(items) =>
      forall i | 0 <= i < |items| ensures Clean(items[i]) ==> KeysClean(items[i]) { CleanKeys(items[i]); }
    case Obj(fields) =>
      forall k | k in fields ensures Clean(fields[k]) ==> KeysClean(fields[k]) { CleanKeys(fields[k]); }
    case _ =>
  }

  ghost predicate Distinct(ms: seq<Member>) {
    forall i, j :: 0 <= i < j < |ms| ==> ms[i].key != ms[j].key
  }

  lemma {:induction false} ToMapKeys(ms: seq<Member>)
    ensures forall k :: k in ToMap(ms) <==> exists i :: 0 <= i < |ms| && ms[i].key == k
  {
    if ms != [] {
      ToMapKeys(ms[1..]);
      forall k ensures k in ToMap(ms) <==> exists i :: 0 <= i < |ms| && ms[i].key == k {
        if k in ToMap(ms[1..]) {
          var i :| 0 <= i < |ms[1..]| && ms[1..][i].key == k;
          assert ms[i + 1].key == k;
        }
        if i :| 0 <= i < |ms| && ms[i].key == k {
          if i > 0 { assert ms[1..][i - 1].key == k; }
        }
      }
    }
  }

  lemma {:induction false} ToMapAt(ms: seq<Member>, i: nat)
    requires Distinct(ms) && i < |ms|
    ensures ms[i].key in ToMap(ms) && ToMap(ms)[ms[i].key] == ToJson(ms[i].value)
  {
    ToMapKeys(ms[1..]);
    if i > 0 {
      assert ms[1..][i - 1] == ms[i];
      ToMapAt(ms[1..], i - 1);
    } else {
      forall j | 0 <= j < |ms[1..]| ensures ms[1..][j].key != ms[0].key {
        assert ms[1..][j] == ms[j + 1];
      }
    }
  }

  lemma {:induction false} MembersAtIndex(v: Json, ks: seq<Text>, i: nat)
    requires v.Obj? && (forall k :: k in ks ==> k in v.fields) && i < |ks|
    ensures MembersAt(v, ks)[i] == MemberAt(v, ks[i])
  {
    if i > 0 {
      assert ks[1..][i - 1] == ks[i];
      MembersAtIndex(v, ks[1..], i - 1);
    }
  }

  /** Joining keeps the keys of the object apart. */
  ghost predicate KeepsApart(v: Json)
    requires v.Obj?
  {
    forall k, l :: k in v.fields && l in v.fields && k != l ==> Join(k) != Join(l)
  }

  lemma MembersDistinct(v: Json)
    requires v.Obj? && KeepsApart(v)
    ensures Distinct(MembersAt(v, Sorted(v.fields.Keys)))
  {
    var ks := Sorted(v.fields.Keys);
    var ms := MembersAt(v, ks);
    SortedAscends(v.fields.Keys);
    forall i, j | 0 <= i < j < |ms| ensures ms[i].key != ms[j].key {
      MembersAtIndex(v, ks, i);
      MembersAtIndex(v, ks, j);
      assert ks[i] in v.fields && ks[j] in v.fields;
    }
  }

  /** Then the members of the object are read one by one. */
  lemma RelayedAt(v: Json, k: Text)
    requires v.Obj? && KeepsApart(v) && k in v.fields
    ensures Join(k) in Relayed(v).fields && Relayed(v).fields[Join(k)] == Relayed(v.fields[k])
  {
    var ks := Sorted(v.fields.Keys);
    var i :| 0 <= i < |ks| && ks[i] == k;
    MembersDistinct(v);
    MembersAtIndex(v, ks, i);
    ToMapAt(MembersAt(v, ks), i);
  }

  lemma RelayedObj(v: Json)
    requires v.Obj?
    ensures Relayed(v) == Obj(ToMap(MembersAt(v, Sorted(v.fields.Keys))))
  {
  }

  /** Every key is read, joined. */
  lemma KeyRelayed(v: Json, k: Text)
    requires v.Obj? && k in v.fields
    ensures Join(k) in Relayed(v).fields
  {
    var ks := Sorted(v.fields.Keys);
    var i :| 0 <= i < |ks| && ks[i] == k;
    MembersAtIndex(v, ks, i);
    ToMapKeys(MembersAt(v, ks));
    RelayedObj(v);
    assert MembersAt(v, ks)[i].key == Join(k);
  }

  /** And what is read is a joined key. */
  lemma RelayedKey(v: Json, j: Text) returns (k: Text)
    requires v.Obj? && j in Relayed(v).fields
    ensures k in v.fields && Join(k) == j
  {
    var ks := Sorted(v.fields.Keys);
    var ms := MembersAt(v, ks);
    ToMapKeys(ms);
    RelayedObj(v);
    var i :| 0 <= i < |ms| && ms[i].key == j;
    MembersAtIndex(v, ks, i);
    k := ks[i];
  }

  lemma RelayedClean(v: Json)
    requires v.Obj? && forall k :: k in v.fields ==> NoPair(k)
    ensures Relayed(v).fields.Keys == v.fields.Keys
    ensures forall k :: k in v.fields ==> Relayed(v).fields[k] == Relayed(v.fields[k])
  {
    forall k | k in v.fields ensures Join(k) == k { JoinFixed(k); }
    forall k | k in v.fields ensures k in Relayed(v).fields && Relayed(v).fields[k] == Relayed(v.fields[k]) {
      RelayedAt(v, k);
    }
    forall j | j in Relayed(v).fields ensures j in v.fields {
      var k := RelayedKey(v, j);
    }
  }

  /** An object with clean keys is read back member by member. */
  lemma RelayedMap(m: map<Text, Json>, n: map<Text, Json>)
    requires m.Keys == n.Keys && forall k :: k in m ==> NoPair(k) && Relayed(m[k]) == n[k]
    ensures Relayed(Obj(m)) == Obj(n)
  {
    RelayedClean(Obj(m));
    assert Relayed(Obj(m)).fields == n;
  }

  lemma RelayedAtom(t: Text)
    ensures Relayed(Num(t)) == Num(t)
    ensures NoPair(t) ==> Relayed(Str(t)) == Str(t)
  {
    JoinFixed(t);
  }

  /** With clean keys, reading back only joins the string values. */
  lemma {:induction false} RelayedNorm(v: Json)
    requires KeysClean(v)
    ensures Relayed(v) == Norm(v)
  {
    match v
    case Arr(items) =>
      forall i | 0 <= i < |items| ensures Relayed(items[i]) == Norm(items[i]) { RelayedNorm(items[i]); }
      assert Relayed(v).items == Norm(v).items;
    case Obj(fields) =>
      forall k | k in fields ensures Relayed(fields[k]) == Norm(fields[k]) { RelayedNorm(fields[k]); }
      RelayedClean(v);
      assert Relayed(v).fields == Norm(v).fields;
    case _ =>
  }

  /** `json.loads(json.dumps(v))` is `v` with its string values joined. */
  lemma LoadsPrint(canon: Canon, v: Json)
    requires Printable(canon, v) && KeysClean(v)
    ensures Loads(canon, Print(v)) == Some(Norm(v))
  {
    LoadsRelayed(canon, v);
    RelayedNorm(v);
  }

  /** With clean keys, two values have one text exactly when they are equal up to joining. */
  lemma NormExactly(canon: Canon, v: Json, w: Json)
    requires Printable(canon, v) && KeysClean(v) && Printable(canon, w) && KeysClean(w)
    ensures Print(v) == Print(w) <==> Norm(v) == Norm(w)
  {
    LoadsPrint(canon, v);
    LoadsPrint(canon, w);
    PrintNorm(v, []);
    PrintNorm(w, []);
  }

  /** Normalising does not change what is printed. */
  lemma {:induction false} PrintNorm(v: Json, tail: Text)
    ensures PrintTo(Norm(v), tail) == PrintTo(v, tail)
    decreases v, 1, 0
  {
    match v
    case Str(s) => EscapeJoin(s, tail);
    case Arr(items) =>
      if items != [] { ItemsNorm(items, tail); }
    case Obj(fields) =>
      assert Norm(v).fields.Keys == fields.Keys;
      var ks := Sorted(fields.Keys);
      if ks != [] { FieldsNorm(v, ks, tail); }
    case _ =>
  }

  lemma NormItemsStep(items: seq<Json>)
    requires items != []
    ensures Norm(Arr(items)).items == [Norm(items[0])] + Norm(Arr(items[1..])).items
  {
    var n := Norm(Arr(items)).items;
    var m := Norm(Arr(items[1..])).items;
    assert |n| == |items| && |m| == |items| - 1;
    forall i | 0 <= i < |n| ensures n[i] == ([Norm(items[0])] + m)[i] {
      if i > 0 { assert items[1..][i - 1] == items[i]; }
    }
  }

  lemma {:induction false} ItemsNorm(items: seq<Json>, tail: Text)
    requires items != []
    ensures ItemsTo(Norm(Arr(items)).items, tail) == ItemsTo(items, tail)
    decreases items, 0, 0
  {
    NormItemsStep(items);
    var n := Norm(Arr(items)).items;
    if |items| == 1 {
      PrintNorm(items[0], [RBRACKET] + tail);
    } else {
      ItemsNorm(items[1..], tail);
      assert n[1..] == Norm(Arr(items[1..])).items;
      PrintNorm(items[0], [COMMA] + ItemsTo(items[1..], tail));
    }
  }

  lemma {:induction false} FieldsNorm(v: Json, ks: seq<Text>, tail: Text)
    requires v.Obj? && ks != [] && forall k :: k in ks ==> k in v.fields
    ensures FieldsTo(Norm(v), ks, tail) == FieldsTo(v, ks, tail)
    decreases v, 0, |ks|
  {
    if |ks| == 1 {
      PrintNorm(v.fields[ks[0]], [RBRACE] + tail);
    } else {
      FieldsNorm(v, ks[1..], tail);
      PrintNorm(v.fields[ks[0]], [COMMA] + FieldsTo(v, ks[1..], tail));
    }
  }

  // ---------- what the parser returns ----------

  predicate Ascii(s: Text) { forall i :: 0 <= i < |s| ==> s[i] < 0x80 }

  lemma {:induction false} SkipWsAscii(s: Text)
    requires Ascii(s)
    ensures Ascii(SkipWs(s))
  {
    if s != [] && IsSpace(s[0]) { SkipWsAscii(s[1..]); }
  }

  lemma ReadCharAscii(s: Text)
    requires s != [] && s[0] != QUOTE && Ascii(s) && ReadChar(s).Some?
    ensures Ascii(ReadChar(s).value.1)
    ensures Low(ReadChar(s).value.0) ==> ReadU(s) == Some(ReadChar(s).value.0)
    ensures High(ReadChar(s).value.0) ==> NoLowNext(ReadChar(s).value.1)
  {
  }

  lemma NoPairCons(c: CodePoint, t: Text)
    requires NoPair(t) && !(High(c) && StartsLow(t))
    ensures NoPair([c] + t)
  {
    var u := [c] + t;
    forall i | 0 <= i < |u| - 1 ensures !(High(u[i]) && Low(u[i + 1])) {
      assert u[i + 1] == t[i];
      if i > 0 { assert u[i] == t[i - 1]; }
    }
  }

  /** A string literal in ASCII text never yields an adjacent surrogate pair. */
  lemma {:induction false} ParseCharsClean(s: Text)
    requires Ascii(s) && ParseChars(s).Some?
    ensures NoPair(ParseChars(s).value.0) && Ascii(ParseChars(s).value.1)
    ensures StartsLow(ParseChars(s).value.0) ==> ReadU(s) == Some(ParseChars(s).value.0[0])
    decreases |s|
  {
    if s[0] != QUOTE {
      ReadCharAscii(s);
      var (c, s1) := ReadChar(s).value;
      ParseCharsClean(s1);
      NoPairCons(c, ParseChars(s1).value.0);
    }
  }

  /** Printing a number that was read gives a number that reads as itself. */
  ghost predicate Canonical(canon: Canon) {
    forall t :: ValidNumber(canon(t)) && canon(canon(t)) == canon(t)
  }

  /** What is known of a parsed value and the text after it; `plain` says that the text is ASCII. */
  ghost predicate Sound(canon: Canon, plain: bool, v: Json, rest: Text) {
    (plain ==> Clean(v) && Ascii(rest)) && (Canonical(canon) ==> Printable(canon, v))
  }

  lemma AtomSound(canon: Canon, plain: bool, s: Text)
    requires (plain ==> Ascii(s)) && ParseAtom(canon, s).Some?
    ensures Sound(canon, plain, ToJson(ParseAtom(canon, s).value.0), ParseAtom(canon, s).value.1)
  {
  }

  lemma CharsSound(plain: bool, s: Text)
    requires (plain ==> Ascii(s)) && ParseChars(s).Some?
    ensures plain ==> NoPair(ParseChars(s).value.0) && Ascii(ParseChars(s).value.1)
  {
    if plain { ParseCharsClean(s); }
  }

  lemma SpaceSound(plain: bool, s: Text)
    requires plain ==> Ascii(s)
    ensures plain ==> Ascii(SkipWs(s))
  {
    if plain { SkipWsAscii(s); }
  }

  /** Whatever is parsed has numbers in printed form, and from ASCII text no adjacent surrogate pairs. */
  lemma {:induction false} ParseSound(canon: Canon, plain: bool, s: Text)
    requires (plain ==> Ascii(s)) && ParseValue(canon, s).Some?
    ensures Sound(canon, plain, ToJson(ParseValue(canon, s).value.0), ParseValue(canon, s).value.1)
    decreases |s|, 0
  {
    if s[0] == QUOTE {
      CharsSound(plain, s[1..]);
    } else if s[0] == LBRACE {
      SpaceSound(plain, s[1..]);
      ObjSound(canon, plain, SkipWs(s[1..]));
    } else if s[0] == LBRACKET {
      SpaceSound(plain, s[1..]);
      ArrSound(canon, plain, SkipWs(s[1..]));
    } else {
      AtomSound(canon, plain, s);
    }
  }

  lemma {:induction false} ArrSound(canon: Canon, plain: bool, s: Text)
    requires (plain ==> Ascii(s)) && ParseArr(canon, s).Some?
    ensures Sound(canon, plain, ToJson(ParseArr(canon, s).value.0), ParseArr(canon, s).value.1)
    decreases |s|, 2
  {
    if !(s != [] && s[0] == RBRACKET) { ItemsSound(canon, plain, s); }
  }

  lemma SoundCons(canon: Canon, plain: bool, t: Tree, ts: seq<Tree>, rest: Text)
    requires Sound(canon, plain, ToJson(t), rest) && Sound(canon, plain, ToJson(Items(ts)), rest)
    ensures Sound(canon, plain, ToJson(Items([t] + ts)), rest)
  {
    var v := ToJson(Items([t] + ts)).items;
    assert v[0] == ToJson(t);
    forall i | 0 < i < |v| ensures v[i] == ToJson(Items(ts)).items[i - 1] {
      assert ([t] + ts)[i] == ts[i - 1];
    }
  }

  lemma {:induction false} ItemsSound(canon: Canon, plain: bool, s: Text)
    requires (plain ==> Ascii(s)) && ParseItems(canon, s).Some?
    ensures Sound(canon, plain, ToJson(Items(ParseItems(canon, s).value.0)), ParseItems(canon, s).value.1)
    decreases |s|, 1
  {
    ParseSound(canon, plain, s);
    var (t, s1) := ParseValue(canon, s).value;
    SpaceSound(plain, s1);
    var s2 := SkipWs(s1);
    if s2[0] == COMMA {
      SpaceSound(plain, s2[1..]);
      ItemsSound(canon, plain, SkipWs(s2[1..]));
      var (ts, rest) := ParseItems(canon, SkipWs(s2[1..])).value;
      SoundCons(canon, plain, t, ts, rest);
    } else {
      assert Sound(canon, plain, ToJson(Items([])), s2[1..]);
      SoundCons(canon, plain, t, [], s2[1..]);
      assert [t] + [] == [t];
    }
  }

  lemma {:induction false} ObjSound(canon: Canon, plain: bool, s: Text)
    requires (plain ==> Ascii(s)) && ParseObj(canon, s).Some?
    ensures Sound(canon, plain, ToJson(ParseObj(canon, s).value.0), ParseObj(canon, s).value.1)
    decreases |s|, 3
  {
    if !(s != [] && s[0] == RBRACE) { FieldsSound(canon, plain, s); }
  }

  lemma {:induction false} FieldSound(canon: Canon, plain: bool, s: Text)
    requires (plain ==> Ascii(s)) && ParseField(canon, s).Some?
    ensures plain ==> NoPair(ParseField(canon, s).value.0.key)
    ensures Sound(canon, plain, ToJson(ParseField(canon, s).value.0.value), ParseField(canon, s).value.1)
    decreases |s|, 1
  {
    CharsSound(plain, s[1..]);
    var s1 := ParseChars(s[1..]).value.1;
    var s2 := SkipWs(s1);
    SpaceSound(plain, s1);
    SpaceSound(plain, s2[1..]);
    ParseSound(canon, plain, SkipWs(s2[1..]));
  }

  lemma SoundField(canon: Canon, plain: bool, m: Member, ms: seq<Member>, rest: Text)
    requires plain ==> NoPair(m.key)
    requires Sound(canon, plain, ToJson(m.value), rest) && Sound(canon, plain, ToJson(Members(ms)), rest)
    ensures Sound(canon, plain, ToJson(Members([m] + ms)), rest)
  {
    assert ([m] + ms)[1..] == ms;
    assert ToMap([m] + ms) == map[m.key := ToJson(m.value)] + ToMap(ms);
  }

  lemma {:induction false} FieldsSound(canon: Canon, plain: bool, s: Text)
    requires (plain ==> Ascii(s)) && ParseFields(canon, s).Some?
    ensures Sound(canon, plain, ToJson(Members(ParseFields(canon, s).value.0)), ParseFields(canon, s).value.1)
    decreases |s|, 2
  {
    FieldSound(canon, plain, s);
    var (m, s1) := ParseField(canon, s).value;
    SpaceSound(plain, s1);
    var s2 := SkipWs(s1);
    if s2[0] == COMMA {
      SpaceSound(plain, s2[1..]);
      FieldsSound(canon, plain, SkipWs(s2[1..]));
      var (ms, rest) := ParseFields(canon, SkipWs(s2[1..])).value;
      SoundField(canon, plain, m, ms, rest);
    } else {
      assert Sound(canon, plain, ToJson(Members([])), s2[1..]);
      SoundField(canon, plain, m, [], s2[1..]);
      assert [m] + [] == [m];
    }
  }

  lemma LoadsSound(canon: Canon, s: Text)
    requires Loads(canon, s).Some?
    ensures Sound(canon, Ascii(s), Loads(canon, s).value, [])
  {
    SpaceSound(Ascii(s), s);
    ParseSound(canon, Ascii(s), SkipWs(s));
  }

  // ---------- the printer emits ASCII ----------

  lemma AsciiApp(a: Text, b: Text)
    requires Ascii(a) && Ascii(b)
    ensures Ascii(a + b)
  {
  }

  lemma HexAscii(n: nat)
    requires n < 0x1_0000
    ensures Ascii(UEscape(n))
  {
  }

  lemma EscapeCharAscii(c: CodePoint)
    ensures Ascii(EscapeChar(c))
  {
    if c < 0x1_0000 {
      HexAscii(c);
    } else {
      HexAscii(HiOf(c));
      HexAscii(LoOf(c));
    }
  }

  lemma {:induction false} EscapeAscii(t: Text, tail: Text)
    requires Ascii(tail)
    ensures Ascii(EscapeTo(t, tail))
  {
    if t != [] {
      EscapeAscii(t[1..], tail);
      EscapeCharAscii(t[0]);
      AsciiApp(EscapeChar(t[0]), EscapeTo(t[1..], tail));
    }
  }

  lemma {:induction false} DigitsAscii(s: Text, n: nat)
    requires n <= Digits(s)
    ensures Ascii(s[..n])
  {
    if n > 0 {
      DigitsAscii(s[1..], n - 1);
      assert s[..n] == [s[0]] + s[1..][..n - 1];
    }
  }

  lemma IntAscii(s: Text)
    ensures Ascii(s[..IntLen(s)])
  {
    var n := IntLen(s);
    if n > 0 {
      var m := if s[0] == 0x2D then 1 else 0;
      DigitsAscii(s[m..], n - m);
      assert s[..n] == s[..m] + s[m..][..n - m];
    }
  }

  lemma FracAscii(s: Text)
    ensures Ascii(s[..FracLen(s)])
  {
    var n := FracLen(s);
    if n > 0 {
      DigitsAscii(s[1..], n - 1);
      assert s[..n] == [s[0]] + s[1..][..n - 1];
    }
  }

  lemma ExpAscii(s: Text)
    ensures Ascii(s[..ExpLen(s)])
  {
    var n := ExpLen(s);
    if n > 0 {
      var m := if |s| > 1 && (s[1] == 0x2B || s[1] == 0x2D) then 2 else 1;
      DigitsAscii(s[m..], n - m);
      assert s[..n] == s[..m] + s[m..][..n - m];
    }
  }

  lemma TailAscii(s: Text)
    ensures Ascii(s[..TailLen(s)])
  {
    var f := FracLen(s);
    var e := ExpLen(s[f..]);
    FracAscii(s);
    ExpAscii(s[f..]);
    assert s[..f + e] == s[..f] + s[f..][..e];
    AsciiApp(s[..f], s[f..][..e]);
  }

  lemma DecimalAscii(s: Text)
    ensures Ascii(s[..DecimalLen(s)])
  {
    var i := IntLen(s);
    if i > 0 {
      var n := TailLen(s[i..]);
      IntAscii(s);
      TailAscii(s[i..]);
      assert s[..i + n] == s[..i] + s[i..][..n];
      AsciiApp(s[..i], s[i..][..n]);
    }
  }

  lemma PlainAscii(tok: Text)
    requires DecimalLen(tok) == |tok|
    ensures Ascii(tok)
  {
    DecimalAscii(tok);
    assert tok[..|tok|] == tok;
  }

  lemma WordsAscii()
    ensures Ascii(NAN) && Ascii(INFINITY) && Ascii(NEG_INFINITY)
  {
  }

  lemma NumberAscii(tok: Text)
    requires ValidNumber(tok)
    ensures Ascii(tok)
  {
    NumberKinds(tok);
    WordsAscii();
    if DecimalLen(tok) == |tok| { PlainAscii(tok); }
  }

  lemma {:induction false} PrintAscii(canon: Canon, v: Json, tail: Text)
    requires Printable(canon, v) && Ascii(tail)
    ensures Ascii(PrintTo(v, tail))
    decreases v, 1, 0
  {
    match v
    case Num(tok) =>
      NumberAscii(tok);
      AsciiApp(tok, tail);
    case Str(s) => EscapeAscii(s, tail);
    case Arr(items) =>
      if items != [] { ItemsAscii(canon, items, tail); }
    case Obj(fields) =>
      var ks := Sorted(fields.Keys);
      if ks != [] { FieldsAscii(canon, v, ks, tail); }
    case _ =>
  }

  lemma {:induction false} ItemsAscii(canon: Canon, items: seq<Json>, tail: Text)
    requires items != [] && Printable(canon, Arr(items)) && Ascii(tail)
    ensures Ascii(ItemsTo(items, tail))
    decreases items, 0, 0
  {
    if |items| == 1 {
      PrintAscii(canon, items[0], [RBRACKET] + tail);
    } else {
      ItemsAscii(canon, items[1..], tail);
      PrintAscii(canon, items[0], [COMMA] + ItemsTo(items[1..], tail));
    }
  }

  lemma {:induction false} FieldsAscii(canon: Canon, v: Json, ks: seq<Text>, tail: Text)
    requires Printable(canon, v) && v.Obj? && ks != [] && (forall k :: k in ks ==> k in v.fields) && Ascii(tail)
    ensures Ascii(FieldsTo(v, ks, tail))
    decreases v, 0, |ks|
  {
    var k := ks[0];
    if |ks| == 1 {
      PrintAscii(canon, v.fields[k], [RBRACE] + tail);
      EscapeAscii(k, [COLON] + PrintTo(v.fields[k], [RBRACE] + tail));
    } else {
      FieldsAscii(canon, v, ks[1..], tail);
      var tail1 := [COMMA] + FieldsTo(v, ks[1..], tail);
      PrintAscii(canon, v.fields[k], tail1);
      EscapeAscii(k, [COLON] + PrintTo(v.fields[k], tail1));
    }
  }
}
