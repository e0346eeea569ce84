/**
 What `json.dumps` makes of a value in terms of the grammar: a document without white space, every
 string in its plainest form.
 */
module JsonCompact {
  import opened Wrappers
  import opened Text
  import opened Json
  import opened JsonTokens
  import opened JsonGrammar

  /** Printable ASCII stands for itself, what has a short form takes it, and all else is spelled in
      lower-case units. The solidus is not escaped. */
  ghost predicate Plainest(p: Piece)
    requires PieceOk(p)
  {
    match p
    case Plain(c) => c < 0x7F
    case Short(i) => i != 2
    case Unit(d) =>
      && (forall i :: 0 <= i < 4 ==> !('A' as int <= d[i] <= 'F' as int))
      && !(0x20 <= CodeOf(p) < 0x7F) && CodeOf(p) !in {0x08, 0x09, 0x0A, 0x0C, 0x0D}
  }

  ghost predicate AllPlainest(ps: seq<Piece>)
    requires PiecesOk(ps)
  {
    forall i :: 0 <= i < |ps| ==> Plainest(ps[i])
  }

  /** No white space, and every string in its plainest form. */
  ghost predicate Compact(d: Doc)
    requires DocOk(d)
    decreases d, 0
  {
    match d
    case Quoted(ps) => AllPlainest(ps)
    case Array(gap, slots) => gap == [] && SlotsCompact(slots)
    case Object(gap, entries) => gap == [] && EntriesCompact(entries)
    case _ => true
  }

  ghost predicate SlotsCompact(xs: seq<Slot>)
    requires SlotsOk(xs)
    decreases xs, 1
  {
    xs == [] || (xs[0].before == [] && xs[0].after == [] && Compact(xs[0].doc) && SlotsCompact(xs[1..]))
  }

  ghost predicate EntriesCompact(es: seq<Entry>)
    requires EntriesOk(es)
    decreases es, 1
  {
    || es == []
    || (&& es[0].before == [] && es[0].after == [] && es[0].slot.before == [] && es[0].slot.after == []
        && AllPlainest(es[0].key) && Compact(es[0].slot.doc) && EntriesCompact(es[1..]))
  }

  lemma DigitPrinted(n: nat)
    requires n < 16
    ensures IsHex(HexDigit(n)) && HexOf(HexDigit(n)) == n && !('A' as int <= HexDigit(n) <= 'F' as int)
  {
  }

  lemma UnitPrinted(n: nat) returns (p: Piece)
    requires n < 0x1_0000
    ensures PieceOk(p) && p.Unit? && CodeOf(p) == n && Spelling(p) == UEscape(n)
    ensures forall i :: 0 <= i < 4 ==> !('A' as int <= p.digits[i] <= 'F' as int)
  {
    p := Unit(Hex4(n));
    DigitPrinted(n / 16 / 16 / 16);
    DigitPrinted(n / 16 / 16 % 16);
    DigitPrinted(n / 16 % 16);
    DigitPrinted(n % 16);
  }

  lemma BasicPrinted(c: CodePoint) returns (p: Piece)
    requires c < 0x1_0000
    ensures PieceOk(p) && Plainest(p) && Spelling(p) == EscapeChar(c)
  {
    if ShortEscape(c).Some? {
      var i := ShortFound(ShortEscape(c).value);
      p := Short(i);
    } else if 0x20 <= c <= 0x7E {
      p := Plain(c);
    } else {
      p := UnitPrinted(c);
    }
  }

  lemma PairPrinted(c: CodePoint) returns (p: Piece, q: Piece)
    requires c >= 0x1_0000
    ensures PieceOk(p) && Plainest(p) && PieceOk(q) && Plainest(q) && Spelling(p) + Spelling(q) == EscapeChar(c)
  {
    p := UnitPrinted(HiOf(c));
    q := UnitPrinted(LoOf(c));
  }

  /** The pieces spell `t` in its plainest form. */
  ghost predicate Prints(ps: seq<Piece>, t: Text, tail: Text) {
    PiecesOk(ps) && AllPlainest(ps) && PiecesTo(ps, tail) == EscapeTo(t, tail)
  }

  lemma PrintsBasic(p: Piece, qs: seq<Piece>, t: Text, tail: Text)
    requires t != [] && Prints(qs, t[1..], tail)
    requires PieceOk(p) && Plainest(p) && Spelling(p) == EscapeChar(t[0])
    ensures Prints([p] + qs, t, tail)
  {
    PiecesCons(p, qs, tail);
    assert forall i :: 0 < i <= |qs| ==> ([p] + qs)[i] == qs[i - 1];
  }

  lemma PrintsPair(p: Piece, q: Piece, qs: seq<Piece>, t: Text, tail: Text)
    requires t != [] && Prints(qs, t[1..], tail)
    requires PieceOk(p) && Plainest(p) && PieceOk(q) && Plainest(q)
    requires Spelling(p) + Spelling(q) == EscapeChar(t[0])
    ensures Prints([p] + ([q] + qs), t, tail)
  {
    var more := [q] + qs;
    PiecesCons(q, qs, tail);
    PiecesCons(p, more, tail);
    assert forall i :: 0 < i <= |qs| ==> more[i] == qs[i - 1];
    assert forall i :: 0 < i <= |more| ==> ([p] + more)[i] == more[i - 1];
    Regroup(Spelling(p), Spelling(q), PiecesTo(qs, tail));
  }

  lemma Regroup(a: Text, b: Text, c: Text)
    ensures a + (b + c) == (a + b) + c
  {
  }

  lemma {:induction false} PiecesPrinted(t: Text, tail: Text) returns (ps: seq<Piece>)
    ensures Prints(ps, t, tail)
  {
    if t == [] {
      ps := [];
    } else {
      var qs := PiecesPrinted(t[1..], tail);
      if t[0] < 0x1_0000 {
        var p := BasicPrinted(t[0]);
        ps := [p] + qs;
        PrintsBasic(p, qs, t, tail);
      } else {
        var p, q := PairPrinted(t[0]);
        ps := [p] + ([q] + qs);
        PrintsPair(p, q, qs, t, tail);
      }
    }
  }

  lemma {:induction false} DocPrinted(canon: Canon, v: Json, tail: Text) returns (d: Doc)
    requires Printable(canon, v)
    ensures DocOk(d) && Compact(d) && DocTo(d, tail) == PrintTo(v, tail)
    decreases v, 1, 0
  {
    match v
    case Null =>
      WordDocs(tail);
      d := NullWord;
    case Bool(b) =>
      WordDocs(tail);
      d := if b then TrueWord else FalseWord;
    case Num(tok) =>
      NumberExactly(tok);
      d := Number(tok);
    case Str(s) =>
      var ps := PiecesPrinted(s, tail);
      d := Quoted(ps);
    case Arr(items) =>
      if items == [] {
        d := Array([], []);
        EmptyPrinted(tail);
      } else {
        var xs := ItemsPrinted(canon, items, tail);
        d := Array([], xs);
        ArrayDocs([], xs, tail);
      }
    case Obj(fields) =>
      var ks := Sorted(fields.Keys);
      if ks == [] {
        d := Object([], []);
        EmptyPrinted(tail);
      } else {
        var es := FieldsPrinted(canon, v, ks, tail);
        d := Object([], es);
        ObjectDocs([], es, tail);
      }
  }

  lemma EmptyPrinted(tail: Text)
    ensures DocTo(Array([], []), tail) == [LBRACKET] + ([RBRACKET] + tail)
    ensures DocTo(Object([], []), tail) == [LBRACE] + ([RBRACE] + tail)
  {
    ArrayDocs([], [], tail);
    ObjectDocs([], [], tail);
    assert [] + ([RBRACKET] + tail) == [RBRACKET] + tail;
    assert [] + ([RBRACE] + tail) == [RBRACE] + tail;
  }

  lemma {:induction false} ItemsPrinted(canon: Canon, items: seq<Json>, tail: Text) returns (xs: seq<Slot>)
    requires items != [] && Printable(canon, Arr(items))
    ensures xs != [] && SlotsOk(xs) && SlotsCompact(xs) && SlotsTo(xs, tail) == ItemsTo(items, tail)
    decreases items, 0, 0
  {
    ArrParts(canon, items);
    if |items| == 1 {
      var d := DocPrinted(canon, items[0], [RBRACKET] + tail);
      xs := [Slot([], d, [])];
      SlotsOne(canon, xs[0], tail);
      assert [] + ([RBRACKET] + tail) == [RBRACKET] + tail;
    } else {
      var more := ItemsPrinted(canon, items[1..], tail);
      var end := [COMMA] + ItemsTo(items[1..], tail);
      var d := DocPrinted(canon, items[0], end);
      var x := Slot([], d, []);
      xs := [x] + more;
      SlotsCons(canon, x, more, tail);
      assert xs[1..] == more && [] + end == end;
    }
  }

  lemma {:induction false} FieldPrinted(canon: Canon, v: Json, k: Text, tail: Text) returns (e: Entry)
    requires v.Obj? && k in v.fields && Printable(canon, v)
    ensures EntryOk(e) && EntriesCompact([e]) && EntryTo(e, tail) == FieldTo(v, k, tail)
    decreases v, 0, 0
  {
    var d := DocPrinted(canon, v.fields[k], tail);
    var colon := [COLON] + PrintTo(v.fields[k], tail);
    var ps := PiecesPrinted(k, colon);
    e := Entry([], ps, [], Slot([], d, []));
    assert [] + tail == tail && [] + DocTo(d, tail) == DocTo(d, tail) && [] + colon == colon;
  }

  lemma {:induction false} FieldsPrinted(canon: Canon, v: Json, ks: seq<Text>, tail: Text) returns (es: seq<Entry>)
    requires v.Obj? && Printable(canon, v)
    requires ks != [] && forall k :: k in ks ==> k in v.fields
    ensures es != [] && EntriesOk(es) && EntriesCompact(es) && EntriesTo(es, tail) == FieldsTo(v, ks, tail)
    decreases v, 0, |ks|
  {
    if |ks| == 1 {
      var e := FieldPrinted(canon, v, ks[0], [RBRACE] + tail);
      es := [e];
      EntriesOne(canon, e, tail);
    } else {
      var more := FieldsPrinted(canon, v, ks[1..], tail);
      var e := FieldPrinted(canon, v, ks[0], [COMMA] + FieldsTo(v, ks[1..], tail));
      es := [e] + more;
      EntriesCons(canon, e, more, tail);
      assert es[1..] == more;
    }
  }

  /** What is printed spells a compact document that says the tree of the value. */
  lemma PrintIsCompact(canon: Canon, v: Json)
    requires Printable(canon, v)
    ensures exists d :: DocOk(d) && Compact(d) && DocTo(d, []) == Print(v) && Meaning(canon, d) == TreeOf(v)
  {
    var d := DocPrinted(canon, v, []);
    DocRead(canon, d, []);
    ValueRound(canon, v, []);
  }
}
