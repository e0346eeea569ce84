/**
 What JSON texts look like, written down without reference to the parser: a document is built from
 tokens, with white space wherever it may stand. The texts that load are exactly the spellings of
 documents.
 */
module JsonGrammar {
  import opened Wrappers
  import opened Text
  import opened Json
  import opened JsonTokens

  // ---------- values ----------

  /** A value as it is spelled. `gap` is the white space inside empty brackets. */
  datatype Doc =
    | NullWord
    | TrueWord
    | FalseWord
    | Number(tok: Text)
    | Quoted(pieces: seq<Piece>)
    | Array(gap: Text, slots: seq<Slot>)
    | Object(gap: Text, entries: seq<Entry>)

  /** A value with the white space around it. */
  datatype Slot = Slot(before: Text, doc: Doc, after: Text)

  /** A key with the white space around it, and behind a colon the value. */
  datatype Entry = Entry(before: Text, key: seq<Piece>, after: Text, slot: Slot)

  ghost predicate Spaces(t: Text) { forall i :: 0 <= i < |t| ==> t[i] in {0x20, 0x09, 0x0A, 0x0D} }

  ghost predicate SlotGaps(x: Slot) { Spaces(x.before) && Spaces(x.after) }

  ghost predicate EntryGaps(e: Entry) {
    Spaces(e.before) && PiecesOk(e.key) && Spaces(e.after) && SlotGaps(e.slot)
  }

  ghost predicate DocOk(d: Doc)
    decreases d, 0
  {
    match d
    case Number(tok) => IsNumber(tok)
    case Quoted(ps) => PiecesOk(ps)
    case Array(gap, slots) => Spaces(gap) && SlotsOk(slots)
    case Object(gap, entries) => Spaces(gap) && EntriesOk(entries)
    case _ => true
  }

  ghost predicate SlotsOk(xs: seq<Slot>)
    decreases xs, 1
  {
    xs == [] || (SlotGaps(xs[0]) && DocOk(xs[0].doc) && SlotsOk(xs[1..]))
  }

  ghost predicate EntriesOk(es: seq<Entry>)
    decreases es, 1
  {
    es == [] || (EntryGaps(es[0]) && DocOk(es[0].slot.doc) && EntriesOk(es[1..]))
  }

  ghost predicate SlotOk(x: Slot) { SlotGaps(x) && DocOk(x.doc) }

  ghost predicate EntryOk(e: Entry) { EntryGaps(e) && DocOk(e.slot.doc) }

  /** The text of a value, followed by `tail`. */
  ghost function DocTo(d: Doc, tail: Text): Text
    requires DocOk(d)
    decreases d, 0
  {
    match d
    case NullWord => Chars("null") + tail
    case TrueWord => Chars("true") + tail
    case FalseWord => Chars("false") + tail
    case Number(tok) => tok + tail
    case Quoted(ps) => ['"' as int] + PiecesTo(ps, tail)
    case Array(gap, slots) =>
      ['[' as int] + (if slots == [] then gap + ([']' as int] + tail) else SlotsTo(slots, tail))
    case Object(gap, entries) =>
      ['{' as int] + (if entries == [] then gap + (['}' as int] + tail) else EntriesTo(entries, tail))
  }

  ghost function SlotTo(x: Slot, tail: Text): Text
    requires SlotOk(x)
    decreases x, 0
  {
    x.before + DocTo(x.doc, x.after + tail)
  }

  ghost function SlotsTo(xs: seq<Slot>, tail: Text): Text
    requires xs != [] && SlotsOk(xs)
    decreases xs, 1
  {
    SlotTo(xs[0], if |xs| == 1 then [']' as int] + tail else [',' as int] + SlotsTo(xs[1..], tail))
  }

  ghost function EntryTo(e: Entry, tail: Text): Text
    requires EntryOk(e)
    decreases e, 0
  {
    e.before + (['"' as int] + PiecesTo(e.key, e.after + ([':' as int] + SlotTo(e.slot, tail))))
  }

  ghost function EntriesTo(es: seq<Entry>, tail: Text): Text
    requires es != [] && EntriesOk(es)
    decreases es, 1
  {
    EntryTo(es[0], if |es| == 1 then ['}' as int] + tail else [',' as int] + EntriesTo(es[1..], tail))
  }

  /** What a document says. */
  ghost function Meaning(canon: Canon, d: Doc): Tree
    requires DocOk(d)
    decreases d, 0
  {
    match d
    case NullWord => Leaf(Null)
    case TrueWord => Leaf(Bool(true))
    case FalseWord => Leaf(Bool(false))
    case Number(tok) => Leaf(Num(canon(tok)))
    case Quoted(ps) => Leaf(Str(Spelled(ps)))
    case Array(_, slots) => Items(SlotsMeaning(canon, slots))
    case Object(_, entries) => Members(EntriesMeaning(canon, entries))
  }

  ghost function SlotsMeaning(canon: Canon, xs: seq<Slot>): seq<Tree>
    requires SlotsOk(xs)
    decreases xs, 1
  {
    if xs == [] then [] else [Meaning(canon, xs[0].doc)] + SlotsMeaning(canon, xs[1..])
  }

  ghost function EntriesMeaning(canon: Canon, es: seq<Entry>): seq<Member>
    requires EntriesOk(es)
    decreases es, 1
  {
    if es == [] then []
    else [Member(Spelled(es[0].key), Meaning(canon, es[0].slot.doc))] + EntriesMeaning(canon, es[1..])
  }

  lemma {:induction false} SkipSpaces(t: Text, s: Text)
    requires Spaces(t) && (s == [] || !IsSpace(s[0]))
    ensures SkipWs(t + s) == s
  {
    if t == [] {
      assert t + s == s;
    } else {
      SkipSpaces(t[1..], s);
      assert (t + s)[1..] == t[1..] + s;
    }
  }

  lemma {:induction false} SpacesFound(s: Text) returns (gap: Text)
    ensures Spaces(gap) && s == gap + SkipWs(s)
    ensures SkipWs(s) == [] || !IsSpace(SkipWs(s)[0])
  {
    if s != [] && IsSpace(s[0]) {
      gap := SpacesFound(s[1..]);
      gap := [s[0]] + gap;
    } else {
      gap := [];
    }
  }

  /** White space in front of a delimiter, or nothing, ends a token. */
  lemma SpacesDelimit(gap: Text, s: Text)
    requires Spaces(gap) && Delimited(s)
    ensures Delimited(gap + s)
  {
  }

  lemma DocHead(d: Doc, tail: Text)
    requires DocOk(d)
    ensures Tight(DocTo(d, tail)) && DocTo(d, tail)[0] != RBRACKET
  {
    match d
    case Number(tok) => NumberHead(tok);
    case _ =>
  }

  lemma NumberHead(tok: Text)
    requires IsNumber(tok)
    ensures Tight(tok) && tok[0] != RBRACKET
  {
    NumberExactly(tok);
    NumberRead(tok, []);
  }

  /** A value is read in front of whatever ends a token. */
  lemma {:induction false} DocRead(canon: Canon, d: Doc, tail: Text)
    requires DocOk(d) && Delimited(tail)
    ensures ParseValue(canon, DocTo(d, tail)) == Some((Meaning(canon, d), tail))
    decreases d, 0
  {
    WordChars();
    match d
    case NullWord => ReadWord(canon, tail);
    case TrueWord => ReadWord(canon, tail);
    case FalseWord => ReadWord(canon, tail);
    case Number(tok) => TokenRead(canon, tok, tail);
    case Quoted(ps) =>
      PiecesRead(ps, tail);
      assert DocTo(d, tail)[1..] == PiecesTo(ps, tail);
    case Array(gap, slots) => ArrayRead(canon, d, tail);
    case Object(gap, entries) => ObjectRead(canon, d, tail);
  }

  lemma TokenRead(canon: Canon, tok: Text, rest: Text)
    requires IsNumber(tok) && Delimited(rest)
    ensures ParseValue(canon, tok + rest) == Some((Leaf(Num(canon(tok))), rest))
  {
    NumberExactly(tok);
    ReadNum(canon, tok, rest);
  }

  lemma {:induction false} ArrayRead(canon: Canon, d: Doc, tail: Text)
    requires DocOk(d) && d.Array?
    ensures ParseValue(canon, DocTo(d, tail)) == Some((Meaning(canon, d), tail))
    decreases d, 0, 0
  {
    var s := DocTo(d, tail);
    if d.slots == [] {
      var close := [RBRACKET] + tail;
      assert s[1..] == d.gap + close;
      SkipSpaces(d.gap, close);
      assert close[1..] == tail;
    } else {
      assert s[1..] == SlotsTo(d.slots, tail);
      SlotsRead(canon, d.slots, tail);
    }
  }

  /** White space and then the elements. */
  lemma {:induction false} SlotsRead(canon: Canon, xs: seq<Slot>, tail: Text)
    requires xs != [] && SlotsOk(xs)
    ensures var s := SkipWs(SlotsTo(xs, tail));
      && Tight(s) && s[0] != RBRACKET
      && ParseItems(canon, s) == Some((SlotsMeaning(canon, xs), tail))
    decreases xs, 1
  {
    var x := xs[0];
    var end := if |xs| == 1 then [RBRACKET] + tail else [COMMA] + SlotsTo(xs[1..], tail);
    var s := DocTo(x.doc, x.after + end);
    DocHead(x.doc, x.after + end);
    SkipSpaces(x.before, s);
    SpacesDelimit(x.after, end);
    DocRead(canon, x.doc, x.after + end);
    SkipSpaces(x.after, end);
    if |xs| == 1 {
      assert end[1..] == tail && SlotsMeaning(canon, xs) == [Meaning(canon, x.doc)];
    } else {
      assert end[1..] == SlotsTo(xs[1..], tail);
      SlotsRead(canon, xs[1..], tail);
    }
  }

  lemma {:induction false} ObjectRead(canon: Canon, d: Doc, tail: Text)
    requires DocOk(d) && d.Object?
    ensures ParseValue(canon, DocTo(d, tail)) == Some((Meaning(canon, d), tail))
    decreases d, 0, 0
  {
    var s := DocTo(d, tail);
    if d.entries == [] {
      var close := [RBRACE] + tail;
      assert s[1..] == d.gap + close;
      SkipSpaces(d.gap, close);
      assert close[1..] == tail;
    } else {
      assert s[1..] == EntriesTo(d.entries, tail);
      EntriesRead(canon, d.entries, tail);
    }
  }

  /** White space, a key, and its value. */
  lemma {:induction false} EntryRead(canon: Canon, e: Entry, end: Text)
    requires EntryOk(e) && Delimited(end)
    ensures var s := SkipWs(EntryTo(e, end));
      && s != [] && s[0] == QUOTE
      && ParseField(canon, s) == Some((Member(Spelled(e.key), Meaning(canon, e.slot.doc)), e.slot.after + end))
    decreases e, 0
  {
    var x := e.slot;
    var value := DocTo(x.doc, x.after + end);
    var colon := [COLON] + (x.before + value);
    var s := [QUOTE] + PiecesTo(e.key, e.after + colon);
    SkipSpaces(e.before, s);
    assert s[1..] == PiecesTo(e.key, e.after + colon);
    PiecesRead(e.key, e.after + colon);
    SkipSpaces(e.after, colon);
    assert colon[1..] == x.before + value;
    DocHead(x.doc, x.after + end);
    SkipSpaces(x.before, value);
    SpacesDelimit(x.after, end);
    DocRead(canon, x.doc, x.after + end);
  }

  lemma {:induction false} EntriesRead(canon: Canon, es: seq<Entry>, tail: Text)
    requires es != [] && EntriesOk(es)
    ensures var s := SkipWs(EntriesTo(es, tail));
      && s != [] && s[0] == QUOTE
      && ParseFields(canon, s) == Some((EntriesMeaning(canon, es), tail))
    decreases es, 1
  {
    var e := es[0];
    var end := if |es| == 1 then [RBRACE] + tail else [COMMA] + EntriesTo(es[1..], tail);
    EntryRead(canon, e, end);
    SkipSpaces(e.slot.after, end);
    if |es| == 1 {
      assert end[1..] == tail;
      assert EntriesMeaning(canon, es) == [Member(Spelled(e.key), Meaning(canon, e.slot.doc))];
    } else {
      assert end[1..] == EntriesTo(es[1..], tail);
      EntriesRead(canon, es[1..], tail);
    }
  }

  // ---------- whatever is read was spelled ----------

  lemma WordDocs(rest: Text)
    ensures DocTo(NullWord, rest) == NULL + rest
    ensures DocTo(TrueWord, rest) == TRUE + rest
    ensures DocTo(FalseWord, rest) == FALSE + rest
  {
    WordChars();
  }

  lemma ArrayDocs(gap: Text, xs: seq<Slot>, rest: Text)
    requires Spaces(gap) && SlotsOk(xs)
    ensures xs == [] ==> DocTo(Array(gap, xs), rest) == [LBRACKET] + (gap + ([RBRACKET] + rest))
    ensures xs != [] ==> DocTo(Array(gap, xs), rest) == [LBRACKET] + SlotsTo(xs, rest)
  {
  }

  lemma ObjectDocs(gap: Text, es: seq<Entry>, rest: Text)
    requires Spaces(gap) && EntriesOk(es)
    ensures es == [] ==> DocTo(Object(gap, es), rest) == [LBRACE] + (gap + ([RBRACE] + rest))
    ensures es != [] ==> DocTo(Object(gap, es), rest) == [LBRACE] + EntriesTo(es, rest)
  {
  }

  lemma PrefixSplit(w: Text, s: Text)
    requires w <= s
    ensures s == w + s[|w|..]
  {
  }

  lemma AtomFound(canon: Canon, s: Text) returns (d: Doc)
    requires ParseAtom(canon, s).Some?
    ensures var (t, rest) := ParseAtom(canon, s).value; DocOk(d) && s == DocTo(d, rest) && t == Meaning(canon, d)
  {
    WordDocs(ParseAtom(canon, s).value.1);
    if NULL <= s {
      d := NullWord;
      PrefixSplit(NULL, s);
    } else if TRUE <= s {
      d := TrueWord;
      PrefixSplit(TRUE, s);
    } else if FALSE <= s {
      d := FalseWord;
      PrefixSplit(FALSE, s);
    } else {
      d := Number(s[..NumLen(s)]);
      NumberFound(s);
    }
  }

  lemma {:induction false} DocFound(canon: Canon, s: Text) returns (d: Doc)
    requires ParseValue(canon, s).Some?
    ensures var (t, rest) := ParseValue(canon, s).value; DocOk(d) && s == DocTo(d, rest) && t == Meaning(canon, d)
    decreases |s|, 0
  {
    if s[0] == QUOTE {
      var ps := PiecesFound(s[1..]);
      d := Quoted(ps);
    } else if s[0] == LBRACE {
      d := ObjectFound(canon, s[1..]);
    } else if s[0] == LBRACKET {
      d := ArrayFound(canon, s[1..]);
    } else {
      d := AtomFound(canon, s);
    }
  }

  lemma EmptyArray(gap: Text, s: Text, u: Text)
    requires Spaces(gap) && s == gap + u && u != [] && u[0] == RBRACKET
    ensures [LBRACKET] + s == DocTo(Array(gap, []), u[1..])
  {
    ArrayDocs(gap, [], u[1..]);
    PrefixSplit([RBRACKET], u);
  }

  lemma {:induction false} ArrayFound(canon: Canon, s: Text) returns (d: Doc)
    requires ParseArr(canon, SkipWs(s)).Some?
    ensures var (t, rest) := ParseArr(canon, SkipWs(s)).value;
      DocOk(d) && ['[' as int] + s == DocTo(d, rest) && t == Meaning(canon, d)
    decreases |s|, 2
  {
    var u := SkipWs(s);
    if u != [] && u[0] == RBRACKET {
      var gap := SpacesFound(s);
      d := Array(gap, []);
      EmptyArray(gap, s, u);
    } else {
      var xs := SlotsFound(canon, s);
      d := Array([], xs);
      ArrayDocs([], xs, ParseArr(canon, u).value.1);
    }
  }

  lemma SlotsOne(canon: Canon, x: Slot, tail: Text)
    requires SlotOk(x)
    ensures SlotsOk([x]) && SlotsTo([x], tail) == SlotTo(x, [RBRACKET] + tail)
    ensures SlotsMeaning(canon, [x]) == [Meaning(canon, x.doc)]
  {
  }

  lemma SlotsCons(canon: Canon, x: Slot, xs: seq<Slot>, tail: Text)
    requires SlotOk(x) && xs != [] && SlotsOk(xs)
    ensures SlotsOk([x] + xs) && SlotsTo([x] + xs, tail) == SlotTo(x, [COMMA] + SlotsTo(xs, tail))
    ensures SlotsMeaning(canon, [x] + xs) == [Meaning(canon, x.doc)] + SlotsMeaning(canon, xs)
  {
    assert ([x] + xs)[1..] == xs;
  }

  lemma {:induction false} SlotsFound(canon: Canon, s: Text) returns (xs: seq<Slot>)
    requires ParseItems(canon, SkipWs(s)).Some?
    ensures xs != [] && SlotsOk(xs)
    ensures var (ts, rest) := ParseItems(canon, SkipWs(s)).value;
      s == SlotsTo(xs, rest) && ts == SlotsMeaning(canon, xs)
    decreases |s|, 1
  {
    var rest := ParseItems(canon, SkipWs(s)).value.1;
    var before := SpacesFound(s);
    var d := DocFound(canon, SkipWs(s));
    var s1 := ParseValue(canon, SkipWs(s)).value.1;
    var after := SpacesFound(s1);
    var s2 := SkipWs(s1);
    var x := Slot(before, d, after);
    assert s == SlotTo(x, s2);
    if s2[0] == RBRACKET {
      xs := [x];
      SlotsOne(canon, x, rest);
      assert s2 == [RBRACKET] + rest;
    } else {
      var more := SlotsFound(canon, s2[1..]);
      xs := [x] + more;
      SlotsCons(canon, x, more, rest);
      assert s2 == [COMMA] + s2[1..];
    }
  }

  lemma EmptyObject(gap: Text, s: Text, u: Text)
    requires Spaces(gap) && s == gap + u && u != [] && u[0] == RBRACE
    ensures [LBRACE] + s == DocTo(Object(gap, []), u[1..])
  {
    ObjectDocs(gap, [], u[1..]);
    PrefixSplit([RBRACE], u);
  }

  lemma {:induction false} ObjectFound(canon: Canon, s: Text) returns (d: Doc)
    requires ParseObj(canon, SkipWs(s)).Some?
    ensures var (t, rest) := ParseObj(canon, SkipWs(s)).value;
      DocOk(d) && ['{' as int] + s == DocTo(d, rest) && t == Meaning(canon, d)
    decreases |s|, 2
  {
    var u := SkipWs(s);
    if u != [] && u[0] == RBRACE {
      var gap := SpacesFound(s);
      d := Object(gap, []);
      EmptyObject(gap, s, u);
    } else {
      var es := EntriesFound(canon, s);
      d := Object([], es);
      ObjectDocs([], es, ParseObj(canon, u).value.1);
    }
  }

  lemma EntriesOne(canon: Canon, e: Entry, tail: Text)
    requires EntryOk(e)
    ensures EntriesOk([e]) && EntriesTo([e], tail) == EntryTo(e, [RBRACE] + tail)
    ensures EntriesMeaning(canon, [e]) == [Member(Spelled(e.key), Meaning(canon, e.slot.doc))]
  {
  }

  lemma EntriesCons(canon: Canon, e: Entry, es: seq<Entry>, tail: Text)
    requires EntryOk(e) && es != [] && EntriesOk(es)
    ensures EntriesOk([e] + es) && EntriesTo([e] + es, tail) == EntryTo(e, [COMMA] + EntriesTo(es, tail))
    ensures EntriesMeaning(canon, [e] + es)
         == [Member(Spelled(e.key), Meaning(canon, e.slot.doc))] + EntriesMeaning(canon, es)
  {
    assert ([e] + es)[1..] == es;
  }

  lemma EntryText(e: Entry, u: Text, v: Text, w: Text, end: Text)
    requires EntryOk(e)
    requires w == DocTo(e.slot.doc, e.slot.after + end)
    requires v == PiecesTo(e.key, e.after + ([COLON] + (e.slot.before + w)))
    requires u == [QUOTE] + v
    ensures EntryTo(e, end) == e.before + u
  {
  }

  /** The key and the value of a member, whose last white space is still to come. */
  lemma {:induction false} EntryFound(canon: Canon, s: Text) returns (e: Entry)
    requires ParseField(canon, SkipWs(s)).Some?
    ensures EntryOk(e)
    ensures var (m, s1) := ParseField(canon, SkipWs(s)).value;
      && s == EntryTo(e, SkipWs(s1))
      && m == Member(Spelled(e.key), Meaning(canon, e.slot.doc))
    decreases |s|, 0
  {
    var before := SpacesFound(s);
    var u := SkipWs(s);
    var ps := PiecesFound(u[1..]);
    var s1 := ParseChars(u[1..]).value.1;
    var mid := SpacesFound(s1);
    var s2 := SkipWs(s1);
    var gap := SpacesFound(s2[1..]);
    var w := SkipWs(s2[1..]);
    var d := DocFound(canon, w);
    var s3 := ParseValue(canon, w).value.1;
    var after := SpacesFound(s3);
    e := Entry(before, ps, mid, Slot(gap, d, after));
    PrefixSplit([COLON], s2);
    PrefixSplit([QUOTE], u);
    EntryText(e, u, u[1..], w, SkipWs(s3));
  }

  lemma {:induction false} EntriesFound(canon: Canon, s: Text) returns (es: seq<Entry>)
    requires ParseFields(canon, SkipWs(s)).Some?
    ensures es != [] && EntriesOk(es)
    ensures var (ms, rest) := ParseFields(canon, SkipWs(s)).value;
      s == EntriesTo(es, rest) && ms == EntriesMeaning(canon, es)
    decreases |s|, 1
  {
    var rest := ParseFields(canon, SkipWs(s)).value.1;
    var e := EntryFound(canon, s);
    var s2 := SkipWs(ParseField(canon, SkipWs(s)).value.1);
    if s2[0] == RBRACE {
      es := [e];
      EntriesOne(canon, e, rest);
      assert s2 == [RBRACE] + rest;
    } else {
      var more := EntriesFound(canon, s2[1..]);
      es := [e] + more;
      EntriesCons(canon, e, more, rest);
      assert s2 == [COMMA] + s2[1..];
    }
  }

  // ---------- documents ----------

  /** `s` spells a document, white space around it and all, that says `v`. */
  ghost predicate Spells(canon: Canon, s: Text, x: Slot, v: Json) {
    SlotOk(x) && s == SlotTo(x, []) && v == ToJson(Meaning(canon, x.doc))
  }

  /** For every text: `json.loads` gives a value if and only if the text spells a document that says it. */
  lemma LoadsExactly(canon: Canon, s: Text, v: Json)
    ensures Loads(canon, s) == Some(v) <==> exists x :: Spells(canon, s, x, v)
  {
    if x :| Spells(canon, s, x, v) { SlotLoads(canon, x); }
    if Loads(canon, s) == Some(v) {
      var before := SpacesFound(s);
      var d := DocFound(canon, SkipWs(s));
      var after := SpacesFound(ParseValue(canon, SkipWs(s)).value.1);
      assert after + [] == after;
      assert Spells(canon, s, Slot(before, d, after), v);
    }
  }

  lemma SlotLoads(canon: Canon, x: Slot)
    requires SlotOk(x)
    ensures Loads(canon, SlotTo(x, [])) == Some(ToJson(Meaning(canon, x.doc)))
  {
    assert x.after + [] == x.after;
    var s := DocTo(x.doc, x.after);
    DocHead(x.doc, x.after);
    SkipSpaces(x.before, s);
    SpacesDelimit(x.after, []);
    DocRead(canon, x.doc, x.after);
    SkipSpaces(x.after, []);
  }

  /** A key has the value of the last member that bears it. */
  lemma {:induction false} LastWins(ms: seq<Member>, i: nat)
    requires i < |ms| && forall j :: i < j < |ms| ==> ms[j].key != ms[i].key
    ensures ms[i].key in ToMap(ms) && ToMap(ms)[ms[i].key] == ToJson(ms[i].value)
  {
    if i > 0 {
      LastWins(ms[1..], i - 1);
    } else {
      ToMapKeys(ms[1..]);
      assert forall j :: 0 <= j < |ms| - 1 ==> ms[1..][j] == ms[j + 1];
    }
  }
}
