/**
 The signed envelope around every Kafka message. The MAC is a parameter `mac` (HMAC-SHA256
 under the shared key); numbers are opaque tokens as in Json.
 */
module Envelope {
  import opened Wrappers
  import opened Text
  import opened Json
  import opened JsonOrder

  type Byte = b: nat | b < 256

  type Mac = Text -> seq<Byte>

  datatype Error = Malformed | MissingSignature | InvalidSignature | UnsupportedVersion

  const SIG: Text := Chars("sig")
  const VERSION: Text := Chars("v")
  const TS: Text := Chars("ts")
  const ISS: Text := Chars("iss")
  const DATA: Text := Chars("data")
  const ONE: Text := Chars("1")

  // ---------- hexadecimal ----------

  /** `bytes.hex()` */
  function Hex(bytes: seq<Byte>): (t: Text)
    ensures |t| == 2 * |bytes|
  {
    if bytes == [] then [] else [HexDigit(bytes[0] / 16), HexDigit(bytes[0] % 16)] + Hex(bytes[1..])
  }

  predicate IsHexSpace(c: CodePoint) { c == 0x20 || 0x09 <= c <= 0x0D }

  /** `bytes.fromhex`: pairs of digits, with white space allowed between the pairs. */
  function FromHex(t: Text): Option<seq<Byte>> {
    if t == [] then Some([])
    else if IsHexSpace(t[0]) then FromHex(t[1..])
    else if |t| < 2 then None
    else
      match (HexVal(t[0]), HexVal(t[1]), FromHex(t[2..]))
      case (Some(a), Some(b), Some(rest)) => Some([a * 16 + b] + rest)
      case _ => None
  }

  lemma FromHexStep(b: Byte, t: Text, bytes: seq<Byte>)
    requires FromHex(t) == Some(bytes)
    ensures FromHex([HexDigit(b / 16), HexDigit(b % 16)] + t) == Some([b] + bytes)
  {
    HexDigitVal(b / 16);
    HexDigitVal(b % 16);
    assert ([HexDigit(b / 16), HexDigit(b % 16)] + t)[2..] == t;
  }

  lemma {:induction false} FromHexHex(bytes: seq<Byte>)
    ensures FromHex(Hex(bytes)) == Some(bytes)
  {
    if bytes != [] {
      FromHexHex(bytes[1..]);
      FromHexStep(bytes[0], Hex(bytes[1..]), bytes[1..]);
      assert bytes == [bytes[0]] + bytes[1..];
    }
  }

  /** Without white space, and with the letters of the digits in lower case. */
  function Plain(t: Text): Text {
    if t == [] then []
    else if IsHexSpace(t[0]) then Plain(t[1..])
    else [LowerHex(t[0])] + Plain(t[1..])
  }

  function LowerHex(c: CodePoint): CodePoint { if 0x41 <= c <= 0x46 then c + 0x20 else c }

  /** Blank, tab, line feed, vertical tab, form feed, carriage return. */
  lemma HexSpaceExactly(c: CodePoint)
    ensures IsHexSpace(c) <==> c in {0x20, 0x09, 0x0A, 0x0B, 0x0C, 0x0D}
  {
  }

  lemma PlainTwo(t: Text)
    requires |t| >= 2 && !IsHexSpace(t[0]) && !IsHexSpace(t[1])
    ensures Plain(t) == [LowerHex(t[0]), LowerHex(t[1])] + Plain(t[2..])
  {
    assert t[1..][0] == t[1] && t[1..][1..] == t[2..];
  }

  /** Two digits and what decodes after them. */
  lemma FromHexTwo(t: Text)
    requires t != [] && !IsHexSpace(t[0]) && FromHex(t).Some?
    ensures |t| >= 2 && HexVal(t[0]).Some? && HexVal(t[1]).Some? && FromHex(t[2..]).Some?
    ensures FromHex(t).value == [HexVal(t[0]).value * 16 + HexVal(t[1]).value] + FromHex(t[2..]).value
  {
  }

  lemma HexValDigit(c: CodePoint)
    requires HexVal(c).Some?
    ensures !IsHexSpace(c) && HexVal(c).value < 16
    ensures HexDigit(HexVal(c).value) == LowerHex(c)
  {
  }

  /** Whatever decodes to some bytes is, but for case and white space, their hexadecimal form. */
  lemma {:induction false} FromHexPlain(t: Text)
    ensures FromHex(t).Some? ==> Plain(t) == Hex(FromHex(t).value)
    decreases |t|
  {
    if t != [] && FromHex(t).Some? {
      if IsHexSpace(t[0]) {
        FromHexPlain(t[1..]);
      } else {
        FromHexTwo(t);
        HexValDigit(t[0]);
        HexValDigit(t[1]);
        PlainTwo(t);
        FromHexPlain(t[2..]);
        HexCons(HexVal(t[0]).value, HexVal(t[1]).value, FromHex(t[2..]).value);
      }
    }
  }

  predicate IsHexDigit(c: CodePoint) { 0x30 <= c <= 0x39 || 0x41 <= c <= 0x46 || 0x61 <= c <= 0x66 }

  /** Only digits and white space; the space stands between pairs, and the digits are paired. */
  ghost predicate Paired(t: Text) {
    && (forall i :: 0 <= i < |t| ==> IsHexDigit(t[i]) || IsHexSpace(t[i]))
    && (forall i :: 0 <= i < |t| && IsHexSpace(t[i]) ==> |Plain(t[..i])| % 2 == 0)
    && |Plain(t)| % 2 == 0
  }

  lemma PlainPrefix(t: Text, i: nat)
    requires 0 < i <= |t|
    ensures Plain(t[..i]) == (if IsHexSpace(t[0]) then [] else [LowerHex(t[0])]) + Plain(t[1..][..i - 1])
  {
    assert t[..i][0] == t[0] && t[..i][1..] == t[1..][..i - 1];
  }

  /** White space in front does not matter. */
  lemma PairedSpace(t: Text)
    requires t != [] && IsHexSpace(t[0])
    ensures Paired(t) <==> Paired(t[1..])
  {
    var u := t[1..];
    forall i: nat | i < |u| ensures |Plain(t[..i + 1])| == |Plain(u[..i])| { PlainPrefix(t, i + 1); }
    if Paired(u) {
      forall i | 0 <= i < |t| ensures IsHexDigit(t[i]) || IsHexSpace(t[i]) {
        if i > 0 { assert t[i] == u[i - 1]; }
      }
      forall i | 0 <= i < |t| && IsHexSpace(t[i]) ensures |Plain(t[..i])| % 2 == 0 {
        if i > 0 { assert t[i] == u[i - 1]; }
      }
    }
    if Paired(t) {
      forall i | 0 <= i < |u| ensures IsHexDigit(u[i]) || IsHexSpace(u[i]) { assert u[i] == t[i + 1]; }
      forall i | 0 <= i < |u| && IsHexSpace(u[i]) ensures |Plain(u[..i])| % 2 == 0 { assert u[i] == t[i + 1]; }
    }
  }

  lemma PlainTwoPrefix(t: Text, i: nat)
    requires |t| >= 2 && !IsHexSpace(t[0]) && !IsHexSpace(t[1]) && 2 <= i <= |t|
    ensures |Plain(t[..i])| == 2 + |Plain(t[2..][..i - 2])|
  {
    PlainTwo(t[..i]);
    assert t[..i][2..] == t[2..][..i - 2];
  }

  /** Two digits in front do not matter either. */
  lemma PairedTwo(t: Text)
    requires |t| >= 2 && IsHexDigit(t[0]) && IsHexDigit(t[1])
    ensures Paired(t) <==> Paired(t[2..])
  {
    var u := t[2..];
    PlainTwo(t);
    forall i: nat | i <= |u| ensures |Plain(t[..i + 2])| == 2 + |Plain(u[..i])| { PlainTwoPrefix(t, i + 2); }
    if Paired(u) {
      forall i | 0 <= i < |t| ensures IsHexDigit(t[i]) || IsHexSpace(t[i]) {
        if i > 1 { assert t[i] == u[i - 2]; }
      }
      forall i | 0 <= i < |t| && IsHexSpace(t[i]) ensures |Plain(t[..i])| % 2 == 0 {
        assert i > 1;
        assert t[i] == u[i - 2];
      }
    }
    if Paired(t) {
      forall i | 0 <= i < |u| ensures IsHexDigit(u[i]) || IsHexSpace(u[i]) { assert u[i] == t[i + 2]; }
      forall i | 0 <= i < |u| && IsHexSpace(u[i]) ensures |Plain(u[..i])| % 2 == 0 { assert u[i] == t[i + 2]; }
    }
  }

  lemma PlainFirst(t: Text)
    requires t != [] && !IsHexSpace(t[0])
    ensures |Plain(t[..1])| == 1 && (|t| == 1 ==> |Plain(t)| == 1)
  {
    assert t[..1] == [t[0]];
    assert |t| == 1 ==> t == [t[0]];
  }

  /** In a paired text a digit is followed by a digit. */
  lemma PairedDigit(t: Text)
    requires t != [] && IsHexDigit(t[0]) && Paired(t)
    ensures |t| >= 2 && IsHexDigit(t[1])
  {
    PlainFirst(t);
  }

  /** A text decodes if and only if it is so paired. */
  lemma {:induction false} FromHexExactly(t: Text)
    ensures FromHex(t).Some? <==> Paired(t)
    decreases |t|
  {
    if t == [] {
    } else if IsHexSpace(t[0]) {
      FromHexExactly(t[1..]);
      PairedSpace(t);
    } else if |t| >= 2 && IsHexDigit(t[0]) && IsHexDigit(t[1]) {
      FromHexExactly(t[2..]);
      PairedTwo(t);
    } else {
      if Paired(t) { PairedDigit(t); }
    }
  }

  lemma HexCons(a: nat, b: nat, bytes: seq<Byte>)
    requires a < 16 && b < 16
    ensures Hex([a * 16 + b] + bytes) == [HexDigit(a), HexDigit(b)] + Hex(bytes)
  {
    var c: Byte := a * 16 + b;
    assert c / 16 == a && c % 16 == b;
    assert ([c] + bytes)[1..] == bytes;
  }

  // ---------- sealing and opening ----------

  ghost function Payload(ts: Text, issuer: Text, data: Json): map<Text, Json> {
    map[VERSION := Num(ONE), TS := Num(ts), ISS := Str(issuer), DATA := data]
  }

  /** `envelope(issuer, key, data)`, at the clock reading printed as `ts`. */
  ghost function Seal(mac: Mac, ts: Text, issuer: Text, data: Json): Text {
    var payload := Payload(ts, issuer, data);
    var sig := Hex(mac(Print(Obj(payload))));
    Print(Obj(payload[SIG := Str(sig)]))
  }

  /** Values that Python treats as false. */
  predicate Falsy(v: Json) {
    match v
    case Null => true
    case Bool(b) => !b
    case Num(tok) => tok == Chars("0") || tok == Chars("0.0") || tok == Chars("-0.0")
    case Str(s) => s == []
    case Arr(items) => items == []
    case Obj(fields) => fields == map[]
  }

  /** Values that Python finds equal to the version constant 1. */
  predicate IsOne(v: Json) {
    v == Num(ONE) || v == Num(Chars("1.0")) || v == Bool(true)
  }

  /** `open_envelope(key, raw)` */
  ghost function Open(mac: Mac, canon: Canon, raw: Text): Result<Json, Error> {
    match Loads(canon, raw)
    case Some(Obj(fields)) =>
      var sig := if SIG in fields then fields[SIG] else Str([]);
      var msg := fields - {SIG};
      if Falsy(sig) then Err(MissingSignature)
      else if !sig.Str? || FromHex(sig.s).None? then Err(Malformed)
      else if mac(Print(Obj(msg))) != FromHex(sig.s).value then Err(InvalidSignature)
      else if VERSION !in msg || !IsOne(msg[VERSION]) then Err(UnsupportedVersion)
      else if DATA !in msg then Err(Malformed)
      else Ok(msg[DATA])
    case _ => Err(Malformed)
  }

  /** Tags of HMAC-SHA256 are 32 bytes. */
  ghost predicate IsHmac(mac: Mac) { forall t :: |mac(t)| == 32 }

  /** What `json.dumps` prints for the clock and the issuer it is given. */
  ghost predicate Header(canon: Canon, ts: Text, issuer: Text) {
    ValidNumber(ts) && canon(ts) == ts && canon(ONE) == ONE && NoPair(issuer)
  }

  lemma KeysDistinct()
    ensures SIG != VERSION && SIG != TS && SIG != ISS && SIG != DATA && VERSION != TS
    ensures VERSION != ISS && VERSION != DATA && TS != ISS && TS != DATA && ISS != DATA
    ensures ValidNumber(ONE)
    ensures NoPair(SIG) && NoPair(VERSION) && NoPair(TS) && NoPair(ISS) && NoPair(DATA)
  {
    assert SIG[0] == 0x73 && ISS[0] == 0x69;
  }

  lemma HexPlain(bytes: seq<Byte>)
    ensures NoPair(Hex(bytes))
  {
    HexAscii(bytes);
  }

  lemma {:induction false} HexAscii(bytes: seq<Byte>)
    ensures Ascii(Hex(bytes))
  {
    if bytes != [] { HexAscii(bytes[1..]); }
  }

  lemma PayloadFields(ts: Text, issuer: Text, data: Json)
    ensures var p := Payload(ts, issuer, data);
      && p.Keys == {VERSION, TS, ISS, DATA}
      && p[VERSION] == Num(ONE) && p[TS] == Num(ts) && p[ISS] == Str(issuer) && p[DATA] == data
  {
    KeysDistinct();
  }

  lemma PayloadShape(canon: Canon, ts: Text, issuer: Text, data: Json)
    requires Header(canon, ts, issuer) && Printable(canon, data)
    ensures Printable(canon, Obj(Payload(ts, issuer, data)))
    ensures KeysClean(data) ==> KeysClean(Obj(Payload(ts, issuer, data)))
  {
    PayloadFields(ts, issuer, data);
    KeysDistinct();
  }

  lemma PayloadEntry(ts: Text, issuer: Text, data: Json, k: Text)
    requires NoPair(issuer) && k in Payload(ts, issuer, data)
    ensures NoPair(k) && Join(k) == k
    ensures Relayed(Payload(ts, issuer, data)[k]) == Payload(ts, issuer, data)[DATA := Relayed(data)][k]
    ensures k != DATA ==> KeepsOrder(Payload(ts, issuer, data)[k])
  {
    PayloadFields(ts, issuer, data);
    KeysDistinct();
    JoinFixed(k);
    var p := Payload(ts, issuer, data);
    if k != DATA { HeaderEntry(p[k]); }
  }

  lemma HeaderEntry(v: Json)
    requires v.Num? || (v.Str? && NoPair(v.s))
    ensures Relayed(v) == v && KeepsOrder(v)
  {
    RelayedAtom(if v.Num? then v.tok else v.s);
  }

  /** What a reader sees of the payload: the data are relayed, the rest stays. */
  lemma PayloadRelayed(ts: Text, issuer: Text, data: Json)
    requires NoPair(issuer)
    ensures Relayed(Obj(Payload(ts, issuer, data))) == Obj(Payload(ts, issuer, data)[DATA := Relayed(data)])
  {
    var p := Payload(ts, issuer, data);
    var n := p[DATA := Relayed(data)];
    forall k | k in p ensures NoPair(k) && Relayed(p[k]) == n[k] { PayloadEntry(ts, issuer, data, k); }
    RelayedMap(p, n);
  }

  lemma PayloadKeepsOrder(ts: Text, issuer: Text, data: Json)
    requires NoPair(issuer)
    ensures KeepsOrder(Obj(Payload(ts, issuer, data))) <==> KeepsOrder(data)
  {
    var p := Payload(ts, issuer, data);
    PayloadFields(ts, issuer, data);
    forall k | k in p ensures NoPair(k) && (k != DATA ==> KeepsOrder(p[k])) { PayloadEntry(ts, issuer, data, k); }
    CleanKeysKeepOrder(p);
  }

  lemma UpdateShape(canon: Canon, m: map<Text, Json>, k: Text, v: Json)
    requires Printable(canon, Obj(m)) && Printable(canon, v)
    ensures Printable(canon, Obj(m[k := v]))
    ensures KeysClean(Obj(m)) && NoPair(k) && KeysClean(v) ==> KeysClean(Obj(m[k := v]))
  {
  }

  lemma SealedShape(canon: Canon, ts: Text, issuer: Text, data: Json, sig: Text)
    requires Header(canon, ts, issuer) && Printable(canon, data) && NoPair(sig)
    ensures Printable(canon, Obj(Payload(ts, issuer, data)[SIG := Str(sig)]))
  {
    PayloadShape(canon, ts, issuer, data);
    UpdateShape(canon, Payload(ts, issuer, data), SIG, Str(sig));
  }

  lemma SealedRelayed(ts: Text, issuer: Text, data: Json, sig: Text)
    requires NoPair(issuer) && NoPair(sig)
    ensures Relayed(Obj(Payload(ts, issuer, data)[SIG := Str(sig)]))
         == Obj(Payload(ts, issuer, data)[DATA := Relayed(data)][SIG := Str(sig)])
  {
    var p := Payload(ts, issuer, data);
    var n := p[DATA := Relayed(data)];
    KeysDistinct();
    RelayedAtom(sig);
    forall k | k in p[SIG := Str(sig)] ensures NoPair(k) && Relayed(p[SIG := Str(sig)][k]) == n[SIG := Str(sig)][k] {
      if k != SIG { PayloadEntry(ts, issuer, data, k); }
    }
    RelayedMap(p[SIG := Str(sig)], n[SIG := Str(sig)]);
  }

  // ---------- opening what was sealed ----------

  /** The text whose tag `open_envelope` recomputes. */
  ghost function Verified(canon: Canon, raw: Text): Text {
    match Loads(canon, raw)
    case Some(Obj(fields)) => Print(Obj(fields - {SIG}))
    case _ => []
  }

  /** The text whose tag `envelope` computes. */
  ghost function Signed(ts: Text, issuer: Text, data: Json): Text {
    Print(Obj(Payload(ts, issuer, data)))
  }

  lemma SealedLoads(mac: Mac, canon: Canon, ts: Text, issuer: Text, data: Json)
    requires Header(canon, ts, issuer) && Printable(canon, data)
    ensures Loads(canon, Seal(mac, ts, issuer, data))
         == Some(Obj(Payload(ts, issuer, data)[DATA := Relayed(data)][SIG := Str(Hex(mac(Signed(ts, issuer, data))))]))
  {
    var sig := Hex(mac(Signed(ts, issuer, data)));
    HexPlain(mac(Signed(ts, issuer, data)));
    SealedShape(canon, ts, issuer, data, sig);
    SealedRelayed(ts, issuer, data, sig);
    LoadsRelayed(canon, Obj(Payload(ts, issuer, data)[SIG := Str(sig)]));
  }

  lemma GotFields(ts: Text, issuer: Text, data: Json, sig: Text)
    ensures var got := Payload(ts, issuer, data)[DATA := Relayed(data)][SIG := Str(sig)];
      && got - {SIG} == Payload(ts, issuer, data)[DATA := Relayed(data)]
      && SIG in got && got[SIG] == Str(sig)
      && VERSION in got && got[VERSION] == Num(ONE) && DATA in got && got[DATA] == Relayed(data)
  {
    KeysDistinct();
  }

  /** The text checked is the payload printed once more. */
  lemma SealedVerified(mac: Mac, canon: Canon, ts: Text, issuer: Text, data: Json)
    requires Header(canon, ts, issuer) && Printable(canon, data)
    ensures Verified(canon, Seal(mac, ts, issuer, data)) == Print(Relayed(Obj(Payload(ts, issuer, data))))
  {
    SealedLoads(mac, canon, ts, issuer, data);
    GotFields(ts, issuer, data, Hex(mac(Signed(ts, issuer, data))));
    PayloadRelayed(ts, issuer, data);
  }

  /**
   The consumer checks the text that the producer signed if and only if joining the keys, in every
   object of the data, keeps their order and merges none.
   */
  lemma VerifiedExactly(mac: Mac, canon: Canon, ts: Text, issuer: Text, data: Json)
    requires Header(canon, ts, issuer) && Printable(canon, data)
    ensures Verified(canon, Seal(mac, ts, issuer, data)) == Signed(ts, issuer, data) <==> KeepsOrder(data)
  {
    SealedVerified(mac, canon, ts, issuer, data);
    PayloadShape(canon, ts, issuer, data);
    ReprintExactly(canon, Obj(Payload(ts, issuer, data)));
    PayloadKeepsOrder(ts, issuer, data);
  }

  lemma OpenMessage(mac: Mac, canon: Canon, raw: Text, fields: map<Text, Json>, tag: seq<Byte>)
    requires Loads(canon, raw) == Some(Obj(fields))
    requires SIG in fields && fields[SIG] == Str(Hex(tag)) && tag != []
    requires VERSION in fields && IsOne(fields[VERSION]) && DATA in fields
    ensures Open(mac, canon, raw) ==
      if mac(Verified(canon, raw)) == tag then Ok(fields[DATA]) else Err(InvalidSignature)
  {
    FromHexHex(tag);
    KeysDistinct();
  }

  /** Opening what was sealed fails in one way only. */
  lemma OpenSealed(mac: Mac, canon: Canon, ts: Text, issuer: Text, data: Json)
    requires Header(canon, ts, issuer) && Printable(canon, data) && IsHmac(mac)
    ensures var raw := Seal(mac, ts, issuer, data);
      Open(mac, canon, raw) ==
        if mac(Verified(canon, raw)) == mac(Signed(ts, issuer, data)) then Ok(Relayed(data)) else Err(InvalidSignature)
  {
    var tag := mac(Signed(ts, issuer, data));
    SealedLoads(mac, canon, ts, issuer, data);
    GotFields(ts, issuer, data, Hex(tag));
    OpenMessage(mac, canon, Seal(mac, ts, issuer, data),
                Payload(ts, issuer, data)[DATA := Relayed(data)][SIG := Str(Hex(tag))], tag);
  }

  ghost predicate Collision(mac: Mac, a: Text, b: Text) { a != b && mac(a) == mac(b) }

  /**
   What was sealed opens under the same key if and only if the keys keep their order, short of a
   collision of the MAC; it then opens to the data with keys and strings joined.
   */
  lemma OpenSealExactly(mac: Mac, canon: Canon, ts: Text, issuer: Text, data: Json)
    requires Header(canon, ts, issuer) && Printable(canon, data) && IsHmac(mac)
    ensures var raw := Seal(mac, ts, issuer, data);
      Open(mac, canon, raw) ==
        if KeepsOrder(data) || Collision(mac, Verified(canon, raw), Signed(ts, issuer, data)) then Ok(Relayed(data))
        else Err(InvalidSignature)
  {
    OpenSealed(mac, canon, ts, issuer, data);
    VerifiedExactly(mac, canon, ts, issuer, data);
  }

  /** With clean keys nothing fails, and only the string values are joined. */
  lemma OpenSealNorm(mac: Mac, canon: Canon, ts: Text, issuer: Text, data: Json)
    requires Header(canon, ts, issuer) && Printable(canon, data) && KeysClean(data)
    requires IsHmac(mac)
    ensures Open(mac, canon, Seal(mac, ts, issuer, data)) == Ok(Norm(data))
  {
    CleanKeepsOrder(data);
    RelayedNorm(data);
    OpenSealExactly(mac, canon, ts, issuer, data);
  }

  lemma SealAscii(mac: Mac, canon: Canon, ts: Text, issuer: Text, data: Json)
    requires Header(canon, ts, issuer) && Printable(canon, data)
    ensures Ascii(Seal(mac, ts, issuer, data))
  {
    var payload := Payload(ts, issuer, data);
    var sig := Hex(mac(Print(Obj(payload))));
    HexPlain(mac(Print(Obj(payload))));
    SealedShape(canon, ts, issuer, data, sig);
    PrintAscii(canon, Obj(payload[SIG := Str(sig)]), []);
  }

  /** Everything that opens from an ASCII text is free of split surrogate pairs. */
  lemma OpenClean(mac: Mac, canon: Canon, raw: Text)
    requires Ascii(raw) && Open(mac, canon, raw).Ok?
    ensures Clean(Open(mac, canon, raw).value)
  {
    LoadsSound(canon, raw);
  }

  /** The consumer gets back exactly the data sealed if and only if no string in it splits a surrogate pair. */
  lemma OpenSeal(mac: Mac, canon: Canon, ts: Text, issuer: Text, data: Json)
    requires Header(canon, ts, issuer) && Printable(canon, data)
    requires IsHmac(mac)
    ensures Open(mac, canon, Seal(mac, ts, issuer, data)) == Ok(data) <==> Clean(data)
  {
    if KeysClean(data) {
      OpenSealNorm(mac, canon, ts, issuer, data);
      NormFixed(data);
    } else {
      CleanKeys(data);
    }
    if Open(mac, canon, Seal(mac, ts, issuer, data)) == Ok(data) {
      SealAscii(mac, canon, ts, issuer, data);
      OpenClean(mac, canon, Seal(mac, ts, issuer, data));
    }
  }

  const SPLIT_PAIR: Text := [0xD83D, 0xDE00]

  /** A string holding the two halves of a surrogate pair is accepted, and comes back as one code point. */
  lemma SplitPairIsAltered(mac: Mac, canon: Canon, ts: Text, issuer: Text, key: Text)
    requires Header(canon, ts, issuer) && NoPair(key)
    requires IsHmac(mac)
    ensures Open(mac, canon, Seal(mac, ts, issuer, Obj(map[key := Str(SPLIT_PAIR)])))
         == Ok(Obj(map[key := Str([0x1_F600])]))
  {
    SplitPairNorm(canon, key);
    OpenSealNorm(mac, canon, ts, issuer, Obj(map[key := Str(SPLIT_PAIR)]));
  }

  lemma SplitPairNorm(canon: Canon, key: Text)
    requires NoPair(key)
    ensures var data := Obj(map[key := Str(SPLIT_PAIR)]);
      Printable(canon, data) && KeysClean(data) && Norm(data) == Obj(map[key := Str([0x1_F600])])
  {
    assert Join(SPLIT_PAIR) == [0x1_F600] + Join([]) == [0x1_F600];
    assert Norm(Obj(map[key := Str(SPLIT_PAIR)])).fields == map[key := Str([0x1_F600])];
  }

  /** Two keys, one of them a split pair: it sorts first as it stands, and last once it is joined. */
  function Reordered(): Json {
    Obj(map[SPLIT_PAIR := Null, [0xE000] := Null])
  }

  lemma ReorderedLosesOrder()
    ensures !KeepsOrder(Reordered())
  {
    assert SPLIT_PAIR in Reordered().fields && [0xE000] in Reordered().fields;
    assert Join(SPLIT_PAIR) == [0x1_F600] + Join([]) == [0x1_F600];
    assert Join([0xE000]) == [0xE000] + Join([]) == [0xE000];
    assert LexLe(SPLIT_PAIR, [0xE000]) && !LexLe([0x1_F600], [0xE000]);
    assert !KeepsKeyOrder(SPLIT_PAIR, [0xE000]);
  }

  /** Such data are rejected by the consumer that holds the right key. */
  lemma ReorderedIsRejected(mac: Mac, canon: Canon, ts: Text, issuer: Text)
    requires Header(canon, ts, issuer) && IsHmac(mac)
    ensures var raw := Seal(mac, ts, issuer, Reordered());
      || Open(mac, canon, raw) == Err(InvalidSignature)
      || Collision(mac, Verified(canon, raw), Signed(ts, issuer, Reordered()))
  {
    ReorderedLosesOrder();
    OpenSealExactly(mac, canon, ts, issuer, Reordered());
  }

  /** What a reader loads from a sealed envelope: five members, under these names. */
  lemma SealedSays(mac: Mac, canon: Canon, ts: Text, issuer: Text, data: Json)
    requires Header(canon, ts, issuer) && Printable(canon, data)
    ensures Loads(canon, Seal(mac, ts, issuer, data)) == Some(Obj(map[
      Chars("v") := Num(Chars("1")), Chars("ts") := Num(ts), Chars("iss") := Str(issuer),
      Chars("data") := Relayed(data),
      Chars("sig") := Str(Hex(mac(Signed(ts, issuer, data))))]))
  {
    SealedLoads(mac, canon, ts, issuer, data);
    SaysFields(ts, issuer, data, Str(Hex(mac(Signed(ts, issuer, data)))));
  }

  lemma SaysFields(ts: Text, issuer: Text, data: Json, sig: Json)
    ensures Payload(ts, issuer, data)[DATA := Relayed(data)][SIG := sig] == map[
      Chars("v") := Num(Chars("1")), Chars("ts") := Num(ts), Chars("iss") := Str(issuer),
      Chars("data") := Relayed(data),
      Chars("sig") := sig]
  {
    KeysDistinct();
  }

  // ---------- opening any text ----------

  /** The version is the number 1, or what Python finds equal to it. */
  predicate IsVersionOne(v: Json) {
    v == Num(Chars("1")) || v == Num(Chars("1.0")) || v == Bool(true)
  }

  /** The text loads to these members, and their signature is the tag of all the others. */
  ghost predicate IsSigned(mac: Mac, canon: Canon, raw: Text, fields: map<Text, Json>) {
    && Loads(canon, raw) == Some(Obj(fields))
    && Chars("sig") in fields && fields[Chars("sig")].Str? && fields[Chars("sig")].s != []
    && FromHex(fields[Chars("sig")].s) == Some(mac(Print(Obj(fields - {Chars("sig")}))))
  }

  /** It opens to `data`. */
  ghost predicate OpensTo(mac: Mac, canon: Canon, raw: Text, fields: map<Text, Json>, data: Json) {
    && IsSigned(mac, canon, raw, fields)
    && Chars("v") in fields && IsVersionOne(fields[Chars("v")])
    && Chars("data") in fields && fields[Chars("data")] == data
  }

  /**
   Any text opens, to the data it holds, if and only if it loads to an object whose signature is a
   non-empty string that decodes to the tag of the rest, whose version is one, and that has data.
   */
  lemma OpenExactly(mac: Mac, canon: Canon, raw: Text, data: Json)
    ensures Open(mac, canon, raw) == Ok(data) <==> exists fields :: OpensTo(mac, canon, raw, fields, data)
  {
    KeysDistinct();
    if Open(mac, canon, raw) == Ok(data) {
      var fields := Loads(canon, raw).value.fields;
      assert OpensTo(mac, canon, raw, fields, data);
    }
    if fields :| OpensTo(mac, canon, raw, fields, data) {
      OpensToOpens(mac, canon, raw, fields, data);
    }
  }

  lemma OpensToOpens(mac: Mac, canon: Canon, raw: Text, fields: map<Text, Json>, data: Json)
    requires OpensTo(mac, canon, raw, fields, data)
    ensures Open(mac, canon, raw) == Ok(data)
  {
    KeysDistinct();
  }

  /** A text without a signature, with an empty one, or with one that is not the tag, is rejected. */
  lemma UnsignedIsRejected(mac: Mac, canon: Canon, raw: Text, fields: map<Text, Json>)
    requires Loads(canon, raw) == Some(Obj(fields)) && !IsSigned(mac, canon, raw, fields)
    ensures Open(mac, canon, raw).Err?
  {
    if Open(mac, canon, raw).Ok? {
      OpenExactly(mac, canon, raw, Open(mac, canon, raw).value);
    }
  }

  /** The values that count as no signature at all. */
  ghost predicate IsBlank(v: Json) {
    || v == Null || v == Bool(false) || v == Str([]) || v == Arr([]) || v == Obj(map[])
    || (v.Num? && (v.tok == [0x30] || v.tok == [0x30, 0x2E, 0x30] || v.tok == [0x2D, 0x30, 0x2E, 0x30]))
  }

  /** Which of the checks an object fails: it has no signature, or one that decodes to other bytes than
      the tag, or the right one on another version. */
  lemma RejectsExactly(mac: Mac, canon: Canon, raw: Text, fields: map<Text, Json>)
    requires Loads(canon, raw) == Some(Obj(fields))
    ensures Open(mac, canon, raw) == Err(MissingSignature) <==>
      Chars("sig") !in fields || IsBlank(fields[Chars("sig")])
    ensures Open(mac, canon, raw) == Err(InvalidSignature) <==>
      && Chars("sig") in fields && fields[Chars("sig")].Str? && fields[Chars("sig")].s != []
      && FromHex(fields[Chars("sig")].s).Some? && !IsSigned(mac, canon, raw, fields)
    ensures Open(mac, canon, raw) == Err(UnsupportedVersion) <==>
      IsSigned(mac, canon, raw, fields) && !(Chars("v") in fields && IsVersionOne(fields[Chars("v")]))
  {
    KeysDistinct();
    if SIG in fields { FalsyIsBlank(fields[SIG]); }
  }

  lemma FalsyIsBlank(v: Json)
    ensures Falsy(v) <==> IsBlank(v)
  {
    assert Chars("0") == [0x30] && Chars("0.0") == [0x30, 0x2E, 0x30] && Chars("-0.0") == [0x2D, 0x30, 0x2E, 0x30];
  }

  lemma OpenedMessage(mac: Mac, canon: Canon, raw: Text) returns (msg: Json)
    requires Open(mac, canon, raw).Ok?
    ensures Loads(canon, raw).Some? && Loads(canon, raw).value.Obj?
    ensures msg == Obj(Loads(canon, raw).value.fields - {SIG}) && Print(msg) == Verified(canon, raw)
    ensures DATA in msg.fields && Open(mac, canon, raw) == Ok(msg.fields[DATA])
  {
    msg := Obj(Loads(canon, raw).value.fields - {SIG});
  }

  /** A key that reads as a basic text is that text, so its members read the same. */
  lemma SameMember(v: Json, w: Json, k: Text) returns (l: Text)
    requires v.Obj? && w.Obj? && TreeOf(v) == TreeOf(w) && k in w.fields
    requires forall i :: 0 <= i < |k| ==> k[i] < 0x80
    ensures k in v.fields && l in w.fields && Join(l) == k && TreeOf(v.fields[k]) == TreeOf(w.fields[l])
  {
    var ks, ls := KeysOf(v), KeysOf(w);
    var i :| 0 <= i < |ls| && ls[i] == k;
    assert |TreeOf(v).members| == |ks| && |TreeOf(w).members| == |ls|;
    TreeMembers(v, i);
    TreeMembers(w, i);
    AsciiNoPair(k);
    JoinFixed(k);
    assert Join(ks[i]) == k;
    JoinBasic(ks[i]);
    l := ls[i];
  }

  lemma AsciiNoPair(k: Text)
    requires Ascii(k)
    ensures NoPair(k)
  {
  }

  /**
   Whatever wire text is accepted, even one nobody sealed: if the text it was checked against is
   one that a producer signed, the data have the text of that producer's data; and if the wire
   text is ASCII they are those data, relayed.
   */
  lemma AcceptedWasSealed(mac: Mac, canon: Canon, raw: Text, ts: Text, issuer: Text, data: Json)
    requires Canonical(canon) && Header(canon, ts, issuer) && Printable(canon, data)
    ensures Open(mac, canon, raw).Ok? && Verified(canon, raw) == Signed(ts, issuer, data) ==>
              && Print(Open(mac, canon, raw).value) == Print(data)
              && (Ascii(raw) ==> Open(mac, canon, raw) == Ok(Relayed(data)))
  {
    if Open(mac, canon, raw).Ok? && Verified(canon, raw) == Signed(ts, issuer, data) {
      var msg := OpenedMessage(mac, canon, raw);
      LoadsSound(canon, raw);
      SameData(canon, msg, ts, issuer, data);
      SameText(msg.fields[DATA], data, []);
      if Ascii(raw) {
        CleanKeys(msg.fields[DATA]);
        RelayedNorm(msg.fields[DATA]);
        NormFixed(msg.fields[DATA]);
      }
    }
  }

  lemma SameData(canon: Canon, msg: Json, ts: Text, issuer: Text, data: Json)
    requires Header(canon, ts, issuer) && Printable(canon, data)
    requires msg.Obj? && Printable(canon, msg) && Print(msg) == Signed(ts, issuer, data) && DATA in msg.fields
    ensures TreeOf(msg.fields[DATA]) == TreeOf(data)
  {
    var p := Payload(ts, issuer, data);
    PayloadShape(canon, ts, issuer, data);
    TextExactly(canon, msg, Obj(p));
    forall k | k in p ensures NoPair(k) { PayloadEntry(ts, issuer, data, k); }
    PayloadFields(ts, issuer, data);
    SameDataMember(msg, p);
  }

  lemma SameDataMember(msg: Json, p: map<Text, Json>)
    requires msg.Obj? && TreeOf(msg) == TreeOf(Obj(p)) && DATA in p && forall k :: k in p ==> NoPair(k)
    ensures DATA in msg.fields && TreeOf(msg.fields[DATA]) == TreeOf(p[DATA])
  {
    var l := SameMember(msg, Obj(p), DATA);
    JoinFixed(l);
  }
}
