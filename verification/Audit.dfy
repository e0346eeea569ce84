/**
 The hash-chained audit log. `hash` stands for the hexadecimal SHA-256 of a text; the text of a
 record is its canonical JSON with an empty hash.
 */
module Audit {
  import opened Wrappers
  import opened Text
  import opened Json
  import opened HashChain

  /** What a caller supplies, with the clock reading as it is printed. */
  datatype Entry = Entry(
    ts: Text, service: Text, event: Text, actor: Option<Text>, resource: Option<Text>,
    outcome: Text, requestId: Option<Text>, attrs: map<Text, Json>)

  // ---------- the text of a record ----------

  /** The map that gives each key in the list the value at its place. */
  function Zip(ks: seq<Text>, vs: seq<Json>): map<Text, Json>
    requires |ks| == |vs|
  {
    if ks == [] then map[] else Zip(ks[1..], vs[1..])[ks[0] := vs[0]]
  }

  lemma {:induction false} ZipAt(ks: seq<Text>, vs: seq<Json>)
    requires |ks| == |vs|
    ensures forall k :: k in Zip(ks, vs) <==> k in ks
    ensures forall k :: k in Zip(ks, vs) ==> Zip(ks, vs)[k] in vs
    ensures (forall i, j :: 0 <= i < j < |ks| ==> ks[i] != ks[j]) ==>
              forall i :: 0 <= i < |ks| ==> Zip(ks, vs)[ks[i]] == vs[i]
  {
    if ks != [] { ZipAt(ks[1..], vs[1..]); }
  }

  lemma {:induction false} NormZip(ks: seq<Text>, vs: seq<Json>, ws: seq<Json>)
    requires |ks| == |vs| == |ws| && forall i :: 0 <= i < |vs| ==> Norm(vs[i]) == ws[i]
    ensures Norm(Obj(Zip(ks, vs))) == Obj(Zip(ks, ws))
  {
    if ks != [] {
      NormZip(ks[1..], vs[1..], ws[1..]);
      assert Norm(Obj(Zip(ks[1..], vs[1..]))).fields == Zip(ks[1..], ws[1..]);
      assert Norm(Obj(Zip(ks, vs))).fields == Zip(ks, ws);
    }
  }

  /** The fields of an audit record. */
  function Names(): (ks: seq<Text>)
    ensures |ks| == 10
  {
    [Chars("ts"), Chars("service"), Chars("event"), Chars("actor"), Chars("resource"),
     Chars("outcome"), Chars("request_id"), Chars("attrs"), Chars("prev_hash"), Chars("hash")]
  }

  lemma NamesApart(i: nat, j: nat)
    requires i < j < 10
    ensures Names()[i] != Names()[j]
  {
    assert Names()[1][0] != Names()[5][0];
    assert Names()[2][0] != Names()[3][0] && Names()[2][0] != Names()[7][0];
    assert Names()[3][1] != Names()[7][1];
  }

  lemma NamesClean(k: Text)
    requires k in Names()
    ensures NoPair(k)
  {
  }

  function Optional(o: Option<Text>): Json {
    match o case None => Null case Some(t) => Str(t)
  }

  function Values(e: Entry, prev: Text): (vs: seq<Json>)
    ensures |vs| == 10
  {
    [Num(e.ts), Str(e.service), Str(e.event), Optional(e.actor), Optional(e.resource),
     Str(e.outcome), Optional(e.requestId), Obj(e.attrs), Str(prev), Str([])]
  }

  /** `asdict(rec)`, before its hash is filled in. */
  function AsDict(e: Entry, prev: Text): map<Text, Json> { Zip(Names(), Values(e, prev)) }

  /** The text that is hashed. */
  ghost function RecordText(e: Entry, prev: Text): Text { Print(Obj(AsDict(e, prev))) }

  /** The member `name` of the object is `v`. */
  ghost predicate Says(m: map<Text, Json>, name: string, v: Json) { Chars(name) in m && m[Chars(name)] == v }

  function OrNull(o: Option<Text>): Json { if o.Some? then Str(o.value) else Null }

  /** The object says each field of the entry under its own name. */
  ghost predicate SaysEntry(m: map<Text, Json>, e: Entry, prev: Text) {
    && Says(m, "ts", Num(e.ts)) && Says(m, "service", Str(e.service)) && Says(m, "event", Str(e.event))
    && Says(m, "actor", OrNull(e.actor)) && Says(m, "resource", OrNull(e.resource))
    && Says(m, "outcome", Str(e.outcome)) && Says(m, "request_id", OrNull(e.requestId))
    && Says(m, "attrs", Obj(e.attrs)) && Says(m, "prev_hash", Str(prev)) && Says(m, "hash", Str([]))
  }

  /**
   What a reader loads from the text of a record is an object of ten members, that say each field
   under its own name, with surrogate pairs fused.
   */
  lemma RecordSays(canon: Canon, e: Entry, prev: Text)
    requires Serializable(canon, e)
    ensures exists m ::
      Loads(canon, RecordText(e, prev)) == Some(Obj(m)) && |m| == 10 && SaysEntry(m, Shown(e), Join(prev))
  {
    var m := AsDict(Shown(e), Join(prev));
    RecordLoads(canon, e, prev);
    DictSize(Shown(e), Join(prev));
    DictSays(Shown(e), Join(prev));
    assert Loads(canon, RecordText(e, prev)) == Some(Obj(m)) && |m| == 10;
  }

  lemma RecordLoads(canon: Canon, e: Entry, prev: Text)
    requires Serializable(canon, e)
    ensures Loads(canon, RecordText(e, prev)) == Some(Obj(AsDict(Shown(e), Join(prev))))
  {
    AsDictSerializable(canon, e, prev);
    LoadsPrint(canon, Obj(AsDict(e, prev)));
    NormAsDict(e, prev);
  }

  lemma {:induction false} ZipSize(ks: seq<Text>, vs: seq<Json>)
    requires |ks| == |vs| && forall i, j :: 0 <= i < j < |ks| ==> ks[i] != ks[j]
    ensures |Zip(ks, vs)| == |ks|
  {
    if ks != [] {
      ZipSize(ks[1..], vs[1..]);
      ZipAt(ks[1..], vs[1..]);
      assert ks[0] !in ks[1..];
      assert Zip(ks, vs).Keys == Zip(ks[1..], vs[1..]).Keys + {ks[0]};
    }
  }

  lemma DictSize(e: Entry, prev: Text)
    ensures |AsDict(e, prev)| == 10
  {
    forall i, j | 0 <= i < j < 10 ensures Names()[i] != Names()[j] { NamesApart(i, j); }
    ZipSize(Names(), Values(e, prev));
  }

  lemma DictAt(e: Entry, prev: Text, i: nat, name: string)
    requires i < 10 && Names()[i] == Chars(name)
    ensures Says(AsDict(e, prev), name, Values(e, prev)[i])
  {
    forall i, j | 0 <= i < j < 10 ensures Names()[i] != Names()[j] { NamesApart(i, j); }
    ZipAt(Names(), Values(e, prev));
  }

  lemma DictSays(e: Entry, prev: Text)
    ensures SaysEntry(AsDict(e, prev), e, prev)
  {
    DictAt(e, prev, 0, "ts");
    DictAt(e, prev, 1, "service");
    DictAt(e, prev, 2, "event");
    DictAt(e, prev, 3, "actor");
    DictAt(e, prev, 4, "resource");
    DictAt(e, prev, 5, "outcome");
    DictAt(e, prev, 6, "request_id");
    DictAt(e, prev, 7, "attrs");
    DictAt(e, prev, 8, "prev_hash");
    DictAt(e, prev, 9, "hash");
  }

  // ---------- the logger ----------

  class AuditLogger {
    const hash: Hash
    /** The serialisation of a record. */
    const dumps: Body<Entry>
    const start: Text
    var prevHash: Text
    ghost var log: seq<Record<Entry>>

    ghost predicate Valid()
      reads this
    {
      Chained(hash, dumps, start, log) && prevHash == HashBefore(start, log, |log|)
    }

    constructor (hash: Hash, dumps: Body<Entry>, seed: Text)
      ensures Valid() && log == []
      ensures this.hash == hash && this.dumps == dumps && start == hash(seed)
    {
      this.hash, this.dumps, start, prevHash := hash, dumps, hash(seed), hash(seed);
      log := [];
    }

    /** `emit(...)`, which runs under the lock: whichever order concurrent emits take it in, the
        log is one chain, and the new record follows every earlier one. */
    method Emit(e: Entry) returns (rec: Record<Entry>)
      requires Valid()
      modifies this
      ensures Valid() && log == old(log) + [rec]
      ensures rec.entry == e && rec.prevHash == old(prevHash)
      ensures rec.hash == prevHash == hash(dumps(e, old(prevHash)))
    {
      rec := Record(e, prevHash, hash(dumps(e, prevHash)));
      forall i: nat | i <= |log| ensures HashBefore(start, log + [rec], i) == HashBefore(start, log, i) {
      }
      prevHash := rec.hash;
      log := log + [rec];
    }
  }

  // ---------- what the text shows ----------

  /** Numbers are printed as Python prints them, and no attribute key holds a split surrogate pair. */
  ghost predicate Serializable(canon: Canon, e: Entry) {
    Printable(canon, Num(e.ts)) && Printable(canon, Obj(e.attrs)) && KeysClean(Obj(e.attrs))
  }

  /** No text of the entry contains a split surrogate pair. */
  ghost predicate CleanEntry(e: Entry) {
    && NoPair(e.service) && NoPair(e.event) && Clean(Optional(e.actor)) && Clean(Optional(e.resource))
    && NoPair(e.outcome) && Clean(Optional(e.requestId)) && Clean(Obj(e.attrs))
  }

  function JoinOptional(o: Option<Text>): Option<Text> {
    match o case None => None case Some(t) => Some(Join(t))
  }

  /** The entry with every split surrogate pair fused, which is what a reader of the log sees. */
  ghost function Shown(e: Entry): Entry {
    Entry(e.ts, Join(e.service), Join(e.event), JoinOptional(e.actor), JoinOptional(e.resource),
          Join(e.outcome), JoinOptional(e.requestId), Norm(Obj(e.attrs)).fields)
  }

  lemma ShownFixed(e: Entry)
    requires KeysClean(Obj(e.attrs))
    ensures Shown(e) == e <==> CleanEntry(e)
  {
    JoinFixed(e.service);
    JoinFixed(e.event);
    JoinFixed(e.outcome);
    NormFixed(Optional(e.actor));
    NormFixed(Optional(e.resource));
    NormFixed(Optional(e.requestId));
    NormFixed(Obj(e.attrs));
  }

  lemma ValuesInjective(e1: Entry, p1: Text, e2: Entry, p2: Text)
    requires Values(e1, p1) == Values(e2, p2)
    ensures e1 == e2 && p1 == p2
  {
    var vs, ws := Values(e1, p1), Values(e2, p2);
    assert vs[0] == ws[0] && vs[1] == ws[1] && vs[2] == ws[2] && vs[3] == ws[3] && vs[4] == ws[4];
    assert vs[5] == ws[5] && vs[6] == ws[6] && vs[7] == ws[7] && vs[8] == ws[8];
  }

  lemma AsDictInjective(e1: Entry, p1: Text, e2: Entry, p2: Text)
    requires AsDict(e1, p1) == AsDict(e2, p2)
    ensures e1 == e2 && p1 == p2
  {
    var vs, ws := Values(e1, p1), Values(e2, p2);
    forall i, j | 0 <= i < j < 10 ensures Names()[i] != Names()[j] {
      NamesApart(i, j);
    }
    ZipAt(Names(), vs);
    ZipAt(Names(), ws);
    forall i | 0 <= i < 10 ensures vs[i] == ws[i] {
      assert vs[i] == AsDict(e1, p1)[Names()[i]];
      assert ws[i] == AsDict(e2, p2)[Names()[i]];
    }
    ValuesInjective(e1, p1, e2, p2);
  }

  lemma NormValues(e: Entry, prev: Text, i: nat)
    requires i < 10
    ensures Norm(Values(e, prev)[i]) == Values(Shown(e), Join(prev))[i]
  {
  }

  /** Normalising the serialised record is normalising what the caller supplied. */
  lemma NormAsDict(e: Entry, prev: Text)
    ensures Norm(Obj(AsDict(e, prev))) == Obj(AsDict(Shown(e), Join(prev)))
  {
    forall i | 0 <= i < 10 ensures Norm(Values(e, prev)[i]) == Values(Shown(e), Join(prev))[i] {
      NormValues(e, prev, i);
    }
    NormZip(Names(), Values(e, prev), Values(Shown(e), Join(prev)));
  }

  lemma ValuesSerializable(canon: Canon, e: Entry, prev: Text, v: Json)
    requires Serializable(canon, e) && v in Values(e, prev)
    ensures Printable(canon, v) && KeysClean(v)
  {
  }

  lemma AsDictSerializable(canon: Canon, e: Entry, prev: Text)
    requires Serializable(canon, e)
    ensures Printable(canon, Obj(AsDict(e, prev))) && KeysClean(Obj(AsDict(e, prev)))
  {
    var d := AsDict(e, prev);
    ZipAt(Names(), Values(e, prev));
    forall k | k in d ensures NoPair(k) && Printable(canon, d[k]) && KeysClean(d[k]) {
      NamesClean(k);
      ValuesSerializable(canon, e, prev, d[k]);
    }
  }

  /** Two records have the same text exactly when a reader sees the same record. */
  lemma TextExactly(canon: Canon, e1: Entry, p1: Text, e2: Entry, p2: Text)
    requires Serializable(canon, e1) && Serializable(canon, e2)
    ensures RecordText(e1, p1) == RecordText(e2, p2) <==> Shown(e1) == Shown(e2) && Join(p1) == Join(p2)
  {
    var v, w := Obj(AsDict(e1, p1)), Obj(AsDict(e2, p2));
    NormAsDict(e1, p1);
    NormAsDict(e2, p2);
    AsDictSerializable(canon, e1, p1);
    AsDictSerializable(canon, e2, p2);
    NormExactly(canon, v, w);
    if Norm(v) == Norm(w) {
      AsDictInjective(Shown(e1), Join(p1), Shown(e2), Join(p2));
    }
  }

  // ---------- the head determines the log ----------

  ghost predicate AllSerializable(canon: Canon, es: seq<Entry>) {
    forall i: nat :: i < |es| ==> Serializable(canon, es[i])
  }

  /** The hash is printed in hexadecimal, and the seed, which begins with a host name, with no brace. */
  ghost predicate Hexadecimal(hash: Hash, seed: Text) {
    (forall t :: NoPair(hash(t))) && (seed != [] ==> seed[0] != LBRACE)
  }

  lemma TextShows(canon: Canon, hash: Hash, seed: Text, e1: Entry, e2: Entry, s: Text, t: Text)
    requires Hexadecimal(hash, seed) && Serializable(canon, e1) && Serializable(canon, e2)
    ensures Shows(RecordText, Shown, e1, e2, hash(s), hash(t))
  {
    TextExactly(canon, e1, hash(s), e2, hash(t));
    JoinFixed(hash(s));
    JoinFixed(hash(t));
  }

  lemma TextIsNotSeed(hash: Hash, seed: Text, e: Entry, prev: Text)
    requires Hexadecimal(hash, seed)
    ensures RecordText(e, prev) != seed
  {
  }

  lemma TextFaithful(canon: Canon, hash: Hash, seed: Text, es1: seq<Entry>, es2: seq<Entry>)
    requires Hexadecimal(hash, seed) && AllSerializable(canon, es1) && AllSerializable(canon, es2)
    ensures Faithful(hash, RecordText, Shown, seed, es1, es2)
  {
    forall i: nat, j: nat, s, t | i < |es1| && j < |es2|
      ensures Shows(RecordText, Shown, es1[i], es2[j], hash(s), hash(t))
    {
      TextShows(canon, hash, seed, es1[i], es2[j], s, t);
    }
    forall e, prev ensures RecordText(e, prev) != seed {
      TextIsNotSeed(hash, seed, e, prev);
    }
  }

  ghost predicate ShownAlike(es1: seq<Entry>, es2: seq<Entry>) {
    |es1| == |es2| && forall i :: 0 <= i < |es1| ==> Shown(es1[i]) == Shown(es2[i])
  }

  /**
   Logs with one seed have one head exactly when they show a reader the same entries, unless a
   collision of the hash has been found: no edit, drop, insertion or reordering keeps the head.
   */
  lemma HeadExactly(canon: Canon, hash: Hash, seed: Text, es1: seq<Entry>, es2: seq<Entry>)
    requires Hexadecimal(hash, seed) && AllSerializable(canon, es1) && AllSerializable(canon, es2)
    ensures ShownAlike(es1, es2) ==>
              Head(hash, RecordText, hash(seed), es1, |es1|) == Head(hash, RecordText, hash(seed), es2, |es2|)
    ensures Head(hash, RecordText, hash(seed), es1, |es1|) == Head(hash, RecordText, hash(seed), es2, |es2|) ==>
              ShownAlike(es1, es2) || Collided(hash, RecordText, seed, es1, es2)
  {
    if ShownAlike(es1, es2) {
      forall i, p | 0 <= i < |es1| ensures RecordText(es1[i], p) == RecordText(es2[i], p) {
        TextExactly(canon, es1[i], p, es2[i], p);
      }
      SameHead(hash, RecordText, hash(seed), es1, es2, |es1|);
    }
    if Head(hash, RecordText, hash(seed), es1, |es1|) == Head(hash, RecordText, hash(seed), es2, |es2|) {
      TextFaithful(canon, hash, seed, es1, es2);
      HeadDetermines(hash, RecordText, Shown, seed, es1, es2, |es1|, |es2|);
    }
  }

  ghost predicate AllClean(es: seq<Entry>) {
    forall i: nat :: i < |es| ==> CleanEntry(es[i])
  }

  lemma ShownCleanAlike(canon: Canon, es1: seq<Entry>, es2: seq<Entry>)
    requires AllSerializable(canon, es1) && AllSerializable(canon, es2) && AllClean(es1) && AllClean(es2)
    ensures ShownAlike(es1, es2) <==> es1 == es2
  {
    if ShownAlike(es1, es2) {
      forall i: nat | i < |es1| ensures es1[i] == es2[i] {
        ShownFixed(es1[i]);
        ShownFixed(es2[i]);
      }
    }
  }

  /** The serialisation is that of `json.dumps`. */
  ghost predicate Serializes(dumps: Body<Entry>) { forall e, prev :: dumps(e, prev) == RecordText(e, prev) }

  /**
   Two chains from one seed whose last records carry the same hash are the same log, unless the
   hash has collided.
   */
  lemma ChainDetermines(canon: Canon, hash: Hash, seed: Text, log1: seq<Record<Entry>>, log2: seq<Record<Entry>>)
    requires Hexadecimal(hash, seed)
    requires Chained(hash, RecordText, hash(seed), log1) && Chained(hash, RecordText, hash(seed), log2)
    requires AllSerializable(canon, Entries(log1)) && AllSerializable(canon, Entries(log2))
    requires AllClean(Entries(log1)) && AllClean(Entries(log2))
    requires HashBefore(hash(seed), log1, |log1|) == HashBefore(hash(seed), log2, |log2|)
    ensures log1 == log2 || Collided(hash, RecordText, seed, Entries(log1), Entries(log2))
  {
    var es1, es2 := Entries(log1), Entries(log2);
    ChainHead(hash, RecordText, hash(seed), log1, |log1|);
    ChainHead(hash, RecordText, hash(seed), log2, |log2|);
    HeadExactly(canon, hash, seed, es1, es2);
    ShownCleanAlike(canon, es1, es2);
    if es1 == es2 {
      ChainFollows(hash, RecordText, hash(seed), log1, log2);
    }
  }

  lemma ChainedAsText(hash: Hash, dumps: Body<Entry>, start: Text, log: seq<Record<Entry>>)
    requires Chained(hash, dumps, start, log) && Serializes(dumps)
    ensures Chained(hash, RecordText, start, log)
  {
    forall i: nat | i < |log|
      ensures log[i].prevHash == HashBefore(start, log, i)
      ensures log[i].hash == hash(RecordText(log[i].entry, log[i].prevHash))
    {
      assert log[i].prevHash == HashBefore(start, log, i);
    }
  }

  /**
   Two loggers that use one hash and one seed, and have come to the same hash, have emitted the
   same log, unless the hash has collided.
   */
  lemma LoggersAgree(canon: Canon, a: AuditLogger, b: AuditLogger, seed: Text)
    requires a.Valid() && b.Valid() && a.prevHash == b.prevHash
    requires a.hash == b.hash && a.start == b.start == a.hash(seed) && Serializes(a.dumps) && Serializes(b.dumps)
    requires Hexadecimal(a.hash, seed)
    requires AllSerializable(canon, Entries(a.log)) && AllSerializable(canon, Entries(b.log))
    requires AllClean(Entries(a.log)) && AllClean(Entries(b.log))
    ensures a.log == b.log || Collided(a.hash, RecordText, seed, Entries(a.log), Entries(b.log))
  {
    ChainedAsText(a.hash, a.dumps, a.start, a.log);
    ChainedAsText(b.hash, b.dumps, b.start, b.log);
    ChainDetermines(canon, a.hash, seed, a.log, b.log);
  }
}
