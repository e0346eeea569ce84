/**
 Envelopes on the topic: what the consuming loop makes of the texts that producers and others
 put there.
 */
module Wire {
  import opened Wrappers
  import opened Text
  import opened Json
  import opened JsonOrder
  import E = Envelope
  import C = Consumer

  /** The MAC under the shared key, and how the consumer reads numbers. */
  datatype Setting = Setting(mac: E.Mac, canon: Canon)

  /** What the consumer sees of a wire text. */
  ghost function RecordOf(p: Setting, raw: Text): C.Record<Json> {
    match E.Open(p.mac, p.canon, raw)
    case Ok(data) => C.Good(data)
    case Err(_) => C.Bad
  }

  /** Anybody may append a text. */
  datatype Event = Append(raw: Text) | Fetch | Commit | Crash

  ghost function Seen(p: Setting, e: Event): C.Event<Json> {
    match e
    case Append(raw) => C.Append(RecordOf(p, raw))
    case Fetch => C.Fetch
    case Commit => C.Commit
    case Crash => C.Crash
  }

  ghost function SeenAll(p: Setting, es: seq<Event>): (cs: seq<C.Event<Json>>)
    ensures |cs| == |es|
  {
    if es == [] then [] else SeenAll(p, es[..|es| - 1]) + [Seen(p, es[|es| - 1])]
  }

  ghost function Run(p: Setting, es: seq<Event>): C.State<Json> { C.Run(SeenAll(p, es)) }

  /** The texts on the topic, by their offsets. */
  function Texts(es: seq<Event>): seq<Text> {
    if es == [] then []
    else
      var init, e := Texts(es[..|es| - 1]), es[|es| - 1];
      if e.Append? then init + [e.raw] else init
  }

  ghost predicate Carries(p: Setting, log: seq<C.Record<Json>>, raws: seq<Text>) {
    |log| == |raws| && forall o: nat :: o < |raws| ==> log[o] == RecordOf(p, raws[o])
  }

  /** In every run the log holds what the consumer sees of the texts. */
  lemma {:induction false} LogIsTexts(p: Setting, es: seq<Event>)
    ensures Carries(p, Run(p, es).log, Texts(es))
  {
    if es != [] {
      var init, e := es[..|es| - 1], es[|es| - 1];
      LogIsTexts(p, init);
      var cs := SeenAll(p, es);
      assert cs[..|cs| - 1] == SeenAll(p, init) && cs[|cs| - 1] == Seen(p, e);
      assert Run(p, es) == C.Step(Run(p, init), Seen(p, e));
      CarriesNext(p, Run(p, init), e, Texts(init));
    }
  }

  lemma CarriesNext(p: Setting, s: C.State<Json>, e: Event, raws: seq<Text>)
    requires Carries(p, s.log, raws)
    ensures Carries(p, C.Step(s, Seen(p, e)).log, if e.Append? then raws + [e.raw] else raws)
  {
  }

  /** The handler was given `data` for the text at offset `o`. */
  ghost predicate Delivered(p: Setting, es: seq<Event>, o: nat, data: Json) {
    o in Run(p, es).delivered && o < |Run(p, es).log| && Run(p, es).log[o] == C.Good(data)
  }

  lemma OpenIsDelivered(p: Setting, es: seq<Event>, o: nat, data: Json)
    requires o < |Texts(es)| && o < Run(p, es).committed && E.Open(p.mac, p.canon, Texts(es)[o]) == Ok(data)
    ensures Delivered(p, es, o, data)
  {
    LogIsTexts(p, es);
    C.NothingLost(SeenAll(p, es), o);
  }

  ghost predicate IsSealed(p: Setting, raw: Text, ts: Text, issuer: Text, data: Json) {
    E.Header(p.canon, ts, issuer) && Printable(p.canon, data) && raw == E.Seal(p.mac, ts, issuer, data)
  }

  /**
   A sealed event below the committed offset whose keys keep their order has reached the handler,
   through whatever crashes and among whatever texts.
   */
  lemma SealedIsDelivered(p: Setting, es: seq<Event>, o: nat, ts: Text, issuer: Text, data: Json)
    requires o < |Texts(es)| && o < Run(p, es).committed && E.IsHmac(p.mac) && KeepsOrder(data)
    ensures IsSealed(p, Texts(es)[o], ts, issuer, data) ==> Delivered(p, es, o, Relayed(data))
  {
    if IsSealed(p, Texts(es)[o], ts, issuer, data) {
      E.OpenSealExactly(p.mac, p.canon, ts, issuer, data);
      OpenIsDelivered(p, es, o, Relayed(data));
    }
  }

  /** With clean data the handler was given what the producer sealed. */
  lemma CleanIsDelivered(p: Setting, es: seq<Event>, o: nat, ts: Text, issuer: Text, data: Json)
    requires o < |Texts(es)| && o < Run(p, es).committed && E.IsHmac(p.mac) && Clean(data)
    ensures IsSealed(p, Texts(es)[o], ts, issuer, data) ==> Delivered(p, es, o, data)
  {
    CleanKeys(data);
    CleanKeepsOrder(data);
    RelayedNorm(data);
    NormFixed(data);
    SealedIsDelivered(p, es, o, ts, issuer, data);
  }

  /** In every run, what is delivered is what opening the text at that offset gives; a text that
      fails a check is never delivered. */
  lemma DeliveredIsVerified(p: Setting, es: seq<Event>, i: nat)
    requires i < |Run(p, es).delivered|
    ensures var o := Run(p, es).delivered[i];
      && o < |Texts(es)| && o < |Run(p, es).log| && Run(p, es).log[o].Good?
      && E.Open(p.mac, p.canon, Texts(es)[o]) == Ok(Run(p, es).log[o].data)
  {
    LogIsTexts(p, es);
    C.DeliveredInOrder(SeenAll(p, es), i);
    var o := Run(p, es).delivered[i];
    assert Run(p, es).log[o] == RecordOf(p, Texts(es)[o]);
  }

  /** So it carries the tag of its content under the shared key: what is unsigned or wrongly signed
      is never delivered, whoever put it there. */
  lemma DeliveredIsSigned(p: Setting, es: seq<Event>, i: nat)
    requires i < |Run(p, es).delivered|
    ensures var o := Run(p, es).delivered[i];
      o < |Texts(es)| && exists fields :: E.IsSigned(p.mac, p.canon, Texts(es)[o], fields)
  {
    DeliveredIsVerified(p, es, i);
    var o := Run(p, es).delivered[i];
    OpenedIsSigned(p, Texts(es)[o]);
  }

  lemma OpenedIsSigned(p: Setting, raw: Text)
    requires E.Open(p.mac, p.canon, raw).Ok?
    ensures exists fields :: E.IsSigned(p.mac, p.canon, raw, fields)
  {
    var data := E.Open(p.mac, p.canon, raw).value;
    E.OpenExactly(p.mac, p.canon, raw, data);
    var fields :| E.OpensTo(p.mac, p.canon, raw, fields, data);
    assert E.IsSigned(p.mac, p.canon, raw, fields);
  }

  // ---------- nothing blocks the topic ----------

  /** A restart, and `n` texts consumed after it. */
  function Rounds(n: nat): seq<Event> { if n == 0 then [] else [Fetch, Commit] + Rounds(n - 1) }

  function Restart(n: nat): seq<Event> { [Crash] + Rounds(n) }

  lemma {:induction false} SeenApp(p: Setting, a: seq<Event>, b: seq<Event>)
    ensures SeenAll(p, a + b) == SeenAll(p, a) + SeenAll(p, b)
    decreases |b|
  {
    if b == [] {
      assert a + b == a;
    } else {
      var init, e := b[..|b| - 1], b[|b| - 1];
      assert (a + b)[..|a + b| - 1] == a + init;
      SeenApp(p, a, init);
    }
  }

  lemma {:induction false} SeenRounds(p: Setting, n: nat)
    ensures SeenAll(p, Rounds(n)) == C.Rounds(n)
  {
    if n > 0 {
      SeenApp(p, [Fetch, Commit], Rounds(n - 1));
      SeenRounds(p, n - 1);
      SeenTwo(p);
    }
  }

  lemma SeenTwo(p: Setting)
    ensures SeenAll(p, [Fetch, Commit]) == [C.Fetch, C.Commit]
  {
    assert [Fetch, Commit][..1] == [Fetch];
  }

  lemma SeenRestart(p: Setting, n: nat)
    ensures SeenAll(p, Restart(n)) == C.Restart(n)
  {
    SeenApp(p, [Crash], Rounds(n));
    SeenRounds(p, n);
    assert SeenAll(p, [Crash]) == [C.Crash];
  }

  lemma {:induction false} TextsApp(a: seq<Event>, n: nat)
    ensures Texts(a + Rounds(n)) == Texts(a)
    decreases n
  {
    if n == 0 {
      assert a + Rounds(0) == a;
    } else {
      assert a + Rounds(n) == a + [Fetch] + [Commit] + Rounds(n - 1);
      TextsApp(a + [Fetch] + [Commit], n - 1);
      assert (a + [Fetch])[..|a|] == a;
      assert (a + [Fetch] + [Commit])[..|a| + 1] == a + [Fetch];
    }
  }

  lemma RestartTexts(es: seq<Event>, n: nat)
    ensures Texts(es + Restart(n)) == Texts(es)
  {
    assert es + Restart(n) == es + [Crash] + Rounds(n);
    TextsApp(es + [Crash], n);
    assert (es + [Crash])[..|es|] == es;
  }

  lemma RestartRun(p: Setting, es: seq<Event>, n: nat)
    ensures Run(p, es + Restart(n)) == C.Run(SeenAll(p, es) + C.Restart(n))
  {
    SeenApp(p, es, Restart(n));
    SeenRestart(p, n);
  }

  lemma RestartCommits(p: Setting, es: seq<Event>, n: nat)
    requires Run(p, es).committed + n == |Texts(es)|
    ensures Run(p, es + Restart(n)).committed == |Texts(es)|
  {
    LogIsTexts(p, es);
    RestartRun(p, es, n);
    C.RunsToEnd(SeenAll(p, es), n);
  }

  /**
   No text blocks those behind it: from wherever a run has come, once the consumer is restarted and
   crashes no more, every text on the topic that passes the checks has been delivered.
   */
  lemma AllAreDelivered(p: Setting, es: seq<Event>, n: nat, o: nat, data: Json)
    requires o < |Texts(es)| && E.Open(p.mac, p.canon, Texts(es)[o]) == Ok(data)
    requires Run(p, es).committed + n == |Texts(es)|
    ensures Delivered(p, es + Restart(n), o, data)
  {
    RestartTexts(es, n);
    RestartCommits(p, es, n);
    OpenIsDelivered(p, es + Restart(n), o, data);
  }
}
