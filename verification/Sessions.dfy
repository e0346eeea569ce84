/**
 Server-side sessions in Redis with a sliding idle limit of fifteen minutes. A stored blob
 either decrypts to a session or does not decrypt at all. A lookup reads the blob and writes it
 back in two steps, and others may come between them. `now` is the clock in seconds.
 */
module Sessions {
  import opened Wrappers

  datatype Session = Session(
    sid: string, user: string, roles: seq<string>, mfa: bool,
    created: nat, lastSeen: nat, ip: Option<string>, ua: Option<string>)

  datatype Blob = Sealed(session: Session) | Garbage

  datatype Slot = Slot(blob: Blob, expires: nat)

  type Slots = map<string, Slot>

  const TTL: nat := 15 * 60

  predicate Live(slots: Slots, sid: string, now: nat) {
    sid in slots && now < slots[sid].expires
  }

  function Persist(slots: Slots, s: Session, now: nat): Slots {
    slots[s.sid := Slot(Sealed(s), now + TTL)]
  }

  /** What the first step of `get` holds when it is done. */
  datatype Fetched = Missing | Unreadable(sid: string) | Loaded(session: Session)

  /** The first step of `get`: read, and decrypt. */
  function Fetch(slots: Slots, sid: string, now: nat): Fetched {
    if !Live(slots, sid, now) then Missing
    else
      match slots[sid].blob
      case Garbage => Unreadable(sid)
      case Sealed(s) => Loaded(s)
  }

  /** The last step of `get`: write the touched session back, or delete what does not decrypt. */
  function Finish(slots: Slots, f: Fetched, now: nat): Slots {
    match f
    case Missing => slots
    case Unreadable(sid) => slots - {sid}
    case Loaded(s) => Persist(slots, s.(lastSeen := now), now)
  }

  /** What an undisturbed `get` returns. */
  function Found(slots: Slots, sid: string, now: nat): Option<Session> {
    match Fetch(slots, sid, now)
    case Loaded(s) => Some(s.(lastSeen := now))
    case _ => None
  }

  /** What it leaves behind. */
  function AfterGet(slots: Slots, sid: string, now: nat): Slots {
    Finish(slots, Fetch(slots, sid, now), now)
  }

  predicate IsOf(slots: Slots, sid: string, user: string, now: nat) {
    Live(slots, sid, now) && slots[sid].blob.Sealed? && slots[sid].blob.session.user == user
  }

  predicate IsDropped(slots: Slots, sid: string, user: string, now: nat) {
    Live(slots, sid, now) && (slots[sid].blob.Garbage? || slots[sid].blob.session.user == user)
  }

  function AfterRevokeAll(slots: Slots, user: string, now: nat): Slots {
    map sid | sid in slots && !IsDropped(slots, sid, user, now) :: slots[sid]
  }

  /** The slots once the keys `ks` have been visited. */
  function Dropped(slots: Slots, ks: seq<string>, user: string, now: nat): Slots {
    map sid | sid in slots && !(sid in ks && IsDropped(slots, sid, user, now)) :: slots[sid]
  }

  /** The sessions of the user among the keys `ks`. */
  function Counted(slots: Slots, ks: seq<string>, user: string, now: nat): set<string> {
    set sid | sid in slots && sid in ks && IsOf(slots, sid, user, now)
  }

  lemma CountedIsFound(slots: Slots, ks: seq<string>, user: string, now: nat)
    requires forall sid :: sid in slots ==> sid in ks
    ensures Counted(slots, ks, user, now)
         == set sid | sid in slots && Found(slots, sid, now).Some? && Found(slots, sid, now).value.user == user
  {
  }

  lemma VisitOne(slots: Slots, ks: seq<string>, k: string, user: string, now: nat)
    ensures Dropped(slots, ks + [k], user, now) ==
      if IsDropped(slots, k, user, now) then Dropped(slots, ks, user, now) - {k}
      else Dropped(slots, ks, user, now)
    ensures Counted(slots, ks + [k], user, now) ==
      if IsOf(slots, k, user, now) then Counted(slots, ks, user, now) + {k}
      else Counted(slots, ks, user, now)
  {
  }

  /** A key that is still there counts once, and one that is gone counts no more. */
  lemma CountOne(slots: Slots, ks: seq<string>, k: string, user: string, now: nat)
    ensures |Counted(slots, ks + [k], user, now)| == |Counted(slots, ks, user, now)|
              + (if k in Dropped(slots, ks, user, now) && IsOf(slots, k, user, now) then 1 else 0)
  {
    VisitOne(slots, ks, k, user, now);
    var cs := Counted(slots, ks, user, now);
    if IsOf(slots, k, user, now) {
      assert k in cs <==> k !in Dropped(slots, ks, user, now);
      if k in cs { assert cs + {k} == cs; }
    }
  }

  class SessionStore {
    var slots: Slots

    constructor ()
      ensures slots == map[]
    {
      slots := map[];
    }

    /** `create(...)`, with the random session id drawn. */
    method Create(sid: string, user: string, roles: seq<string>, mfa: bool,
                  ip: Option<string>, ua: Option<string>, now: nat) returns (s: Session)
      modifies this
      ensures s == Session(sid, user, roles, mfa, now, now, ip, ua)
      ensures slots == Persist(old(slots), s, now)
    {
      s := Session(sid, user, roles, mfa, now, now, ip, ua);
      slots := slots[sid := Slot(Sealed(s), now + TTL)];
    }

    method FetchBlob(sid: string, now: nat) returns (f: Fetched)
      ensures f == Fetch(slots, sid, now)
    {
      if sid !in slots || slots[sid].expires <= now { return Missing; }
      match slots[sid].blob
      case Garbage => f := Unreadable(sid);
      case Sealed(s) => f := Loaded(s);
    }

    method FinishGet(f: Fetched, now: nat) returns (r: Option<Session>)
      modifies this
      ensures slots == Finish(old(slots), f, now)
      ensures r == if f.Loaded? then Some(f.session.(lastSeen := now)) else None
    {
      match f
      case Missing => r := None;
      case Unreadable(sid) =>
        slots := slots - {sid};
        r := None;
      case Loaded(s) =>
        var touched := s.(lastSeen := now);
        slots := slots[touched.sid := Slot(Sealed(touched), now + TTL)];
        r := Some(touched);
    }

    /** `get(sid)`, with nothing between its steps. */
    method Get(sid: string, now: nat) returns (r: Option<Session>)
      modifies this
      ensures r == Found(old(slots), sid, now)
      ensures slots == AfterGet(old(slots), sid, now)
    {
      var f := FetchBlob(sid, now);
      r := FinishGet(f, now);
    }

    method Revoke(sid: string)
      modifies this
      ensures slots == old(slots) - {sid}
    {
      slots := slots - {sid};
    }

    /**
     `revoke_all_for_user(user)`. `keys` is what the scan yields: every stored key at least once,
     possibly some twice, and possibly keys that are already gone.
     */
    method RevokeAllForUser(user: string, keys: seq<string>, now: nat) returns (cnt: nat)
      requires forall sid :: sid in slots ==> sid in keys
      modifies this
      ensures slots == AfterRevokeAll(old(slots), user, now)
      ensures cnt == |set sid | sid in old(slots) && Found(old(slots), sid, now).Some?
                          && Found(old(slots), sid, now).value.user == user|
    {
      cnt := 0;
      ghost var was := slots;
      for i := 0 to |keys|
        invariant slots == Dropped(was, keys[..i], user, now)
        invariant cnt == |Counted(was, keys[..i], user, now)|
      {
        var k := keys[i];
        assert keys[..i + 1] == keys[..i] + [k];
        VisitOne(was, keys[..i], k, user, now);
        CountOne(was, keys[..i], k, user, now);
        if k in slots && now < slots[k].expires {
          match slots[k].blob
          case Garbage =>
            slots := slots - {k};
          case Sealed(s) =>
            if s.user == user {
              slots := slots - {k};
              cnt := cnt + 1;
            }
        }
      }
      assert keys[..|keys|] == keys;
      CountedIsFound(was, keys, user, now);
    }
  }

  /** Revoking all drops the user's sessions and nothing that anyone else can still look up. */
  lemma RevokeAllIsExact(slots: Slots, user: string, now: nat, sid: string)
    ensures Found(AfterRevokeAll(slots, user, now), sid, now) ==
      if Found(slots, sid, now).Some? && Found(slots, sid, now).value.user == user then None
      else Found(slots, sid, now)
  {
    var after := AfterRevokeAll(slots, user, now);
    assert sid in after <==> sid in slots && !IsDropped(slots, sid, user, now);
  }

  // ---------- histories ----------

  /** `get(sid)` is the events `Reads(id, sid)` and `Writes(id)`. */
  datatype Event =
    | Created(session: Session)
    | Reads(id: nat, sid: string)
    | Writes(id: nat)
    | Revoked(sid: string)
    | RevokedAll(user: string)
    | Corrupted(sid: string)  // the blob is overwritten with one that does not decrypt

  datatype Timed = Timed(event: Event, at: nat)

  /** The slots, and what each lookup under way has fetched. */
  datatype Store = Store(slots: Slots, flights: map<nat, Fetched>)

  function Act(st: Store, e: Event, now: nat): Store {
    match e
    case Created(s) => st.(slots := Persist(st.slots, s, now))
    case Reads(id, sid) => st.(flights := st.flights[id := Fetch(st.slots, sid, now)])
    case Writes(id) =>
      if id in st.flights then Store(Finish(st.slots, st.flights[id], now), st.flights - {id}) else st
    case Revoked(sid) => st.(slots := st.slots - {sid})
    case RevokedAll(user) => st.(slots := AfterRevokeAll(st.slots, user, now))
    case Corrupted(sid) =>
      if sid in st.slots then st.(slots := st.slots[sid := st.slots[sid].(blob := Garbage)]) else st
  }

  function After(h: seq<Timed>): Store {
    if h == [] then Store(map[], map[]) else Act(After(h[..|h| - 1]), h[|h| - 1].event, h[|h| - 1].at)
  }

  function Slotted(h: seq<Timed>): Slots { After(h).slots }

  /** Times do not decrease, no session id is drawn twice, and each lookup reads once and writes once. */
  ghost predicate History(h: seq<Timed>) {
    && (forall i, j :: 0 <= i <= j < |h| ==> h[i].at <= h[j].at)
    && (forall i, j :: 0 <= i < j < |h| && h[i].event.Created? && h[j].event.Created? ==>
          h[i].event.session.sid != h[j].event.session.sid)
    && (forall i, j :: 0 <= i < j < |h| && h[i].event.Reads? && h[j].event.Reads? ==> h[i].event.id != h[j].event.id)
    && (forall i, j :: 0 <= i < j < |h| && h[i].event.Writes? && h[j].event.Writes? ==> h[i].event.id != h[j].event.id)
  }

  ghost predicate IsCreation(h: seq<Timed>, c: nat, s: Session) {
    c < |h| && h[c].event == Created(s)
  }

  /** One lookup of `sid` reads at `r` and writes at `w`. */
  ghost predicate IsLookup(h: seq<Timed>, r: nat, w: nat, sid: string) {
    && r < w < |h|
    && h[r].event.Reads? && h[r].event.sid == sid
    && h[w].event == Writes(h[r].event.id)
  }

  ghost predicate Discards(h: seq<Timed>, i: nat, sid: string) {
    exists r: nat :: IsLookup(h, r, i, sid) && Fetch(Slotted(h[..r]), sid, h[r].at) == Unreadable(sid)
  }

  /** A revocation, a corruption, or the deletion of a blob that was found corrupted. */
  ghost predicate IsKill(h: seq<Timed>, i: nat, s: Session) {
    && i < |h|
    && (|| h[i].event == Revoked(s.sid) || h[i].event == RevokedAll(s.user) || h[i].event == Corrupted(s.sid)
        || Discards(h, i, s.sid))
  }

  /** No kill after the write at `w`, which is less than the idle limit ago. */
  ghost predicate Lasts(h: seq<Timed>, w: nat, s: Session, now: nat) {
    w < |h| && now < h[w].at + 900 && forall i: nat :: w < i < |h| ==> !IsKill(h, i, s)
  }

  /** The write at `w` is the one at `b`, or that of a lookup which read what goes back to it. */
  ghost predicate GoesBack(h: seq<Timed>, b: nat, w: nat, s: Session)
    decreases |h|, 1
  {
    w < |h| && (w == b || exists r: nat :: ReadsFrom(h, b, r, w, s))
  }

  ghost predicate ReadsFrom(h: seq<Timed>, b: nat, r: nat, w: nat, s: Session)
    requires w < |h|
    decreases |h|, 0
  {
    b < r && IsLookup(h, r, w, s.sid) && LivesOn(h[..r], b, s, h[r].at)
  }

  /** The session is there at `now` because of the write at `b` and of lookups that kept it up. */
  ghost predicate LivesOn(h: seq<Timed>, b: nat, s: Session, now: nat)
    decreases |h|, 2
  {
    exists w: nat :: b <= w && GoesBack(h, b, w, s) && Lasts(h, w, s, now)
  }

  // ---------- the store agrees with the history ----------

  /** What is held of `s` is `s` up to the time it was last seen. */
  ghost predicate SameAs(x: Session, s: Session) { x.(lastSeen := s.lastSeen) == s }

  ghost predicate Holds(st: Store, s: Session) {
    && (s.sid in st.slots && st.slots[s.sid].blob.Sealed? ==> SameAs(st.slots[s.sid].blob.session, s))
    && (forall id :: id in st.flights && st.flights[id].Loaded? && st.flights[id].session.sid == s.sid ==>
          SameAs(st.flights[id].session, s))
  }

  ghost predicate Keyed(st: Store) {
    && (forall k :: k in st.slots && st.slots[k].blob.Sealed? ==> st.slots[k].blob.session.sid == k)
  }

  lemma {:induction false} KeyedAfter(h: seq<Timed>)
    ensures Keyed(After(h))
  {
    if h != [] { KeyedAfter(h[..|h| - 1]); }
  }

  /** A lookup under way has fetched what was there when it read. */
  ghost predicate FetchedAt(h: seq<Timed>, id: nat, r: nat) {
    && r < |h| && h[r].event.Reads? && h[r].event.id == id
    && id in After(h).flights
    && After(h).flights[id] == Fetch(Slotted(h[..r]), h[r].event.sid, h[r].at)
  }

  lemma FlightStays(h: seq<Timed>, e: Timed, id: nat, r: nat)
    requires FetchedAt(h, id, r) && e.event != Writes(id) && !(e.event.Reads? && e.event.id == id)
    ensures FetchedAt(h + [e], id, r)
  {
    assert (h + [e])[..|h|] == h && (h + [e])[..r] == h[..r];
  }

  lemma FlightStarts(h: seq<Timed>, e: Timed)
    requires e.event.Reads?
    ensures FetchedAt(h + [e], e.event.id, |h|)
  {
    assert (h + [e])[..|h|] == h;
  }

  lemma {:induction false} FlightRead(h: seq<Timed>, id: nat) returns (r: nat)
    requires id in After(h).flights
    ensures FetchedAt(h, id, r)
  {
    var init, e := h[..|h| - 1], h[|h| - 1];
    assert h == init + [e];
    if e.event.Reads? && e.event.id == id {
      FlightStarts(init, e);
      r := |init|;
    } else {
      r := FlightRead(init, id);
      FlightStays(init, e, id, r);
    }
  }

  /** A lookup that has read and not yet written is under way. */
  lemma {:induction false} FlightThere(h: seq<Timed>, r: nat)
    requires History(h) && r < |h| && h[r].event.Reads?
    requires forall i :: r < i < |h| ==> h[i].event != Writes(h[r].event.id)
    ensures FetchedAt(h, h[r].event.id, r)
  {
    var init, e := h[..|h| - 1], h[|h| - 1];
    assert h == init + [e];
    if r == |init| {
      FlightStarts(init, e);
    } else {
      assert init[r] == h[r];
      Ordered(init, e);
      FlightThere(init, r);
      assert h[|init|] == e;
      FlightStays(init, e, h[r].event.id, r);
    }
  }

  /** What the write of a lookup writes. */
  lemma WriteOf(h: seq<Timed>, r: nat, w: nat, sid: string)
    requires History(h) && IsLookup(h, r, w, sid)
    ensures FetchedAt(h[..w], h[r].event.id, r)
  {
    var g := h[..w];
    assert g[r] == h[r] && g[..r] == h[..r];
    forall i | r < i < |g| ensures g[i].event != Writes(g[r].event.id) {
      assert g[i] == h[i];
    }
    FlightThere(g, r);
  }

  // What the last event adds to a history.

  lemma PrefixKill(h: seq<Timed>, e: Timed, i: nat, s: Session)
    requires i < |h|
    ensures IsKill(h + [e], i, s) <==> IsKill(h, i, s)
  {
    var g := h + [e];
    assert g[i] == h[i];
    if Discards(g, i, s.sid) {
      var r: nat :| IsLookup(g, r, i, s.sid) && Fetch(Slotted(g[..r]), s.sid, g[r].at) == Unreadable(s.sid);
      assert g[..r] == h[..r] && IsLookup(h, r, i, s.sid);
    }
    if Discards(h, i, s.sid) {
      var r: nat :| IsLookup(h, r, i, s.sid) && Fetch(Slotted(h[..r]), s.sid, h[r].at) == Unreadable(s.sid);
      assert g[..r] == h[..r] && IsLookup(g, r, i, s.sid);
    }
  }

  lemma PrefixBack(h: seq<Timed>, e: Timed, b: nat, w: nat, s: Session)
    requires w < |h|
    ensures GoesBack(h + [e], b, w, s) <==> GoesBack(h, b, w, s)
  {
    var g := h + [e];
    forall r: nat | r < w ensures ReadsFrom(g, b, r, w, s) <==> ReadsFrom(h, b, r, w, s) {
      assert g[..r] == h[..r];
    }
  }

  /** The last event kills nothing: what lasted still lasts. */
  lemma PrefixLasts(h: seq<Timed>, e: Timed, w: nat, s: Session, now: nat)
    requires w < |h|
    ensures Lasts(h + [e], w, s, now) <==> Lasts(h, w, s, now) && !IsKill(h + [e], |h|, s)
  {
    var g := h + [e];
    forall i: nat | w < i < |h| ensures IsKill(g, i, s) <==> IsKill(h, i, s) { PrefixKill(h, e, i, s); }
  }

  /** The last event writes nothing that goes back to `b`. */
  lemma LivesOnNext(h: seq<Timed>, e: Timed, b: nat, s: Session, now: nat)
    requires b < |h| && !GoesBack(h + [e], b, |h|, s)
    ensures LivesOn(h + [e], b, s, now) <==> LivesOn(h, b, s, now) && !IsKill(h + [e], |h|, s)
  {
    var g := h + [e];
    if LivesOn(g, b, s, now) {
      var w: nat :| b <= w && GoesBack(g, b, w, s) && Lasts(g, w, s, now);
      PrefixBack(h, e, b, w, s);
      PrefixLasts(h, e, w, s, now);
    }
    if LivesOn(h, b, s, now) && !IsKill(g, |h|, s) {
      var w: nat :| b <= w && GoesBack(h, b, w, s) && Lasts(h, w, s, now);
      PrefixBack(h, e, b, w, s);
      PrefixLasts(h, e, w, s, now);
    }
  }

  /** The last event is such a write: the idle limit counts from it. */
  lemma LivesOnWrite(h: seq<Timed>, e: Timed, b: nat, s: Session, now: nat)
    requires b <= |h| && GoesBack(h + [e], b, |h|, s)
    requires forall i :: 0 <= i < |h| ==> h[i].at <= e.at
    ensures LivesOn(h + [e], b, s, now) <==> now < e.at + TTL
  {
    var g := h + [e];
    if LivesOn(g, b, s, now) {
      var w: nat :| b <= w && GoesBack(g, b, w, s) && Lasts(g, w, s, now);
      assert g[w].at <= e.at;
    }
    if now < e.at + TTL {
      assert Lasts(g, |h|, s, now);
    }
  }

  // The store and the history of the session `s` created at `c`, event by event.

  ghost predicate Agrees(h: seq<Timed>, c: nat, s: Session)
    requires h != []
  {
    && Holds(After(h), s)
    && forall now: nat :: h[|h| - 1].at <= now ==> (LivesOn(h, c, s, now) <==> Found(Slotted(h), s.sid, now).Some?)
  }

  lemma AfterSnoc(h: seq<Timed>, e: Timed)
    ensures After(h + [e]) == Act(After(h), e.event, e.at)
  {
    assert (h + [e])[..|h|] == h;
  }

  lemma {:induction false} NeverCreated(h: seq<Timed>, sid: string)
    requires forall i :: 0 <= i < |h| ==> !(h[i].event.Created? && h[i].event.session.sid == sid)
    ensures sid !in Slotted(h)
    ensures forall id :: id in After(h).flights && After(h).flights[id].Loaded? ==>
              After(h).flights[id].session.sid != sid
  {
    if h != [] {
      NeverCreated(h[..|h| - 1], sid);
      KeyedAfter(h[..|h| - 1]);
    }
  }

  lemma NoCreationBefore(h: seq<Timed>, c: nat, s: Session, r: nat)
    requires History(h) && IsCreation(h, c, s) && r <= c
    ensures s.sid !in Slotted(h[..r])
    ensures forall id :: id in After(h[..r]).flights && After(h[..r]).flights[id].Loaded? ==>
              After(h[..r]).flights[id].session.sid != s.sid
  {
    var g := h[..r];
    forall i | 0 <= i < |g| ensures !(g[i].event.Created? && g[i].event.session.sid == s.sid) {
      assert g[i] == h[i];
    }
    NeverCreated(g, s.sid);
  }

  lemma AgreesAtCreation(h: seq<Timed>, e: Timed, s: Session)
    requires History(h + [e]) && e.event == Created(s)
    ensures Agrees(h + [e], |h|, s)
  {
    var g := h + [e];
    assert IsCreation(g, |h|, s) && g[..|h|] == h;
    NoCreationBefore(g, |h|, s, |h|);
    AfterSnoc(h, e);
    forall now: nat | e.at <= now ensures LivesOn(g, |h|, s, now) <==> now < e.at + TTL {
      Ordered(h, e);
      LivesOnWrite(h, e, |h|, s, now);
    }
  }

  lemma Ordered(h: seq<Timed>, e: Timed)
    requires History(h + [e])
    ensures forall i :: 0 <= i < |h| ==> h[i].at <= e.at
    ensures History(h)
  {
    var g := h + [e];
    forall i | 0 <= i < |h| ensures h[i].at <= e.at {
      assert g[i] == h[i] && g[|h|] == e;
    }
    assert forall i :: 0 <= i < |h| ==> g[i] == h[i];
  }

  /** An event that is no write of a lookup. */
  lemma AgreesOther(h: seq<Timed>, e: Timed, c: nat, s: Session)
    requires History(h + [e]) && h != [] && IsCreation(h, c, s) && Agrees(h, c, s) && !e.event.Writes?
    ensures Agrees(h + [e], c, s)
  {
    var g := h + [e];
    assert g[|h|] == e && g[c] == h[c];
    assert !GoesBack(g, c, |h|, s);
    Ordered(h, e);
    AfterSnoc(h, e);
    KeyedAfter(h);
    HoldsOther(After(h), e, s);
    forall now: nat | e.at <= now ensures LivesOn(g, c, s, now) <==> Found(Slotted(g), s.sid, now).Some? {
      LivesOnNext(h, e, c, s, now);
      assert h[|h| - 1].at <= e.at;
      assert IsKill(g, |h|, s) <==> KillsAtOnce(e.event, s);
      FoundOther(After(h), e, s, now);
    }
  }

  predicate KillsAtOnce(e: Event, s: Session) {
    e == Revoked(s.sid) || e == RevokedAll(s.user) || e == Corrupted(s.sid)
  }

  lemma HoldsOther(st: Store, e: Timed, s: Session)
    requires Holds(st, s) && Keyed(st) && !e.event.Writes? && !(e.event.Created? && e.event.session.sid == s.sid)
    ensures Holds(Act(st, e.event, e.at), s)
  {
  }

  lemma FoundOther(st: Store, e: Timed, s: Session, now: nat)
    requires Holds(st, s) && Keyed(st) && !e.event.Writes? && !(e.event.Created? && e.event.session.sid == s.sid)
    requires e.at <= now
    ensures Found(Act(st, e.event, e.at).slots, s.sid, now).Some? <==>
            Found(st.slots, s.sid, now).Some? && !KillsAtOnce(e.event, s)
  {
  }

  /** A write that finds no lookup under way. */
  lemma AgreesStray(h: seq<Timed>, e: Timed, c: nat, s: Session)
    requires History(h + [e]) && h != [] && IsCreation(h, c, s) && Agrees(h, c, s)
    requires e.event.Writes? && e.event.id !in After(h).flights
    ensures Agrees(h + [e], c, s)
  {
    var g := h + [e];
    assert g[|h|] == e && g[..|h|] == h && g[c] == h[c];
    forall r: nat ensures !IsLookup(g, r, |h|, s.sid) {
      if IsLookup(g, r, |h|, s.sid) { WriteOf(g, r, |h|, s.sid); }
    }
    Ordered(h, e);
    AfterSnoc(h, e);
    forall now: nat | e.at <= now ensures LivesOn(g, c, s, now) <==> Found(Slotted(g), s.sid, now).Some? {
      assert !GoesBack(g, c, |h|, s);
      LivesOnNext(h, e, c, s, now);
      assert h[|h| - 1].at <= e.at;
    }
  }

  /** The lookup that writes is the one that read at `r`. */
  lemma OneLookup(h: seq<Timed>, e: Timed, r: nat, q: nat, sid: string)
    requires History(h + [e]) && e.event.Writes? && FetchedAt(h, e.event.id, r)
    requires IsLookup(h + [e], q, |h|, sid)
    ensures q == r
  {
    var g := h + [e];
    assert g[r] == h[r] && g[q] == h[q];
  }

  /** A lookup fetches the session it asks for. */
  lemma FlightSid(h: seq<Timed>, id: nat, r: nat)
    requires FetchedAt(h, id, r) && After(h).flights[id].Loaded?
    ensures After(h).flights[id].session.sid == h[r].event.sid
  {
    KeyedAfter(h[..r]);
  }

  lemma FinishOther(st: Store, id: nat, s: Session, at: nat, now: nat)
    requires id in st.flights && Holds(st, s) && at <= now
    requires st.flights[id].Loaded? ==> st.flights[id].session.sid != s.sid
    ensures Holds(Act(st, Writes(id), at), s)
    ensures Found(Act(st, Writes(id), at).slots, s.sid, now).Some? <==>
            Found(st.slots, s.sid, now).Some? && st.flights[id] != Unreadable(s.sid)
  {
  }

  lemma FinishLoaded(st: Store, id: nat, s: Session, at: nat, now: nat)
    requires id in st.flights && Holds(st, s) && at <= now
    requires st.flights[id].Loaded? && st.flights[id].session.sid == s.sid
    ensures Holds(Act(st, Writes(id), at), s)
    ensures Found(Act(st, Writes(id), at).slots, s.sid, now).Some? <==> now < at + TTL
  {
  }

  /** What was fetched unloaded does not go back to the creation. */
  lemma UnloadedNotBack(h: seq<Timed>, e: Timed, c: nat, s: Session, r: nat)
    requires History(h + [e]) && IsCreation(h, c, s)
    requires e.event.Writes? && FetchedAt(h, e.event.id, r)
    requires h[r].event.sid == s.sid ==> !After(h).flights[e.event.id].Loaded?
    requires c < r ==> Agrees(h[..r], c, s)
    ensures !GoesBack(h + [e], c, |h|, s)
  {
    var g := h + [e];
    assert g[|h|] == e && g[r] == h[r] && g[..r] == h[..r];
    Ordered(h, e);
    forall q: nat ensures !ReadsFrom(g, c, q, |h|, s) {
      if ReadsFrom(g, c, q, |h|, s) {
        OneLookup(h, e, r, q, s.sid);
        LastBefore(h, r);
      }
    }
  }

  /** The write of a lookup that fetched nothing of `s`, or found it corrupted. */
  lemma AgreesUnloaded(h: seq<Timed>, e: Timed, c: nat, s: Session, r: nat)
    requires History(h + [e]) && h != [] && IsCreation(h, c, s) && Agrees(h, c, s)
    requires e.event.Writes? && FetchedAt(h, e.event.id, r)
    requires h[r].event.sid == s.sid ==> !After(h).flights[e.event.id].Loaded?
    requires c < r ==> Agrees(h[..r], c, s)
    ensures Agrees(h + [e], c, s)
  {
    UnloadedNotBack(h, e, c, s, r);
    UnloadedKills(h, e, r, s);
    if After(h).flights[e.event.id].Loaded? { FlightSid(h, e.event.id, r); }
    Ordered(h, e);
    AfterSnoc(h, e);
    FinishOther(After(h), e.event.id, s, e.at, e.at);
    var g := h + [e];
    forall now: nat | e.at <= now ensures LivesOn(g, c, s, now) <==> Found(Slotted(g), s.sid, now).Some? {
      LivesOnNext(h, e, c, s, now);
      FinishOther(After(h), e.event.id, s, e.at, now);
      assert h[|h| - 1].at <= e.at;
    }
  }

  lemma LastBefore(h: seq<Timed>, r: nat)
    requires History(h) && 0 < r < |h|
    ensures h[..r] != [] && h[..r][r - 1].at <= h[r].at
  {
  }

  lemma UnloadedKills(h: seq<Timed>, e: Timed, r: nat, s: Session)
    requires History(h + [e]) && e.event.Writes? && FetchedAt(h, e.event.id, r)
    ensures IsKill(h + [e], |h|, s) <==> After(h).flights[e.event.id] == Unreadable(s.sid)
  {
    var g := h + [e];
    assert g[|h|] == e && g[r] == h[r] && g[..r] == h[..r];
    if Discards(g, |h|, s.sid) {
      var q: nat :| IsLookup(g, q, |h|, s.sid) && Fetch(Slotted(g[..q]), s.sid, g[q].at) == Unreadable(s.sid);
      OneLookup(h, e, r, q, s.sid);
    }
    if After(h).flights[e.event.id] == Unreadable(s.sid) {
      assert IsLookup(g, r, |h|, s.sid);
    }
  }

  lemma LoadedBack(h: seq<Timed>, e: Timed, c: nat, s: Session, r: nat)
    requires History(h + [e]) && IsCreation(h, c, s)
    requires e.event.Writes? && FetchedAt(h, e.event.id, r)
    requires h[r].event.sid == s.sid && After(h).flights[e.event.id].Loaded?
    requires c < r ==> Agrees(h[..r], c, s)
    ensures GoesBack(h + [e], c, |h|, s)
  {
    var g := h + [e];
    assert g[|h|] == e && g[r] == h[r] && g[..r] == h[..r];
    Ordered(h, e);
    if r <= c { NoCreationBefore(h, c, s, r); }
    LastBefore(h, r);
    assert ReadsFrom(g, c, r, |h|, s);
  }

  /** The write of a lookup that fetched `s`. */
  lemma AgreesLoaded(h: seq<Timed>, e: Timed, c: nat, s: Session, r: nat)
    requires History(h + [e]) && h != [] && IsCreation(h, c, s) && Agrees(h, c, s)
    requires e.event.Writes? && FetchedAt(h, e.event.id, r)
    requires h[r].event.sid == s.sid && After(h).flights[e.event.id].Loaded?
    requires c < r ==> Agrees(h[..r], c, s)
    ensures Agrees(h + [e], c, s)
  {
    LoadedBack(h, e, c, s, r);
    FlightSid(h, e.event.id, r);
    Ordered(h, e);
    AfterSnoc(h, e);
    FinishLoaded(After(h), e.event.id, s, e.at, e.at);
    var g := h + [e];
    forall now: nat | e.at <= now ensures LivesOn(g, c, s, now) <==> Found(Slotted(g), s.sid, now).Some? {
      LivesOnWrite(h, e, c, s, now);
      FinishLoaded(After(h), e.event.id, s, e.at, now);
    }
  }

  lemma {:induction false} AgreesAlways(h: seq<Timed>, c: nat, s: Session)
    requires History(h) && IsCreation(h, c, s)
    ensures Agrees(h, c, s)
    decreases |h|
  {
    var init, e := h[..|h| - 1], h[|h| - 1];
    assert h == init + [e];
    if c == |init| {
      AgreesAtCreation(init, e, s);
    } else {
      assert init[c] == h[c];
      Ordered(init, e);
      AgreesAlways(init, c, s);
      if !e.event.Writes? {
        AgreesOther(init, e, c, s);
      } else if e.event.id !in After(init).flights {
        AgreesStray(init, e, c, s);
      } else {
        var r := FlightRead(init, e.event.id);
        if c < r { AgreesPrefix(init, c, s, r); AgreesAlways(init[..r], c, s); }
        if init[r].event.sid == s.sid && After(init).flights[e.event.id].Loaded? {
          AgreesLoaded(init, e, c, s, r);
        } else {
          AgreesUnloaded(init, e, c, s, r);
        }
      }
    }
  }

  lemma AgreesPrefix(h: seq<Timed>, c: nat, s: Session, r: nat)
    requires History(h) && IsCreation(h, c, s) && c < r <= |h|
    ensures History(h[..r]) && IsCreation(h[..r], c, s)
  {
    assert forall i :: 0 <= i < r ==> h[..r][i] == h[i];
  }

  /** In every history a lookup that succeeds returns the session as created but for `lastSeen`. */
  lemma LookupReturnsCreated(h: seq<Timed>, c: nat, s: Session, now: nat)
    requires History(h) && IsCreation(h, c, s) && Found(Slotted(h), s.sid, now).Some?
    ensures Found(Slotted(h), s.sid, now).value == s.(lastSeen := now)
  {
    AgreesAlways(h, c, s);
  }

  /**
   In every history a session is found exactly when it was created and lives on: through lookups
   that read it in time, each writing it back later, with no kill after the last of those writes.
   */
  lemma LookupExactly(h: seq<Timed>, sid: string, now: nat)
    requires History(h) && h != [] && h[|h| - 1].at <= now
    ensures Found(Slotted(h), sid, now).Some? <==>
            exists c: nat, s :: IsCreation(h, c, s) && s.sid == sid && LivesOn(h, c, s, now)
  {
    if c: nat, s :| IsCreation(h, c, s) && s.sid == sid {
      AgreesAlways(h, c, s);
      forall d: nat, t | IsCreation(h, d, t) && t.sid == sid ensures d == c && t == s { OneCreation(h, c, s, d, t); }
    } else {
      forall i | 0 <= i < |h| ensures !(h[i].event.Created? && h[i].event.session.sid == sid) {
        if h[i].event.Created? && h[i].event.session.sid == sid {
          assert IsCreation(h, i, h[i].event.session);
        }
      }
      NeverCreated(h, sid);
    }
  }

  lemma OneCreation(h: seq<Timed>, c: nat, s: Session, d: nat, t: Session)
    requires History(h) && IsCreation(h, c, s) && IsCreation(h, d, t) && s.sid == t.sid
    ensures c == d && s == t
  {
  }

  // ---------- when a revocation is final ----------

  /** A lookup that read the session before the kill at `k` writes it back at `w`, after it. */
  ghost predicate Undoes(h: seq<Timed>, c: nat, k: nat, w: nat, s: Session) {
    k < w < |h| && exists r: nat :: r < k && ReadsFrom(h, c, r, w, s)
  }

  lemma BackStep(h: seq<Timed>, b: nat, w: nat, s: Session) returns (r: nat)
    requires GoesBack(h, b, w, s) && w != b
    ensures w < |h| && ReadsFrom(h, b, r, w, s)
  {
    r :| ReadsFrom(h, b, r, w, s);
  }

  /** Every life after a kill starts with such a write. */
  lemma {:induction false} LivesAfterKill(h: seq<Timed>, c: nat, k: nat, s: Session, now: nat)
    requires History(h) && IsCreation(h, c, s) && c < k && IsKill(h, k, s)
    ensures LivesOn(h, c, s, now) <==> exists b: nat :: Undoes(h, c, k, b, s) && LivesOn(h, b, s, now)
    decreases |h|
  {
    if LivesOn(h, c, s, now) {
      var w: nat :| c <= w && GoesBack(h, c, w, s) && Lasts(h, w, s, now);
      assert k < w by { KillIsNoWrite(h, c, k, s); }
      var r := BackStep(h, c, w, s);
      assert r != k by { ReadIsNoKill(h, r, w, s); }
      if r < k {
        assert Undoes(h, c, k, w, s) && GoesBack(h, w, w, s);
        assert LivesOn(h, w, s, now);
      } else {
        PrefixOfKill(h, c, k, r, s);
        LivesAfterKill(h[..r], c, k, s, h[r].at);
        var b: nat :| Undoes(h[..r], c, k, b, s) && LivesOn(h[..r], b, s, h[r].at);
        UndoesPrefix(h, c, k, b, r, s);
        assert ReadsFrom(h, b, r, w, s);
        assert LivesOn(h, b, s, now);
      }
    }
    if b: nat :| Undoes(h, c, k, b, s) && LivesOn(h, b, s, now) {
      UndoneLivesOn(h, c, k, b, s, now);
    }
  }

  lemma KillIsNoWrite(h: seq<Timed>, c: nat, k: nat, s: Session)
    requires History(h) && IsCreation(h, c, s) && c < k && IsKill(h, k, s)
    ensures !GoesBack(h, c, k, s)
  {
    forall r: nat ensures !ReadsFrom(h, c, r, k, s) {
      if ReadsFrom(h, c, r, k, s) && Discards(h, k, s.sid) {
        var q: nat :| IsLookup(h, q, k, s.sid) && Fetch(Slotted(h[..q]), s.sid, h[q].at) == Unreadable(s.sid);
        assert q == r;
        AgreesPrefix(h, c, s, r);
        AgreesAlways(h[..r], c, s);
        LastBefore(h, r);
      }
    }
  }

  lemma ReadIsNoKill(h: seq<Timed>, r: nat, w: nat, s: Session)
    requires IsLookup(h, r, w, s.sid)
    ensures !IsKill(h, r, s)
  {
  }

  lemma PrefixOfKill(h: seq<Timed>, c: nat, k: nat, r: nat, s: Session)
    requires History(h) && IsCreation(h, c, s) && c < k < r < |h| && IsKill(h, k, s)
    ensures History(h[..r]) && IsCreation(h[..r], c, s) && IsKill(h[..r], k, s)
  {
    var g := h[..r];
    AgreesPrefix(h, c, s, r);
    assert g[k] == h[k];
    if Discards(h, k, s.sid) {
      var q: nat :| IsLookup(h, q, k, s.sid) && Fetch(Slotted(h[..q]), s.sid, h[q].at) == Unreadable(s.sid);
      assert g[..q] == h[..q] && IsLookup(g, q, k, s.sid);
    }
  }

  lemma ReadsFromPrefix(h: seq<Timed>, c: nat, q: nat, b: nat, r: nat, s: Session)
    requires r <= |h| && b < r
    ensures ReadsFrom(h[..r], c, q, b, s) <==> ReadsFrom(h, c, q, b, s)
  {
    if q < r {
      assert h[..r][..q] == h[..q];
    }
  }

  lemma UndoesPrefix(h: seq<Timed>, c: nat, k: nat, b: nat, r: nat, s: Session)
    requires r <= |h| && Undoes(h[..r], c, k, b, s)
    ensures Undoes(h, c, k, b, s) && k < b < r
  {
    var q: nat :| q < k && ReadsFrom(h[..r], c, q, b, s);
    ReadsFromPrefix(h, c, q, b, r, s);
  }

  lemma {:induction false} UndoneLivesOn(h: seq<Timed>, c: nat, k: nat, b: nat, s: Session, now: nat)
    requires c < k && Undoes(h, c, k, b, s) && LivesOn(h, b, s, now)
    ensures LivesOn(h, c, s, now)
    decreases |h|
  {
    var w: nat :| b <= w && GoesBack(h, b, w, s) && Lasts(h, w, s, now);
    if w != b {
      var r := BackStep(h, b, w, s);
      var q: nat :| q < k && ReadsFrom(h, c, q, b, s);
      ReadsFromPrefix(h, c, q, b, r, s);
      assert Undoes(h[..r], c, k, b, s);
      UndoneLivesOn(h[..r], c, k, b, s, h[r].at);
      assert ReadsFrom(h, c, r, w, s);
    }
    assert GoesBack(h, c, w, s);
  }

  /**
   A session that was revoked, or otherwise killed, at `k` is found later if and only if a lookup
   that had read it before writes it back after, and it lives on from that write.
   */
  lemma RevocationUndoneExactly(h: seq<Timed>, c: nat, k: nat, s: Session, now: nat)
    requires History(h) && IsCreation(h, c, s) && c < k && IsKill(h, k, s)
    requires h[|h| - 1].at <= now
    ensures Found(Slotted(h), s.sid, now).Some? <==> exists b: nat :: Undoes(h, c, k, b, s) && LivesOn(h, b, s, now)
  {
    AgreesAlways(h, c, s);
    LivesAfterKill(h, c, k, s, now);
  }

  /** No lookup under way has fetched the session. */
  ghost predicate NoneInFlight(st: Store, sid: string) {
    forall id :: id in st.flights && st.flights[id].Loaded? ==> st.flights[id].session.sid != sid
  }

  /** A revocation with no lookup of the session under way is final. */
  lemma RevocationFinal(h: seq<Timed>, c: nat, k: nat, s: Session, now: nat)
    requires History(h) && IsCreation(h, c, s) && c < k && IsKill(h, k, s) && NoneInFlight(After(h[..k]), s.sid)
    requires h[|h| - 1].at <= now
    ensures Found(Slotted(h), s.sid, now) == None
  {
    RevocationUndoneExactly(h, c, k, s, now);
    if b: nat :| Undoes(h, c, k, b, s) {
      var r: nat :| r < k && ReadsFrom(h, c, r, b, s);
      UndoingWasInFlight(h, c, k, b, r, s);
    }
  }

  lemma UndoingWasInFlight(h: seq<Timed>, c: nat, k: nat, w: nat, r: nat, s: Session)
    requires History(h) && IsCreation(h, c, s) && r < k < w && w < |h| && ReadsFrom(h, c, r, w, s)
    ensures !NoneInFlight(After(h[..k]), s.sid)
  {
    var g := h[..k];
    assert g[r] == h[r] && g[..r] == h[..r];
    assert History(g) by { forall i | 0 <= i < k ensures g[i] == h[i] {} }
    forall i | r < i < |g| ensures g[i].event != Writes(g[r].event.id) {
      assert g[i] == h[i];
    }
    FlightThere(g, r);
    AgreesPrefix(h, c, s, r);
    AgreesAlways(h[..r], c, s);
    LastBefore(h, r);
    FlightSid(g, h[r].event.id, r);
  }

  /** Otherwise it is undone by the next thing that lookup does. */
  lemma RevocationUndone(h: seq<Timed>, id: nat, s: Session, t1: nat, t2: nat, now: nat)
    requires id in After(h).flights && After(h).flights[id] == Loaded(s) && t2 <= now < t2 + 900
    ensures var g := h + [Timed(Revoked(s.sid), t1)];
      && Found(Slotted(g), s.sid, now) == None
      && Found(Slotted(g + [Timed(Writes(id), t2)]), s.sid, now) == Some(s.(lastSeen := now))
  {
    var g := h + [Timed(Revoked(s.sid), t1)];
    AfterSnoc(h, Timed(Revoked(s.sid), t1));
    AfterSnoc(g, Timed(Writes(id), t2));
  }
}
