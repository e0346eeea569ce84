/**
 When printing a value that was read back gives the text it was read from: exactly when fusing
 surrogate pairs in the keys keeps their order in every object, and merges none of them.
 */
module JsonOrder {
  import opened Text
  import opened Json

  ghost predicate KeepsKeyOrder(k: Text, l: Text) {
    LexLe(k, l) && k != l ==> LexLe(Join(k), Join(l)) && Join(k) != Join(l)
  }

  ghost predicate KeepsOrder(v: Json) {
    match v
    case Arr(items) => forall i :: 0 <= i < |items| ==> KeepsOrder(items[i])
    case Obj(fields) =>
      && (forall k, l :: k in fields && l in fields ==> KeepsKeyOrder(k, l))
      && (forall k :: k in fields ==> KeepsOrder(fields[k]))
    case _ => true
  }

  ghost function Joined(ks: seq<Text>): (js: seq<Text>)
    ensures |js| == |ks| && forall i :: 0 <= i < |ks| ==> js[i] == Join(ks[i])
  {
    seq(|ks|, i requires 0 <= i < |ks| => Join(ks[i]))
  }

  ghost function KeysOf(v: Json): seq<Text>
    requires v.Obj?
  {
    Sorted(v.fields.Keys)
  }

  /** At one object: the sorted keys, joined, are still strictly ascending. */
  lemma AscendsExactly(v: Json)
    requires v.Obj?
    ensures Ascends(Joined(KeysOf(v))) <==>
            forall k, l :: k in v.fields && l in v.fields ==> KeepsKeyOrder(k, l)
  {
    SortedAscends(v.fields.Keys);
    if Ascends(Joined(KeysOf(v))) { OrderKept(v); }
    if forall k, l :: k in v.fields && l in v.fields ==> KeepsKeyOrder(k, l) {
      var ks, js := KeysOf(v), Joined(KeysOf(v));
      forall i, j | 0 <= i < j < |js| ensures LexLe(js[i], js[j]) && js[i] != js[j] {
        assert KeepsKeyOrder(ks[i], ks[j]);
      }
    }
  }

  lemma OrderKept(v: Json)
    requires v.Obj? && Ascends(Joined(KeysOf(v)))
    ensures forall k, l :: k in v.fields && l in v.fields ==> KeepsKeyOrder(k, l)
  {
    SortedAscends(v.fields.Keys);
    forall k, l | k in v.fields && l in v.fields ensures KeepsKeyOrder(k, l) {
      PairKept(KeysOf(v), k, l);
    }
  }

  lemma PairKept(ks: seq<Text>, k: Text, l: Text)
    requires Ascends(ks) && Ascends(Joined(ks)) && k in ks && l in ks
    ensures KeepsKeyOrder(k, l)
  {
    var i :| 0 <= i < |ks| && ks[i] == k;
    var j :| 0 <= j < |ks| && ks[j] == l;
    LexTotal(k, l);
  }

  lemma AscendsApart(v: Json)
    requires v.Obj? && Ascends(Joined(KeysOf(v)))
    ensures KeepsApart(v)
  {
    var ks := KeysOf(v);
    forall k, l | k in v.fields && l in v.fields && k != l ensures Join(k) != Join(l) {
      var i :| 0 <= i < |ks| && ks[i] == k;
      var j :| 0 <= j < |ks| && ks[j] == l;
      assert Joined(ks)[i] == Join(k) && Joined(ks)[j] == Join(l);
    }
  }

  lemma JoinedIn(ks: seq<Text>, k: Text)
    requires k in ks
    ensures Join(k) in Joined(ks)
  {
    var i :| 0 <= i < |ks| && ks[i] == k;
    assert Joined(ks)[i] == Join(k);
  }

  lemma JoinedFrom(ks: seq<Text>, j: Text) returns (k: Text)
    requires j in Joined(ks)
    ensures k in ks && Join(k) == j
  {
    var i :| 0 <= i < |ks| && Joined(ks)[i] == j;
    k := ks[i];
  }

  ghost predicate FromOne(ks: set<Text>, j: Text) { exists k :: k in ks && Join(k) == j }

  lemma JoinedWithin(ks: set<Text>, js: set<Text>)
    requires forall k :: k in ks ==> Join(k) in js
    ensures forall j :: j in Joined(Sorted(ks)) ==> j in js
  {
    forall j | j in Joined(Sorted(ks)) ensures j in js {
      var k := JoinedFrom(Sorted(ks), j);
    }
  }

  lemma FromOneIn(ks: set<Text>, j: Text)
    requires FromOne(ks, j)
    ensures j in Joined(Sorted(ks))
  {
    var k :| k in ks && Join(k) == j;
    JoinedIn(Sorted(ks), k);
  }

  lemma JoinedSorted(ks: set<Text>, js: set<Text>)
    requires Ascends(Joined(Sorted(ks)))
    requires (forall k :: k in ks ==> Join(k) in js) && (forall j :: j in js ==> FromOne(ks, j))
    ensures Sorted(js) == Joined(Sorted(ks))
  {
    var r := Joined(Sorted(ks));
    JoinedWithin(ks, js);
    forall j | j in js ensures j in r { FromOneIn(ks, j); }
    SortedUnique(r, js);
  }

  /** Then they are the sorted keys of the object that is read back. */
  lemma KeysRelayed(v: Json)
    requires v.Obj? && Ascends(Joined(KeysOf(v)))
    ensures KeysOf(Relayed(v)) == Joined(KeysOf(v))
  {
    var js := Relayed(v).fields.Keys;
    forall k | k in v.fields.Keys ensures Join(k) in js { KeyRelayed(v, k); }
    forall j | j in js ensures FromOne(v.fields.Keys, j) {
      var k := RelayedKey(v, j);
    }
    JoinedSorted(v.fields.Keys, js);
  }

  lemma TreeMembers(v: Json, i: nat)
    requires v.Obj? && i < |KeysOf(v)|
    ensures |TreeOf(v).members| == |KeysOf(v)| && KeysOf(v)[i] in v.fields
    ensures TreeOf(v).members[i] == MemberAt(v, KeysOf(v)[i])
  {
    MembersAtIndex(v, KeysOf(v), i);
  }

  /** Keys that were read are in joined form. */
  lemma RelayedKeyJoined(v: Json, j: Text)
    requires v.Obj? && j in Relayed(v).fields
    ensures Join(j) == j
  {
    var k := RelayedKey(v, j);
    JoinClean(k);
  }

  /** If the members agree, the joined keys are the sorted keys of what was read, so they ascend. */
  lemma SameTreeAscends(v: Json)
    requires v.Obj? && TreeOf(Relayed(v)) == TreeOf(v)
    ensures Ascends(Joined(KeysOf(v)))
  {
    var w := Relayed(v);
    var ks, ls := KeysOf(v), KeysOf(w);
    assert |TreeOf(v).members| == |ks| && |TreeOf(w).members| == |ls|;
    forall i | 0 <= i < |ks| ensures ls[i] == Join(ks[i]) {
      TreeMembers(v, i);
      TreeMembers(w, i);
      RelayedKeyJoined(v, ls[i]);
    }
    assert ls == Joined(ks);
    SortedAscends(w.fields.Keys);
  }

  /** The member at `k` reads the same once re-printed. */
  ghost predicate Agrees(v: Json, k: Text)
    requires v.Obj? && k in v.fields
  {
    TreeOf(Relayed(v.fields[k])) == TreeOf(v.fields[k])
  }

  /** With the keys in order, the members agree one by one. */
  lemma MembersAgree(v: Json)
    requires v.Obj? && Ascends(Joined(KeysOf(v)))
    ensures TreeOf(Relayed(v)) == TreeOf(v) <==> forall k :: k in v.fields ==> Agrees(v, k)
  {
    KeysRelayed(v);
    AscendsApart(v);
    if TreeOf(Relayed(v)) == TreeOf(v) {
      forall k | k in v.fields ensures Agrees(v, k) { EachAgrees(v, k); }
    }
    if forall k :: k in v.fields ==> Agrees(v, k) {
      AllAgree(v);
    }
  }

  lemma EachAgrees(v: Json, k: Text)
    requires v.Obj? && KeepsApart(v) && KeysOf(Relayed(v)) == Joined(KeysOf(v))
    requires TreeOf(Relayed(v)) == TreeOf(v) && k in v.fields
    ensures Agrees(v, k)
  {
    var w := Relayed(v);
    var i :| 0 <= i < |KeysOf(v)| && KeysOf(v)[i] == k;
    TreeMembers(v, i);
    TreeMembers(w, i);
    MemberAgrees(v, k, w);
  }

  lemma SameMembers(t: Tree, u: Tree)
    requires t.Members? && u.Members? && |t.members| == |u.members|
    requires forall i: nat :: i < |t.members| ==> t.members[i] == u.members[i]
    ensures t == u
  {
    assert t.members == u.members;
  }

  lemma AllAgree(v: Json)
    requires v.Obj? && KeepsApart(v) && KeysOf(Relayed(v)) == Joined(KeysOf(v))
    requires forall k :: k in v.fields ==> Agrees(v, k)
    ensures TreeOf(Relayed(v)) == TreeOf(v)
  {
    var w := Relayed(v);
    MembersCount(v);
    MembersCount(w);
    forall i: nat | i < |KeysOf(v)| ensures TreeOf(w).members[i] == TreeOf(v).members[i] {
      TreeMembers(v, i);
      TreeMembers(w, i);
      MemberAgrees(v, KeysOf(v)[i], w);
    }
    SameMembers(TreeOf(w), TreeOf(v));
  }

  lemma MembersCount(v: Json)
    requires v.Obj?
    ensures TreeOf(v).Members? && |TreeOf(v).members| == |KeysOf(v)|
  {
  }

  lemma MemberAgrees(v: Json, k: Text, w: Json)
    requires v.Obj? && k in v.fields && KeepsApart(v) && w == Relayed(v)
    ensures w.Obj? && Join(k) in w.fields
    ensures MemberAt(w, Join(k)) == MemberAt(v, k) <==> Agrees(v, k)
  {
    JoinClean(k);
    RelayedAt(v, k);
    SameMember(v, w, k);
  }

  lemma SameMember(v: Json, w: Json, k: Text)
    requires v.Obj? && k in v.fields && w.Obj? && Join(k) in w.fields
    requires w.fields[Join(k)] == Relayed(v.fields[k]) && Join(Join(k)) == Join(k)
    ensures MemberAt(w, Join(k)) == MemberAt(v, k) <==> Agrees(v, k)
  {
  }

  /** A reader makes the same of the re-printed value exactly when the value keeps its order. */
  lemma {:induction false} StableExactly(v: Json)
    ensures TreeOf(Relayed(v)) == TreeOf(v) <==> KeepsOrder(v)
  {
    match v
    case Str(s) => JoinClean(s);
    case Arr(items) =>
      forall i | 0 <= i < |items| ensures TreeOf(Relayed(items[i])) == TreeOf(items[i]) <==> KeepsOrder(items[i]) {
        StableExactly(items[i]);
      }
      ItemsAgree(items);
    case Obj(fields) =>
      forall k | k in fields ensures Agrees(v, k) <==> KeepsOrder(fields[k]) {
        StableExactly(fields[k]);
      }
      AscendsExactly(v);
      if TreeOf(Relayed(v)) == TreeOf(v) { SameTreeAscends(v); }
      if Ascends(Joined(KeysOf(v))) { MembersAgree(v); }
    case _ =>
  }

  lemma ItemsAgree(items: seq<Json>)
    ensures TreeOf(Relayed(Arr(items))) == TreeOf(Arr(items)) <==>
            forall i :: 0 <= i < |items| ==> TreeOf(Relayed(items[i])) == TreeOf(items[i])
  {
    var ts, us := TreeOf(Arr(items)).items, TreeOf(Relayed(Arr(items))).items;
    assert |ts| == |items| == |us|;
    forall i | 0 <= i < |items| ensures ts[i] == TreeOf(items[i]) && us[i] == TreeOf(Relayed(items[i])) {
    }
    assert ts == us <==> forall i :: 0 <= i < |items| ==> ts[i] == us[i];
  }

  // ---------- texts ----------

  lemma {:induction false} RelayedPrintable(canon: Canon, v: Json)
    requires Printable(canon, v)
    ensures Printable(canon, Relayed(v))
    decreases v, 1, 0
  {
    match v
    case Arr(items) =>
      forall i | 0 <= i < |items| ensures Printable(canon, Relayed(items[i])) {
        RelayedPrintable(canon, items[i]);
      }
      assert forall i :: 0 <= i < |items| ==> Relayed(v).items[i] == Relayed(items[i]);
    case Obj(fields) => MembersPrintable(canon, v, Sorted(fields.Keys));
    case _ =>
  }

  lemma {:induction false} MembersPrintable(canon: Canon, v: Json, ks: seq<Text>)
    requires v.Obj? && Printable(canon, v) && forall k :: k in ks ==> k in v.fields
    ensures Printable(canon, Obj(ToMap(MembersAt(v, ks))))
    decreases v, 0, |ks|
  {
    if ks != [] {
      RelayedPrintable(canon, v.fields[ks[0]]);
      MembersPrintable(canon, v, ks[1..]);
      assert MembersAt(v, ks)[1..] == MembersAt(v, ks[1..]);
    }
  }

  /** `json.dumps(json.loads(json.dumps(v)))` is `json.dumps(v)` exactly when the keys keep their order. */
  lemma ReprintExactly(canon: Canon, v: Json)
    requires Printable(canon, v)
    ensures Print(Relayed(v)) == Print(v) <==> KeepsOrder(v)
  {
    RelayedPrintable(canon, v);
    TextExactly(canon, Relayed(v), v);
    StableExactly(v);
  }

  lemma CleanKeysKeepOrder(m: map<Text, Json>)
    requires forall k :: k in m ==> NoPair(k)
    ensures KeepsOrder(Obj(m)) <==> forall k :: k in m ==> KeepsOrder(m[k])
  {
    forall k | k in m ensures Join(k) == k { JoinFixed(k); }
  }

  /** In particular it is where no key holds a split surrogate pair. */
  lemma {:induction false} CleanKeepsOrder(v: Json)
    requires KeysClean(v)
    ensures KeepsOrder(v)
  {
    match v
    case Arr(items) =>
      forall i | 0 <= i < |items| ensures KeepsOrder(items[i]) { CleanKeepsOrder(items[i]); }
    case Obj(fields) =>
      forall k | k in fields ensures KeepsOrder(fields[k]) { CleanKeepsOrder(fields[k]); }
      CleanKeysKeepOrder(fields);
    case _ =>
  }
}
