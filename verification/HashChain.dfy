/**
 A chain of records, each naming the hash of the one before. `body` is the text of an entry
 together with the hash it follows, and `hash` is any function on texts: where two chains could
 differ unnoticed, a collision is exhibited.
 */
module HashChain {
  import opened Text

  datatype Record<E> = Record(entry: E, prevHash: Text, hash: Text)

  type Hash = Text -> Text

  type Body<!E> = (E, Text) -> Text

  /** The hash that record `n` names. */
  function HashBefore<E>(start: Text, log: seq<Record<E>>, n: nat): Text
    requires n <= |log|
  {
    if n == 0 then start else log[n - 1].hash
  }

  /** Each record names its predecessor's hash and carries the hash of its own body. */
  ghost predicate Chained<E>(hash: Hash, body: Body<E>, start: Text, log: seq<Record<E>>) {
    forall i: nat {:trigger HashBefore(start, log, i)} :: i < |log| ==>
      && log[i].prevHash == HashBefore(start, log, i)
      && log[i].hash == hash(body(log[i].entry, log[i].prevHash))
  }

  function Entries<E>(log: seq<Record<E>>): (es: seq<E>)
    ensures |es| == |log|
  {
    seq(|log|, i requires 0 <= i < |log| => log[i].entry)
  }

  /** The head of the chain that starts at `start`, after the first `n` entries. */
  ghost function Head<E>(hash: Hash, body: Body<E>, start: Text, es: seq<E>, n: nat): Text
    requires n <= |es|
  {
    if n == 0 then start else hash(body(es[n - 1], Head(hash, body, start, es, n - 1)))
  }

  /** The hashes of a log are the heads of its entries. */
  lemma {:induction false} ChainHead<E>(hash: Hash, body: Body<E>, start: Text, log: seq<Record<E>>, n: nat)
    requires Chained(hash, body, start, log) && n <= |log|
    ensures HashBefore(start, log, n) == Head(hash, body, start, Entries(log), n)
  {
    if n > 0 {
      ChainHead(hash, body, start, log, n - 1);
    }
  }

  /** A chain is fixed by its start and its entries. */
  lemma ChainFollows<E>(hash: Hash, body: Body<E>, start: Text, log1: seq<Record<E>>, log2: seq<Record<E>>)
    requires Chained(hash, body, start, log1) && Chained(hash, body, start, log2)
    requires Entries(log1) == Entries(log2)
    ensures log1 == log2
  {
    var es := Entries(log1);
    assert |log1| == |es| == |log2|;
    forall i: nat | i < |es| ensures log1[i] == log2[i] {
      ChainHead(hash, body, start, log1, i);
      ChainHead(hash, body, start, log2, i);
      assert log1[i].entry == es[i] == Entries(log2)[i] == log2[i].entry;
    }
  }

  // ---------- the head determines the entries ----------

  ghost predicate Collision(hash: Hash, a: Text, b: Text) { a != b && hash(a) == hash(b) }

  /** The text hashed to give a head: the seed, or the last body. */
  ghost function Hashed<E>(hash: Hash, body: Body<E>, seed: Text, es: seq<E>, n: nat): Text
    requires n <= |es|
  {
    if n == 0 then seed else body(es[n - 1], Head(hash, body, hash(seed), es, n - 1))
  }

  lemma HeadIsHash<E>(hash: Hash, body: Body<E>, seed: Text, es: seq<E>, n: nat)
    requires n <= |es|
    ensures Head(hash, body, hash(seed), es, n) == hash(Hashed(hash, body, seed, es, n))
  {
  }

  ghost predicate CollidedAt<E>(hash: Hash, body: Body<E>, seed: Text, es1: seq<E>, es2: seq<E>, i: nat, j: nat) {
    && i <= |es1| && j <= |es2|
    && Collision(hash, Hashed(hash, body, seed, es1, i), Hashed(hash, body, seed, es2, j))
  }

  /** Two texts hashed on the way to the two heads collide. */
  ghost predicate Collided<E>(hash: Hash, body: Body<E>, seed: Text, es1: seq<E>, es2: seq<E>) {
    exists i: nat, j: nat :: CollidedAt(hash, body, seed, es1, es2, i, j)
  }

  /** What the body of an entry shows of it. */
  type Seen<!E> = E -> E

  ghost predicate SameTo<E>(seen: Seen<E>, es1: seq<E>, es2: seq<E>, n: nat) {
    && n <= |es1| && n <= |es2|
    && forall i :: 0 <= i < n ==> seen(es1[i]) == seen(es2[i])
  }

  /** Equal bodies show equal entries after equal hashes. */
  ghost predicate Shows<E(!new)>(body: Body<E>, seen: Seen<E>, e1: E, e2: E, p: Text, q: Text) {
    body(e1, p) == body(e2, q) ==> seen(e1) == seen(e2) && p == q
  }

  /** That holds along both lists, and no body is the seed. */
  ghost predicate Faithful<E(!new)>(
      hash: Hash, body: Body<E>, seen: Seen<E>, seed: Text, es1: seq<E>, es2: seq<E>)
  {
    && (forall i: nat, j: nat, s, t {:trigger Shows(body, seen, es1[i], es2[j], hash(s), hash(t))} ::
          i < |es1| && j < |es2| ==> Shows(body, seen, es1[i], es2[j], hash(s), hash(t)))
    && (forall i: nat, s {:trigger body(es1[i], hash(s))} :: i < |es1| ==> body(es1[i], hash(s)) != seed)
    && (forall j: nat, t {:trigger body(es2[j], hash(t))} :: j < |es2| ==> body(es2[j], hash(t)) != seed)
  }

  /** One step back from one hashed text: the last entries agree and so do the heads before them. */
  lemma LastAgree<E(!new)>(
      hash: Hash, body: Body<E>, seen: Seen<E>, seed: Text, es1: seq<E>, es2: seq<E>, m: nat, n: nat)
    requires Faithful(hash, body, seen, seed, es1, es2) && m <= |es1| && n <= |es2|
    requires Hashed(hash, body, seed, es1, m) == Hashed(hash, body, seed, es2, n)
    ensures m == 0 <==> n == 0
    ensures m > 0 && n > 0 ==>
              && seen(es1[m - 1]) == seen(es2[n - 1])
              && Head(hash, body, hash(seed), es1, m - 1) == Head(hash, body, hash(seed), es2, n - 1)
  {
    if m > 0 { HeadIsHash(hash, body, seed, es1, m - 1); }
    if n > 0 { HeadIsHash(hash, body, seed, es2, n - 1); }
    if m > 0 && n > 0 {
      var s, t := Hashed(hash, body, seed, es1, m - 1), Hashed(hash, body, seed, es2, n - 1);
      assert Shows(body, seen, es1[m - 1], es2[n - 1], hash(s), hash(t));
    }
  }

  /** Two lists with one seed and one head show the same entries, or the hash has collided. */
  lemma {:induction false} HeadDetermines<E(!new)>(
      hash: Hash, body: Body<E>, seen: Seen<E>, seed: Text, es1: seq<E>, es2: seq<E>, m: nat, n: nat)
    requires Faithful(hash, body, seen, seed, es1, es2) && m <= |es1| && n <= |es2|
    requires Head(hash, body, hash(seed), es1, m) == Head(hash, body, hash(seed), es2, n)
    ensures (m == n && SameTo(seen, es1, es2, m)) || Collided(hash, body, seed, es1, es2)
    decreases m
  {
    HeadIsHash(hash, body, seed, es1, m);
    HeadIsHash(hash, body, seed, es2, n);
    if Hashed(hash, body, seed, es1, m) == Hashed(hash, body, seed, es2, n) {
      LastAgree(hash, body, seen, seed, es1, es2, m, n);
      if m > 0 {
        HeadDetermines(hash, body, seen, seed, es1, es2, m - 1, n - 1);
      }
    } else {
      assert CollidedAt(hash, body, seed, es1, es2, m, n);
    }
  }

  /** Lists whose entries have equal bodies wherever they stand have the same heads. */
  lemma {:induction false} SameHead<E>(hash: Hash, body: Body<E>, start: Text, es1: seq<E>, es2: seq<E>, n: nat)
    requires n <= |es1| && n <= |es2|
    requires forall i, p :: 0 <= i < n ==> body(es1[i], p) == body(es2[i], p)
    ensures Head(hash, body, start, es1, n) == Head(hash, body, start, es2, n)
  {
    if n > 0 {
      SameHead(hash, body, start, es1, es2, n - 1);
    }
  }
}
