/**
 The Bell-LaPadula policy: no read up, no write down, over four levels. A missing or unknown
 label counts as the lowest level.
 */
module BellLaPadula {
  import opened Wrappers

  const LEVELS := ["unclassified", "restricted", "confidential", "secret"]

  /** `level_value(name)`, undefined for a name that is not a level. */
  function LevelValue(name: string): Option<nat> {
    if name == LEVELS[0] then Some(0)
    else if name == LEVELS[1] then Some(1)
    else if name == LEVELS[2] then Some(2)
    else if name == LEVELS[3] then Some(3)
    else None
  }

  /** The level names are exactly the ones with a value, which is their place in the list. */
  lemma LevelValueIsIndex(name: string)
    ensures LevelValue(name).None? <==> name !in LEVELS
    ensures LevelValue(name).Some? ==> LevelValue(name).value < 4 && LEVELS[LevelValue(name).value] == name
    ensures forall i :: 0 <= i < 4 && LEVELS[i] == name ==> LevelValue(name) == Some(i)
    ensures LEVELS == ["unclassified", "restricted", "confidential", "secret"]
  {
    assert |LEVELS[0]| == 12 && |LEVELS[1]| == 10 && |LEVELS[2]| == 12 && |LEVELS[3]| == 6;
    assert LEVELS[0][0] == 'u' && LEVELS[2][0] == 'c';
  }

  /** A label of a request, if it carries one. */
  type Label = Option<string>

  /** `subject_level` and `resource_level` */
  function Level(l: Label): nat {
    match l
    case None => 0
    case Some(name) => match LevelValue(name) case None => 0 case Some(v) => v
  }

  predicate AllowRead(operation: string, subject: Label, resource: Label) {
    operation == "read" && Level(subject) >= Level(resource)
  }

  predicate AllowWrite(operation: string, subject: Label, resource: Label) {
    operation == "write" && Level(subject) <= Level(resource)
  }

  /** `allow` */
  predicate Allow(operation: string, subject: Label, resource: Label) {
    if operation == "read" && AllowRead(operation, subject, resource) then true
    else if operation == "write" && AllowWrite(operation, subject, resource) then true
    else false
  }

  /** How high a label stands; no label, or an unknown one, stands as low as the lowest. */
  ghost predicate StandsAt(l: Label, n: nat) {
    if l.Some? && l.value == "secret" then n == 3
    else if l.Some? && l.value == "confidential" then n == 2
    else if l.Some? && l.value == "restricted" then n == 1
    else n == 0
  }

  lemma StandsAtLevel(l: Label)
    ensures StandsAt(l, Level(l))
  {
    match l
    case None =>
    case Some(name) => LevelValueIsIndex(name);
  }

  /** No read up and no write down, and nothing but reads and writes. */
  lemma AllowExactly(operation: string, subject: Label, resource: Label, n: nat, m: nat)
    requires StandsAt(subject, n) && StandsAt(resource, m)
    ensures Allow(operation, subject, resource) <==> (operation == "read" && n >= m) || (operation == "write" && n <= m)
  {
    StandsAtLevel(subject);
    StandsAtLevel(resource);
  }

  // ---------- runs ----------

  datatype Node = Subject(name: string) | Object(name: string)

  datatype Request = Request(operation: string, subject: string, resource: string)

  /** The objects whose contents may have reached each node. */
  type Taint = map<Node, set<string>>

  function At(t: Taint, n: Node): set<string> {
    if n in t then t[n] else if n.Object? then {n.name} else {}
  }

  type Labels = Node -> Label

  function Step(labels: Labels, t: Taint, r: Request): Taint {
    var s, o := Subject(r.subject), Object(r.resource);
    if !Allow(r.operation, labels(s), labels(o)) then t
    else if r.operation == "read" then t[s := At(t, s) + At(t, o)]
    else t[o := At(t, o) + At(t, s)]
  }

  function Run(labels: Labels, rs: seq<Request>): Taint {
    if rs == [] then map[] else Step(labels, Run(labels, rs[..|rs| - 1]), rs[|rs| - 1])
  }

  ghost predicate NoneDown(labels: Labels, t: Taint) {
    forall n, a :: a in At(t, n) ==> Level(labels(Object(a))) <= Level(labels(n))
  }

  lemma StepKeeps(labels: Labels, t: Taint, r: Request)
    requires NoneDown(labels, t)
    ensures NoneDown(labels, Step(labels, t, r))
  {
    var t' := Step(labels, t, r);
    forall n, a | a in At(t', n) ensures Level(labels(Object(a))) <= Level(labels(n)) {
      var s, o := Subject(r.subject), Object(r.resource);
      assert a in At(t, n) || a in At(t, s) || a in At(t, o);
    }
  }

  /** In every run, through any number of subjects and objects, nothing moves to a lower level. */
  lemma NothingFlowsDown(labels: Labels, rs: seq<Request>, n: Node, a: string)
    ensures a in At(Run(labels, rs), n) ==> Level(labels(Object(a))) <= Level(labels(n))
  {
    RunKeeps(labels, rs);
  }

  lemma {:induction false} RunKeeps(labels: Labels, rs: seq<Request>)
    ensures NoneDown(labels, Run(labels, rs))
  {
    if rs != [] {
      RunKeeps(labels, rs[..|rs| - 1]);
      StepKeeps(labels, Run(labels, rs[..|rs| - 1]), rs[|rs| - 1]);
    }
  }

  // ---------- the policy forbids no more than it must ----------

  ghost predicate Between(labels: Labels, a: string, s: string, b: string) {
    Level(labels(Object(a))) <= Level(labels(Subject(s))) <= Level(labels(Object(b)))
  }

  /** Wherever `a` has got to, some subject was allowed to carry it there. */
  ghost predicate Carried(labels: Labels, t: Taint, a: string) {
    forall b :: a in At(t, Object(b)) && a != b ==> exists s :: Between(labels, a, s, b)
  }

  lemma StepCarried(labels: Labels, t: Taint, r: Request, a: string)
    requires NoneDown(labels, t) && Carried(labels, t, a)
    ensures Carried(labels, Step(labels, t, r), a)
  {
    var t' := Step(labels, t, r);
    forall b | a in At(t', Object(b)) && a != b ensures exists s :: Between(labels, a, s, b) {
      if a !in At(t, Object(b)) {
        assert a in At(t, Subject(r.subject));
        assert Between(labels, a, r.subject, b);
      }
    }
  }

  lemma {:induction false} RunCarried(labels: Labels, rs: seq<Request>, a: string)
    ensures Carried(labels, Run(labels, rs), a)
  {
    if rs != [] {
      var init := rs[..|rs| - 1];
      RunCarried(labels, init, a);
      RunKeeps(labels, init);
      StepCarried(labels, Run(labels, init), rs[|rs| - 1], a);
    }
  }

  ghost predicate CanReach(labels: Labels, a: string, b: string) {
    exists rs :: a in At(Run(labels, rs), Object(b))
  }

  /** A read by `s` and then a write by `s`. */
  lemma ReadThenWrite(labels: Labels, a: string, s: string, b: string)
    requires Between(labels, a, s, b)
    ensures CanReach(labels, a, b)
  {
    var r, w := Request("read", s, a), Request("write", s, b);
    RunSnoc(labels, [], r);
    assert [] + [r] == [r];
    RunSnoc(labels, [r], w);
    assert a in At(map[], Object(a));
    assert a in At(Step(labels, map[], r), Subject(s));
    assert a in At(Run(labels, [r] + [w]), Object(b));
  }

  lemma RunSnoc(labels: Labels, rs: seq<Request>, r: Request)
    ensures Run(labels, rs + [r]) == Step(labels, Run(labels, rs), r)
  {
    assert (rs + [r])[..|rs|] == rs;
  }

  /** Information can get from one object to another in some run exactly when one subject may
      read the first and write the second. */
  lemma FlowExactly(labels: Labels, a: string, b: string)
    ensures CanReach(labels, a, b) <==> a == b || exists s :: Between(labels, a, s, b)
  {
    if CanReach(labels, a, b) && a != b {
      var rs :| a in At(Run(labels, rs), Object(b));
      RunCarried(labels, rs, a);
    }
    if a == b {
      assert a in At(Run(labels, []), Object(b));
    }
    if s :| Between(labels, a, s, b) {
      ReadThenWrite(labels, a, s, b);
    }
  }
}
