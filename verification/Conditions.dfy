/** Display conditions: AND/OR trees over tests on other answers. */
module Conditions {
  // The two rewritings rename the questions a condition refers to, and remove those that refer to a deleted one.

  import opened Lists
  import opened Options

  /**
   One rule: compare the answer to `field` with a fixed value or with the answer to `other`. Without a field it cannot
   be evaluated.
   */
  datatype Test<V> = Test(field: Option<int>, op: string, value: V, other: Option<int>)

  datatype Node<V> = Leaf(test: Test<V>) | Group(logic: string, rules: seq<Node<V>>)

  /** How answers are judged: which count as blank and what each operator says. */
  datatype Semantics<!V> = Semantics(blank: Option<V> -> bool, operate: (string, Option<V>, Option<V>) -> bool)

  // ----- evaluation ----------------------------------------------------------------------------------

  predicate AboutBlanks(op: string) {
    op == "is_empty" || op == "is_not_empty"
  }

  function TestEval<V>(sem: Semantics<V>, t: Test<V>, answers: map<int, V>): Option<bool> {
    if t.field.None? then None
    else
      var left := Get(answers, t.field.value);
      var right := if t.other.Some? then Get(answers, t.other.value) else Some(t.value);
      if t.other.Some? && !AboutBlanks(t.op) && sem.blank(right) then Some(false)
      else if !AboutBlanks(t.op) && sem.blank(left) then Some(false)
      else Some(sem.operate(t.op, left, right))
  }

  /** A node's truth value, or nothing when no test under it can be evaluated; `judge` says what each test yields. */
  function Eval<V>(n: Node<V>, judge: Test<V> -> Option<bool>): Option<bool>
    decreases n, 0
  {
    match n
    case Leaf(t) => judge(t)
    case Group(logic, rules) =>
      var usable := EvalAll(rules, judge);
      if usable == [] then None else Some(if logic == "OR" then true in usable else false !in usable)
  }

  function EvalAll<V>(ns: seq<Node<V>>, judge: Test<V> -> Option<bool>): seq<bool>
    decreases ns, 1
  {
    if ns == [] then []
    else
      var first := Eval(ns[0], judge);
      var rest := EvalAll(ns[1..], judge);
      if first.Some? then [first.value] + rest else rest
  }

  // ----- what it means for a condition to hold --------------------------------------------------------

  /**
   The node comes out as `b`: a test as it is judged. A group with OR is true when one of its rules is, any other is
   false when one of its rules is; and each is the opposite when some rule comes out and none comes out that way.
   */
  ghost predicate Yields<V>(n: Node<V>, judge: Test<V> -> Option<bool>, b: bool)
    decreases n
  {
    match n
    case Leaf(t) => judge(t) == Some(b)
    case Group(logic, rules) =>
      var deciding := logic == "OR";
      if b == deciding then exists i :: 0 <= i < |rules| && Yields(rules[i], judge, deciding)
      else
        && (exists i :: 0 <= i < |rules| && Yields(rules[i], judge, !deciding))
        && forall i :: 0 <= i < |rules| ==> !Yields(rules[i], judge, deciding)
  }

  /** The evaluation says of every condition exactly what it means. */
  lemma {:induction false} EvalIsMeaning<V>(n: Node<V>, judge: Test<V> -> Option<bool>, b: bool)
    ensures Eval(n, judge) == Some(b) <==> Yields(n, judge, b)
    decreases n, 0
  {
    match n {
      case Leaf(t) =>
      case Group(logic, rules) =>
        EvalAllAre(rules, judge, true);
        EvalAllAre(rules, judge, false);
        var usable := EvalAll(rules, judge);
        assert usable != [] ==> usable[0] in usable && (usable[0] == true || usable[0] == false);
    }
  }

  lemma {:induction false} EvalAllAre<V>(ns: seq<Node<V>>, judge: Test<V> -> Option<bool>, b: bool)
    ensures b in EvalAll(ns, judge) <==> exists i :: 0 <= i < |ns| && Yields(ns[i], judge, b)
    decreases ns, 1
  {
    if ns == [] {
    } else {
      EvalIsMeaning(ns[0], judge, b);
      EvalAllAre(ns[1..], judge, b);
      assert forall i :: 0 < i < |ns| ==> ns[i] == ns[1..][i - 1];
      assert forall i :: 0 <= i < |ns[1..]| ==> ns[1..][i] == ns[i + 1];
    }
  }

  /** Nothing comes out of a node exactly when nothing comes out of any test under it. */
  lemma {:induction false} NothingYielded<V>(n: Node<V>, judge: Test<V> -> Option<bool>)
    ensures Eval(n, judge) == None <==> forall t :: t in Tests(n) ==> judge(t) == None
    decreases n, 0
  {
    match n {
      case Leaf(t) => assert t in Tests(n);
      case Group(_, rules) => NothingYieldedBy(rules, judge);
    }
  }

  lemma {:induction false} NothingYieldedBy<V>(ns: seq<Node<V>>, judge: Test<V> -> Option<bool>)
    ensures EvalAll(ns, judge) == [] <==> forall t :: t in TestsAll(ns) ==> judge(t) == None
    decreases ns, 1
  {
    if ns == [] {
    } else {
      NothingYielded(ns[0], judge);
      NothingYieldedBy(ns[1..], judge);
    }
  }

  /**
   A test looks at the answer to its question, and at a fixed value or the answer to another question. It comes out
   exactly when it has a question, and true exactly when the operator says so and, unless the operator is about blanks,
   neither of the answers it looks at is blank.
   */
  lemma TestMeans<V>(sem: Semantics<V>, t: Test<V>, answers: map<int, V>)
    ensures TestEval(sem, t, answers) == None <==> t.field == None
    ensures TestEval(sem, t, answers) == Some(true) <==>
              && t.field.Some?
              && sem.operate(t.op, Get(answers, t.field.value),
                             if t.other == None then Some(t.value) else Get(answers, t.other.value))
              && (t.op == "is_empty" || t.op == "is_not_empty"
                  || (!sem.blank(Get(answers, t.field.value))
                      && (t.other.Some? ==> !sem.blank(Get(answers, t.other.value)))))
  {
  }

  // ----- rewriting -----------------------------------------------------------------------------------

  /** Rewrites every test with `g`, drops those `g` drops, and drops the groups this leaves empty. */
  function Walk<V>(n: Node<V>, g: Test<V> -> Option<Test<V>>): Option<Node<V>>
    decreases n, 0
  {
    match n
    case Leaf(t) =>
      var u := g(t);
      if u.Some? then Some(Leaf(u.value)) else None
    case Group(logic, rules) =>
      var kept := WalkAll(rules, g);
      if kept == [] then None else Some(Group(logic, kept))
  }

  function WalkAll<V>(ns: seq<Node<V>>, g: Test<V> -> Option<Test<V>>): seq<Node<V>>
    decreases ns, 1
  {
    if ns == [] then []
    else
      var first := Walk(ns[0], g);
      var rest := WalkAll(ns[1..], g);
      if first.Some? then [first.value] + rest else rest
  }

  /** A test with its questions renamed; gone when one of them has no new name. */
  function RemapTest<V>(t: Test<V>, m: map<int, nat>): Option<Test<V>> {
    if t.field.None? || t.field.value !in m then None
    else if t.other.Some? && t.other.value !in m then None
    else Some(t.(field := Some(m[t.field.value]), other := if t.other.Some? then Some(m[t.other.value]) else None))
  }

  function Remap<V>(n: Node<V>, m: map<int, nat>): Option<Node<V>> {
    Walk(n, t => RemapTest(t, m))
  }

  predicate TestMentions<V>(t: Test<V>, id: int) {
    t.field == Some(id) || t.other == Some(id)
  }

  /** A node without any rule that points at `id`; nothing when nothing is left. */
  function Prune<V>(n: Node<V>, id: int): Option<Node<V>> {
    Walk(n, t => if TestMentions(t, id) then None else Some(t))
  }

  // ----- the tests of a tree, and its groups -----------------------------------------------------------

  function Tests<V>(n: Node<V>): seq<Test<V>>
    decreases n, 0
  {
    match n
    case Leaf(t) => [t]
    case Group(_, rules) => TestsAll(rules)
  }

  function TestsAll<V>(ns: seq<Node<V>>): seq<Test<V>>
    decreases ns, 1
  {
    if ns == [] then [] else Tests(ns[0]) + TestsAll(ns[1..])
  }

  function OptTests<V>(n: Option<Node<V>>): seq<Test<V>> {
    if n.Some? then Tests(n.value) else []
  }

  /** What `g` makes of each, in order, without the dropped ones. */
  function Kept<V>(ts: seq<Test<V>>, g: Test<V> -> Option<Test<V>>): seq<Test<V>> {
    if ts == [] then []
    else
      var u := g(ts[0]);
      var rest := Kept(ts[1..], g);
      if u.Some? then [u.value] + rest else rest
  }

  lemma {:induction false} KeptIsSelected<V>(ts: seq<Test<V>>, g: Test<V> -> Option<Test<V>>)
    ensures Selected(ts, Kept(ts, g), g)
  {
    if ts == [] {
      assert Selected(ts, Kept(ts, g), g);
    } else {
      KeptIsSelected(ts[1..], g);
      SelectedCons(ts[0], ts[1..], Kept(ts[1..], g), g);
      assert [ts[0]] + ts[1..] == ts;
    }
  }

  predicate NoEmptyGroup<V>(n: Node<V>)
    decreases n, 0
  {
    n.Group? ==> n.rules != [] && NoEmptyGroups(n.rules)
  }

  predicate NoEmptyGroups<V>(ns: seq<Node<V>>)
    decreases ns, 1
  {
    ns == [] || (NoEmptyGroup(ns[0]) && NoEmptyGroups(ns[1..]))
  }

  lemma {:induction false} KeptConcat<V>(a: seq<Test<V>>, b: seq<Test<V>>, g: Test<V> -> Option<Test<V>>)
    ensures Kept(a + b, g) == Kept(a, g) + Kept(b, g)
  {
    if a == [] {
      assert a + b == b;
    } else {
      KeptConcat(a[1..], b, g);
      assert (a + b)[1..] == a[1..] + b;
    }
  }

  /** Every test `g` keeps survives, rewritten, in order; no empty group remains. */
  lemma {:induction false} WalkTests<V>(n: Node<V>, g: Test<V> -> Option<Test<V>>)
    ensures OptTests(Walk(n, g)) == Kept(Tests(n), g)
    ensures Selected(Tests(n), OptTests(Walk(n, g)), g)
    ensures Walk(n, g).Some? ==> NoEmptyGroup(Walk(n, g).value)
    decreases n, 0
  {
    KeptIsSelected(Tests(n), g);
    match n {
      case Leaf(t) =>
      case Group(_, rules) => WalkAllTests(rules, g);
    }
  }

  lemma {:induction false} WalkAllTests<V>(ns: seq<Node<V>>, g: Test<V> -> Option<Test<V>>)
    ensures TestsAll(WalkAll(ns, g)) == Kept(TestsAll(ns), g)
    ensures NoEmptyGroups(WalkAll(ns, g))
    decreases ns, 1
  {
    if ns == [] {
    } else {
      WalkTests(ns[0], g);
      WalkAllTests(ns[1..], g);
      KeptConcat(Tests(ns[0]), TestsAll(ns[1..]), g);
      var first := Walk(ns[0], g);
      if first.Some? {
        assert ([first.value] + WalkAll(ns[1..], g))[1..] == WalkAll(ns[1..], g);
      }
    }
  }

  // ----- rewriting keeps the meaning -------------------------------------------------------------------

  function OptEval<V>(n: Option<Node<V>>, judge: Test<V> -> Option<bool>): Option<bool> {
    if n.Some? then Eval(n.value, judge) else None
  }

  /** Judging what `g` makes of a test is judging the test; a dropped test could not be evaluated. */
  ghost predicate SameVerdict<V>(t: Test<V>, g: Test<V> -> Option<Test<V>>, before: Test<V> -> Option<bool>,
          after: Test<V> -> Option<bool>) {
    before(t) == if g(t).Some? then after(g(t).value) else None
  }

  lemma {:induction false} WalkKeepsMeaning<V>(n: Node<V>, g: Test<V> -> Option<Test<V>>,
          before: Test<V> -> Option<bool>, after: Test<V> -> Option<bool>)
    requires forall t :: t in Tests(n) ==> SameVerdict(t, g, before, after)
    ensures OptEval(Walk(n, g), after) == Eval(n, before)
    decreases n, 0
  {
    match n {
      case Leaf(t) => assert t in Tests(n);
      case Group(logic, rules) =>
        WalkAllKeepsMeaning(rules, g, before, after);
    }
  }

  lemma {:induction false} WalkAllKeepsMeaning<V>(ns: seq<Node<V>>, g: Test<V> -> Option<Test<V>>,
          before: Test<V> -> Option<bool>, after: Test<V> -> Option<bool>)
    requires forall t :: t in TestsAll(ns) ==> SameVerdict(t, g, before, after)
    ensures EvalAll(WalkAll(ns, g), after) == EvalAll(ns, before)
    decreases ns, 1
  {
    if ns == [] {
    } else {
      WalkKeepsMeaning(ns[0], g, before, after);
      WalkAllKeepsMeaning(ns[1..], g, before, after);
      var first := Walk(ns[0], g);
      if first.Some? {
        assert ([first.value] + WalkAll(ns[1..], g))[1..] == WalkAll(ns[1..], g);
      }
    }
  }

  /** `after` holds, under the new names, the answers `before` holds under the old ones. */
  ghost predicate SameAnswers<V>(m: map<int, nat>, before: map<int, V>, after: map<int, V>) {
    forall x :: x in m ==> Get(after, m[x]) == Get(before, x)
  }

  /** Every question an evaluable test looks at has a new name. */
  ghost predicate RefsMapped<V>(n: Node<V>, m: map<int, nat>) {
    forall t :: t in Tests(n) && t.field.Some? ==> t.field.value in m && (t.other.Some? ==> t.other.value in m)
  }

  /**
   When every question a condition looks at is renamed, the renamed condition says of the renamed answers what the
   original says of the original ones.
   */
  lemma RemapKeepsMeaning<V>(n: Node<V>, m: map<int, nat>, sem: Semantics<V>, before: map<int, V>, after: map<int, V>)
    requires RefsMapped(n, m) && SameAnswers(m, before, after)
    ensures OptEval(Remap(n, m), (t: Test<V>) => TestEval(sem, t, after))
        == Eval(n, (t: Test<V>) => TestEval(sem, t, before))
  {
    var g := (t: Test<V>) => RemapTest(t, m);
    var b := (t: Test<V>) => TestEval(sem, t, before);
    var a := (t: Test<V>) => TestEval(sem, t, after);
    forall t | t in Tests(n) ensures SameVerdict(t, g, b, a) {
      if t.field.Some? {
        assert Get(after, m[t.field.value]) == Get(before, t.field.value);
        assert t.other.Some? ==> Get(after, m[t.other.value]) == Get(before, t.other.value);
      }
    }
    WalkKeepsMeaning(n, g, b, a);
  }

  /** Pruning a deleted question leaves what the condition says when the tests on that question are not considered. */
  lemma PruneKeepsMeaning<V>(n: Node<V>, id: int, sem: Semantics<V>, answers: map<int, V>)
    ensures OptEval(Prune(n, id), (t: Test<V>) => TestEval(sem, t, answers))
            == Eval(n, (t: Test<V>) => if TestMentions(t, id) then None else TestEval(sem, t, answers))
  {
    var g := (t: Test<V>) => if TestMentions(t, id) then None else Some(t);
    var b := (t: Test<V>) => if TestMentions(t, id) then None else TestEval(sem, t, answers);
    var a := (t: Test<V>) => TestEval(sem, t, answers);
    forall t | t in Tests(n) ensures SameVerdict(t, g, b, a) {}
    WalkKeepsMeaning(n, g, b, a);
  }

  /** What a node says depends on nothing but what its tests yield. */
  lemma {:induction false} EvalDependsOnTests<V>(n: Node<V>, j: Test<V> -> Option<bool>, k: Test<V> -> Option<bool>)
    requires forall t :: t in Tests(n) ==> j(t) == k(t)
    ensures Eval(n, j) == Eval(n, k)
    decreases n, 0
  {
    match n {
      case Leaf(t) => assert t in Tests(n);
      case Group(_, rules) => EvalAllDependsOnTests(rules, j, k);
    }
  }

  lemma {:induction false} EvalAllDependsOnTests<V>(ns: seq<Node<V>>, j: Test<V> -> Option<bool>,
          k: Test<V> -> Option<bool>)
    requires forall t :: t in TestsAll(ns) ==> j(t) == k(t)
    ensures EvalAll(ns, j) == EvalAll(ns, k)
    decreases ns, 1
  {
    if ns == [] {
    } else {
      EvalDependsOnTests(ns[0], j, k);
      EvalAllDependsOnTests(ns[1..], j, k);
    }
  }

  // ----- rewriting twice ---------------------------------------------------------------------------------

  /** First `m1`, then `m2`; an id either one does not know has no new name. */
  function Compose(m1: map<int, nat>, m2: map<int, nat>): map<int, nat> {
    map x | x in m1 && m1[x] in m2 :: m2[m1[x]]
  }

  function Then<V>(n: Option<Node<V>>, m: map<int, nat>): Option<Node<V>> {
    if n.Some? then Remap(n.value, m) else None
  }

  /** Renaming through one map and then another, drops included, is renaming through their composition. */
  lemma {:induction false} RemapComposes<V>(n: Node<V>, m1: map<int, nat>, m2: map<int, nat>)
    ensures Then(Remap(n, m1), m2) == Remap(n, Compose(m1, m2))
    decreases n, 0
  {
    match n {
      case Leaf(t) =>
      case Group(logic, rules) => RemapAllComposes(rules, m1, m2);
    }
  }

  lemma {:induction false} RemapAllComposes<V>(ns: seq<Node<V>>, m1: map<int, nat>, m2: map<int, nat>)
    ensures WalkAll(WalkAll(ns, (t: Test<V>) => RemapTest(t, m1)), (t: Test<V>) => RemapTest(t, m2))
            == WalkAll(ns, (t: Test<V>) => RemapTest(t, Compose(m1, m2)))
    decreases ns, 1
  {
    if ns == [] {
    } else {
      RemapComposes(ns[0], m1, m2);
      RemapAllComposes(ns[1..], m1, m2);
      var g := (t: Test<V>) => RemapTest(t, m1);
      var first := Walk(ns[0], g);
      if first.Some? {
        assert ([first.value] + WalkAll(ns[1..], g))[1..] == WalkAll(ns[1..], g);
      }
    }
  }
}
