/** Copying a form's questions with every reference renamed. */
module Definition {
  // A reference becomes one to the copy's own question, or is dropped.

  import opened Conditions
  import opened Decimal
  import opened Options
  import opened ReferenceText

  const SKIP := "skip_to_section"
  const MESSAGE := "display_message"

  /** The value that goes with a condition's action; `Target(n)` is one that reads as the number n. */
  datatype Payload<V> = Nothing | Target(id: int) | Message(text: string) | Given(value: V)

  /** A normalised condition. */
  datatype Condition<V> = Always | When(root: Node<V>, action: string, payload: Payload<V>)

  /**
   A cross-field rule compares this answer with another one's, named by `target` as text; what is not even an object
   is `Junk`.
   */
  datatype CrossRule<V> = Rule(target: string, rest: V) | Junk

  datatype Question<V> = Question(
    id: Option<int>, order: int, isBreak: bool, caption: string, description: string, condition: Condition<V>,
    cross: Option<seq<CrossRule<V>>>, formula: Option<string>, rest: V)

  /** The number a piece of text reads as. */
  function AsInt(s: string): Option<nat> {
    if s != "" && forall i :: 0 <= i < |s| ==> IsDigit(s[i]) then Some(Parse(s, 0)) else None
  }

  /** The question a rule names. */
  function TargetOf<V>(r: CrossRule<V>): Option<nat> {
    if r.Rule? then AsInt(r.target) else None
  }

  lemma DecReadsBack(n: nat)
    ensures AsInt(Dec(n)) == Some(n)
  {
    ParseDec(n);
  }

  // ----- renaming ----------------------------------------------------------------------------------------

  /** Unknown numbers keep their old name in text. */
  function Self(m: map<int, nat>): nat -> nat {
    n => if n in m then m[n] else n
  }

  /** The tests and the skip target go through `m`, the numbers in a message through `f`. */
  function RemapConditionWith<V>(c: Condition<V>, m: map<int, nat>, f: nat -> nat): Condition<V> {
    if c.Always? then Always
    else
      var root := Remap(c.root, m);
      if root.None? then Always
      else if c.action == SKIP then
        if c.payload.Target? && c.payload.id in m then When(root.value, c.action, Target(m[c.payload.id])) else Always
      else if c.action == MESSAGE && c.payload.Message? then
          When(root.value, c.action, Message(Rewrite(Pipe, c.payload.text, f)))
      else When(root.value, c.action, c.payload)
  }

  function RemapCondition<V>(c: Condition<V>, m: map<int, nat>): Condition<V> {
    RemapConditionWith(c, m, Self(m))
  }

  function RemapCross<V>(rules: seq<CrossRule<V>>, m: map<int, nat>): seq<CrossRule<V>> {
    if rules == [] then []
    else
      var rest := RemapCross(rules[1..], m);
      var target := TargetOf(rules[0]);
      if target.Some? && target.value in m then [rules[0].(target := Dec(m[target.value]))] + rest else rest
  }

  function RemapQuestionWith<V>(q: Question<V>, m: map<int, nat>, f: nat -> nat): Question<V> {
    q.(condition := RemapConditionWith(q.condition, m, f),
       cross := if q.cross.None? || RemapCross(q.cross.value, m) == [] then None
           else Some(RemapCross(q.cross.value, m)),
       formula := if q.formula.Some? then Some(Rewrite(Formula, q.formula.value, f)) else None,
       caption := Rewrite(Pipe, q.caption, f),
       description := Rewrite(Pipe, q.description, f))
  }

  function RemapQuestion<V>(q: Question<V>, m: map<int, nat>): Question<V> {
    RemapQuestionWith(q, m, Self(m))
  }

  // ----- what renaming keeps -----------------------------------------------------------------------------

  function Judge<V>(sem: Semantics<V>, answers: map<int, V>): Test<V> -> Option<bool> {
    t => TestEval(sem, t, answers)
  }

  /** A condition that cannot be evaluated at all counts as satisfied. */
  function Satisfied<V>(c: Condition<V>, sem: Semantics<V>, answers: map<int, V>): bool {
    c.Always? || Eval(c.root, Judge(sem, answers)) != Some(false)
  }

  /** It is satisfied unless it comes out false. */
  lemma SatisfiedMeans<V>(c: Condition<V>, sem: Semantics<V>, answers: map<int, V>)
    ensures Satisfied(c, sem, answers) <==> c.Always? || !Yields(c.root, Judge(sem, answers), false)
  {
    if c.When? {
      EvalIsMeaning(c.root, Judge(sem, answers), true);
      EvalIsMeaning(c.root, Judge(sem, answers), false);
    }
  }

  ghost predicate ConditionMapped<V>(c: Condition<V>, m: map<int, nat>) {
    c.When? ==> RefsMapped(c.root, m) && (c.action == SKIP ==> c.payload.Target? && c.payload.id in m)
  }

  /** Some test of the condition has a question to look at. */
  ghost predicate Evaluable<V>(c: Condition<V>) {
    c.When? && exists t :: t in Tests(c.root) && t.field.Some?
  }

  lemma {:induction false} KeptSome<V>(ts: seq<Test<V>>, g: Test<V> -> Option<Test<V>>)
    ensures Kept(ts, g) != [] <==> exists t :: t in ts && g(t).Some?
    ensures forall u :: u in Kept(ts, g) ==> exists t :: t in ts && g(t) == Some(u)
  {
    if ts == [] {
    } else {
      KeptSome(ts[1..], g);
      assert forall t :: t in ts <==> t == ts[0] || t in ts[1..];
    }
  }

  lemma {:induction false} NoTestsNoNode<V>(n: Node<V>)
    requires NoEmptyGroup(n)
    ensures Tests(n) != []
    decreases n
  {
    if n.Leaf? {
    } else {
      NoTestsNoNode(n.rules[0]);
    }
  }

  /** A renamed tree survives exactly when one of its tests does. */
  lemma RemapSurvives<V>(n: Node<V>, m: map<int, nat>)
    ensures Remap(n, m).Some? <==> exists t :: t in Tests(n) && RemapTest(t, m).Some?
  {
    var g := (t: Test<V>) => RemapTest(t, m);
    WalkTests(n, g);
    KeptSome(Tests(n), g);
    if Remap(n, m).Some? {
      NoTestsNoNode(Remap(n, m).value);
    }
  }

  /**
   When every question it looks at came along, the copied condition keeps its action and says of the renamed answers
   what the original says of the original ones. Only a condition without any evaluable test disappears.
   */
  lemma ConditionKeepsMeaning<V>(c: Condition<V>, m: map<int, nat>, sem: Semantics<V>, before: map<int, V>,
          after: map<int, V>)
    requires ConditionMapped(c, m) && SameAnswers(m, before, after)
    ensures var d := RemapCondition(c, m);
      && Satisfied(d, sem, after) == Satisfied(c, sem, before)
      && (d.When? <==> Evaluable(c)) && (d.When? ==>
          d.action == c.action && (c.action == SKIP ==> d.payload == Target(m[c.payload.id])))
  {
    if c.When? {
      RemapKeepsMeaning(c.root, m, sem, before, after);
      RemapSurvives(c.root, m);
      assert forall t :: t in Tests(c.root) ==> (RemapTest(t, m).Some? <==> t.field.Some?);
    }
  }

  /**
   Whatever came along: a condition survives exactly when one of its tests does, and its skip target if it has one.
   */
  lemma ConditionSurvives<V>(c: Condition<V>, m: map<int, nat>)
    ensures RemapCondition(c, m).When? <==>
              && c.When? && (exists t :: t in Tests(c.root) && RemapTest(t, m).Some?)
              && (c.action == SKIP ==> c.payload.Target? && c.payload.id in m)
  {
    if c.When? { RemapSurvives(c.root, m); }
  }

  /** Every question the renamed condition refers to is one of the new ones. */
  ghost predicate ConditionInside<V>(c: Condition<V>, ids: set<nat>) {
    c.When? ==>
      && (forall t :: t in Tests(c.root) ==> TestInside(t, ids))
      && NoEmptyGroup(c.root)
      && (c.action == SKIP ==> c.payload.Target? && c.payload.id >= 0 && c.payload.id in ids)
  }

  predicate TestInside<V>(t: Test<V>, ids: set<nat>) {
    t.field.Some? && t.field.value >= 0 && t.field.value in ids
        && (t.other.Some? ==> t.other.value >= 0 && t.other.value in ids)
  }

  lemma RemappedInside<V>(c: Condition<V>, m: map<int, nat>)
    ensures ConditionInside(RemapCondition(c, m), m.Values)
  {
    if c.When? {
      var g := (t: Test<V>) => RemapTest(t, m);
      WalkTests(c.root, g);
      KeptSome(Tests(c.root), g);
      var root := Remap(c.root, m);
      if root.Some? {
        forall u | u in Tests(root.value) ensures TestInside(u, m.Values) {
          var t :| t in Tests(c.root) && g(t) == Some(u);
        }
      }
    }
  }

  // ----- renaming twice ------------------------------------------------------------------------------------

  lemma ConditionComposes<V>(c: Condition<V>, m1: map<int, nat>, f1: nat -> nat, m2: map<int, nat>, f2: nat -> nat)
    ensures RemapConditionWith(RemapConditionWith(c, m1, f1), m2, f2)
        == RemapConditionWith(c, Compose(m1, m2), n => f2(f1(n)))
  {
    if c.When? {
      RemapComposes(c.root, m1, m2);
      if c.action == MESSAGE && c.payload.Message? {
        RewriteComposes(Pipe, c.payload.text, f1, f2);
      }
    }
  }

  lemma {:induction false} CrossComposes<V>(rules: seq<CrossRule<V>>, m1: map<int, nat>, m2: map<int, nat>)
    ensures RemapCross(RemapCross(rules, m1), m2) == RemapCross(rules, Compose(m1, m2))
  {
    if rules == [] {
    } else {
      CrossComposes(rules[1..], m1, m2);
      var rest := RemapCross(rules[1..], m1);
      var target := TargetOf(rules[0]);
      if target.Some? && target.value in m1 {
        DecReadsBack(m1[target.value]);
        assert ([rules[0].(target := Dec(m1[target.value]))] + rest)[1..] == rest;
      }
    }
  }

  /** Copying a copy is copying the original through the composed renaming, whatever got lost on the way. */
  lemma QuestionComposes<V>(q: Question<V>, m1: map<int, nat>, f1: nat -> nat, m2: map<int, nat>, f2: nat -> nat)
    ensures RemapQuestionWith(RemapQuestionWith(q, m1, f1), m2, f2)
        == RemapQuestionWith(q, Compose(m1, m2), n => f2(f1(n)))
  {
    ConditionComposes(q.condition, m1, f1, m2, f2);
    if q.cross.Some? { CrossComposes(q.cross.value, m1, m2); }
    if q.formula.Some? { RewriteComposes(Formula, q.formula.value, f1, f2); }
    RewriteComposes(Pipe, q.caption, f1, f2);
    RewriteComposes(Pipe, q.description, f1, f2);
  }

  // ----- there and back ------------------------------------------------------------------------------------

  ghost predicate TextClosed(style: Style, text: string, ids: set<int>) {
    forall n :: Ref(n) in Tokens(style, text) ==> n in ids
  }

  ghost predicate ConditionClosed<V>(c: Condition<V>, ids: set<int>) {
    c.When? ==>
      && NoEmptyGroup(c.root)
      && (forall t :: t in Tests(c.root) ==> TestClosed(t, ids))
      && (c.action == SKIP ==> c.payload.Target? && c.payload.id in ids)
      && (c.action == MESSAGE && c.payload.Message? ==> TextClosed(Pipe, c.payload.text, ids))
  }

  predicate TestClosed<V>(t: Test<V>, ids: set<int>) {
    t.field.Some? && t.field.value in ids && (t.other.Some? ==> t.other.value in ids)
  }

  /** The rule names one of `ids`, spelled as plain digits. */
  predicate RuleClosed<V>(r: CrossRule<V>, ids: set<int>) {
    TargetOf(r).Some? && TargetOf(r).value in ids && r.target == Dec(TargetOf(r).value)
  }

  /** Every reference in the question is to one of `ids`. */
  ghost predicate Closed<V>(q: Question<V>, ids: set<int>) {
    && ConditionClosed(q.condition, ids)
    && (q.cross.Some? ==> q.cross.value != [] && forall r :: r in q.cross.value ==> RuleClosed(r, ids))
    && (q.formula.Some? ==> TextClosed(Formula, q.formula.value, ids))
    && TextClosed(Pipe, q.caption, ids) && TextClosed(Pipe, q.description, ids)
  }

  /** References in text written the canonical way: no spaces inside, no leading zeros. */
  function Canonical(style: Style, text: string): string {
    Rewrite(style, text, n => n)
  }

  function CanonicalCondition<V>(c: Condition<V>): Condition<V> {
    if c.When? && c.action == MESSAGE && c.payload.Message? then c.(payload := Message(Canonical(Pipe, c.payload.text)))
        else c
  }

  function CanonicalQuestion<V>(q: Question<V>): Question<V> {
    q.(condition := CanonicalCondition(q.condition),
       formula := if q.formula.Some? then Some(Canonical(Formula, q.formula.value)) else None,
       caption := Canonical(Pipe, q.caption), description := Canonical(Pipe, q.description))
  }

  ghost predicate Undoes(back: map<int, nat>, m: map<int, nat>) {
    forall x :: x in m ==> m[x] in back && back[m[x]] == x
  }

  lemma {:induction false} RemapIdentity<V>(n: Node<V>, m: map<int, nat>)
    requires NoEmptyGroup(n) && forall t :: t in Tests(n) ==> RemapTest(t, m) == Some(t)
    ensures Remap(n, m) == Some(n)
    decreases n, 0
  {
    if n.Leaf? {
      assert n.test in Tests(n);
    } else {
      RemapAllIdentity(n.rules, m);
    }
  }

  lemma {:induction false} RemapAllIdentity<V>(ns: seq<Node<V>>, m: map<int, nat>)
    requires NoEmptyGroups(ns) && forall t :: t in TestsAll(ns) ==> RemapTest(t, m) == Some(t)
    ensures WalkAll(ns, (t: Test<V>) => RemapTest(t, m)) == ns
    decreases ns, 1
  {
    if ns == [] {
    } else {
      RemapIdentity(ns[0], m);
      RemapAllIdentity(ns[1..], m);
    }
  }

  lemma {:induction false} CrossIdentity<V>(rules: seq<CrossRule<V>>, m: map<int, nat>, ids: set<int>)
    requires forall r :: r in rules ==> RuleClosed(r, ids)
    requires forall x :: x in ids ==> x in m && m[x] == x
    ensures RemapCross(rules, m) == rules
  {
    if rules == [] {
    } else {
      assert RuleClosed(rules[0], ids);
      CrossIdentity(rules[1..], m, ids);
    }
  }

  lemma TextThereAndBack(style: Style, text: string, m: map<int, nat>, back: map<int, nat>)
    requires TextClosed(style, text, m.Keys) && Undoes(back, m)
    ensures Rewrite(style, Rewrite(style, text, Self(m)), Self(back)) == Canonical(style, text)
  {
    RewriteComposes(style, text, Self(m), Self(back));
    RewriteDependsOnRefs(style, text, n => Self(back)(Self(m)(n)), n => n);
  }

  lemma ConditionThereAndBack<V>(c: Condition<V>, m: map<int, nat>, back: map<int, nat>)
    requires ConditionClosed(c, m.Keys) && Undoes(back, m)
    ensures RemapCondition(RemapCondition(c, m), back) == CanonicalCondition(c)
  {
    var both := Compose(m, back);
    assert forall x :: x in m.Keys ==> x in both && both[x] == x;
    if c.When? {
      RemapComposes(c.root, m, back);
      forall t | t in Tests(c.root) ensures RemapTest(t, both) == Some(t) { assert TestClosed(t, m.Keys); }
      RemapIdentity(c.root, both);
      if c.action == MESSAGE && c.payload.Message? { TextThereAndBack(Pipe, c.payload.text, m, back); }
    }
  }

  lemma CrossThereAndBack<V>(rules: seq<CrossRule<V>>, m: map<int, nat>, back: map<int, nat>)
    requires forall r :: r in rules ==> RuleClosed(r, m.Keys)
    requires Undoes(back, m)
    ensures RemapCross(RemapCross(rules, m), back) == rules
  {
    CrossComposes(rules, m, back);
    CrossIdentity(rules, Compose(m, back), m.Keys);
  }

  /**
   Renaming a self-contained question and renaming it back gives the same question, its text references in canonical
   form.
   */
  lemma ThereAndBack<V>(q: Question<V>, m: map<int, nat>, back: map<int, nat>)
    requires Closed(q, m.Keys) && Undoes(back, m)
    ensures RemapQuestion(RemapQuestion(q, m), back) == CanonicalQuestion(q)
  {
    ConditionThereAndBack(q.condition, m, back);
    if q.cross.Some? { CrossThereAndBack(q.cross.value, m, back); }
    if q.formula.Some? { TextThereAndBack(Formula, q.formula.value, m, back); }
    TextThereAndBack(Pipe, q.caption, m, back);
    TextThereAndBack(Pipe, q.description, m, back);
  }
}
