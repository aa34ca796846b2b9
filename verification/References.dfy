/** Finding and removing everything that points at a question about to be deleted. */
module References {
  import opened Conditions
  import opened Decimal
  import opened Definition
  import opened Lists
  import opened Options
  import opened ReferenceText

  /** The active questions of a form by id, and its Club ID field mapping. */
  datatype Linked<V> = Linked(questions: map<nat, Question<V>>, mapping: map<string, int>)

  predicate ConditionMentions<V(==)>(c: Condition<V>, id: nat) {
    c.When? && exists t :: t in Tests(c.root) && TestMentions(t, id)
  }

  /** Rules are compared as text: the target must be spelled exactly like the id. */
  predicate RuleMentions<V>(r: CrossRule<V>, id: nat) {
    r.Rule? && r.target == Dec(id)
  }

  predicate CrossMentions<V(==)>(q: Question<V>, id: nat) {
    q.cross.Some? && exists r :: r in q.cross.value && RuleMentions(r, id)
  }

  predicate Depends<V(==)>(q: Question<V>, id: nat) {
    ConditionMentions(q.condition, id) || CrossMentions(q, id)
  }

  /** The other questions whose conditions or cross-field rules point at `id`. */
  function Dependents<V(==)>(l: Linked<V>, id: nat): set<nat> {
    set f | f in l.questions && f != id && Depends(l.questions[f], id)
  }

  function MappingKeys<V>(l: Linked<V>, id: nat): set<string> {
    set k | k in l.mapping && l.mapping[k] == id
  }

  function PruneCondition<V(==)>(c: Condition<V>, id: nat): Condition<V> {
    if !ConditionMentions(c, id) then c
    else
      var root := Prune(c.root, id);
      if root.None? then Always else When(root.value, c.action, c.payload)
  }

  function RulesWithout<V>(rules: seq<CrossRule<V>>, id: nat): seq<CrossRule<V>> {
    if rules == [] then []
    else
      var rest := RulesWithout(rules[1..], id);
      if RuleMentions(rules[0], id) then rest else [rules[0]] + rest
  }

  function Unlinked<V(==)>(q: Question<V>, id: nat): Question<V> {
    q.(condition := PruneCondition(q.condition, id),
       cross := if q.cross.None? || RulesWithout(q.cross.value, id) == [] then None
           else Some(RulesWithout(q.cross.value, id)))
  }

  function RemoveReferences<V(==)>(l: Linked<V>, id: nat): Linked<V> {
    Linked(
      map f | f in l.questions :: if f in Dependents(l, id) then Unlinked(l.questions[f], id) else l.questions[f],
      map k | k in l.mapping && l.mapping[k] != id :: l.mapping[k])
  }

  // ----- nothing is left to find -----------------------------------------------------------------------------

  lemma {:induction false} RulesWithoutMention<V>(rules: seq<CrossRule<V>>, id: nat)
    ensures forall r :: r in RulesWithout(rules, id) ==> r in rules && !RuleMentions(r, id)
    ensures forall r :: r in rules && !RuleMentions(r, id) ==> r in RulesWithout(rules, id)
  {
    if rules == [] {
    } else {
      RulesWithoutMention(rules[1..], id);
      assert forall r :: r in rules <==> r == rules[0] || r in rules[1..];
    }
  }

  function NotAbout<V>(id: nat): Test<V> -> Option<Test<V>> {
    t => if TestMentions(t, id) then None else Some(t)
  }

  /** Of a condition, exactly the rules that do not name the question survive, in order, and no group is left empty. */
  lemma PrunedTests<V>(c: Condition<V>, id: nat)
    requires c.When?
    ensures var d := PruneCondition(c, id);
      && Kept(Tests(c.root), NotAbout(id)) == (if d.When? then Tests(d.root) else [])
      && (d.When? ==> d.action == c.action && d.payload == c.payload && (NoEmptyGroup(c.root) ==> NoEmptyGroup(d.root)))
      && !ConditionMentions(d, id)
  {
    var g: Test<V> -> Option<Test<V>> := t => if TestMentions(t, id) then None else Some(t);
    WalkTests(c.root, g);
    SameKept(Tests(c.root), g, NotAbout(id));
    KeptSome(Tests(c.root), g);
    if !ConditionMentions(c, id) {
      KeptAll(Tests(c.root), g);
    }
  }

  lemma {:induction false} SameKept<V>(ts: seq<Test<V>>, g: Test<V> -> Option<Test<V>>, h: Test<V> -> Option<Test<V>>)
    requires forall t :: g(t) == h(t)
    ensures Kept(ts, g) == Kept(ts, h)
  {
    if ts == [] {
    } else {
      SameKept(ts[1..], g, h);
    }
  }

  lemma {:induction false} KeptAll<V>(ts: seq<Test<V>>, g: Test<V> -> Option<Test<V>>)
    requires forall t :: t in ts ==> g(t) == Some(t)
    ensures Kept(ts, g) == ts
  {
    if ts == [] {
    } else {
      KeptAll(ts[1..], g);
    }
  }

  lemma UnlinkedIsFree<V>(q: Question<V>, id: nat)
    ensures !Depends(Unlinked(q, id), id)
  {
    if q.condition.When? { PrunedTests(q.condition, id); }
    if q.cross.Some? { RulesWithoutMention(q.cross.value, id); }
  }

  /** After the removal a second search finds nothing: no question depends on the id and no mapping entry names it. */
  lemma NothingLeftToFind<V>(l: Linked<V>, id: nat)
    ensures Dependents(RemoveReferences(l, id), id) == {} && MappingKeys(RemoveReferences(l, id), id) == {}
  {
    var after := RemoveReferences(l, id);
    forall f | f in after.questions && f != id ensures !Depends(after.questions[f], id) {
      UnlinkedIsFree(l.questions[f], id);
    }
  }

  /**
   Nothing else goes: other questions and mapping entries are untouched, and of a dependent every other cross-field
   rule stays in order.
   */
  lemma NothingElseGoes<V>(l: Linked<V>, id: nat, f: nat)
    requires f in l.questions
    ensures var (q, r) := (l.questions[f], RemoveReferences(l, id).questions[f]);
      && RemoveReferences(l, id).questions.Keys == l.questions.Keys
      && r == q.(condition := r.condition, cross := r.cross)
      && (f == id || !Depends(q, id) ==> r == q)
      && (f != id && Depends(q, id) ==>
          r.condition == PruneCondition(q.condition, id)
          && r.cross.Some? == (q.cross.Some? && exists x :: x in q.cross.value && !RuleMentions(x, id)))
      && (f != id && r.cross.Some? ==>
          r.cross.value == (if Depends(q, id) then RulesWithout(q.cross.value, id) else q.cross.value))
      && (forall k :: k in l.mapping && l.mapping[k] != id ==>
          k in RemoveReferences(l, id).mapping && RemoveReferences(l, id).mapping[k] == l.mapping[k])
  {
    var q := l.questions[f];
    if q.cross.Some? {
      RulesWithoutMention(q.cross.value, id);
      var left := RulesWithout(q.cross.value, id);
      if left != [] { assert left[0] in left; }
    }
  }

  /** What remains of a condition means what it meant with the tests on the deleted question left out. */
  lemma PrunedMeaning<V>(c: Condition<V>, id: nat, sem: Semantics<V>, answers: map<int, V>)
    requires c.When?
    ensures Satisfied(PruneCondition(c, id), sem, answers)
            == (Eval(c.root, (t: Test<V>) => if TestMentions(t, id) then None
                else TestEval(sem, t, answers)) != Some(false))
  {
    PruneKeepsMeaning(c.root, id, sem, answers);
    if !ConditionMentions(c, id) {
      var h := (t: Test<V>) => if TestMentions(t, id) then None else TestEval(sem, t, answers);
      EvalDependsOnTests(c.root, Judge(sem, answers), h);
    }
  }

  // ----- the removal question by question -----------------------------------------------------------------------

  /** A test that looks at another question, or compares with one, is kept as it is. */
  function OtherTest<V>(id: nat): Test<V> -> Option<Test<V>> {
    (t: Test<V>) => if t.field == Some(id) || t.other == Some(id) then None else Some(t)
  }

  /** A rule whose target is not spelled like the number is kept as it is. */
  function OtherRule<V>(id: nat): CrossRule<V> -> Option<CrossRule<V>> {
    (r: CrossRule<V>) => if r.Rule? && r.target == Dec(id) then None else Some(r)
  }

  ghost predicate TestPoints<V>(c: Condition<V>, id: nat) {
    c.When? && exists t :: t in Tests(c.root) && (t.field == Some(id) || t.other == Some(id))
  }

  ghost predicate RulePoints<V>(cross: Option<seq<CrossRule<V>>>, id: nat) {
    cross.Some? && exists r :: r in cross.value && r.Rule? && r.target == Dec(id)
  }

  /**
   A question that points at `id` loses exactly the tests and rules that do, and the condition when no test is left;
   any other question stays as it is.
   */
  ghost predicate QuestionUnlinked<V>(q: Question<V>, r: Question<V>, id: nat) {
    if !TestPoints(q.condition, id) && !RulePoints(q.cross, id) then r == q
    else
      && r == q.(condition := r.condition, cross := r.cross)
      && (if !TestPoints(q.condition, id) then r.condition == q.condition
          else
            && Selected(Tests(q.condition.root), if r.condition.When? then Tests(r.condition.root) else [],
                        OtherTest(id))
            && (r.condition.When? ==> r.condition.action == q.condition.action
                                      && r.condition.payload == q.condition.payload && NoEmptyGroup(r.condition.root)))
      && (if q.cross.None? then r.cross.None? else Selected(q.cross.value, r.cross.GetOr([]), OtherRule(id)))
      && r.cross != Some([])
  }

  lemma PointsMean<V>(q: Question<V>, id: nat)
    ensures TestPoints(q.condition, id) <==> ConditionMentions(q.condition, id)
    ensures RulePoints(q.cross, id) <==> CrossMentions(q, id)
  {
    assert ConditionMentions(q.condition, id) ==>
        exists t :: t in Tests(q.condition.root) && TestMentions(t, id);
  }

  lemma {:induction false} RulesKept<V>(rules: seq<CrossRule<V>>, id: nat)
    ensures Selected(rules, RulesWithout(rules, id), OtherRule(id))
  {
    if rules == [] {
    } else {
      RulesKept(rules[1..], id);
      SelectedCons(rules[0], rules[1..], RulesWithout(rules[1..], id), OtherRule(id));
      assert [rules[0]] + rules[1..] == rules;
    }
  }

  lemma TestsLeft<V>(c: Condition<V>, id: nat)
    requires ConditionMentions(c, id)
    ensures var d := PruneCondition(c, id);
      && Selected(Tests(c.root), if d.When? then Tests(d.root) else [], OtherTest(id))
      && (d.When? ==> d.action == c.action && d.payload == c.payload && NoEmptyGroup(d.root))
  {
    var g: Test<V> -> Option<Test<V>> := t => if TestMentions(t, id) then None else Some(t);
    WalkTests(c.root, g);
    SelectedAlike(Tests(c.root), OptTests(Walk(c.root, g)), g, OtherTest(id));
  }

  lemma UnlinkMeans<V>(l: Linked<V>, id: nat, f: nat)
    requires f in l.questions
    ensures f in RemoveReferences(l, id).questions
    ensures var (q, r) := (l.questions[f], RemoveReferences(l, id).questions[f]);
      if f == id then r == q else QuestionUnlinked(q, r, id)
  {
    var q := l.questions[f];
    PointsMean(q, id);
    if ConditionMentions(q.condition, id) { TestsLeft(q.condition, id); }
    if q.cross.Some? { RulesKept(q.cross.value, id); }
  }

  /** Every other question is stripped, and exactly the mapping entries that name the question go. */
  ghost predicate FormUnlinked<V>(before: Linked<V>, after: Linked<V>, id: nat) {
    && after.questions.Keys == before.questions.Keys
    && (forall f :: f in before.questions && f != id ==>
          QuestionUnlinked(before.questions[f], after.questions[f], id))
    && (id in before.questions ==> after.questions[id] == before.questions[id])
    && after.mapping == map k | k in before.mapping && before.mapping[k] != id :: before.mapping[k]
  }

  lemma RemovalMeans<V>(l: Linked<V>, id: nat)
    ensures FormUnlinked(l, RemoveReferences(l, id), id)
  {
    forall f | f in l.questions && f != id
      ensures QuestionUnlinked(l.questions[f], RemoveReferences(l, id).questions[f], id) {
      UnlinkMeans(l, id, f);
    }
  }

  /** A form whose questions and settings are updated in place. */
  class FormLinks<V(==)> {
    var questions: map<nat, Question<V>>
    var mapping: map<string, int>

    function View(): Linked<V>
      reads this
    {
      Linked(questions, mapping)
    }

    /** Rewrites the stored condition and rules of one question. */
    method UnlinkOne(f: nat, id: nat)
      requires f in questions
      modifies this`questions
      ensures questions == old(questions)[f := Unlinked(old(questions)[f], id)]
    {
      var q := questions[f];
      if ConditionMentions(q.condition, id) {
        q := q.(condition := PruneCondition(q.condition, id));
      }
      if q.cross.Some? {
        var left := RulesWithout(q.cross.value, id);
        q := q.(cross := if left == [] then None else Some(left));
      }
      questions := questions[f := q];
    }

    /** Strips every reference the search finds; afterwards the search finds none. */
    method RemoveFieldReferences(id: nat)
      modifies this
      ensures View() == RemoveReferences(old(View()), id)
      ensures Dependents(View(), id) == {} && MappingKeys(View(), id) == {}
      ensures FormUnlinked(old(View()), View(), id)
    {
      ghost var was := View();
      NothingLeftToFind(was, id);
      var dependents := Dependents(View(), id);
      var named := MappingKeys(View(), id) != {};
      var todo := dependents;
      while todo != {}
        invariant todo <= dependents <= was.questions.Keys == questions.Keys && mapping == was.mapping
        invariant forall f :: f in questions ==>
                    questions[f] == if f in dependents
                        && f !in todo then Unlinked(was.questions[f], id) else was.questions[f]
        decreases todo
      {
        var f :| f in todo;
        UnlinkOne(f, id);
        todo := todo - {f};
      }
      assert !named ==> forall k :: k in was.mapping ==> k !in MappingKeys(was, id);
      if named {
        mapping := map k | k in mapping && mapping[k] != id :: mapping[k];
      }
      assert mapping == RemoveReferences(was, id).mapping;
      assert questions == RemoveReferences(was, id).questions;
      RemovalMeans(was, id);
    }
  }

  // ----- what the search does not see ----------------------------------------------------------------------------

  /**
   A skip target is not among the references searched for: the route stays, leading nowhere, exactly when some test of
   its condition is about another question.
   */
  lemma DeadRouteRemains<V>(c: Condition<V>, id: nat)
    requires c.When? && c.action == SKIP && c.payload == Target(id) && NoEmptyGroup(c.root)
    ensures var d := PruneCondition(c, id);
      (d.When? && d.action == SKIP && d.payload == Target(id)) <==>
          exists t :: t in Tests(c.root) && !TestMentions(t, id)
  {
    var g: Test<V> -> Option<Test<V>> := t => if TestMentions(t, id) then None else Some(t);
    WalkTests(c.root, g);
    KeptSome(Tests(c.root), g);
    NoTestsNoNode(c.root);
    if Walk(c.root, g).Some? { NoTestsNoNode(Walk(c.root, g).value); }
    if exists t :: t in Tests(c.root) && !TestMentions(t, id) {
      var t :| t in Tests(c.root) && !TestMentions(t, id);
      assert g(t).Some?;
    }
    assert Tests(c.root)[0] in Tests(c.root);
  }

  predicate RefersTo(style: Style, text: string, id: nat) {
    Ref(id) in Tokens(style, text)
  }

  /** The other questions whose label, help text or formula shows or counts the answer to `id`. */
  function TextDependents<V>(l: Linked<V>, id: nat): set<nat> {
    set f | f in l.questions && f != id &&
            (|| RefersTo(Pipe, l.questions[f].caption, id) || RefersTo(Pipe, l.questions[f].description, id)
             || (l.questions[f].formula.Some? && RefersTo(Formula, l.questions[f].formula.value, id)))
  }

  predicate MessageRefersTo<V>(c: Condition<V>, id: nat) {
    c.When? && c.action == MESSAGE && c.payload.Message? && RefersTo(Pipe, c.payload.text, id)
  }

  /** Some test of the condition is about another question, or none is about this one. */
  predicate Outlives<V(==)>(c: Condition<V>, id: nat) {
    c.When? && (ConditionMentions(c, id) ==> exists t :: t in Tests(c.root) && !TestMentions(t, id))
  }

  lemma PrunedOutlives<V>(c: Condition<V>, id: nat)
    ensures PruneCondition(c, id).When? <==> Outlives(c, id)
  {
    if c.When? && ConditionMentions(c, id) {
      var g: Test<V> -> Option<Test<V>> := t => if TestMentions(t, id) then None else Some(t);
      WalkTests(c.root, g);
      KeptSome(Tests(c.root), g);
      if Walk(c.root, g).Some? { NoTestsNoNode(Walk(c.root, g).value); }
      if exists t :: t in Tests(c.root) && !TestMentions(t, id) {
        var t :| t in Tests(c.root) && !TestMentions(t, id);
        assert g(t).Some?;
      }
    }
  }

  /**
   References inside text are not searched for: after the removal, the same labels and formulas still refer to the
   deleted question, and so do the messages whose condition outlives it.
   */
  lemma TextReferencesRemain<V>(l: Linked<V>, id: nat)
    ensures TextDependents(RemoveReferences(l, id), id) == TextDependents(l, id)
    ensures forall f :: f in l.questions && f != id ==>
        (MessageRefersTo(RemoveReferences(l, id).questions[f].condition, id)
         <==> MessageRefersTo(l.questions[f].condition, id) && Outlives(l.questions[f].condition, id))
  {
    var after := RemoveReferences(l, id);
    forall f | f in l.questions && f != id
      ensures MessageRefersTo(after.questions[f].condition, id)
              <==> MessageRefersTo(l.questions[f].condition, id) && Outlives(l.questions[f].condition, id)
    {
      PrunedOutlives(l.questions[f].condition, id);
    }
  }

  /**
   A cross-field rule that reads as the deleted id stays behind exactly when it is not spelled like it ("07" for 7).
   */
  lemma MisspelledRuleRemains<V>(rules: seq<CrossRule<V>>, id: nat, r: CrossRule<V>)
    requires r in rules && TargetOf(r) == Some(id)
    ensures r in RulesWithout(rules, id) <==> r.target != Dec(id)
  {
    RulesWithoutMention(rules, id);
  }
}
