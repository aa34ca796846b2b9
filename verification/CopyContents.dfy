/**
 What a renamed question holds, part by part: its tests and rules in order under their new numbers, its texts with their
 references renamed, and everything else as it was.
 */
module CopyContents {
  import opened Conditions
  import opened Decimal
  import opened Definition
  import opened Lists
  import opened Options
  import opened ReferenceText

  /** The text with its references to questions that have a new number renamed, the others as they are. */
  ghost predicate TextRenamed(style: Style, before: string, after: string, m: map<int, nat>) {
    after == Rewrite(style, before, n => if n in m then m[n] else n)
  }

  /** The test looks at the new questions; it is dropped when one it looks at has no new number. */
  function NewTest<V>(m: map<int, nat>): Test<V> -> Option<Test<V>> {
    (t: Test<V>) =>
      if t.field.None? || t.field.value !in m || (t.other.Some? && t.other.value !in m) then None
      else Some(Test(Some(m[t.field.value]), t.op, t.value, if t.other.Some? then Some(m[t.other.value]) else None))
  }

  /** The tests that can be renamed, in order. */
  ghost predicate TestsRenamed<V>(before: seq<Test<V>>, after: seq<Test<V>>, m: map<int, nat>) {
    Selected(before, after, NewTest(m))
  }

  /** The condition is gone when no test is left or its page did not come along; otherwise its parts are renamed. */
  ghost predicate ConditionRenamed<V>(c: Condition<V>, d: Condition<V>, m: map<int, nat>) {
    if c.Always? then d.Always?
    else if c.action == "skip_to_section" && !(c.payload.Target? && c.payload.id in m) then d.Always?
    else
      && TestsRenamed(Tests(c.root), if d.When? then Tests(d.root) else [], m)
      && (d.When? ==>
            && NoEmptyGroup(d.root) && d.action == c.action
            && if c.action == "skip_to_section" then d.payload == Target(m[c.payload.id])
               else if c.action == "display_message" && c.payload.Message?
               then d.payload.Message? && TextRenamed(Pipe, c.payload.text, d.payload.text, m)
               else d.payload == c.payload)
  }

  /** A rule is kept under the new number of the question it reads as, and dropped without one. */
  function NewRule<V>(m: map<int, nat>): CrossRule<V> -> Option<CrossRule<V>> {
    (r: CrossRule<V>) =>
      if r.Rule? && AsInt(r.target).Some? && AsInt(r.target).value in m
      then Some(Rule(Dec(m[AsInt(r.target).value]), r.rest)) else None
  }

  ghost predicate RulesRenamed<V>(before: seq<CrossRule<V>>, after: seq<CrossRule<V>>, m: map<int, nat>) {
    Selected(before, after, NewRule(m))
  }

  ghost predicate QuestionRenamed<V>(q: Question<V>, r: Question<V>, m: map<int, nat>) {
    && r.id == q.id && r.order == q.order && r.isBreak == q.isBreak && r.rest == q.rest
    && ConditionRenamed(q.condition, r.condition, m)
    && (if q.cross.Some? then RulesRenamed(q.cross.value, r.cross.GetOr([]), m) else r.cross.None?)
    && r.cross != Some([])
    && (if q.formula.Some? then r.formula.Some? && TextRenamed(Formula, q.formula.value, r.formula.value, m)
        else r.formula.None?)
    && TextRenamed(Pipe, q.caption, r.caption, m) && TextRenamed(Pipe, q.description, r.description, m)
  }

  lemma TextMeans(style: Style, text: string, m: map<int, nat>)
    ensures TextRenamed(style, text, Rewrite(style, text, Self(m)), m)
  {
    RewriteDependsOnRefs(style, text, Self(m), n => if n in m then m[n] else n);
  }

  lemma TestsMean<V>(n: Node<V>, m: map<int, nat>)
    ensures TestsRenamed(Tests(n), OptTests(Remap(n, m)), m)
  {
    var g := (t: Test<V>) => RemapTest(t, m);
    WalkTests(n, g);
    SelectedAlike(Tests(n), OptTests(Remap(n, m)), g, NewTest(m));
  }

  lemma ConditionMeans<V>(c: Condition<V>, m: map<int, nat>)
    ensures ConditionRenamed(c, RemapCondition(c, m), m)
  {
    if c.When? {
      TestsMean(c.root, m);
      var g := (t: Test<V>) => RemapTest(t, m);
      WalkTests(c.root, g);
      if c.payload.Message? { TextMeans(Pipe, c.payload.text, m); }
    }
  }

  lemma {:induction false} RulesMean<V>(rules: seq<CrossRule<V>>, m: map<int, nat>)
    ensures RulesRenamed(rules, RemapCross(rules, m), m)
  {
    if rules == [] {
    } else {
      RulesMean(rules[1..], m);
      SelectedCons(rules[0], rules[1..], RemapCross(rules[1..], m), NewRule(m));
      assert [rules[0]] + rules[1..] == rules;
    }
  }

  /** A question is renamed part by part, and nothing else about it changes. */
  lemma RenamingMeans<V>(q: Question<V>, m: map<int, nat>)
    ensures QuestionRenamed(q, RemapQuestion(q, m), m)
  {
    ConditionMeans(q.condition, m);
    if q.cross.Some? { RulesMean(q.cross.value, m); }
    if q.formula.Some? { TextMeans(Formula, q.formula.value, m); }
    TextMeans(Pipe, q.caption, m);
    TextMeans(Pipe, q.description, m);
  }
}
