/** The one difference between a form and its copy: conditions none of whose tests has a question to look at. */
module DroppedConditions {
  import opened Conditions
  import opened Definition
  import opened FormCopy
  import opened Layout
  import opened Options

  lemma UnevaluableIsNone<V>(c: Condition<V>, sem: Semantics<V>, answers: map<int, V>)
    requires c.When? && !Evaluable(c)
    ensures Eval(c.root, Judge(sem, answers)) == None
  {
    var g := (t: Test<V>) => None;
    var judge := Judge(sem, answers);
    forall t | t in Tests(c.root) ensures SameVerdict(t, g, judge, judge) {}
    WalkKeepsMeaning(c.root, g, judge, judge);
    WalkTests(c.root, g);
    KeptSome(Tests(c.root), g);
    if Walk(c.root, g).Some? { NoTestsNoNode(Walk(c.root, g).value); }
  }

  /** Whatever is visible, the condition at position `i` holds. */
  ghost predicate AlwaysHolds<V>(form: Form<V>, sem: Semantics<V>, answers: map<int, V>, i: nat)
    requires i < |form|
  {
    forall visible :: Holds(form, sem, answers, visible, i)
  }

  lemma UnevaluableHolds<V>(form: Form<V>, sem: Semantics<V>, answers: map<int, V>, i: nat)
    requires i < |form| && !Evaluable(form[i].condition)
    ensures AlwaysHolds(form, sem, answers, i)
  {
    forall visible ensures Holds(form, sem, answers, visible, i) {
      if form[i].condition.When? { UnevaluableIsNone(form[i].condition, sem, Seen(form, answers, visible)); }
    }
  }

  // ----- what such a condition does to its question --------------------------------------------------------------

  predicate Hides<V>(c: Condition<V>) {
    c.When? && c.action == "hide"
  }

  /** What a condition that always holds forces. */
  function Forces<V>(c: Condition<V>): Option<bool> {
    if c.When? && c.action == "require" then Some(true)
    else if c.When? && c.action == "optional" then Some(false)
    else None
  }

  /** The marks that position `i` can have on the way ... */
  predicate OnTheWay<V>(c: Condition<V>, m: Marks, i: nat) {
    && (Hides(c) || i in m.visible)
    && (Get(m.forced, i) == None || Get(m.forced, i) == Forces(c))
  }

  /** ... and those it ends with. */
  predicate Arrived<V>(c: Condition<V>, m: Marks, i: nat) {
    (i in m.visible <==> !Hides(c)) && Get(m.forced, i) == Forces(c)
  }

  lemma {:induction false} PassArrives<V>(form: Form<V>, sem: Semantics<V>, answers: map<int, V>, hidden: set<nat>,
          seen: set<nat>, m: Marks, i: nat, n: nat)
    requires i < |form| && n <= |form| && i !in hidden && AlwaysHolds(form, sem, answers, i)
    requires OnTheWay(form[i].condition, m, i)
    ensures OnTheWay(form[i].condition, Pass(form, sem, answers, hidden, seen, m, n), i)
    ensures n > i ==> Arrived(form[i].condition, Pass(form, sem, answers, hidden, seen, m, n), i)
  {
    if n == 0 {
    } else {
      PassArrives(form, sem, answers, hidden, seen, m, i, n - 1);
    }
  }

  lemma {:induction false} SettlingArrives<V>(form: Form<V>, sem: Semantics<V>, answers: map<int, V>, hidden: set<nat>,
                                              m: Marks, i: nat, fuel: nat)
    requires i < |form| && i !in hidden && AlwaysHolds(form, sem, answers, i) && OnTheWay(form[i].condition, m, i)
        && fuel > 0
    ensures Arrived(form[i].condition, Settle(form, sem, answers, hidden, m, fuel), i)
    decreases fuel
  {
    var next := Pass(form, sem, answers, hidden, m.visible, m.(changed := false), |form|);
    PassArrives(form, sem, answers, hidden, m.visible, m.(changed := false), i, |form|);
    if !next.changed || fuel == 1 {
    } else {
      SettlingArrives(form, sem, answers, hidden, next, i, fuel - 1);
    }
  }

  /** The pages skipped while the last round settled. */
  function LastSkipped<V>(form: Form<V>, sem: Semantics<V>, answers: map<int, V>, skipped: set<nat>,
          fuel: nat): set<nat>
    decreases fuel
  {
    var routed := RoutedFrom(form, sem, answers, skipped);
    if routed == skipped || fuel == 0 then skipped else LastSkipped(form, sem, answers, routed, fuel - 1)
  }

  lemma {:induction false} RoundsArrive<V>(form: Form<V>, sem: Semantics<V>, answers: map<int, V>, skipped: set<nat>,
          fuel: nat, i: nat)
    requires i < |form| && AlwaysHolds(form, sem, answers, i)
    requires PageOf(form, i + 1) !in LastSkipped(form, sem, answers, skipped, fuel)
    ensures Arrived(form[i].condition, Rounds(form, sem, answers, skipped, fuel).0, i)
    decreases fuel
  {
    var (hidden, routed) := (OnPages(form, skipped), RoutedFrom(form, sem, answers, skipped));
    if routed == skipped || fuel == 0 {
      InUpTo(|form|);
      SettlingArrives(form, sem, answers, hidden, Start(form, hidden), i, |form| + 1);
    } else {
      RoundsArrive(form, sem, answers, routed, fuel - 1, i);
    }
  }

  /** The question's page is not skipped. */
  predicate OnShownPage<V>(form: Form<V>, sem: Semantics<V>, answers: map<int, V>, i: nat)
    requires i < |form|
  {
    PageOf(form, i + 1) !in LastSkipped(form, sem, answers, {}, PageOf(form, |form|) + 1)
  }

  /** What the layout says of a question on a shown page whose condition always holds. */
  lemma LayoutAt<V>(form: Form<V>, sem: Semantics<V>, answers: map<int, V>, i: nat)
    requires i < |form| && AlwaysHolds(form, sem, answers, i) && OnShownPage(form, sem, answers, i)
    ensures var (c, l) := (form[i].condition, Compute(form, sem, answers));
      && (i in l.visible <==> !Hides(c)) && Get(l.forced, i) == Forces(c)
      && (i in l.fires <==> c.When? && ValueAction(c.action) && c.payload != Nothing)
  {
    RoundsArrive(form, sem, answers, {}, PageOf(form, |form|) + 1, i);
    var m := Rounds(form, sem, answers, {}, PageOf(form, |form|) + 1).0;
    assert Holds(form, sem, answers, m.visible, i);
  }

  // ----- the copy drops it -----------------------------------------------------------------------------------------

  lemma UnevaluableDropped<V>(src: Form<V>, ids: seq<nat>, i: nat)
    requires |src| == |ids| && i < |src| && !Evaluable(src[i].condition)
    ensures Copy(src, ids)[i].condition == Always
  {
    CopiedCondition(src, ids, i);
    if src[i].condition.When? { RemapSurvives(src[i].condition.root, IdMap(src, ids, |src|)); }
  }

  /**
   A condition none of whose tests has a question always holds, so the source hides, requires or fills in its question
   for good; the copy drops the condition. On a page that is shown, with everything else sound, the two forms look the
   same exactly when the action has no such effect.
   */
  lemma DroppedConditionMatters<V>(src: Form<V>, ids: seq<nat>, sem: Semantics<V>, answers: map<int, V>, after: map<int,
          V>, i: nat)
    requires |src| == |ids| && Increasing(ids) && Identified(src) && i < |src|
    requires src[i].condition.When? && !Evaluable(src[i].condition)
    requires forall j :: 0 <= j < |src| && j != i ==> SoundAt(src, IdMap(src, ids, |src|), j)
    requires SameAnswers(IdMap(src, ids, |src|), answers, after)
    requires OnShownPage(src, sem, answers, i) && OnShownPage(Copy(src, ids), sem, after, i)
    ensures Copy(src, ids)[i].condition == Always
    ensures Compute(Copy(src, ids), sem, after) == Compute(src, sem, answers) <==> Harmless(src[i].condition)
  {
    UnevaluableDropped(src, ids, i);
    if Harmless(src[i].condition) {
      CopyLooksTheSame(src, ids, sem, answers, after);
    } else {
      UnevaluableHolds(src, sem, answers, i);
      UnevaluableHolds(Copy(src, ids), sem, after, i);
      LayoutAt(src, sem, answers, i);
      LayoutAt(Copy(src, ids), sem, after, i);
    }
  }

  // ----- a smallest form ---------------------------------------------------------------------------------------------

  /** One question, hidden when a test about no question holds. */
  function Unfinished<V>(v: V): Form<V> {
    var test := Test(None, "equals", v, None);
    [Question(Some(1), 1, false, "", "", When(Group("AND", [Leaf(test)]), "hide", Nothing), None, None, v)]
  }

  lemma UnfinishedNotEvaluable<V>(v: V)
    ensures var c := Unfinished(v)[0].condition; c.When? && !Evaluable(c)
  {
    var leaf := Leaf(Test(None, "equals", v, None));
    assert [leaf][1..] == [] && TestsAll([leaf]) == Tests(leaf) + TestsAll([leaf][1..]);
  }

  lemma OnePageShown<V>(form: Form<V>, sem: Semantics<V>, answers: map<int, V>)
    requires |form| == 1 && !form[0].isBreak
    ensures OnShownPage(form, sem, answers, 0)
  {
    assert PageOf(form, 1) == 0;
    assert forall visible :: Skipped(form, sem, answers, visible, 0) == {};
  }

  /** Answered alike, nobody ever sees the question, and everybody sees its copy. */
  lemma HiddenForGood<V>(v: V, id: nat, sem: Semantics<V>, answers: map<int, V>, after: map<int, V>)
    requires Get(after, id) == Get(answers, 1)
    ensures Compute(Copy(Unfinished(v), [id]), sem, after) != Compute(Unfinished(v), sem, answers)
    ensures 0 !in Compute(Unfinished(v), sem, answers).visible
    ensures 0 in Compute(Copy(Unfinished(v), [id]), sem, after).visible
  {
    var (src, ids) := (Unfinished(v), [id]);
    UnfinishedNotEvaluable(v);
    OnePageShown(src, sem, answers);
    OnePageShown(Copy(src, ids), sem, after);
    assert IdMap(src, ids, 0) == map[] && IdMap(src, ids, 1) == map[1 := id];
    DroppedConditionMatters(src, ids, sem, answers, after, 0);
    UnevaluableHolds(src, sem, answers, 0);
    UnevaluableHolds(Copy(src, ids), sem, after, 0);
    LayoutAt(src, sem, answers, 0);
    LayoutAt(Copy(src, ids), sem, after, 0);
  }
}
