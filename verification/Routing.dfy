/** When visibility and page routing come to rest together. */
module Routing {
  // They do at the only layout that all conditions and routes agree with.
  // That needs questions that look back; on some forms that may be published they never come to rest.

  import opened Conditions
  import opened Definition
  import opened Layout
  import opened Options
  import opened Settling

  function PageAt<V>(form: Form<V>, p: nat): nat
    requires p < |form|
  {
    PageOf(form, p + 1)
  }

  /** Routes only look at earlier pages. */
  ghost predicate RoutesLookBack<V>(form: Form<V>) {
    forall p: nat, q: nat :: LooksAt(form, p, q) && form[p].isBreak ==> PageAt(form, q) < PageAt(form, p)
  }

  /** Other conditions look at their own page or earlier ones. */
  ghost predicate QuestionsLookBack<V>(form: Form<V>) {
    forall p: nat, q: nat :: LooksAt(form, p, q) ==> PageAt(form, q) <= PageAt(form, p)
  }

  /** All conditions and routes agree with the layout. */
  ghost predicate Consistent<V>(form: Form<V>, sem: Semantics<V>, answers: map<int, V>, visible: set<nat>,
                                forced: map<nat, bool>, skipped: set<nat>) {
    && Agreeing(form, sem, answers, OnPages(form, skipped), Marks(visible, forced, false))
    && skipped == Skipped(form, sem, answers, visible, 0)
  }

  // ----- what happens up to a page depends only on what is skipped up to that page --------------------------------

  /** The same pages up to this one. */
  ghost predicate AlikeTo(a: set<nat>, b: set<nat>, page: nat) {
    forall x :: x <= page ==> (x in a <==> x in b)
  }

  /** The same positions on pages up to this one. */
  ghost predicate SeenAlikeTo<V>(form: Form<V>, v: set<nat>, w: set<nat>, page: nat) {
    forall p :: 0 <= p < |form| && PageAt(form, p) <= page ==> (p in v <==> p in w)
  }

  lemma VisibleTo<V>(form: Form<V>, sem: Semantics<V>, answers: map<int, V>, s: set<nat>, m: Marks, t: set<nat>,
                     n: Marks, page: nat)
    requires NoCircle(form) && QuestionsLookBack(form) && AlikeTo(s, t, page)
    requires Agreeing(form, sem, answers, OnPages(form, s), m) && Agreeing(form, sem, answers, OnPages(form, t), n)
    ensures SeenAlikeTo(form, m.visible, n.visible, page)
  {
    var part := set p | p in UpTo(|form|) && p < |form| && PageAt(form, p) <= page;
    InUpToExactly(|form|);
    AgreeingPart(form, sem, answers, part, OnPages(form, s), m, OnPages(form, t), n);
    forall p | 0 <= p < |form| && PageAt(form, p) <= page ensures p in m.visible <==> p in n.visible {
      assert p in part && StateOf(m, p) == StateOf(n, p);
    }
  }

  lemma {:induction false} BreakHeadsPage<V>(form: Form<V>, page: nat, n: nat)
    requires n <= |form| && BreakOf(form, page, n).Some?
    ensures var b := BreakOf(form, page, n).value; form[b].isBreak && PageAt(form, b) == page
  {
    if form[n - 1].isBreak && PageOf(form, n) == page {
    } else {
      BreakHeadsPage(form, page, n - 1);
    }
  }

  /** Only later pages of the form are skipped. */
  lemma {:induction false} SkippedAhead<V>(form: Form<V>, sem: Semantics<V>, answers: map<int, V>, visible: set<nat>,
                                           current: nat)
    ensures forall x :: x in Skipped(form, sem, answers, visible, current) ==> current < x <= PageOf(form, |form|)
    decreases PageOf(form, |form|) - current
  {
    var last := PageOf(form, |form|);
    if current >= last {
    } else {
      var following := current + 1;
      SkippedAhead(form, sem, answers, visible, following);
      InUpToExactly(last + 1);
      InUpToExactly(following);
      var b := BreakOf(form, following, |form|);
      if b.Some? {
        var target := TargetPage(form, b.value);
        if target.Some? && target.value > following {
          PageStartingInside(form, form[b.value].condition.payload.id, |form|);
          InUpToExactly(target.value);
          SkippedAhead(form, sem, answers, visible, target.value);
        }
      }
    }
  }

  lemma {:induction false} PagesGrow<V>(form: Form<V>, n: nat)
    requires n <= |form|
    ensures forall i :: 0 <= i <= n ==> PageOf(form, i) <= PageOf(form, n)
  {
    if n == 0 {
    } else {
      PagesGrow(form, n - 1);
    }
  }

  lemma {:induction false} PageStartingInside<V>(form: Form<V>, id: int, n: nat)
    requires n <= |form|
    ensures PageStarting(form, id, n).Some? ==> PageStarting(form, id, n).value <= PageOf(form, |form|)
  {
    if n == 0 {
    } else {
      PagesGrow(form, |form|);
      PageStartingInside(form, id, n - 1);
    }
  }

  /** Which pages are skipped, one page further, depends only on what shows up to this page. */
  lemma {:induction false} SkippedTo<V>(form: Form<V>, sem: Semantics<V>, answers: map<int, V>, v: set<nat>,
                                        w: set<nat>, page: nat, current: nat)
    requires RoutesLookBack(form) && SeenAlikeTo(form, v, w, page)
    ensures AlikeTo(Skipped(form, sem, answers, v, current), Skipped(form, sem, answers, w, current), page + 1)
    decreases PageOf(form, |form|) - current
  {
    SkippedAhead(form, sem, answers, v, current);
    SkippedAhead(form, sem, answers, w, current);
    if current >= PageOf(form, |form|) || current > page {
    } else {
      var following := current + 1;
      SkippedTo(form, sem, answers, v, w, page, following);
      var b := BreakOf(form, following, |form|);
      if b.Some? {
        BreakHeadsPage(form, following, |form|);
        forall q | LooksAt(form, b.value, q) ensures q in v <==> q in w {
          assert PageAt(form, q) < PageAt(form, b.value);
        }
        HoldsSame(form, sem, answers, v, w, b.value);
        var target := TargetPage(form, b.value);
        if target.Some? && target.value > following {
          SkippedTo(form, sem, answers, v, w, page, target.value);
        }
      }
    }
  }

  // ----- the rounds come to rest -------------------------------------------------------------------------------------

  /** Once two skips are alike up to a page, the rounds that start with them are routed alike one page further. */
  lemma OnePageFurther<V>(form: Form<V>, sem: Semantics<V>, answers: map<int, V>, s: set<nat>, t: set<nat>, page: nat)
    requires NoCircle(form) && QuestionsLookBack(form) && RoutesLookBack(form) && AlikeTo(s, t, page)
    ensures AlikeTo(RoutedFrom(form, sem, answers, s), RoutedFrom(form, sem, answers, t), page + 1)
  {
    PassesComeToRest(form, sem, answers, OnPages(form, s));
    PassesComeToRest(form, sem, answers, OnPages(form, t));
    var (m, n) := (RoundFrom(form, sem, answers, s), RoundFrom(form, sem, answers, t));
    VisibleTo(form, sem, answers, s, m, t, n, page);
    SkippedTo(form, sem, answers, m.visible, n.visible, page, 0);
  }

  lemma {:induction false} RoundsRest<V>(form: Form<V>, sem: Semantics<V>, answers: map<int, V>, skipped: set<nat>,
                                         page: nat, fuel: nat)
    requires NoCircle(form) && QuestionsLookBack(form) && RoutesLookBack(form)
    requires page + fuel == PageOf(form, |form|) + 1 && skipped <= UpTo(PageOf(form, |form|) + 1)
    requires AlikeTo(skipped, RoutedFrom(form, sem, answers, skipped), page)
    ensures var (m, s) := Rounds(form, sem, answers, skipped, fuel);
      m == RoundFrom(form, sem, answers, s) && s == RoutedFrom(form, sem, answers, s)
    decreases fuel
  {
    var routed := RoutedFrom(form, sem, answers, skipped);
    SkippedAhead(form, sem, answers, RoundFrom(form, sem, answers, skipped).visible, 0);
    InUpToExactly(PageOf(form, |form|) + 1);
    assert fuel == 0 ==> routed == skipped;
    if routed != skipped {
      OnePageFurther(form, sem, answers, skipped, routed, page);
      RoundsRest(form, sem, answers, routed, page + 1, fuel - 1);
    }
  }

  /** No two layouts agree with everything. */
  lemma {:induction false} ConsistentAlike<V>(form: Form<V>, sem: Semantics<V>, answers: map<int, V>,
                                              v: set<nat>, f: map<nat, bool>, s: set<nat>,
                                              w: set<nat>, g: map<nat, bool>, t: set<nat>, page: nat)
    requires NoCircle(form) && QuestionsLookBack(form) && RoutesLookBack(form)
    requires Consistent(form, sem, answers, v, f, s) && Consistent(form, sem, answers, w, g, t)
    ensures AlikeTo(s, t, page)
  {
    if page == 0 {
      SkippedAhead(form, sem, answers, v, 0);
      SkippedAhead(form, sem, answers, w, 0);
    } else {
      ConsistentAlike(form, sem, answers, v, f, s, w, g, t, page - 1);
      VisibleTo(form, sem, answers, s, Marks(v, f, false), t, Marks(w, g, false), page - 1);
      SkippedTo(form, sem, answers, v, w, page - 1, 0);
    }
  }

  lemma ConsistentUnique<V>(form: Form<V>, sem: Semantics<V>, answers: map<int, V>,
                            v: set<nat>, f: map<nat, bool>, s: set<nat>,
                            w: set<nat>, g: map<nat, bool>, t: set<nat>)
    requires NoCircle(form) && QuestionsLookBack(form) && RoutesLookBack(form)
    requires Consistent(form, sem, answers, v, f, s) && Consistent(form, sem, answers, w, g, t)
    ensures v == w && f == g && s == t
  {
    var last := PageOf(form, |form|);
    ConsistentAlike(form, sem, answers, v, f, s, w, g, t, last);
    SkippedAhead(form, sem, answers, v, 0);
    SkippedAhead(form, sem, answers, w, 0);
    assert s == t;
    AgreeingUnique(form, sem, answers, OnPages(form, s), Marks(v, f, false), Marks(w, g, false));
  }

  /**
   The main result: on a form without circular conditions, whose routes look at earlier pages and whose other conditions
   look at no later page, the layout computed agrees with every condition and every route, and no other one does.
   */
  lemma LayoutComesToRest<V>(form: Form<V>, sem: Semantics<V>, answers: map<int, V>, visible: set<nat>,
                             forced: map<nat, bool>, skipped: set<nat>)
    requires NoCircle(form) && QuestionsLookBack(form) && RoutesLookBack(form)
    ensures var l := Compute(form, sem, answers);
      Consistent(form, sem, answers, visible, forced, skipped)
      <==> visible == l.visible && forced == l.forced && skipped == l.skipped
  {
    var last := PageOf(form, |form|);
    SkippedAhead(form, sem, answers, RoundFrom(form, sem, answers, {}).visible, 0);
    RoundsRest(form, sem, answers, {}, 0, last + 1);
    var (m, s) := Rounds(form, sem, answers, {}, last + 1);
    PassesComeToRest(form, sem, answers, OnPages(form, s));
    assert forall p: nat :: StateOf(Marks(m.visible, m.forced, false), p) == StateOf(m, p);
    assert Consistent(form, sem, answers, m.visible, m.forced, s);
    if Consistent(form, sem, answers, visible, forced, skipped) {
      ConsistentUnique(form, sem, answers, visible, forced, skipped, m.visible, m.forced, s);
    }
  }

  // ----- and those that do not ---------------------------------------------------------------------------------------

  /** A form whose conditions only look at positions of a lower rank has no circle. */
  lemma RankedNoCircle<V>(form: Form<V>, rank: nat -> nat)
    requires forall p: nat, q: nat :: LooksAt(form, p, q) ==> rank(q) < rank(p)
    ensures NoCircle(form)
  {
    forall path: seq<nat> | |path| >= 2 && Chain(form, path) ensures path[0] != path[|path| - 1] {
      RanksFall(form, rank, path);
    }
  }

  lemma {:induction false} RanksFall<V>(form: Form<V>, rank: nat -> nat, path: seq<nat>)
    requires forall p: nat, q: nat :: LooksAt(form, p, q) ==> rank(q) < rank(p)
    requires |path| >= 2 && Chain(form, path)
    ensures rank(path[|path| - 1]) < rank(path[0])
  {
    assert LooksAt(form, path[0], path[1]);
    if |path| == 2 {
    } else {
      var rest := path[1..];
      assert Chain(form, rest) by { assert forall i :: 0 <= i < |rest| ==> rest[i] == path[i + 1]; }
      RanksFall(form, rank, rest);
    }
  }

  /** "The answer to question x is v." */
  function AnswerIs<V>(x: int, v: V): Node<V> {
    Group("AND", [Leaf(Test(Some(x), "equals", v, None))])
  }

  function Plain<V>(id: int, isBreak: bool, condition: Condition<V>, rest: V): Question<V> {
    Question(Some(id), id, isBreak, "", "", condition, None, None, rest)
  }

  /**
   Question 1 shows when question 3, two breaks further, is answered; break 2 skips the page of question 3 when
   question 1 is answered.
   */
  function Seesaw<V>(v: V): Form<V> {
    [Plain(1, false, When(AnswerIs(3, v), "show", Nothing), v),
     Plain(2, true, When(AnswerIs(1, v), SKIP, Target(4)), v),
     Plain(3, false, Always, v),
     Plain(4, true, Always, v)]
  }

  /** Blank questions make no test true, and v equals itself. */
  predicate Sensible<V>(sem: Semantics<V>, v: V) {
    sem.blank(None) && !sem.blank(Some(v)) && sem.operate("equals", Some(v), Some(v))
  }

  lemma AnswerIsTests<V>(x: int, v: V)
    ensures Tests(AnswerIs(x, v)) == [Test(Some(x), "equals", v, None)]
  {
    var leaf := Leaf(Test(Some(x), "equals", v, None));
    assert [leaf][1..] == [] && TestsAll([leaf]) == Tests(leaf) + TestsAll([leaf][1..]);
  }

  lemma AnswerIsEval<V>(sem: Semantics<V>, v: V, x: int, seen: map<int, V>)
    requires Sensible(sem, v) && (x in seen ==> seen[x] == v)
    ensures Eval(AnswerIs(x, v), Judge(sem, seen)) == Some(x in seen)
  {
    var judge := Judge(sem, seen);
    var leaf := Leaf(Test(Some(x), "equals", v, None));
    assert [leaf][1..] == [] && EvalAll([leaf], judge) == [x in seen];
  }

  lemma SeesawLooks<V>(v: V)
    ensures forall p: nat, q: nat :: LooksAt(Seesaw(v), p, q) ==> (p == 0 && q == 2) || (p == 1 && q == 0)
    ensures PageAt(Seesaw(v), 0) == 0 && PageAt(Seesaw(v), 1) == 1 && PageAt(Seesaw(v), 2) == 1
        && PageAt(Seesaw(v), 3) == 2 && PageOf(Seesaw(v), 0) == 0
  {
    var form := Seesaw(v);
    AnswerIsTests(1, v);
    AnswerIsTests(3, v);
    assert !form[0].isBreak && form[1].isBreak && !form[2].isBreak && form[3].isBreak;
    assert PageOf(form, 0) == 0;
    assert PageOf(form, 1) == 0;
    assert PageOf(form, 2) == 1;
    assert PageOf(form, 3) == 1;
    assert PageOf(form, 4) == 2;
    forall p: nat, q: nat | LooksAt(form, p, q) ensures (p == 0 && q == 2) || (p == 1 && q == 0) {
    }
  }

  /** With both questions answered, a page is skipped exactly when question 1 shows. */
  lemma SeesawSkips<V>(sem: Semantics<V>, v: V, visible: set<nat>)
    requires Sensible(sem, v)
    ensures Skipped(Seesaw(v), sem, map[1 := v, 3 := v], visible, 0) == if 0 in visible then {1} else {}
    ensures Holds(Seesaw(v), sem, map[1 := v, 3 := v], visible, 0) <==> 2 in visible
  {
    var (form, answers) := (Seesaw(v), map[1 := v, 3 := v]);
    SeesawLooks(v);
    var seen := Seen(form, answers, visible);
    assert (1 in seen <==> 0 in visible) && (3 in seen <==> 2 in visible) by {
      assert form[0].id == Some(1) && form[2].id == Some(3);
    }
    AnswerIsEval(sem, v, 1, seen);
    AnswerIsEval(sem, v, 3, seen);
    assert BreakOf(form, 2, 4) == Some(3);
    assert BreakOf(form, 1, 2) == Some(1);
    assert BreakOf(form, 1, 3) == Some(1);
    assert BreakOf(form, 1, 4) == Some(1);
    assert PageStarting(form, 4, 4) == Some(2);
    assert Skipped(form, sem, answers, visible, 2) == {};
    assert !RoutesNow(form, sem, answers, visible, 3);
    assert Skipped(form, sem, answers, visible, 1) == {};
    assert RoutesNow(form, sem, answers, visible, 1) <==> 0 in visible;
    assert Between(1, 2) == {1};
  }

  /** Question 3 shows unless its page is skipped, and question 1 when question 3 does. */
  lemma SeesawShows<V>(sem: Semantics<V>, v: V, visible: set<nat>, forced: map<nat, bool>, skipped: set<nat>)
    requires Sensible(sem, v)
    requires Agreeing(Seesaw(v), sem, map[1 := v, 3 := v], OnPages(Seesaw(v), skipped), Marks(visible, forced, false))
    ensures 2 in visible <==> 1 !in skipped
    ensures 0 in visible <==> 2 in visible && 0 !in skipped
  {
    var (form, m) := (Seesaw(v), Marks(visible, forced, false));
    SeesawLooks(v);
    SeesawSkips(sem, v, visible);
    InUpToExactly(4);
    assert 2 in OnPages(form, skipped) <==> 1 in skipped;
    assert 0 in OnPages(form, skipped) <==> 0 in skipped;
    assert StateOf(m, 0).visible == (0 in visible) && StateOf(m, 2).visible == (2 in visible);
  }

  /**
   The check before publishing refuses circular conditions and routes that look at later pages, and nothing else of this
   kind. This form passes it, yet no layout at all agrees with its conditions and routes, so the rounds never come to
   rest.
   */
  lemma RoutesNeverRest<V>(sem: Semantics<V>, v: V, visible: set<nat>, forced: map<nat, bool>, skipped: set<nat>)
    requires Sensible(sem, v)
    ensures NoCircle(Seesaw(v)) && RoutesLookBack(Seesaw(v))
    ensures !Consistent(Seesaw(v), sem, map[1 := v, 3 := v], visible, forced, skipped)
  {
    var (form, answers) := (Seesaw(v), map[1 := v, 3 := v]);
    SeesawLooks(v);
    RankedNoCircle(form, (p: nat) => if p == 1 then 2 else if p == 0 then 1 else 0);
    SeesawSkips(sem, v, visible);
    if Agreeing(form, sem, answers, OnPages(form, skipped), Marks(visible, forced, false)) {
      SeesawShows(sem, v, visible, forced, skipped);
    }
  }

  // ----- a form with two tests ---------------------------------------------------------------------------------------

  /** Question 3 shows when both, or either, of questions 1 and 2 are answered with v. */
  function TwoTests<V>(logic: string, v: V): Form<V> {
    var tests := [Leaf(Test(Some(1), "equals", v, None)), Leaf(Test(Some(2), "equals", v, None))];
    [Plain(1, false, Always, v), Plain(2, false, Always, v),
     Plain(3, false, When(Group(logic, tests), "show", Nothing), v)]
  }

  /** The answers to these of the two questions. */
  function Given<V>(one: bool, two: bool, v: V): map<int, V> {
    (if one then map[1 := v] else map[]) + (if two then map[2 := v] else map[])
  }

  lemma TwoTestsLook<V>(logic: string, v: V)
    ensures var form := TwoTests(logic, v);
      NoCircle(form) && QuestionsLookBack(form) && RoutesLookBack(form) && PageOf(form, 3) == 0
  {
    var form := TwoTests(logic, v);
    assert PageOf(form, 0) == 0;
    assert PageOf(form, 1) == 0;
    assert PageOf(form, 2) == 0;
    assert PageOf(form, 3) == 0;
    var tests := form[2].condition.root.rules;
    assert tests[1..][1..] == [] && TestsAll(tests[1..]) == Tests(tests[1]) && TestsAll(tests) == Tests(tests[0])
        + TestsAll(tests[1..]);
    forall p: nat, q: nat | LooksAt(form, p, q) ensures p == 2 && q < 2 {}
    RankedNoCircle(form, (p: nat) => p);
  }

  lemma TwoTestsHold<V>(sem: Semantics<V>, logic: string, one: bool, two: bool, v: V, visible: set<nat>)
    requires Sensible(sem, v) && 0 in visible && 1 in visible
    ensures Holds(TwoTests(logic, v), sem, Given(one, two, v), visible, 2)
            <==> if logic == "OR" then one || two else one && two
  {
    var form := TwoTests(logic, v);
    var seen := Seen(form, Given(one, two, v), visible);
    assert form[0].id == Some(1) && form[1].id == Some(2);
    assert (1 in seen <==> one) && (2 in seen <==> two);
    var (root, judge) := (form[2].condition.root, Judge(sem, seen));
    assert judge(root.rules[0].test) == Some(one) && judge(root.rules[1].test) == Some(two);
    forall b: bool, i | 0 <= i < 2 ensures Yields(root.rules[i], judge, b) <==> b == if i == 0 then one else two {}
    SatisfiedMeans(form[2].condition, sem, seen);
  }

  /** With AND the third question shows exactly when both tests come out true, with OR when either does. */
  lemma BothOrEither<V>(sem: Semantics<V>, logic: string, one: bool, two: bool, v: V)
    requires Sensible(sem, v)
    ensures var l := Compute(TwoTests(logic, v), sem, Given(one, two, v));
      && 0 in l.visible && 1 in l.visible && l.skipped == {} && l.forced == map[]
      && (2 in l.visible <==> if logic == "OR" then one || two else one && two)
  {
    var (form, answers) := (TwoTests(logic, v), Given(one, two, v));
    var visible: set<nat> := if (if logic == "OR" then one || two else one && two) then {0, 1, 2} else {0, 1};
    TwoTestsLook(logic, v);
    TwoTestsHold(sem, logic, one, two, v, visible);
    ThirdShows(form, sem, answers, visible);
  }

  /** A form of one page where only the third question has a condition, to show it. */
  lemma ThirdShows<V>(form: Form<V>, sem: Semantics<V>, answers: map<int, V>, visible: set<nat>)
    requires NoCircle(form) && QuestionsLookBack(form) && RoutesLookBack(form) && |form| == 3 && PageOf(form, 3) == 0
    requires form[0].condition.Always? && form[1].condition.Always?
    requires form[2].condition.When? && form[2].condition.action == "show"
    requires forall p: nat :: p in visible <==> p < 2 || (p == 2 && Holds(form, sem, answers, visible, 2))
    ensures var l := Compute(form, sem, answers); l.visible == visible && l.skipped == {} && l.forced == map[]
  {
    OnePage(form, sem, answers, visible);
    ThirdAgrees(form, sem, answers, visible);
    LayoutComesToRest(form, sem, answers, visible, map[], {});
  }

  lemma OnePage<V>(form: Form<V>, sem: Semantics<V>, answers: map<int, V>, visible: set<nat>)
    requires PageOf(form, |form|) == 0
    ensures OnPages(form, {}) == {} && Skipped(form, sem, answers, visible, 0) == {}
  {
  }

  lemma ThirdAgrees<V>(form: Form<V>, sem: Semantics<V>, answers: map<int, V>, visible: set<nat>)
    requires |form| == 3 && form[0].condition.Always? && form[1].condition.Always?
    requires form[2].condition.When? && form[2].condition.action == "show"
    requires forall p: nat :: p in visible <==> p < 2 || (p == 2 && Holds(form, sem, answers, visible, 2))
    ensures Agreeing(form, sem, answers, {}, Marks(visible, map[], false))
  {
    forall p: nat
      ensures StateOf(Marks(visible, map[], false), p) == Wanted(form, sem, answers, {}, visible, p) {
    }
  }
}
