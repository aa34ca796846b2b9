/** When the passes over a form's conditions come to rest. */
module Settling {
  // They do at the only visibility that all conditions agree with.
  // On a form without circular conditions they always do, within the number of passes allowed.

  import opened Conditions
  import opened Definition
  import opened Layout
  import opened Lists
  import opened Options

  // ----- which conditions look at which questions --------------------------------------------------------------

  /** A test that can be evaluated looks at this question. */
  predicate Watches<V>(t: Test<V>, x: int) {
    t.field.Some? && TestMentions(t, x)
  }

  /** The condition at `p` looks at the question at `q`. */
  ghost predicate LooksAt<V>(form: Form<V>, p: nat, q: nat) {
    && p < |form| && q < |form| && form[p].condition.When? && form[q].id.Some?
    && exists t :: t in Tests(form[p].condition.root) && Watches(t, form[q].id.value)
  }

  /** Each position's condition looks at the next position. */
  ghost predicate Chain<V>(form: Form<V>, path: seq<nat>) {
    forall i :: 0 <= i < |path| - 1 ==> LooksAt(form, path[i], path[i + 1])
  }

  /** No condition looks at its own question, directly or through others. */
  ghost predicate NoCircle<V>(form: Form<V>) {
    forall path :: |path| >= 2 && Chain(form, path) ==> path[0] != path[|path| - 1]
  }

  /** Chains of conditions from here have at most `k` positions. */
  ghost predicate Grounded<V>(form: Form<V>, p: nat, k: nat)
    decreases k
  {
    k > 0 && forall q :: LooksAt(form, p, q) ==> Grounded(form, q, k - 1)
  }

  /** A position that is not grounded starts a longer chain. */
  lemma {:induction false} ChainFrom<V>(form: Form<V>, p: nat, k: nat) returns (path: seq<nat>)
    requires p < |form| && !Grounded(form, p, k)
    ensures |path| == k + 1 && path[0] == p && Chain(form, path) && forall i :: 0 <= i < |path| ==> path[i] < |form|
    decreases k
  {
    if k == 0 {
      path := [p];
    } else {
      var q :| LooksAt(form, p, q) && !Grounded(form, q, k - 1);
      var rest := ChainFrom(form, q, k - 1);
      path := [p] + rest;
      assert forall i :: 0 < i < |path| ==> path[i] == rest[i - 1];
    }
  }

  lemma {:induction false} NumbersRepeat(path: seq<nat>, n: nat)
    requires |path| > n > 0 && forall i :: 0 <= i < |path| ==> path[i] < n
    ensures exists i, j :: 0 <= i < j < |path| && path[i] == path[j]
  {
    if n == 1 {
      assert path[0] == path[1];
    } else if j :| 0 <= j < |path| && path[j] == n - 1 {
      if i :| 0 <= i < |path| && i != j && path[i] == n - 1 {
        assert path[if i < j then i else j] == path[if i < j then j else i];
      } else {
        var rest := path[..j] + path[j + 1..];
        assert forall i :: 0 <= i < |rest| ==> rest[i] == path[if i < j then i else i + 1];
        NumbersRepeat(rest, n - 1);
        var a, b :| 0 <= a < b < |rest| && rest[a] == rest[b];
        assert path[if a < j then a else a + 1] == path[if b < j then b else b + 1];
      }
    } else {
      NumbersRepeat(path, n - 1);
    }
  }

  lemma LongChainsClose<V>(form: Form<V>, path: seq<nat>)
    requires Chain(form, path) && |path| > |form| > 0 && forall i :: 0 <= i < |path| ==> path[i] < |form|
    ensures !NoCircle(form)
  {
    NumbersRepeat(path, |form|);
    var i, j :| 0 <= i < j < |path| && path[i] == path[j];
    var circle := path[i..j + 1];
    assert forall k :: 0 <= k < |circle| ==> circle[k] == path[i + k];
    assert Chain(form, circle);
  }

  /** All chains of conditions have at most `k` positions. */
  ghost predicate AcyclicTo<V>(form: Form<V>, k: nat) {
    forall p :: 0 <= p < |form| ==> Grounded(form, p, k)
  }

  /** Without a circle no chain is longer than the form. */
  lemma AllGrounded<V>(form: Form<V>)
    requires NoCircle(form)
    ensures AcyclicTo(form, |form|)
  {
    forall p | 0 <= p < |form| ensures Grounded(form, p, |form|) {
      if !Grounded(form, p, |form|) {
        var path := ChainFrom(form, p, |form|);
        LongChainsClose(form, path);
      }
    }
  }

  // ----- what one pass does to one position ----------------------------------------------------------------------

  /** Whether a question is visible and what it is forced to be. */
  datatype State = State(visible: bool, forced: Option<bool>)

  function StateOf(m: Marks, p: nat): State {
    State(p in m.visible, Get(m.forced, p))
  }

  /** The state a condition asks for, given whether it holds; an action of another kind asks for nothing. */
  function Asked<V>(c: Condition<V>, holds: bool, was: State): State {
    if c.Always? then was
    else if c.action == "show" then was.(visible := holds)
    else if c.action == "hide" then was.(visible := !holds)
    else if c.action == "require" then was.(forced := if holds then Some(true) else None)
    else if c.action == "optional" then was.(forced := if holds then Some(false) else None)
    else was
  }

  function AskedAt<V>(form: Form<V>, sem: Semantics<V>, answers: map<int, V>, hidden: set<nat>, seen: set<nat>, p: nat,
                      was: State): State
    requires p < |form|
  {
    if p in hidden then was else Asked(form[p].condition, Holds(form, sem, answers, seen, p), was)
  }

  /** Marking one position changes its state to what is asked, and tells whether it did. */
  lemma MarkedState<V>(form: Form<V>, sem: Semantics<V>, answers: map<int, V>, hidden: set<nat>, seen: set<nat>,
                       m: Marks, i: nat)
    requires i < |form|
    ensures var n := Marked(form, sem, answers, hidden, seen, m, i);
      && StateOf(n, i) == AskedAt(form, sem, answers, hidden, seen, i, StateOf(m, i))
      && (n.changed <==> m.changed || StateOf(n, i) != StateOf(m, i))
  {
  }

  lemma MarkedOthers<V>(form: Form<V>, sem: Semantics<V>, answers: map<int, V>, hidden: set<nat>, seen: set<nat>,
                        m: Marks, i: nat, p: nat)
    requires i < |form| && p != i
    ensures StateOf(Marked(form, sem, answers, hidden, seen, m, i), p) == StateOf(m, p)
  {
  }

  /** A pass changes every position it has been over to what is asked, and tells whether any changed. */
  lemma {:induction false} PassStates<V>(form: Form<V>, sem: Semantics<V>, answers: map<int, V>, hidden: set<nat>,
                                         seen: set<nat>, m: Marks, n: nat)
    requires n <= |form|
    ensures forall p :: 0 <= p < n ==>
        StateOf(Pass(form, sem, answers, hidden, seen, m, n), p)
            == AskedAt(form, sem, answers, hidden, seen, p, StateOf(m, p))
    ensures forall p :: p >= n ==> StateOf(Pass(form, sem, answers, hidden, seen, m, n), p) == StateOf(m, p)
    ensures var after := Pass(form, sem, answers, hidden, seen, m, n);
      after.changed <==> m.changed || exists p :: 0 <= p < n && StateOf(after, p) != StateOf(m, p)
  {
    if n == 0 {
    } else {
      PassStates(form, sem, answers, hidden, seen, m, n - 1);
      var before := Pass(form, sem, answers, hidden, seen, m, n - 1);
      var after := Marked(form, sem, answers, hidden, seen, before, n - 1);
      forall p: nat | p != n - 1 ensures StateOf(after, p) == StateOf(before, p) {
        MarkedOthers(form, sem, answers, hidden, seen, before, n - 1, p);
      }
      MarkedState(form, sem, answers, hidden, seen, before, n - 1);
    }
  }

  /** The pass that starts with these marks. */
  function OnePass<V>(form: Form<V>, sem: Semantics<V>, answers: map<int, V>, hidden: set<nat>, m: Marks): Marks {
    Pass(form, sem, answers, hidden, m.visible, m.(changed := false), |form|)
  }

  lemma OnePassStates<V>(form: Form<V>, sem: Semantics<V>, answers: map<int, V>, hidden: set<nat>, m: Marks)
    ensures forall p :: 0 <= p < |form| ==>
        StateOf(OnePass(form, sem, answers, hidden, m), p)
            == AskedAt(form, sem, answers, hidden, m.visible, p, StateOf(m, p))
    ensures forall p :: p >= |form| ==> StateOf(OnePass(form, sem, answers, hidden, m), p) == StateOf(m, p)
    ensures var after := OnePass(form, sem, answers, hidden, m);
      after.changed <==> exists p :: 0 <= p < |form| && StateOf(after, p) != StateOf(m, p)
  {
    var unmarked := m.(changed := false);
    forall p: nat ensures StateOf(unmarked, p) == StateOf(m, p) {}
    PassStates(form, sem, answers, hidden, m.visible, unmarked, |form|);
  }

  // ----- what a condition says depends only on what it looks at ----------------------------------------------------

  lemma SeenSame<V>(form: Form<V>, answers: map<int, V>, v: set<nat>, w: set<nat>, p: nat, t: Test<V>, x: int)
    requires p < |form| && form[p].condition.When? && t in Tests(form[p].condition.root) && Watches(t, x)
    requires forall q :: LooksAt(form, p, q) ==> (q in v <==> q in w)
    ensures Get(Seen(form, answers, v), x) == Get(Seen(form, answers, w), x)
  {
    forall q: nat | q < |form| && form[q].id == Some(x) ensures q in v <==> q in w { assert LooksAt(form, p, q); }
  }

  lemma HoldsSame<V>(form: Form<V>, sem: Semantics<V>, answers: map<int, V>, v: set<nat>, w: set<nat>, p: nat)
    requires p < |form| && forall q :: LooksAt(form, p, q) ==> (q in v <==> q in w)
    ensures Holds(form, sem, answers, v, p) == Holds(form, sem, answers, w, p)
    ensures RoutesNow(form, sem, answers, v, p) == RoutesNow(form, sem, answers, w, p)
  {
    var c := form[p].condition;
    if c.When? {
      var (a, b) := (Seen(form, answers, v), Seen(form, answers, w));
      forall t | t in Tests(c.root) ensures TestEval(sem, t, a) == TestEval(sem, t, b) {
        if t.field.Some? {
          SeenSame(form, answers, v, w, p, t, t.field.value);
          if t.other.Some? { SeenSame(form, answers, v, w, p, t, t.other.value); }
        }
      }
      EvalDependsOnTests(c.root, Judge(sem, a), Judge(sem, b));
    }
  }

  // ----- coming to rest ----------------------------------------------------------------------------------------------

  /** What position `p` should be when exactly these positions are visible. */
  function Wanted<V>(form: Form<V>, sem: Semantics<V>, answers: map<int, V>, hidden: set<nat>, visible: set<nat>,
                     p: nat): State {
    if p >= |form| || p in hidden then State(false, None)
    else Asked(form[p].condition, Holds(form, sem, answers, visible, p), State(true, None))
  }

  /** Every condition agrees with the marks. */
  ghost predicate Agreeing<V>(form: Form<V>, sem: Semantics<V>, answers: map<int, V>, hidden: set<nat>, m: Marks) {
    forall p: nat :: StateOf(m, p) == Wanted(form, sem, answers, hidden, m.visible, p)
  }

  /** The condition asks of this state what it asks of a fresh question. */
  predicate AskedAnew<V>(c: Condition<V>, was: State) {
    && Asked(c, true, was) == Asked(c, true, State(true, None))
    && Asked(c, false, was) == Asked(c, false, State(true, None))
  }

  lemma AskedTwice<V>(c: Condition<V>, first: bool, second: bool, was: State)
    ensures Asked(c, second, Asked(c, first, was)) == Asked(c, second, was)
  {
  }

  /** Hidden positions are as they should be, and elsewhere conditions ask the same as of a fresh question. */
  ghost predicate Unspoilt<V>(form: Form<V>, hidden: set<nat>, m: Marks) {
    forall p: nat ::
      if p >= |form| || p in hidden then StateOf(m, p) == State(false, None)
      else AskedAnew(form[p].condition, StateOf(m, p))
  }

  lemma {:induction false} InUpToExactly(n: nat)
    ensures forall i: nat :: i in UpTo(n) <==> i < n
  {
    if n == 0 {
    } else {
      InUpToExactly(n - 1);
    }
  }

  lemma StartUnspoilt<V>(form: Form<V>, hidden: set<nat>)
    ensures Unspoilt(form, hidden, Start(form, hidden))
  {
    InUpToExactly(|form|);
  }

  lemma PassUnspoilt<V>(form: Form<V>, sem: Semantics<V>, answers: map<int, V>, hidden: set<nat>, m: Marks)
    requires Unspoilt(form, hidden, m)
    ensures Unspoilt(form, hidden, OnePass(form, sem, answers, hidden, m))
  {
    var next := OnePass(form, sem, answers, hidden, m);
    OnePassStates(form, sem, answers, hidden, m);
    forall p: nat
      ensures if p >= |form| || p in hidden then StateOf(next, p) == State(false, None)
              else AskedAnew(form[p].condition, StateOf(next, p))
    {
      if p < |form| && p !in hidden {
        var holds := Holds(form, sem, answers, m.visible, p);
        AskedTwice(form[p].condition, holds, true, StateOf(m, p));
        AskedTwice(form[p].condition, holds, false, StateOf(m, p));
      }
    }
  }

  /** Position `p` is what its condition asks for. */
  ghost predicate AtRest<V>(form: Form<V>, sem: Semantics<V>, answers: map<int, V>, hidden: set<nat>, m: Marks, p: nat)
    requires p < |form|
  {
    AskedAt(form, sem, answers, hidden, m.visible, p, StateOf(m, p)) == StateOf(m, p)
  }

  /** Conditions with chains of at most `k` positions are at rest. */
  ghost predicate RestsTo<V>(form: Form<V>, sem: Semantics<V>, answers: map<int, V>, hidden: set<nat>, m: Marks,
                             k: nat) {
    forall p :: 0 <= p < |form| && Grounded(form, p, k) ==> AtRest(form, sem, answers, hidden, m, p)
  }

  lemma OneMoreRests<V>(form: Form<V>, sem: Semantics<V>, answers: map<int, V>, hidden: set<nat>, m: Marks, p: nat)
    requires p < |form|
    requires forall q :: LooksAt(form, p, q) ==> AtRest(form, sem, answers, hidden, m, q)
    ensures AtRest(form, sem, answers, hidden, OnePass(form, sem, answers, hidden, m), p)
  {
    var n := OnePass(form, sem, answers, hidden, m);
    OnePassStates(form, sem, answers, hidden, m);
    forall q | LooksAt(form, p, q) ensures q in m.visible <==> q in n.visible {
      assert AtRest(form, sem, answers, hidden, m, q) && StateOf(n, q) == StateOf(m, q);
    }
    HoldsSame(form, sem, answers, m.visible, n.visible, p);
    var holds := Holds(form, sem, answers, m.visible, p);
    AskedTwice(form[p].condition, holds, holds, StateOf(m, p));
  }

  /** One more pass, one more position of every chain at rest. */
  lemma PassRests<V>(form: Form<V>, sem: Semantics<V>, answers: map<int, V>, hidden: set<nat>, m: Marks, k: nat)
    requires RestsTo(form, sem, answers, hidden, m, k)
    ensures RestsTo(form, sem, answers, hidden, OnePass(form, sem, answers, hidden, m), k + 1)
  {
    var n := OnePass(form, sem, answers, hidden, m);
    forall p | 0 <= p < |form| && Grounded(form, p, k + 1) ensures AtRest(form, sem, answers, hidden, n, p) {
      forall q | LooksAt(form, p, q) ensures AtRest(form, sem, answers, hidden, m, q) {
        assert Grounded(form, q, k);
      }
      OneMoreRests(form, sem, answers, hidden, m, p);
    }
  }

  lemma RestingIsUnchanged<V>(form: Form<V>, sem: Semantics<V>, answers: map<int, V>, hidden: set<nat>, m: Marks)
    requires AcyclicTo(form, |form|) && RestsTo(form, sem, answers, hidden, m, |form|)
    ensures !OnePass(form, sem, answers, hidden, m).changed
  {
    var next := OnePass(form, sem, answers, hidden, m);
    OnePassStates(form, sem, answers, hidden, m);
    forall p | 0 <= p < |form| ensures StateOf(next, p) == StateOf(m, p) {
      assert Grounded(form, p, |form|);
      assert AtRest(form, sem, answers, hidden, m, p);
    }
  }

  lemma {:induction false} SettleRests<V>(form: Form<V>, sem: Semantics<V>, answers: map<int, V>, hidden: set<nat>,
                                          m: Marks, k: nat, fuel: nat)
    requires AcyclicTo(form, |form|) && RestsTo(form, sem, answers, hidden, m, k) && k + fuel == |form| + 1 && fuel > 0
    ensures !Settle(form, sem, answers, hidden, m, fuel).changed
    decreases fuel
  {
    var next := OnePass(form, sem, answers, hidden, m);
    if fuel == 1 {
      RestingIsUnchanged(form, sem, answers, hidden, m);
    } else {
      PassRests(form, sem, answers, hidden, m, k);
      if next.changed { SettleRests(form, sem, answers, hidden, next, k + 1, fuel - 1); }
    }
  }

  lemma UnchangedAgrees<V>(form: Form<V>, sem: Semantics<V>, answers: map<int, V>, hidden: set<nat>, m: Marks)
    requires Unspoilt(form, hidden, m) && !OnePass(form, sem, answers, hidden, m).changed
    ensures Agreeing(form, sem, answers, hidden, OnePass(form, sem, answers, hidden, m))
  {
    var next := OnePass(form, sem, answers, hidden, m);
    OnePassStates(form, sem, answers, hidden, m);
    forall p: nat ensures StateOf(next, p) == StateOf(m, p) {}
    assert next.visible == m.visible by {
      forall p: nat ensures p in next.visible <==> p in m.visible { assert StateOf(next, p) == StateOf(m, p); }
    }
  }

  /** Passes that come to rest, on whatever form, do so where all conditions agree. */
  lemma {:induction false} RestAgrees<V>(form: Form<V>, sem: Semantics<V>, answers: map<int, V>, hidden: set<nat>,
                                         m: Marks, fuel: nat)
    requires Unspoilt(form, hidden, m) && fuel > 0 && !Settle(form, sem, answers, hidden, m, fuel).changed
    ensures Agreeing(form, sem, answers, hidden, Settle(form, sem, answers, hidden, m, fuel))
    decreases fuel
  {
    var next := OnePass(form, sem, answers, hidden, m);
    if next.changed {
      PassUnspoilt(form, sem, answers, hidden, m);
      RestAgrees(form, sem, answers, hidden, next, fuel - 1);
    } else {
      UnchangedAgrees(form, sem, answers, hidden, m);
    }
  }

  /** Conditions in this part of the form look at nothing outside it. */
  ghost predicate Enclosed<V>(form: Form<V>, part: set<nat>) {
    forall p, q :: p in part && LooksAt(form, p, q) ==> q in part
  }

  /** Without a circle there is only one way to agree, on any part that is enclosed and hidden alike. */
  lemma {:induction false} AgreeingStates<V>(form: Form<V>, sem: Semantics<V>, answers: map<int, V>, part: set<nat>,
                                             h: set<nat>, m: Marks, g: set<nat>, n: Marks, p: nat, k: nat)
    requires Agreeing(form, sem, answers, h, m) && Agreeing(form, sem, answers, g, n)
    requires Enclosed(form, part) && forall q :: q in part ==> (q in h <==> q in g)
    requires p in part && p < |form| && Grounded(form, p, k)
    ensures StateOf(m, p) == StateOf(n, p)
    decreases k
  {
    forall q | LooksAt(form, p, q) ensures q in m.visible <==> q in n.visible {
      AgreeingStates(form, sem, answers, part, h, m, g, n, q, k - 1);
      assert StateOf(m, q) == StateOf(n, q);
    }
    HoldsSame(form, sem, answers, m.visible, n.visible, p);
  }

  lemma AgreeingPart<V>(form: Form<V>, sem: Semantics<V>, answers: map<int, V>, part: set<nat>,
                        h: set<nat>, m: Marks, g: set<nat>, n: Marks)
    requires NoCircle(form) && Agreeing(form, sem, answers, h, m) && Agreeing(form, sem, answers, g, n)
    requires Enclosed(form, part) && forall q :: q in part ==> (q in h <==> q in g)
    ensures forall p :: p in part ==> StateOf(m, p) == StateOf(n, p)
  {
    AllGrounded(form);
    forall p | p in part ensures StateOf(m, p) == StateOf(n, p) {
      if p < |form| {
        AgreeingStates(form, sem, answers, part, h, m, g, n, p, |form|);
      }
    }
  }

  lemma AgreeingUnique<V>(form: Form<V>, sem: Semantics<V>, answers: map<int, V>, hidden: set<nat>, m: Marks, n: Marks)
    requires NoCircle(form) && Agreeing(form, sem, answers, hidden, m) && Agreeing(form, sem, answers, hidden, n)
    ensures m.visible == n.visible && m.forced == n.forced
  {
    InUpToExactly(|form|);
    AgreeingPart(form, sem, answers, UpTo(|form|), hidden, m, hidden, n);
    assert forall p: nat :: p < |form| ==> p in UpTo(|form|);
    assert forall p: nat :: StateOf(m, p) == StateOf(n, p);
    assert forall p: nat :: (p in m.visible) == StateOf(m, p).visible && (p in n.visible) == StateOf(n, p).visible;
    assert forall p: nat :: Get(m.forced, p) == StateOf(m, p).forced && Get(n.forced, p) == StateOf(n, p).forced;
    assert m.forced.Keys == n.forced.Keys by {
      forall p: nat ensures p in m.forced <==> p in n.forced { assert Get(m.forced, p) == Get(n.forced, p); }
    }
    forall p | p in m.forced ensures m.forced[p] == n.forced[p] { assert Get(m.forced, p) == Get(n.forced, p); }
  }

  /**
   The main result: on a form whose conditions do not look at their own questions, directly or through others, the
   passes of any round come to rest within the number allowed, at marks every condition agrees with, and there are no
   others.
   */
  lemma PassesComeToRest<V>(form: Form<V>, sem: Semantics<V>, answers: map<int, V>, hidden: set<nat>)
    requires NoCircle(form)
    ensures var m := Settle(form, sem, answers, hidden, Start(form, hidden), |form| + 1);
      && !m.changed && Agreeing(form, sem, answers, hidden, m)
      && forall n :: Agreeing(form, sem, answers, hidden, n) ==> n.visible == m.visible && n.forced == m.forced
  {
    StartUnspoilt(form, hidden);
    AllGrounded(form);
    SettleRests(form, sem, answers, hidden, Start(form, hidden), 0, |form| + 1);
    RestAgrees(form, sem, answers, hidden, Start(form, hidden), |form| + 1);
    var m := Settle(form, sem, answers, hidden, Start(form, hidden), |form| + 1);
    forall n | Agreeing(form, sem, answers, hidden, n) ensures n.visible == m.visible && n.forced == m.forced {
      AgreeingUnique(form, sem, answers, hidden, n, m);
    }
  }
}
