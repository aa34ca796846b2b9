/** Which pages a respondent walks through: those a layout does not skip are exactly the stops of one walk. */
module PageRoutes {
  import opened Conditions
  import opened Definition
  import opened Layout
  import opened Options
  import opened Routing
  import opened Settling

  /** The break at `b` starts this page: so many breaks are there up to it. */
  ghost predicate Heads<V>(form: Form<V>, b: nat, page: nat) {
    b < |form| && form[b].isBreak && |set q: nat | q <= b && q < |form| && form[q].isBreak| == page
  }

  /** How many pages follow the first. */
  ghost function LastPage<V>(form: Form<V>): nat {
    |set q: nat | q < |form| && form[q].isBreak|
  }

  /** The break has a routing rule with this action, and the answers of the visible questions make it true. */
  ghost predicate Routes<V>(form: Form<V>, sem: Semantics<V>, answers: map<int, V>, visible: set<nat>, b: nat,
                            action: string) {
    && b < |form| && form[b].condition.When? && form[b].condition.action == action
    && Yields(form[b].condition.root, Judge(sem, Seen(form, answers, visible)), true)
  }

  /** The last break with this id starts the page. */
  ghost predicate Starts<V>(form: Form<V>, id: int, page: nat) {
    exists d: nat :: Heads(form, d, page) && form[d].id == Some(id)
            && forall e :: d < e < |form| && form[e].isBreak ==> form[e].id != Some(id)
  }

  /** Leaving page `p`, the form ends: the break after it says so. */
  ghost predicate EndsAfter<V>(form: Form<V>, sem: Semantics<V>, answers: map<int, V>, visible: set<nat>, p: nat) {
    exists b: nat :: Heads(form, b, p + 1) && Routes(form, sem, answers, visible, b, "end_form")
  }

  /** Leaving page `p`, the break after it leads further ahead, to page `n`. */
  ghost predicate JumpsTo<V>(form: Form<V>, sem: Semantics<V>, answers: map<int, V>, visible: set<nat>, p: nat,
                             n: nat) {
    n > p + 1 && exists b: nat ::
      && Heads(form, b, p + 1) && Routes(form, sem, answers, visible, b, "skip_to_section")
      && form[b].condition.payload.Target? && Starts(form, form[b].condition.payload.id, n)
  }

  /** The page that follows `p` for this respondent: where its route leads, or the next one. */
  ghost predicate StepsTo<V>(form: Form<V>, sem: Semantics<V>, answers: map<int, V>, visible: set<nat>, p: nat,
                             n: nat) {
    || JumpsTo(form, sem, answers, visible, p, n)
    || (n == p + 1 && forall m: nat :: !JumpsTo(form, sem, answers, visible, p, m))
  }

  /** The pages from the first stop to the last page, or to where the form ends. */
  ghost predicate Walk<V>(form: Form<V>, sem: Semantics<V>, answers: map<int, V>, visible: set<nat>, stops: seq<nat>)
    decreases |stops|
  {
    && stops != []
    && if stops[0] >= LastPage(form) || EndsAfter(form, sem, answers, visible, stops[0]) then |stops| == 1
       else
         && |stops| > 1 && StepsTo(form, sem, answers, visible, stops[0], stops[1])
         && Walk(form, sem, answers, visible, stops[1..])
  }

  lemma {:induction false} PageCounts<V>(form: Form<V>, i: nat)
    requires i <= |form|
    ensures PageOf(form, i) == |set q: nat | q < i && q < |form| && form[q].isBreak|
  {
    if i == 0 {
    } else {
      PageCounts(form, i - 1);
      assert (set q: nat | q < i && q < |form| && form[q].isBreak)
          == (set q: nat | q < i - 1 && q < |form| && form[q].isBreak) + if form[i - 1].isBreak then {i - 1} else {};
    }
  }

  lemma HeadsCounts<V>(form: Form<V>, b: nat, page: nat)
    ensures Heads(form, b, page) <==> b < |form| && form[b].isBreak && PageOf(form, b + 1) == page
  {
    if b < |form| {
      PageCounts(form, b + 1);
      assert (set q: nat | q <= b && q < |form| && form[q].isBreak)
          == set q: nat | q < b + 1 && q < |form| && form[q].isBreak;
    }
  }

  lemma LastCounts<V>(form: Form<V>)
    ensures LastPage(form) == PageOf(form, |form|)
  {
    PageCounts(form, |form|);
    assert (set q: nat | q < |form| && form[q].isBreak)
        == set q: nat | q < |form| && q < |form| && form[q].isBreak;
  }

  lemma {:induction false} PagesGrow<V>(form: Form<V>, i: nat, j: nat)
    requires i <= j <= |form|
    ensures PageOf(form, i) <= PageOf(form, j)
  {
    if i < j { PagesGrow(form, i, j - 1); }
  }

  /** Page `page` starts at `b`, among the first `n` positions. */
  ghost predicate Begins<V>(form: Form<V>, b: nat, page: nat, n: nat) {
    b < n && b < |form| && form[b].isBreak && PageOf(form, b + 1) == page
  }

  /** A page has one break that starts it, and every page but the first has one. */
  lemma {:induction false} BreakFound<V>(form: Form<V>, page: nat, n: nat)
    requires n <= |form|
    ensures forall b: nat :: Begins(form, b, page, n) <==> BreakOf(form, page, n) == Some(b)
    ensures 0 < page <= PageOf(form, n) ==> BreakOf(form, page, n).Some?
  {
    if n == 0 {
    } else {
      BreakFound(form, page, n - 1);
      if form[n - 1].isBreak && PageOf(form, n) == page {
        var m: nat := n - 1;
        forall b: nat ensures !Begins(form, b, page, m) {
          if b < m { PagesGrow(form, b + 1, m); }
        }
      }
      forall b: nat ensures Begins(form, b, page, n)
          <==> Begins(form, b, page, n - 1) || (b == n - 1 && form[b].isBreak && PageOf(form, n) == page) {}
    }
  }

  lemma HeadFound<V>(form: Form<V>, page: nat)
    requires 0 < page <= PageOf(form, |form|)
    ensures BreakOf(form, page, |form|).Some?
    ensures forall b: nat :: Heads(form, b, page) <==> b == BreakOf(form, page, |form|).value
  {
    BreakFound(form, page, |form|);
    forall b: nat ensures Heads(form, b, page) <==> Begins(form, b, page, |form|) { HeadsCounts(form, b, page); }
  }

  lemma {:induction false} StartFound<V>(form: Form<V>, id: int, n: nat)
    requires n <= |form|
    ensures PageStarting(form, id, n).None? ==> forall d: nat :: d < n && form[d].isBreak ==> form[d].id != Some(id)
    ensures PageStarting(form, id, n).Some? ==> exists d: nat ::
        && d < n && form[d].isBreak && PageOf(form, d + 1) == PageStarting(form, id, n).value
        && form[d].id == Some(id) && forall e :: d < e < n && form[e].isBreak ==> form[e].id != Some(id)
  {
    if n == 0 {
    } else if form[n - 1].isBreak && form[n - 1].id == Some(id) {
    } else {
      StartFound(form, id, n - 1);
    }
  }

  lemma StartsFound<V>(form: Form<V>, id: int, page: nat)
    ensures Starts(form, id, page) <==> PageStarting(form, id, |form|) == Some(page)
  {
    StartFound(form, id, |form|);
    forall d: nat ensures Heads(form, d, page) <==> d < |form| && form[d].isBreak && PageOf(form, d + 1) == page {
      HeadsCounts(form, d, page);
    }
    if Starts(form, id, page) {
      var d: nat :| Heads(form, d, page) && form[d].id == Some(id)
               && forall e :: d < e < |form| && form[e].isBreak ==> form[e].id != Some(id);
    }
  }

  /** What the walk does on leaving a page. */
  lemma LeavingPage<V>(form: Form<V>, sem: Semantics<V>, answers: map<int, V>, visible: set<nat>, p: nat)
    requires p < PageOf(form, |form|)
    ensures BreakOf(form, p + 1, |form|).Some?
    ensures EndsAfter(form, sem, answers, visible, p) <==>
      var b := BreakOf(form, p + 1, |form|).value;
      RoutesNow(form, sem, answers, visible, b) && form[b].condition.action == END
    ensures forall n: nat :: JumpsTo(form, sem, answers, visible, p, n) <==>
      var b := BreakOf(form, p + 1, |form|).value;
      && RoutesNow(form, sem, answers, visible, b) && form[b].condition.action == SKIP && n > p + 1
      && TargetPage(form, b) == Some(n)
  {
    HeadFound(form, p + 1);
    var b := BreakOf(form, p + 1, |form|).value;
    RoutesMeans(form, sem, answers, visible, b);
    forall n: nat ensures JumpsTo(form, sem, answers, visible, p, n) <==>
        && RoutesNow(form, sem, answers, visible, b) && form[b].condition.action == SKIP && n > p + 1
        && TargetPage(form, b) == Some(n) {
      if form[b].condition.When? && form[b].condition.payload.Target? {
        StartsFound(form, form[b].condition.payload.id, n);
      }
    }
  }

  lemma RoutesMeans<V>(form: Form<V>, sem: Semantics<V>, answers: map<int, V>, visible: set<nat>, b: nat)
    requires b < |form|
    ensures RoutesNow(form, sem, answers, visible, b) <==>
      Routes(form, sem, answers, visible, b, "end_form") || Routes(form, sem, answers, visible, b, "skip_to_section")
  {
    if form[b].condition.When? {
      EvalIsMeaning(form[b].condition.root, Judge(sem, Seen(form, answers, visible)), true);
    }
  }

  lemma {:induction false} InUpToMeans(n: nat)
    ensures forall i: nat :: i in UpTo(n) <==> i < n
  {
    if n == 0 {
    } else {
      InUpToMeans(n - 1);
    }
  }

  lemma NoFurther<V>(form: Form<V>, sem: Semantics<V>, answers: map<int, V>, visible: set<nat>, p: nat, n: nat)
    requires p < PageOf(form, |form|) && StepsTo(form, sem, answers, visible, p, n)
    ensures n <= PageOf(form, |form|)
  {
    if JumpsTo(form, sem, answers, visible, p, n) {
      var b: nat :| Heads(form, b, p + 1) && form[b].condition.When? && form[b].condition.payload.Target?
                    && Starts(form, form[b].condition.payload.id, n);
      var d: nat :| Heads(form, d, n);
      HeadsCounts(form, d, n);
      PagesGrow(form, d + 1, |form|);
    }
  }

  lemma SkipsAtEnd<V>(form: Form<V>, sem: Semantics<V>, answers: map<int, V>, visible: set<nat>, p: nat)
    requires p < LastPage(form) && EndsAfter(form, sem, answers, visible, p)
    ensures forall page: nat :: page in Skipped(form, sem, answers, visible, p) <==> p < page <= LastPage(form)
  {
    LastCounts(form);
    LeavingPage(form, sem, answers, visible, p);
    InUpToMeans(p + 1);
    InUpToMeans(LastPage(form) + 1);
  }

  /** What leaving one page adds to the skipped ones. */
  lemma SkipsOnLeaving<V>(form: Form<V>, sem: Semantics<V>, answers: map<int, V>, visible: set<nat>, p: nat, n: nat)
    requires p < LastPage(form) && !EndsAfter(form, sem, answers, visible, p)
    requires StepsTo(form, sem, answers, visible, p, n)
    ensures p < n <= LastPage(form)
    ensures forall page: nat :: page in Skipped(form, sem, answers, visible, p) <==>
        p < page < n || page in Skipped(form, sem, answers, visible, n)
  {
    LastCounts(form);
    LeavingPage(form, sem, answers, visible, p);
    NoFurther(form, sem, answers, visible, p, n);
    InUpToMeans(p + 1);
    InUpToMeans(n);
    var b := BreakOf(form, p + 1, |form|).value;
    if RoutesNow(form, sem, answers, visible, b) && form[b].condition.action == SKIP {
      var target := TargetPage(form, b);
      if target.Some? && target.value > p + 1 { assert JumpsTo(form, sem, answers, visible, p, target.value); }
    }
  }

  lemma OneStopMore(p: nat, last: nat, fewer: set<nat>, more: set<nat>, stops: seq<nat>)
    requires |stops| > 1 && stops[0] == p < stops[1] <= last
    requires forall page: nat :: page in fewer <==> stops[1] < page <= last && page !in stops[1..]
    requires forall page: nat :: page in stops[1..] ==> stops[1] <= page
    requires forall page: nat :: page in more <==> p < page < stops[1] || page in fewer
    ensures forall page: nat :: page in more <==> p < page <= last && page !in stops
    ensures forall page: nat :: page in stops ==> p <= page
  {
    assert stops == [p] + stops[1..] && stops[1] in stops[1..];
  }

  /** Every page after the first stop is skipped exactly when the walk does not stop there. */
  lemma {:induction false} SkippedIsOffWalk<V>(form: Form<V>, sem: Semantics<V>, answers: map<int, V>,
                                               visible: set<nat>, stops: seq<nat>)
    requires Walk(form, sem, answers, visible, stops)
    ensures forall page: nat :: page in Skipped(form, sem, answers, visible, stops[0]) <==>
        stops[0] < page <= LastPage(form) && page !in stops
    ensures forall page: nat :: page in stops ==> stops[0] <= page
    decreases |stops|
  {
    LastCounts(form);
    var p := stops[0];
    if p >= LastPage(form) {
    } else if EndsAfter(form, sem, answers, visible, p) {
      SkipsAtEnd(form, sem, answers, visible, p);
    } else {
      SkipsOnLeaving(form, sem, answers, visible, p, stops[1]);
      SkippedIsOffWalk(form, sem, answers, visible, stops[1..]);
      OneStopMore(p, LastPage(form), Skipped(form, sem, answers, visible, stops[1]),
                  Skipped(form, sem, answers, visible, p), stops);
    }
  }

  lemma {:induction false} WalkExists<V>(form: Form<V>, sem: Semantics<V>, answers: map<int, V>, visible: set<nat>,
                                         p: nat) returns (stops: seq<nat>)
    ensures Walk(form, sem, answers, visible, stops) && stops[0] == p
    decreases LastPage(form) - p
  {
    if p >= LastPage(form) || EndsAfter(form, sem, answers, visible, p) {
      stops := [p];
    } else {
      var n: nat;
      if m: nat :| JumpsTo(form, sem, answers, visible, p, m) {
        n := m;
      } else {
        n := p + 1;
      }
      var rest := WalkExists(form, sem, answers, visible, n);
      stops := [p] + rest;
      assert stops[1..] == rest;
    }
  }

  /**
   The pages that routing leaves out are those a respondent who follows every route from the first page does not stop
   at, and there is such a walk.
   */
  lemma SkippedPages<V>(form: Form<V>, sem: Semantics<V>, answers: map<int, V>, visible: set<nat>)
    returns (stops: seq<nat>)
    ensures Walk(form, sem, answers, visible, stops) && stops[0] == 0
    ensures forall page: nat :: page in Skipped(form, sem, answers, visible, 0) <==>
        0 < page <= LastPage(form) && page !in stops
  {
    stops := WalkExists(form, sem, answers, visible, 0);
    SkippedIsOffWalk(form, sem, answers, visible, stops);
  }

  /** A value-style action takes effect at a visible question unless its condition comes out false. */
  lemma FiringQuestions<V>(form: Form<V>, sem: Semantics<V>, answers: map<int, V>, i: nat)
    ensures var l := Compute(form, sem, answers);
      i in l.fires <==>
        && i in l.visible && i < |form| && form[i].condition.When? && form[i].condition.payload != Nothing
        && (|| form[i].condition.action == "set_value" || form[i].condition.action == "restrict_options"
            || form[i].condition.action == "display_message")
        && !Yields(form[i].condition.root, Judge(sem, Seen(form, answers, l.visible)), false)
  {
    var l := Compute(form, sem, answers);
    if i < |form| { SatisfiedMeans(form[i].condition, sem, Seen(form, answers, l.visible)); }
  }

  // ----- what a layout at rest looks like, question by question ------------------------------------------

  /**
   On a skipped page a question is neither visible nor forced. Elsewhere `show` needs a condition that does not come
   out false and `hide` one that does; `require` and `optional` force what they say under the same condition.
   */
  ghost predicate PlacedRight<V>(form: Form<V>, sem: Semantics<V>, answers: map<int, V>, visible: set<nat>,
                                 forced: map<nat, bool>, skipped: set<nat>, p: nat)
    requires p < |form|
  {
    var c := form[p].condition;
    var action := if c.When? then c.action else "";
    var fails := c.When? && Yields(c.root, Judge(sem, Seen(form, answers, visible)), false);
    if |set q: nat | q <= p && q < |form| && form[q].isBreak| in skipped then p !in visible && p !in forced
    else
      && (p in visible <==> (action == "show" ==> !fails) && (action == "hide" ==> fails))
      && (Get(forced, p) ==
            if action == "require" && !fails then Some(true)
            else if action == "optional" && !fails then Some(false) else None)
  }

  lemma PlacedMeans<V>(form: Form<V>, sem: Semantics<V>, answers: map<int, V>, visible: set<nat>,
                       forced: map<nat, bool>, skipped: set<nat>, p: nat)
    requires p < |form|
    ensures PlacedRight(form, sem, answers, visible, forced, skipped, p)
        <==> StateOf(Marks(visible, forced, false), p)
             == Wanted(form, sem, answers, OnPages(form, skipped), visible, p)
  {
    InUpToMeans(|form|);
    PageCounts(form, p + 1);
    assert (set q: nat | q <= p && q < |form| && form[q].isBreak)
        == set q: nat | q < p + 1 && q < |form| && form[q].isBreak;
    assert p in OnPages(form, skipped) <==> PageOf(form, p + 1) in skipped;
    SatisfiedMeans(form[p].condition, sem, Seen(form, answers, visible));
  }

  /** The layouts that conditions and routes agree with are those where every question is placed right. */
  lemma AgreeingMeans<V>(form: Form<V>, sem: Semantics<V>, answers: map<int, V>, visible: set<nat>,
                         forced: map<nat, bool>, skipped: set<nat>)
    ensures Agreeing(form, sem, answers, OnPages(form, skipped), Marks(visible, forced, false)) <==>
      && (forall p: nat :: p < |form| ==> PlacedRight(form, sem, answers, visible, forced, skipped, p))
      && (forall p: nat :: p in visible || p in forced ==> p < |form|)
  {
    var (m, hidden) := (Marks(visible, forced, false), OnPages(form, skipped));
    forall p: nat | p < |form|
      ensures PlacedRight(form, sem, answers, visible, forced, skipped, p)
          <==> StateOf(m, p) == Wanted(form, sem, answers, hidden, visible, p) {
      PlacedMeans(form, sem, answers, visible, forced, skipped, p);
    }
    forall p: nat | p >= |form|
      ensures StateOf(m, p) == Wanted(form, sem, answers, hidden, visible, p) <==> p !in visible && p !in forced {
    }
    if Agreeing(form, sem, answers, hidden, m) {
      forall p: nat | p in visible || p in forced ensures p < |form| {
        assert StateOf(m, p) == Wanted(form, sem, answers, hidden, visible, p);
      }
    }
  }

  /** Every question is placed right, and the skipped pages are those off the walk. */
  ghost predicate AllRight<V>(form: Form<V>, sem: Semantics<V>, answers: map<int, V>, visible: set<nat>,
                              forced: map<nat, bool>, skipped: set<nat>) {
    && (forall p: nat :: p < |form| ==> PlacedRight(form, sem, answers, visible, forced, skipped, p))
    && (forall p: nat :: p in visible || p in forced ==> p < |form|)
    && exists stops :: Walk(form, sem, answers, visible, stops) && OffWalk(form, stops, skipped)
  }

  ghost predicate OffWalk<V>(form: Form<V>, stops: seq<nat>, skipped: set<nat>) {
    && stops != [] && stops[0] == 0
    && forall page: nat :: page in skipped <==> 0 < page <= LastPage(form) && page !in stops
  }

  /** On a form whose questions look back the layout computed is right in every question and page, and the only one. */
  lemma OnlyRightLayout<V>(form: Form<V>, sem: Semantics<V>, answers: map<int, V>, visible: set<nat>,
                           forced: map<nat, bool>, skipped: set<nat>)
    requires NoCircle(form) && QuestionsLookBack(form) && RoutesLookBack(form)
    ensures var l := Compute(form, sem, answers);
      AllRight(form, sem, answers, visible, forced, skipped)
      <==> visible == l.visible && forced == l.forced && skipped == l.skipped
  {
    LayoutComesToRest(form, sem, answers, visible, forced, skipped);
    AgreeingMeans(form, sem, answers, visible, forced, skipped);
    OffWalkIsSkipped(form, sem, answers, visible, skipped);
  }

  lemma OffWalkIsSkipped<V>(form: Form<V>, sem: Semantics<V>, answers: map<int, V>, visible: set<nat>,
                            skipped: set<nat>)
    ensures (exists stops :: Walk(form, sem, answers, visible, stops) && OffWalk(form, stops, skipped))
        <==> skipped == Skipped(form, sem, answers, visible, 0)
  {
    var routed := Skipped(form, sem, answers, visible, 0);
    var stops := SkippedPages(form, sem, answers, visible);
    assert OffWalk(form, stops, routed);
    if others :| Walk(form, sem, answers, visible, others) && OffWalk(form, others, skipped) {
      SkippedIsOffWalk(form, sem, answers, visible, others);
      assert forall page: nat :: page in skipped <==> page in routed;
    }
  }
}
