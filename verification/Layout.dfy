/** What a form's conditions do together. */
module Layout {
  // Questions are identified by their position in display order.
  // Conditions decide which questions show, which are forced required or optional, which pages routing skips and which
  // value-style actions fire.

  import opened Conditions
  import opened Definition
  import opened Options

  const END := "end_form"

  type Form<V> = seq<Question<V>>

  datatype Marks = Marks(visible: set<nat>, forced: map<nat, bool>, changed: bool)

  datatype Layout = Layout(visible: set<nat>, forced: map<nat, bool>, skipped: set<nat>, fires: set<nat>)

  /** The question with this id is visible. */
  predicate IsSeen<V>(form: Form<V>, visible: set<nat>, x: int) {
    exists p :: p in visible && p < |form| && form[p].id == Some(x)
  }

  /** The answers of the visible questions: the only ones conditions see. */
  function Seen<V>(form: Form<V>, answers: map<int, V>, visible: set<nat>): map<int, V> {
    map x | x in answers && IsSeen(form, visible, x) :: answers[x]
  }

  function Holds<V>(form: Form<V>, sem: Semantics<V>, answers: map<int, V>, visible: set<nat>, i: nat): bool
    requires i < |form|
  {
    Satisfied(form[i].condition, sem, Seen(form, answers, visible))
  }

  /** A routing rule acts only when it is evaluated to true. */
  function RoutesNow<V>(form: Form<V>, sem: Semantics<V>, answers: map<int, V>, visible: set<nat>, i: nat): bool
    requires i < |form|
  {
    var c := form[i].condition;
    c.When? && (c.action == SKIP || c.action == END)
        && Eval(c.root, Judge(sem, Seen(form, answers, visible))) == Some(true)
  }

  // ----- one pass over the questions -----------------------------------------------------------------------

  function Force(m: Marks, i: nat, value: Option<bool>): Marks {
    if Get(m.forced, i) == value then m
    else m.(forced := if value.Some? then m.forced[i := value.value] else m.forced - {i}, changed := true)
  }

  function Mark(action: string, holds: bool, m: Marks, i: nat): Marks {
    if action == "show" then
      if holds && i !in m.visible then m.(visible := m.visible + {i}, changed := true)
      else if !holds && i in m.visible then m.(visible := m.visible - {i}, changed := true)
      else m
    else if action == "hide" then
      if holds && i in m.visible then m.(visible := m.visible - {i}, changed := true)
      else if !holds && i !in m.visible then m.(visible := m.visible + {i}, changed := true)
      else m
    else if action == "require" then Force(m, i, if holds then Some(true) else None)
    else if action == "optional" then Force(m, i, if holds then Some(false) else None)
    else m
  }

  /** What a pass does at position `i`, given the marks so far. */
  function Marked<V>(form: Form<V>, sem: Semantics<V>, answers: map<int, V>, hidden: set<nat>, seen: set<nat>, m: Marks,
          i: nat): Marks
    requires i < |form|
  {
    if form[i].condition.Always? || i in hidden then m
        else Mark(form[i].condition.action, Holds(form, sem, answers, seen, i), m, i)
  }

  /** The first `i` questions; `seen` is what was visible when the pass began, `hidden` what routing hides. */
  function Pass<V>(form: Form<V>, sem: Semantics<V>, answers: map<int, V>, hidden: set<nat>, seen: set<nat>, m: Marks,
          i: nat): Marks
    requires i <= |form|
  {
    if i == 0 then m
    else
      var before := Pass(form, sem, answers, hidden, seen, m, i - 1);
      Marked(form, sem, answers, hidden, seen, before, i - 1)
  }

  /** Passes until nothing changes, at most `fuel` of them. */
  function Settle<V>(form: Form<V>, sem: Semantics<V>, answers: map<int, V>, hidden: set<nat>, m: Marks,
          fuel: nat): Marks
    decreases fuel
  {
    if fuel == 0 then m
    else
      var next := Pass(form, sem, answers, hidden, m.visible, m.(changed := false), |form|);
      if next.changed then Settle(form, sem, answers, hidden, next, fuel - 1) else next
  }

  // ----- pages -----------------------------------------------------------------------------------------------

  /** The page a position is on: how many page breaks there are up to it. */
  function PageOf<V>(form: Form<V>, i: nat): nat
    requires i <= |form|
  {
    if i == 0 then 0 else PageOf(form, i - 1) + if form[i - 1].isBreak then 1 else 0
  }

  /** Where the break that starts this page is, among the first `i` positions. */
  function BreakOf<V>(form: Form<V>, page: nat, i: nat): Option<nat>
    requires i <= |form|
    ensures BreakOf(form, page, i).Some? ==> BreakOf(form, page, i).value < i
  {
    if i == 0 then None
    else if form[i - 1].isBreak && PageOf(form, i) == page then Some(i - 1)
    else BreakOf(form, page, i - 1)
  }

  /** The page that starts with the question `id`, if that is a page break among the first `i`. */
  function PageStarting<V>(form: Form<V>, id: int, i: nat): Option<nat>
    requires i <= |form|
  {
    if i == 0 then None
    else if form[i - 1].isBreak && form[i - 1].id == Some(id) then Some(PageOf(form, i))
    else PageStarting(form, id, i - 1)
  }

  /** Where a routing rule on the break at `b` leads, if anywhere. */
  function TargetPage<V>(form: Form<V>, b: nat): Option<nat>
    requires b < |form|
  {
    var c := form[b].condition;
    if c.When? && c.payload.Target? then PageStarting(form, c.payload.id, |form|) else None
  }

  function UpTo(n: nat): set<nat> {
    if n == 0 then {} else UpTo(n - 1) + {n - 1}
  }

  function Between(from: nat, to: nat): set<nat> {
    UpTo(to) - UpTo(from)
  }

  /** Walks the pages from `current`, collecting the skipped ones. */
  function Skipped<V>(form: Form<V>, sem: Semantics<V>, answers: map<int, V>, visible: set<nat>, current: nat): set<nat>
    decreases PageOf(form, |form|) - current
  {
    var last := PageOf(form, |form|);
    if current >= last then {}
    else
      var following := current + 1;
      var b := BreakOf(form, following, |form|);
      if b.Some? && RoutesNow(form, sem, answers, visible, b.value) then
        if form[b.value].condition.action == END then Between(following, last + 1)
        else
          var target := TargetPage(form, b.value);
          if target.Some? && target.value > following
          then Between(following, target.value) + Skipped(form, sem, answers, visible, target.value)
          else Skipped(form, sem, answers, visible, following)
      else Skipped(form, sem, answers, visible, following)
  }

  function OnPages<V>(form: Form<V>, pages: set<nat>): set<nat> {
    set i | i in UpTo(|form|) && i < |form| && PageOf(form, i + 1) in pages
  }

  // ----- the layout --------------------------------------------------------------------------------------------

  /** The marks a round starts with: everything shows but what the route hides. */
  function Start<V>(form: Form<V>, hidden: set<nat>): Marks {
    Marks(UpTo(|form|) - hidden, map[], false)
  }

  /** What the passes of a round that starts with these pages skipped end at. */
  function RoundFrom<V>(form: Form<V>, sem: Semantics<V>, answers: map<int, V>, skipped: set<nat>): Marks {
    Settle(form, sem, answers, OnPages(form, skipped), Start(form, OnPages(form, skipped)), |form| + 1)
  }

  /** Where routing leads after that round. */
  function RoutedFrom<V>(form: Form<V>, sem: Semantics<V>, answers: map<int, V>, skipped: set<nat>): set<nat> {
    Skipped(form, sem, answers, RoundFrom(form, sem, answers, skipped).visible, 0)
  }

  /** Each round hides the skipped pages, settles the rest and routes again, until the route stays. */
  function Rounds<V>(form: Form<V>, sem: Semantics<V>, answers: map<int, V>, skipped: set<nat>,
                     fuel: nat): (Marks, set<nat>)
    decreases fuel
  {
    var routed := RoutedFrom(form, sem, answers, skipped);
    if routed == skipped || fuel == 0 then (RoundFrom(form, sem, answers, skipped), routed)
    else Rounds(form, sem, answers, routed, fuel - 1)
  }

  predicate ValueAction(action: string) {
    action == "set_value" || action == "restrict_options" || action == MESSAGE
  }

  /** The visible questions whose value-style action takes effect; decided once, after everything settled. */
  predicate Fires<V>(form: Form<V>, sem: Semantics<V>, answers: map<int, V>, visible: set<nat>, i: nat)
    requires i < |form|
  {
    && i in visible && form[i].condition.When? && ValueAction(form[i].condition.action)
    && form[i].condition.payload != Nothing && Holds(form, sem, answers, visible, i)
  }

  function Compute<V>(form: Form<V>, sem: Semantics<V>, answers: map<int, V>): Layout {
    var (m, skipped) := Rounds(form, sem, answers, {}, PageOf(form, |form|) + 1);
    var fires := set i | i in m.visible && i < |form| && Fires(form, sem, answers, m.visible, i);
    Layout(m.visible, m.forced, skipped, fires)
  }

  // ----- forms that behave alike ---------------------------------------------------------------------------------

  /** An action that changes nothing about a question when its condition always holds. */
  predicate Harmless<V>(c: Condition<V>) {
    c.Always? || (c.action != "hide" && c.action != "require" && c.action != "optional"
        && !(ValueAction(c.action) && c.payload != Nothing))
  }

  /** Nothing ever comes of the condition: there is none, or it is a route that leads nowhere. */
  predicate Idle<V>(f: Form<V>, i: nat)
    requires i < |f|
  {
    f[i].condition.Always? || (f[i].condition.action == SKIP && TargetPage(f, i).None?)
  }

  /**
   At position `i` the two forms ask the same of their answers, whatever is visible; or the second has dropped a
   condition without effect; or neither condition ever does anything.
   */
  ghost predicate TwinAt<V>(f: Form<V>, a: map<int, V>, g: Form<V>, b: map<int, V>, sem: Semantics<V>, i: nat)
    requires i < |f| == |g|
  {
    && f[i].isBreak == g[i].isBreak
    && ((Idle(f, i) && Idle(g, i)) || SameEffect(f, a, g, b, sem, i))
  }

  ghost predicate SameEffect<V>(f: Form<V>, a: map<int, V>, g: Form<V>, b: map<int, V>, sem: Semantics<V>, i: nat)
    requires i < |f| == |g|
  {
    && (forall visible :: Holds(f, sem, a, visible, i) == Holds(g, sem, b, visible, i))
    && (forall visible :: RoutesNow(f, sem, a, visible, i) == RoutesNow(g, sem, b, visible, i))
    && (if f[i].condition.When? && g[i].condition.When? then
          && f[i].condition.action == g[i].condition.action
          && (f[i].condition.payload == Nothing <==> g[i].condition.payload == Nothing)
          && (f[i].condition.action == SKIP ==> TargetPage(f, i) == TargetPage(g, i))
        else g[i].condition.Always? && Harmless(f[i].condition))
  }

  ghost predicate Twins<V>(f: Form<V>, a: map<int, V>, g: Form<V>, b: map<int, V>, sem: Semantics<V>) {
    |f| == |g| && forall i :: 0 <= i < |f| ==> TwinAt(f, a, g, b, sem, i)
  }

  /** A question whose `show` condition was dropped is visible unless its page is skipped. */
  ghost predicate Standing<V>(f: Form<V>, g: Form<V>, hidden: set<nat>, visible: set<nat>)
    requires |f| == |g|
  {
    forall j :: 0 <= j < |f| && f[j].condition.When? && g[j].condition.Always? && j !in hidden ==> j in visible
  }

  lemma TwinMarks<V>(f: Form<V>, a: map<int, V>, g: Form<V>, b: map<int, V>, sem: Semantics<V>, hidden: set<nat>,
          seen: set<nat>, m: Marks, i: nat)
    requires Twins(f, a, g, b, sem) && i < |f| && Standing(f, g, hidden, m.visible)
    ensures Marked(f, sem, a, hidden, seen, m, i) == Marked(g, sem, b, hidden, seen, m, i)
    ensures Standing(f, g, hidden, Marked(f, sem, a, hidden, seen, m, i).visible)
  {
    assert TwinAt(f, a, g, b, sem, i);
    if !(Idle(f, i) && Idle(g, i)) {
      assert Holds(f, sem, a, seen, i) == Holds(g, sem, b, seen, i);
    }
  }

  lemma {:induction false} TwinPasses<V>(f: Form<V>, a: map<int, V>, g: Form<V>, b: map<int, V>, sem: Semantics<V>,
          hidden: set<nat>, seen: set<nat>, m: Marks, i: nat)
    requires Twins(f, a, g, b, sem) && i <= |f| && Standing(f, g, hidden, m.visible)
    ensures Pass(f, sem, a, hidden, seen, m, i) == Pass(g, sem, b, hidden, seen, m, i)
    ensures Standing(f, g, hidden, Pass(f, sem, a, hidden, seen, m, i).visible)
  {
    if i == 0 {
    } else {
      TwinPasses(f, a, g, b, sem, hidden, seen, m, i - 1);
      TwinMarks(f, a, g, b, sem, hidden, seen, Pass(f, sem, a, hidden, seen, m, i - 1), i - 1);
    }
  }

  lemma {:induction false} TwinSettles<V>(f: Form<V>, a: map<int, V>, g: Form<V>, b: map<int, V>, sem: Semantics<V>,
          hidden: set<nat>, m: Marks, fuel: nat)
    requires Twins(f, a, g, b, sem) && Standing(f, g, hidden, m.visible)
    ensures Settle(f, sem, a, hidden, m, fuel) == Settle(g, sem, b, hidden, m, fuel)
    decreases fuel
  {
    if fuel == 0 {
    } else {
      TwinPasses(f, a, g, b, sem, hidden, m.visible, m.(changed := false), |f|);
      var next := Pass(f, sem, a, hidden, m.visible, m.(changed := false), |f|);
      if next.changed { TwinSettles(f, a, g, b, sem, hidden, next, fuel - 1); }
    }
  }

  lemma InUpTo(n: nat)
    ensures forall i :: 0 <= i < n ==> i in UpTo(n)
  {
  }

  lemma {:induction false} TwinPages<V>(f: Form<V>, g: Form<V>, page: nat, i: nat)
    requires i <= |f| == |g| && forall j :: 0 <= j < |f| ==> f[j].isBreak == g[j].isBreak
    ensures PageOf(f, i) == PageOf(g, i) && BreakOf(f, page, i) == BreakOf(g, page, i)
  {
    if i == 0 {
    } else {
      TwinPages(f, g, page, i - 1);
    }
  }

  lemma TwinBreaks<V>(f: Form<V>, a: map<int, V>, g: Form<V>, b: map<int, V>, sem: Semantics<V>)
    requires Twins(f, a, g, b, sem)
    ensures forall i :: 0 <= i <= |f| ==> PageOf(f, i) == PageOf(g, i)
    ensures forall page :: BreakOf(f, page, |f|) == BreakOf(g, page, |f|)
  {
    forall j | 0 <= j < |f| ensures f[j].isBreak == g[j].isBreak { assert TwinAt(f, a, g, b, sem, j); }
    forall i | 0 <= i <= |f| ensures PageOf(f, i) == PageOf(g, i) { TwinPages(f, g, 0, i); }
    forall page ensures BreakOf(f, page, |f|) == BreakOf(g, page, |f|) { TwinPages(f, g, page, |f|); }
  }

  lemma {:induction false} TwinSkips<V>(f: Form<V>, a: map<int, V>, g: Form<V>, b: map<int, V>, sem: Semantics<V>,
          visible: set<nat>, current: nat)
    requires Twins(f, a, g, b, sem)
    ensures Skipped(f, sem, a, visible, current) == Skipped(g, sem, b, visible, current)
    decreases PageOf(f, |f|) - current
  {
    TwinBreaks(f, a, g, b, sem);
    if current >= PageOf(f, |f|) {
    } else {
      var following := current + 1;
      TwinSkips(f, a, g, b, sem, visible, following);
      var br := BreakOf(f, following, |f|);
      if br.Some? {
        assert TwinAt(f, a, g, b, sem, br.value);
        assert (Idle(f, br.value) && Idle(g, br.value))
            || RoutesNow(f, sem, a, visible, br.value) == RoutesNow(g, sem, b, visible, br.value);
        var target := TargetPage(f, br.value);
        if target.Some? && target.value > following {
          TwinSkips(f, a, g, b, sem, visible, target.value);
        }
      }
    }
  }

  lemma {:induction false} TwinRounds<V>(f: Form<V>, a: map<int, V>, g: Form<V>, b: map<int, V>, sem: Semantics<V>,
          skipped: set<nat>, fuel: nat)
    requires Twins(f, a, g, b, sem)
    ensures Rounds(f, sem, a, skipped, fuel) == Rounds(g, sem, b, skipped, fuel)
    decreases fuel
  {
    TwinBreaks(f, a, g, b, sem);
    assert OnPages(f, skipped) == OnPages(g, skipped);
    var hidden := OnPages(f, skipped);
    InUpTo(|f|);
    TwinSettles(f, a, g, b, sem, hidden, Start(f, hidden), |f| + 1);
    TwinSkips(f, a, g, b, sem, RoundFrom(f, sem, a, skipped).visible, 0);
    if fuel == 0 {
    } else {
      TwinRounds(f, a, g, b, sem, RoutedFrom(f, sem, a, skipped), fuel - 1);
    }
  }

  /** Forms that ask the same of their answers position by position have the same layout. */
  lemma TwinsLookAlike<V>(f: Form<V>, a: map<int, V>, g: Form<V>, b: map<int, V>, sem: Semantics<V>)
    requires Twins(f, a, g, b, sem)
    ensures Compute(f, sem, a) == Compute(g, sem, b)
  {
    TwinBreaks(f, a, g, b, sem);
    TwinRounds(f, a, g, b, sem, {}, PageOf(f, |f|) + 1);
    var m := Rounds(f, sem, a, {}, PageOf(f, |f|) + 1).0;
    forall i | 0 <= i < |f| ensures Fires(f, sem, a, m.visible, i) == Fires(g, sem, b, m.visible, i) {
      assert TwinAt(f, a, g, b, sem, i);
      assert (Idle(f, i) && Idle(g, i)) || Holds(f, sem, a, m.visible, i) == Holds(g, sem, b, m.visible, i);
    }
  }
}
