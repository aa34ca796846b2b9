/** Building a form from another one's questions, and what the copy shares with its source. */
module FormCopy {
  import opened Conditions
  import opened CopyContents
  import opened Definition
  import opened Layout
  import opened Options

  /** Where each old question went; of two questions with the same old id the later one counts. */
  function IdMap<V>(src: Form<V>, ids: seq<nat>, n: nat): map<int, nat>
    requires n <= |src| == |ids|
  {
    if n == 0 then map[]
    else
      var before := IdMap(src, ids, n - 1);
      if src[n - 1].id.Some? then before[src[n - 1].id.value := ids[n - 1]] else before
  }

  /** The question as the copy stores it before its references are renamed. */
  function Placed<V>(q: Question<V>, id: nat, order: nat): Question<V> {
    q.(id := Some(id), order := order)
  }

  function CopyOf<V>(src: Form<V>, ids: seq<nat>, i: nat): Question<V>
    requires i < |src| == |ids|
  {
    RemapQuestion(Placed(src[i], ids[i], i + 1), IdMap(src, ids, |src|))
  }

  /** The questions of the copy. */
  function Copy<V>(src: Form<V>, ids: seq<nat>): (copy: Form<V>)
    requires |src| == |ids|
    ensures |copy| == |src|
  {
    seq(|src|, i requires 0 <= i < |src| => CopyOf(src, ids, i))
  }

  predicate Increasing(ids: seq<nat>) {
    forall i, j :: 0 <= i < j < |ids| ==> ids[i] < ids[j]
  }

  // ----- the id map --------------------------------------------------------------------------------------------

  lemma {:induction false} IdMapFinds<V>(src: Form<V>, ids: seq<nat>, n: nat, k: int)
    requires n <= |src| == |ids|
    ensures k in IdMap(src, ids, n) <==> exists i :: 0 <= i < n && src[i].id == Some(k)
    ensures k in IdMap(src, ids, n) ==> exists i ::
        0 <= i < n && src[i].id == Some(k) && IdMap(src, ids, n)[k] == ids[i]
  {
    if n == 0 {
    } else {
      IdMapFinds(src, ids, n - 1, k);
      if src[n - 1].id == Some(k) {
        assert IdMap(src, ids, n)[k] == ids[n - 1];
      }
    }
  }

  /**
   However the old ids look, even repeated or overlapping the new ones, no two of them are sent to the same new
   question.
   */
  lemma IdMapIsOneToOne<V>(src: Form<V>, ids: seq<nat>)
    requires |src| == |ids| && Increasing(ids)
    ensures var m := IdMap(src, ids, |src|);
      && (forall j, k :: j in m && k in m && j != k ==> m[j] != m[k])
      && m.Values <= set id | id in ids
  {
    var m := IdMap(src, ids, |src|);
    forall k | k in m
        ensures exists i :: 0 <= i < |src| && src[i].id == Some(k) && m[k] == ids[i] { IdMapFinds(src, ids, |src|, k); }
    forall j, k | j in m && k in m && j != k ensures m[j] != m[k] {
      var x :| 0 <= x < |src| && src[x].id == Some(j) && m[j] == ids[x];
      var y :| 0 <= y < |src| && src[y].id == Some(k) && m[k] == ids[y];
      assert x < y || y < x;
    }
  }

  /** The source's own questions: each has an id, and no two share one. */
  ghost predicate Identified<V>(src: Form<V>) {
    && (forall i :: 0 <= i < |src| ==> src[i].id.Some?)
    && (forall i, j :: 0 <= i < j < |src| ==> src[i].id != src[j].id)
  }

  lemma IdMapAt<V>(src: Form<V>, ids: seq<nat>)
    requires |src| == |ids| && Identified(src)
    ensures forall i :: 0 <= i < |src| ==>
        src[i].id.value in IdMap(src, ids, |src|) && IdMap(src, ids, |src|)[src[i].id.value] == ids[i]
    ensures forall k :: k in IdMap(src, ids, |src|) ==> exists i :: 0 <= i < |src| && src[i].id == Some(k)
  {
    forall i | 0 <= i < |src|
        ensures src[i].id.value in IdMap(src, ids, |src|) && IdMap(src, ids, |src|)[src[i].id.value] == ids[i] {
      IdMapFinds(src, ids, |src|, src[i].id.value);
    }
    forall k | k in IdMap(src, ids, |src|)
        ensures exists i :: 0 <= i < |src| && src[i].id == Some(k) { IdMapFinds(src, ids, |src|, k); }
  }

  // ----- the copy points only at itself --------------------------------------------------------------------------

  /**
   Whatever the source looked like, every condition, comparison and skip target of the copy is one of the copy's own
   questions.
   */
  lemma CopyPointsInside<V>(src: Form<V>, ids: seq<nat>, i: nat)
    requires |src| == |ids| && Increasing(ids) && i < |src|
    ensures ConditionInside(Copy(src, ids)[i].condition, set id | id in ids)
    ensures var cross := Copy(src, ids)[i].cross;
      cross.Some? ==> cross.value != [] && forall r :: r in cross.value ==>
          TargetOf(r).Some? && TargetOf(r).value in ids
  {
    var m := IdMap(src, ids, |src|);
    IdMapIsOneToOne(src, ids);
    RemappedInside(src[i].condition, m);
    if src[i].cross.Some? {
      CrossInside(src[i].cross.value, m);
      forall r | r in RemapCross(src[i].cross.value, m)
          ensures TargetOf(r).value in ids { assert TargetOf(r).value in m.Values; }
    }
  }

  lemma {:induction false} CrossInside<V>(rules: seq<CrossRule<V>>, m: map<int, nat>)
    ensures forall r :: r in RemapCross(rules, m) ==> TargetOf(r).Some? && TargetOf(r).value in m.Values
  {
    if rules == [] {
    } else {
      CrossInside(rules[1..], m);
      var target := TargetOf(rules[0]);
      if target.Some? && target.value in m { DecReadsBack(m[target.value]); }
    }
  }

  // ----- the copy behaves like its source ------------------------------------------------------------------------

  /**
   Every condition that can do anything has its references resolved, and is without effect when it can never be
   evaluated.
   */
  ghost predicate Sound<V>(src: Form<V>, m: map<int, nat>) {
    forall i :: 0 <= i < |src| ==> SoundAt(src, m, i)
  }

  ghost predicate SoundAt<V>(src: Form<V>, m: map<int, nat>, i: nat)
    requires i < |src|
  {
    var c := src[i].condition;
    Idle(src, i) || (RefsMapped(c.root, m) && (Evaluable(c) || Harmless(c)))
  }

  lemma SeenAt<V>(form: Form<V>, visible: set<nat>, p: nat)
    requires Identified(form) && p < |form|
    ensures IsSeen(form, visible, form[p].id.value) <==> p in visible
  {
  }

  lemma CopyIdentified<V>(src: Form<V>, ids: seq<nat>)
    requires |src| == |ids| && Increasing(ids)
    ensures Identified(Copy(src, ids)) && forall p :: 0 <= p < |src| ==> Copy(src, ids)[p].id == Some(ids[p] as int)
  {
  }

  lemma SeenAlike<V>(src: Form<V>, ids: seq<nat>, answers: map<int, V>, after: map<int, V>, visible: set<nat>)
    requires |src| == |ids| && Increasing(ids) && Identified(src)
    requires SameAnswers(IdMap(src, ids, |src|), answers, after)
    ensures SameAnswers(IdMap(src, ids, |src|), Seen(src, answers, visible), Seen(Copy(src, ids), after, visible))
  {
    var m := IdMap(src, ids, |src|);
    IdMapAt(src, ids);
    CopyIdentified(src, ids);
    forall x | x in m ensures Get(Seen(Copy(src, ids), after, visible), m[x]) == Get(Seen(src, answers, visible), x) {
      var p :| 0 <= p < |src| && src[p].id == Some(x);
      SeenAt(src, visible, p);
      SeenAt(Copy(src, ids), visible, p);
      assert Get(after, m[x]) == Get(answers, x);
    }
  }

  lemma CopyShape<V>(src: Form<V>, ids: seq<nat>, j: nat)
    requires j < |src| == |ids|
    ensures Copy(src, ids)[j].isBreak == src[j].isBreak && Copy(src, ids)[j].id == Some(ids[j] as int)
  {
  }

  lemma {:induction false} SamePages<V>(f: Form<V>, g: Form<V>, x: int, y: int, n: nat)
    requires n <= |f| == |g|
    requires forall j :: 0 <= j < |f| ==> f[j].isBreak == g[j].isBreak && (f[j].id == Some(x) <==> g[j].id == Some(y))
    ensures PageStarting(f, x, n) == PageStarting(g, y, n) && PageOf(f, n) == PageOf(g, n)
  {
    if n == 0 {
    } else {
      SamePages(f, g, x, y, n - 1);
    }
  }

  /** The page a question starts in the source is the one its copy starts in the copy. */
  lemma SamePageStarting<V>(src: Form<V>, ids: seq<nat>, p: nat)
    requires |src| == |ids| && Increasing(ids) && Identified(src) && p < |src|
    ensures PageStarting(Copy(src, ids), ids[p], |src|) == PageStarting(src, src[p].id.value, |src|)
  {
    forall j | 0 <= j < |src|
      ensures src[j].isBreak == Copy(src, ids)[j].isBreak
      ensures src[j].id == src[p].id <==> Copy(src, ids)[j].id == Some(ids[p] as int)
    {
      CopyShape(src, ids, j);
      assert j != p ==> ids[j] != ids[p] && src[j].id != src[p].id;
    }
    SamePages(src, Copy(src, ids), src[p].id.value, ids[p], |src|);
  }

  /** Whatever is visible, the copied condition holds, and routes, exactly when the original does. */
  lemma CopyJudgesAlike<V>(src: Form<V>, ids: seq<nat>, sem: Semantics<V>, answers: map<int, V>, after: map<int, V>,
          i: nat, visible: set<nat>)
    requires |src| == |ids| && Increasing(ids) && Identified(src) && i < |src|
        && ConditionMapped(src[i].condition, IdMap(src, ids, |src|))
    requires SameAnswers(IdMap(src, ids, |src|), answers, after)
    ensures Holds(src, sem, answers, visible, i) == Holds(Copy(src, ids), sem, after, visible, i)
    ensures RoutesNow(src, sem, answers, visible, i) == RoutesNow(Copy(src, ids), sem, after, visible, i)
  {
    var m := IdMap(src, ids, |src|);
    var c := src[i].condition;
    var (before, renamed) := (Seen(src, answers, visible), Seen(Copy(src, ids), after, visible));
    SeenAlike(src, ids, answers, after, visible);
    assert Copy(src, ids)[i].condition == RemapCondition(c, m);
    RoutesAlike(c, m, sem, before, renamed);
  }

  lemma RoutesAlike<V>(c: Condition<V>, m: map<int, nat>, sem: Semantics<V>, before: map<int, V>, after: map<int, V>)
    requires ConditionMapped(c, m) && SameAnswers(m, before, after)
    ensures var d := RemapCondition(c, m);
      && Satisfied(d, sem, after) == Satisfied(c, sem, before)
      && (d.When? ==> c.When? && d.action == c.action)
      && (d.When? ==> Eval(d.root, Judge(sem, after)) == Eval(c.root, Judge(sem, before)))
      && (d.Always? && c.When? ==> Eval(c.root, Judge(sem, before)) == None)
  {
    ConditionKeepsMeaning(c, m, sem, before, after);
    if c.When? { RemapKeepsMeaning(c.root, m, sem, before, after); }
  }

  lemma SkipTargetRenamed<V>(c: Condition<V>, m: map<int, nat>)
    requires c.When? && c.action == SKIP && RemapCondition(c, m).When?
    ensures c.payload.Target? && c.payload.id in m && RemapCondition(c, m).payload == Target(m[c.payload.id])
  {
  }

  lemma PositionOf<V>(src: Form<V>, ids: seq<nat>, x: int) returns (p: nat)
    requires |src| == |ids| && Identified(src) && x in IdMap(src, ids, |src|)
    ensures p < |src| && src[p].id == Some(x) && IdMap(src, ids, |src|)[x] == ids[p]
  {
    IdMapFinds(src, ids, |src|, x);
    p :| 0 <= p < |src| && src[p].id == Some(x) && IdMap(src, ids, |src|)[x] == ids[p];
  }

  lemma TargetsAlike<V>(src: Form<V>, ids: seq<nat>, i: nat)
    requires |src| == |ids| && Increasing(ids) && Identified(src) && i < |src|
    requires src[i].condition.When? && src[i].condition.action == SKIP
        && RemapCondition(src[i].condition, IdMap(src, ids, |src|)).When?
    ensures TargetPage(src, i) == TargetPage(Copy(src, ids), i)
  {
    var m := IdMap(src, ids, |src|);
    var c := src[i].condition;
    SkipTargetRenamed(c, m);
    var p := PositionOf(src, ids, c.payload.id);
    SamePageStarting(src, ids, p);
    CopiedCondition(src, ids, i);
  }

  lemma CopiedCondition<V>(src: Form<V>, ids: seq<nat>, i: nat)
    requires |src| == |ids| && i < |src|
    ensures Copy(src, ids)[i].condition == RemapCondition(src[i].condition, IdMap(src, ids, |src|))
  {
  }

  /** The copied condition has the same action; or it is gone, and it was without effect. */
  lemma ShapeAlike<V>(c: Condition<V>, m: map<int, nat>)
    requires ConditionMapped(c, m) && (Evaluable(c) || Harmless(c))
    ensures var d := RemapCondition(c, m);
      if c.When? && d.When? then d.action == c.action && (d.payload == Nothing <==> c.payload == Nothing)
      else d.Always? && Harmless(c)
  {
    if c.When? {
      RemapSurvives(c.root, m);
      assert forall t :: t in Tests(c.root) ==> (RemapTest(t, m).Some? <==> t.field.Some?);
    }
  }

  lemma {:induction false} PageStartsSomewhere<V>(form: Form<V>, id: int, n: nat)
    requires n <= |form| && PageStarting(form, id, n).Some?
    ensures exists p :: 0 <= p < |form| && form[p].id == Some(id)
  {
    if form[n - 1].isBreak && form[n - 1].id == Some(id) {
    } else {
      PageStartsSomewhere(form, id, n - 1);
    }
  }

  /** A route that leads somewhere leads to a question that comes along. */
  lemma LiveConditionMapped<V>(src: Form<V>, ids: seq<nat>, i: nat)
    requires |src| == |ids| && i < |src| && !Idle(src, i) && RefsMapped(src[i].condition.root, IdMap(src, ids, |src|))
    ensures ConditionMapped(src[i].condition, IdMap(src, ids, |src|))
  {
    var c := src[i].condition;
    if c.action == SKIP {
      PageStartsSomewhere(src, c.payload.id, |src|);
      IdMapFinds(src, ids, |src|, c.payload.id);
    }
  }

  /** A condition that never does anything is copied as one. */
  lemma IdleStaysIdle<V>(src: Form<V>, ids: seq<nat>, i: nat)
    requires |src| == |ids| && Increasing(ids) && Identified(src) && i < |src| && Idle(src, i)
    ensures Idle(Copy(src, ids), i)
  {
    CopiedCondition(src, ids, i);
    var c := src[i].condition;
    if c.When? && RemapCondition(c, IdMap(src, ids, |src|)).When? { TargetsAlike(src, ids, i); }
  }

  lemma CopyHasSameEffect<V>(src: Form<V>, ids: seq<nat>, sem: Semantics<V>, answers: map<int, V>, after: map<int, V>,
          i: nat)
    requires |src| == |ids| && Increasing(ids) && Identified(src) && i < |src|
    requires ConditionMapped(src[i].condition, IdMap(src, ids, |src|))
        && (Evaluable(src[i].condition) || Harmless(src[i].condition))
    requires SameAnswers(IdMap(src, ids, |src|), answers, after)
    ensures SameEffect(src, answers, Copy(src, ids), after, sem, i)
  {
    var c := src[i].condition;
    forall visible
      ensures Holds(src, sem, answers, visible, i) == Holds(Copy(src, ids), sem, after, visible, i)
      ensures RoutesNow(src, sem, answers, visible, i) == RoutesNow(Copy(src, ids), sem, after, visible, i)
    {
      CopyJudgesAlike(src, ids, sem, answers, after, i, visible);
    }
    ShapeAlike(c, IdMap(src, ids, |src|));
    CopiedCondition(src, ids, i);
    if c.When? && c.action == SKIP && RemapCondition(c, IdMap(src, ids, |src|)).When? {
      TargetsAlike(src, ids, i);
    }
  }

  lemma CopyIsTwinAt<V>(src: Form<V>, ids: seq<nat>, sem: Semantics<V>, answers: map<int, V>, after: map<int, V>,
          i: nat)
    requires |src| == |ids| && Increasing(ids) && Identified(src) && i < |src|
        && SoundAt(src, IdMap(src, ids, |src|), i)
    requires SameAnswers(IdMap(src, ids, |src|), answers, after)
    ensures TwinAt(src, answers, Copy(src, ids), after, sem, i)
  {
    if Idle(src, i) {
      IdleStaysIdle(src, ids, i);
    } else {
      LiveConditionMapped(src, ids, i);
      CopyHasSameEffect(src, ids, sem, answers, after, i);
    }
  }

  lemma CopyIsTwin<V>(src: Form<V>, ids: seq<nat>, sem: Semantics<V>, answers: map<int, V>, after: map<int, V>)
    requires |src| == |ids| && Increasing(ids) && Identified(src) && Sound(src, IdMap(src, ids, |src|))
    requires SameAnswers(IdMap(src, ids, |src|), answers, after)
    ensures Twins(src, answers, Copy(src, ids), after, sem)
  {
    forall i | 0 <= i < |src| ensures TwinAt(src, answers, Copy(src, ids), after, sem, i) {
      CopyIsTwinAt(src, ids, sem, answers, after, i);
    }
  }

  /**
   The main result: answer the copy as the source is answered, and it looks the same. The same questions show, the
   same are forced required or optional, the same pages are skipped and the same values, options and messages apply.
   */
  lemma CopyLooksTheSame<V>(src: Form<V>, ids: seq<nat>, sem: Semantics<V>, answers: map<int, V>, after: map<int, V>)
    requires |src| == |ids| && Increasing(ids) && Identified(src) && Sound(src, IdMap(src, ids, |src|))
    requires SameAnswers(IdMap(src, ids, |src|), answers, after)
    ensures Compute(Copy(src, ids), sem, after) == Compute(src, sem, answers)
  {
    CopyIsTwin(src, ids, sem, answers, after);
    TwinsLookAlike(src, answers, Copy(src, ids), after, sem);
  }

  ghost predicate CameFrom(m: map<int, nat>, x: int, y: int) {
    x in m && m[x] == y
  }

  ghost function Origin(m: map<int, nat>, y: int): int
    requires exists x :: CameFrom(m, x, y)
  {
    var x :| CameFrom(m, x, y); x
  }

  /** The answers as the copy would hold them. */
  ghost function RenamedAnswers<V>(m: map<int, nat>, answers: map<int, V>): map<int, V> {
    var keys := set x | x in m && x in answers :: m[x] as int;
    map y | y in keys && (exists x :: CameFrom(m, x, y)) && Origin(m, y) in answers :: answers[Origin(m, y)]
  }

  /** Any answers to the source can be given to the copy. */
  lemma AnswersCanBeRenamed<V>(src: Form<V>, ids: seq<nat>, answers: map<int, V>)
    requires |src| == |ids| && Increasing(ids)
    ensures var m := IdMap(src, ids, |src|); SameAnswers(m, answers, RenamedAnswers(m, answers))
  {
    IdMapIsOneToOne(src, ids);
    var m := IdMap(src, ids, |src|);
    forall x | x in m ensures Get(RenamedAnswers(m, answers), m[x]) == Get(answers, x) {
      assert CameFrom(m, x, m[x]);
      assert Origin(m, m[x]) == x;
    }
  }

  // ----- export, import, export ------------------------------------------------------------------------------------

  /** From the copy's ids back to the source's. */
  ghost function Back<V>(src: Form<V>, ids: seq<nat>, n: nat): map<int, nat>
    requires n <= |src| == |ids|
    requires forall i :: 0 <= i < |src| ==> src[i].id.Some? && src[i].id.value >= 0
  {
    if n == 0 then map[] else Back(src, ids, n - 1)[ids[n - 1] := src[n - 1].id.value]
  }

  lemma {:induction false} BackUndoes<V>(src: Form<V>, ids: seq<nat>, n: nat)
    requires n <= |src| == |ids| && Increasing(ids)
    requires forall i :: 0 <= i < |src| ==> src[i].id.Some? && src[i].id.value >= 0
    ensures forall i :: 0 <= i < n ==> ids[i] in Back(src, ids, n) && Back(src, ids, n)[ids[i]] == src[i].id.value
  {
    if n == 0 {
    } else {
      BackUndoes(src, ids, n - 1);
    }
  }

  lemma BackUndoesMap<V>(src: Form<V>, ids: seq<nat>)
    requires |src| == |ids| && Increasing(ids) && Identified(src)
    requires forall j :: 0 <= j < |src| ==> src[j].id.value >= 0
    ensures Undoes(Back(src, ids, |src|), IdMap(src, ids, |src|))
  {
    var m := IdMap(src, ids, |src|);
    BackUndoes(src, ids, |src|);
    forall x | x in m ensures m[x] in Back(src, ids, |src|) && Back(src, ids, |src|)[m[x]] == x {
      var p := PositionOf(src, ids, x);
    }
  }

  lemma RenumberedRemap<V>(q: Question<V>, id: Option<int>, order: int, m: map<int, nat>)
    ensures RemapQuestion(q.(id := id, order := order), m) == RemapQuestion(q, m).(id := id, order := order)
  {
  }

  lemma PlacedThereAndBack<V>(q: Question<V>, id: nat, order: nat, m: map<int, nat>, back: map<int, nat>)
    requires Closed(q, m.Keys) && Undoes(back, m)
    ensures RemapQuestion(RemapQuestion(Placed(q, id, order), m), back).(id := q.id, order := q.order)
        == CanonicalQuestion(q)
  {
    RenumberedRemap(q, Some(id), order, m);
    RenumberedRemap(RemapQuestion(q, m), Some(id), order, back);
    ThereAndBack(q, m, back);
  }

  lemma CopyAt<V>(src: Form<V>, ids: seq<nat>, i: nat)
    requires |src| == |ids| && i < |src|
    ensures Copy(src, ids)[i] == CopyOf(src, ids, i)
  {
  }

  /**
   Exporting what was imported gives back what was exported: renamed back to the old ids and put back in its old
   place, every question of the copy is the source's question with its text references written canonically.
   */
  lemma ExportImportExport<V>(src: Form<V>, ids: seq<nat>, i: nat)
    requires |src| == |ids| && Increasing(ids) && Identified(src) && i < |src|
    requires forall j :: 0 <= j < |src| ==> src[j].id.value >= 0
    requires Closed(src[i], IdMap(src, ids, |src|).Keys)
    ensures RemapQuestion(Copy(src, ids)[i], Back(src, ids, |src|)).(id := src[i].id, order := src[i].order)
        == CanonicalQuestion(src[i])
    ensures Copy(src, ids)[i].id == Some(ids[i]) && Copy(src, ids)[i].order == i + 1
  {
    BackUndoesMap(src, ids);
    CopyAt(src, ids, i);
    PlacedThereAndBack(src[i], ids[i], i + 1, IdMap(src, ids, |src|), Back(src, ids, |src|));
  }

  // ----- building the copy -------------------------------------------------------------------------------------------

  /** The stored questions of every form. */
  class QuestionTable<V> {
    var table: map<nat, Question<V>>
    var next: nat

    ghost predicate Valid()
      reads this
    {
      forall id :: id in table ==> id < next
    }

    /** Stores the questions in order under the next ids. */
    method CreateRows(src: Form<V>) returns (ids: seq<nat>)
      requires Valid()
      modifies this
      ensures Valid() && next == old(next) + |src| && |ids| == |src|
      ensures forall i :: 0 <= i < |src| ==> ids[i] == old(next) + i
      ensures forall id :: id in table <==> id in old(table) || old(next) <= id < next
      ensures forall id :: id in old(table) ==> table[id] == old(table)[id]
      ensures forall i :: 0 <= i < |src| ==> table[old(next) + i] == Placed(src[i], old(next) + i, i + 1)
    {
      ghost var before := table;
      ghost var first := next;
      ids := [];
      for n := 0 to |src|
        invariant |ids| == n && next == first + n
        invariant forall i :: 0 <= i < n ==> ids[i] == first + i
        invariant forall id :: id in table <==> id in before || first <= id < next
        invariant forall id :: id in before ==> id < first && table[id] == before[id]
        invariant forall i :: 0 <= i < n ==> table[first + i] == Placed(src[i], first + i, i + 1)
      {
        table := table[next := Placed(src[n], next, n + 1)];
        ids := ids + [next];
        next := next + 1;
      }
    }

    /** Stores the questions in order under fresh ids, references still pointing at the source. */
    method CreateAll(src: Form<V>) returns (ids: seq<nat>)
      requires Valid()
      modifies this
      ensures Valid() && |ids| == |src| && Increasing(ids) && forall i :: 0 <= i < |ids| ==> ids[i] >= old(next)
      ensures OnlyAdded(old(table), table, ids)
      ensures forall i :: 0 <= i < |src| ==> table[ids[i]] == Placed(src[i], ids[i], i + 1)
    {
      ghost var first := next;
      ids := CreateRows(src);
      InOrder(ids, first);
      assert forall id :: id in ids <==> first <= id < next;
    }

    /** Rewrites the references of the stored copies. */
    method RemapEach(ids: seq<nat>, m: map<int, nat>)
      requires Increasing(ids) && forall i :: 0 <= i < |ids| ==> ids[i] in table
      modifies this`table
      ensures table.Keys == old(table).Keys
      ensures forall id :: id in old(table) && id !in ids ==> table[id] == old(table)[id]
      ensures forall i :: 0 <= i < |ids| ==> table[ids[i]] == RemapQuestion(old(table)[ids[i]], m)
    {
      ghost var before := table;
      for n := 0 to |ids|
        invariant table.Keys == before.Keys
        invariant forall id :: id in before && id !in ids ==> table[id] == before[id]
        invariant forall i :: n <= i < |ids| ==> table[ids[i]] == before[ids[i]]
        invariant forall i :: 0 <= i < n ==> table[ids[i]] == RemapQuestion(before[ids[i]], m)
      {
        var remapped := RemapQuestion(table[ids[n]], m);
        assert remapped == RemapQuestion(before[ids[n]], m);
        table := table[ids[n] := remapped];
      }
    }

    /** Stores the questions and rewrites their references. */
    method StoreCopies(src: Form<V>) returns (ids: seq<nat>, m: map<int, nat>)
      requires Valid()
      modifies this
      ensures Valid() && |ids| == |src| && Increasing(ids) && forall i :: 0 <= i < |ids| ==> ids[i] >= old(next)
      ensures OnlyAdded(old(table), table, ids) && m == IdMap(src, ids, |src|)
      ensures forall i :: 0 <= i < |src| ==> table[ids[i]] == Copy(src, ids)[i]
    {
      ids := CreateAll(src);
      m := BuildIdMap(src, ids);
      ghost var placed := table;
      RemapEach(ids, m);
      forall i | 0 <= i < |src| ensures table[ids[i]] == Copy(src, ids)[i] {
        assert table[ids[i]] == RemapQuestion(placed[ids[i]], m);
      }
    }

    /**
     Copies the questions into the table. Of the Club ID mapping, the entries whose question came along stay, each
     pointing at the copy of that question: the last one that had the old id.
     */
    method Materialize(src: Form<V>, club: map<string, int>)
      returns (ids: seq<nat>, mapping: map<string, nat>, ghost names: map<int, nat>)
      requires Valid()
      modifies this
      ensures Valid() && |ids| == |src| && Increasing(ids) && forall i :: 0 <= i < |ids| ==> ids[i] >= old(next)
      ensures OnlyAdded(old(table), table, ids)
      ensures forall i :: 0 <= i < |src| ==> table[ids[i]] == Copy(src, ids)[i]
      ensures forall k :: k in mapping <==> k in club && exists i :: 0 <= i < |src| && src[i].id == Some(club[k])
      ensures forall k :: k in mapping ==>
          exists i :: 0 <= i < |src| && mapping[k] == ids[i] && LastWith(src, i, club[k])
      ensures NewNames(src, ids, names) && forall i :: 0 <= i < |src| ==>
          QuestionRenamed(src[i].(id := Some(ids[i]), order := i + 1), table[ids[i]], names)
    {
      var m;
      ids, m := StoreCopies(src);
      IdMapNames(src, ids);
      CopiesRenamed(src, ids);
      names := m;
      mapping := FollowMapping(src, ids, m, club);
    }
  }

  /** The Club ID entries whose question came along, pointing at the copies. */
  method FollowMapping<V>(src: Form<V>, ids: seq<nat>, m: map<int, nat>, club: map<string, int>)
    returns (mapping: map<string, nat>)
    requires |src| == |ids| && m == IdMap(src, ids, |src|)
    ensures forall k :: k in mapping <==> k in club && exists i :: 0 <= i < |src| && src[i].id == Some(club[k])
    ensures forall k :: k in mapping ==>
        exists i :: 0 <= i < |src| && mapping[k] == ids[i] && LastWith(src, i, club[k])
  {
    mapping := map k | k in club && club[k] in m :: m[club[k]];
    forall k | k in club
      ensures k in mapping <==> exists i :: 0 <= i < |src| && src[i].id == Some(club[k])
      ensures k in mapping ==> exists i :: 0 <= i < |src| && mapping[k] == ids[i] && LastWith(src, i, club[k]) {
      IdMapFinds(src, ids, |src|, club[k]);
      if k in mapping { IdMapLast(src, ids, |src|, club[k]); }
    }
  }

  /** Every question of the copy is its original, renamed part by part. */
  lemma CopiesRenamed<V>(src: Form<V>, ids: seq<nat>)
    requires |src| == |ids|
    ensures forall i :: 0 <= i < |src| ==>
        QuestionRenamed(src[i].(id := Some(ids[i]), order := i + 1), Copy(src, ids)[i], IdMap(src, ids, |src|))
  {
    forall i | 0 <= i < |src|
      ensures QuestionRenamed(src[i].(id := Some(ids[i]), order := i + 1), Copy(src, ids)[i],
                              IdMap(src, ids, |src|)) {
      RenamingMeans(Placed(src[i], ids[i], i + 1), IdMap(src, ids, |src|));
    }
  }

  /** Of the questions with this old id, the one at `i` comes last. */
  ghost predicate LastWith<V>(src: Form<V>, i: nat, x: int)
    requires i < |src|
  {
    src[i].id == Some(x) && forall j :: i < j < |src| ==> src[j].id != Some(x)
  }

  /** Every old number goes to the copy of the last question that had it. */
  ghost predicate NewNames<V>(src: Form<V>, ids: seq<nat>, names: map<int, nat>)
    requires |src| == |ids|
  {
    && (forall x :: x in names <==> exists i :: 0 <= i < |src| && src[i].id == Some(x))
    && (forall x :: x in names ==> exists i :: 0 <= i < |src| && names[x] == ids[i] && LastWith(src, i, x))
  }

  lemma IdMapNames<V>(src: Form<V>, ids: seq<nat>)
    requires |src| == |ids|
    ensures NewNames(src, ids, IdMap(src, ids, |src|))
  {
    var m := IdMap(src, ids, |src|);
    forall x ensures x in m <==> exists i :: 0 <= i < |src| && src[i].id == Some(x) { IdMapFinds(src, ids, |src|, x); }
    forall x | x in m ensures exists i :: 0 <= i < |src| && m[x] == ids[i] && LastWith(src, i, x) {
      IdMapLast(src, ids, |src|, x);
    }
  }

  lemma {:induction false} IdMapLast<V>(src: Form<V>, ids: seq<nat>, n: nat, x: int)
    requires n <= |src| == |ids| && x in IdMap(src, ids, n)
    requires forall j :: n <= j < |src| ==> src[j].id != Some(x)
    ensures exists i :: 0 <= i < |src| && IdMap(src, ids, n)[x] == ids[i] && LastWith(src, i, x)
  {
    if n == 0 || src[n - 1].id == Some(x) {
      assert n > 0 ==> LastWith(src, n - 1, x);
    } else {
      IdMapLast(src, ids, n - 1, x);
    }
  }

  /** A stretch of numbers in order. */
  lemma InOrder(ids: seq<nat>, first: nat)
    requires forall i :: 0 <= i < |ids| ==> ids[i] == first + i
    ensures Increasing(ids) && forall id :: id in ids <==> first <= id < first + |ids|
  {
    forall id: nat | first <= id < first + |ids| ensures id in ids { assert ids[id - first] == id; }
  }

  /** The old questions are as they were, and exactly `ids` are new. */
  ghost predicate OnlyAdded<V>(before: map<nat, Question<V>>, after: map<nat, Question<V>>, ids: seq<nat>) {
    && (forall id :: id in after <==> id in before || id in ids)
    && (forall id :: id in before ==> id !in ids && after[id] == before[id])
  }

  method BuildIdMap<V>(src: Form<V>, ids: seq<nat>) returns (m: map<int, nat>)
    requires |src| == |ids|
    ensures m == IdMap(src, ids, |src|)
  {
    m := map[];
    for n := 0 to |src|
      invariant m == IdMap(src, ids, n)
    {
      if src[n].id.Some? {
        m := m[src[n].id.value := ids[n]];
      }
    }
  }
}
