/** Comparing a restored form with the version it was restored to. */
module RestoredDiff {
  import opened FormHistory
  import opened FormVersions
  import opened Options
  import Diff = SnapshotDiff

  /** How a stored value reads: as itself unless it is null, as a list, as rules, as a record; and text as a value. */
  datatype Reading<!V> = Reading(
    text: string -> V, value: V -> Option<V>, list: V -> Option<seq<V>>, rules: V -> Option<map<string, Option<V>>>,
    record: V -> Option<map<string, V>>)

  function At<V, W>(attrs: map<string, V>, key: string, read: V -> Option<W>): Option<W> {
    if key in attrs then read(attrs[key]) else None
  }

  /** A question of the history as the comparison sees it. */
  function Shown<V>(r: Reading<V>, e: Entry<V>): Diff.Question<V> {
    Diff.Question(
      if e.id.Some? && e.id.value >= 0 then Some(e.id.value) else None,
      e.order.GetOr(0),
      map k | k in Diff.PLAIN_KEYS && k in e.attrs.Keys + {"type"} ::
        if k != "type" then r.value(e.attrs[k])
        else if e.kind.Some? then Some(r.text(e.kind.value)) else None,
      At(e.attrs, "options", r.list), At(e.attrs, "rows", r.list), At(e.attrs, "validation_rules", r.rules),
      At(e.attrs, "conditional_logic", r.record))
  }

  function ShownAll<V>(r: Reading<V>, es: seq<Entry<V>>): seq<Diff.Question<V>> {
    seq(|es|, i requires 0 <= i < |es| => Shown(r, es[i]))
  }

  /** A version of the history as the comparison sees it. */
  function Compared<V>(r: Reading<V>, s: Snapshot<V>): Diff.Snapshot<V> {
    Diff.Snapshot(map k | k in s.settings :: r.value(s.settings[k]), ShownAll(r, s.questions))
  }

  lemma FaithfulDistinct<V>(schema: Schema<V>, known: set<nat>, r: Reading<V>, s: Snapshot<V>)
    requires Faithful(schema, known, s)
    ensures Diff.WithDistinctIds(ShownAll(r, s.questions))
  {
    var qs := ShownAll(r, s.questions);
    forall i | 0 <= i < |qs| ensures qs[i].id.Some? { assert Complete(schema, known, s.questions[i]); }
    forall i, j | 0 <= i < j < |qs| ensures qs[i].id != qs[j].id { DistinctIds(schema, known, s, i, j); }
  }

  /** Snapshots whose questions have the same ids in the same places compare as empty only if nothing is missing. */
  lemma SameShownIds<V>(r: Reading<V>, a: seq<Entry<V>>, b: seq<Entry<V>>)
    requires Diff.QuestionsAgree(ShownAll(r, a), ShownAll(r, b))
    requires forall i :: 0 <= i < |a| ==> a[i].id.Some? && a[i].id.value >= 0
    ensures |a| == |b| && forall i :: 0 <= i < |a| ==> b[i].id == a[i].id
  {
    forall i | 0 <= i < |a| ensures b[i].id == a[i].id { assert ShownAll(r, a)[i].id == ShownAll(r, b)[i].id; }
  }

  /** Equal versions compare as empty, and versions that compare as empty list the same ids. */
  lemma ComparedEmpty<V>(schema: Schema<V>, known: set<nat>, a: Snapshot<V>, more: set<nat>, b: Snapshot<V>,
                         r: Reading<V>, view: Diff.View<V>)
    requires Faithful(schema, known, a) && Faithful(schema, more, b)
    ensures a == b ==> Diff.IsEmpty(Diff.DiffSnapshots(view, Compared(r, a), Compared(r, b)))
    ensures Diff.IsEmpty(Diff.DiffSnapshots(view, Compared(r, a), Compared(r, b))) ==>
        forall i :: 0 <= i < |a.questions| ==> !Lacks(b.questions, a.questions[i].id)
    ensures Diff.IsEmpty(Diff.DiffSnapshots(view, Compared(r, a), Compared(r, b))) ==>
        forall i :: 0 <= i < |b.questions| ==> !Lacks(a.questions, b.questions[i].id)
  {
    FaithfulDistinct(schema, known, r, a);
    FaithfulDistinct(schema, more, r, b);
    Diff.EmptyMeansSame(view, Compared(r, a), Compared(r, b));
    if Diff.QuestionsAgree(ShownAll(r, a.questions), ShownAll(r, b.questions)) {
      forall i | 0 <= i < |a.questions| ensures a.questions[i].id.Some? && a.questions[i].id.value >= 0 {
        assert Complete(schema, known, a.questions[i]);
      }
      SameShownIds(r, a.questions, b.questions);
    }
  }

  lemma RestoredVersion<V>(schema: Schema<V>, f: Form<V>, v: nat)
    requires Sound(schema, f) && v in f.history && Locked(f, f.history[v].questions) == {}
    ensures var g := Restore(schema, f, v);
      && Faithful(schema, g.table.fields.Keys, Taken(schema, g))
      && Taken(schema, g).questions == Questions(Updated(f.table, schema.blank, f.history[v].questions).fields)
  {
    SnapshotsFit(schema, f, v);
    UpdatedKeeps(f.table, schema, f.history[v].questions);
    TakenIsFaithful(schema, Restore(schema, f, v));
  }

  /**
   Restoring and comparing fit together: after an accepted restore, the comparison of the recorded version with the one
   it was restored to, either way round, is empty exactly when every question id is one a save recognises.
   */
  lemma RestoredDiffIsEmpty<V>(schema: Schema<V>, f: Form<V>, v: nat, r: Reading<V>, view: Diff.View<V>)
    requires Sound(schema, f) && v in f.history && Locked(f, f.history[v].questions) == {}
    ensures var (kept, now) := (Compared(r, f.history[v]), Compared(r, Taken(schema, Restore(schema, f, v))));
      && (Diff.IsEmpty(Diff.DiffSnapshots(view, kept, now)) <==> AllInRange(f.history[v]))
      && (Diff.IsEmpty(Diff.DiffSnapshots(view, now, kept)) <==> AllInRange(f.history[v]))
  {
    var (was, g) := (f.history[v], Restore(schema, f, v));
    var now := Taken(schema, g);
    RestoredVersion(schema, f, v);
    assert Faithful(schema, f.table.fields.Keys, was);
    ComparedEmpty(schema, f.table.fields.Keys, was, g.table.fields.Keys, now, r, view);
    ComparedEmpty(schema, g.table.fields.Keys, now, f.table.fields.Keys, was, r, view);
    if AllInRange(was) {
      RestoreIsExact(schema, f, v);
    } else {
      UnrecognisedIsMissed(schema, f, v);
    }
  }
}
