/** What any run of saves, deletions, restores and publications of a form keeps. */
module FormVersions {
  import opened FormHistory
  import opened Lists
  import opened Options

  // ----- what stays true -----------------------------------------------------------------------------------------

  predicate Complete<V>(schema: Schema<V>, known: set<nat>, e: Entry<V>) {
    && e.id.Some? && 0 < e.id.value && e.id.value in known && e.kind.Some? && e.order.Some?
    && e.attrs.Keys == schema.blank.Keys
  }

  predicate Sooner<V>(a: Entry<V>, b: Entry<V>)
    requires a.id.Some? && a.order.Some? && b.id.Some? && b.order.Some?
  {
    a.id != b.id && (a.order.value < b.order.value || (a.order == b.order && a.id.value < b.id.value))
  }

  /** A snapshot lists questions of the form, whole and in order. */
  ghost predicate Faithful<V>(schema: Schema<V>, known: set<nat>, s: Snapshot<V>) {
    && s.settings.Keys == schema.settings
    && (forall i :: 0 <= i < |s.questions| ==> Complete(schema, known, s.questions[i]))
    && (forall i, j :: 0 <= i < j < |s.questions| ==> Sooner(s.questions[i], s.questions[j]))
  }

  ghost predicate TableOk<V>(blank: map<string, V>, t: Table<V>) {
    t.next > 0 && forall id :: id in t.fields ==> 0 < id < t.next && t.fields[id].attrs.Keys == blank.Keys
  }

  ghost predicate Sound<V>(schema: Schema<V>, f: Form<V>) {
    && schema.settings <= f.settings.Keys && TableOk(schema.blank, f.table)
    && (forall v :: v in f.history ==> Faithful(schema, f.table.fields.Keys, f.history[v]))
  }

  /** Payloads only give values to the attributes a question has. */
  ghost predicate Fits<V>(schema: Schema<V>, es: seq<Entry<V>>) {
    forall i :: 0 <= i < |es| ==> es[i].attrs.Keys <= schema.blank.Keys
  }

  ghost predicate Proper<V>(schema: Schema<V>, step: Step<V>) {
    match step
    case SaveForm(p) => p.questions.Some? ==> Fits(schema, p.questions.value)
    case DeleteField(_, edits) => forall id :: id in edits.questions ==> edits.questions[id].Keys <= schema.blank.Keys
    case _ => true
  }

  lemma {:induction false} WriteAllKeeps<V>(t: Table<V>, schema: Schema<V>, es: seq<Entry<V>>, n: nat)
    requires TableOk(schema.blank, t) && Fits(schema, es) && n <= |es|
    ensures var u := WriteAll(t, schema.blank, es, n);
      TableOk(schema.blank, u) && t.fields.Keys <= u.fields.Keys && t.next <= u.next
  {
    if n == 0 {
    } else {
      WriteAllKeeps(t, schema, es, n - 1);
    }
  }

  lemma UpdatedKeeps<V>(t: Table<V>, schema: Schema<V>, es: seq<Entry<V>>)
    requires TableOk(schema.blank, t) && Fits(schema, es)
    ensures var u := Updated(t, schema.blank, es);
      TableOk(schema.blank, u) && t.fields.Keys <= u.fields.Keys && t.next <= u.next
  {
    WriteAllKeeps(t.(fields := Retired(t.fields, Incoming(es))), schema, es, |es|);
  }

  lemma TakenIsFaithful<V>(schema: Schema<V>, f: Form<V>)
    requires schema.settings <= f.settings.Keys && TableOk(schema.blank, f.table)
    ensures Faithful(schema, f.table.fields.Keys, Taken(schema, f))
  {
    var fields := f.table.fields;
    var ids := Listing(fields, Active(fields));
    ListingSorted(fields, Active(fields));
    var s := Taken(schema, f);
    forall i | 0 <= i < |ids| ensures s.questions[i] == EntryOf(ids[i], fields[ids[i]]) {}
    forall i, j | 0 <= i < j < |ids|
        ensures Sooner(s.questions[i], s.questions[j]) { assert Before(fields, ids[i], ids[j]); }
  }

  lemma FaithfulGrows<V>(schema: Schema<V>, known: set<nat>, more: set<nat>, s: Snapshot<V>)
    requires Faithful(schema, known, s) && known <= more
    ensures Faithful(schema, more, s)
  {
  }

  lemma RecordedKeeps<V>(schema: Schema<V>, before: Form<V>, f: Form<V>)
    requires Sound(schema, before) && f.history == before.history && before.table.fields.Keys <= f.table.fields.Keys
    requires schema.settings <= f.settings.Keys && TableOk(schema.blank, f.table)
    ensures Sound(schema, Recorded(schema, f))
  {
    TakenIsFaithful(schema, f);
    forall v | v in before.history ensures Faithful(schema, f.table.fields.Keys, f.history[v]) {
      FaithfulGrows(schema, before.table.fields.Keys, f.table.fields.Keys, f.history[v]);
    }
  }

  lemma SnapshotsFit<V>(schema: Schema<V>, f: Form<V>, v: nat)
    requires Sound(schema, f) && v in f.history
    ensures Fits(schema, f.history[v].questions)
  {
    var s := f.history[v];
    assert Faithful(schema, f.table.fields.Keys, s);
    forall i | 0 <= i < |s.questions| ensures s.questions[i].attrs.Keys <= schema.blank.Keys {
      assert Complete(schema, f.table.fields.Keys, s.questions[i]);
    }
  }

  lemma SaveKeeps<V>(schema: Schema<V>, f: Form<V>, p: Payload<V>)
    requires Sound(schema, f) && (p.questions.Some? ==> Fits(schema, p.questions.value))
    ensures Sound(schema, Save(schema, f, p)) && f.table.fields.Keys <= Save(schema, f, p).table.fields.Keys
  {
    if Accepted(f, p) {
      if p.questions.Some? { UpdatedKeeps(f.table, schema, p.questions.value); }
      RecordedKeeps(schema, f, Changed(schema, f, p));
    }
  }

  lemma StepKeeps<V>(schema: Schema<V>, f: Form<V>, step: Step<V>)
    requires Sound(schema, f) && Proper(schema, step)
    ensures Sound(schema, Apply(schema, f, step)) && f.table.fields.Keys <= Apply(schema, f, step).table.fields.Keys
  {
    match step {
      case SaveForm(p) => SaveKeeps(schema, f, p);
      case RestoreVersion(v) =>
        if v in f.history {
          SnapshotsFit(schema, f, v);
          SaveKeeps(schema, f, RestorePayload(f.history[v]));
        }
      case DeleteField(id, edits) => SameKeysKeeps(schema, f, SoftDelete(f, id, edits));
      case PublishForm(status) => PublishKeeps(schema, f, status);
      case Collect(_) =>
      case Elsewhere(_) =>
    }
  }

  lemma PublishKeeps<V>(schema: Schema<V>, f: Form<V>, status: V)
    requires Sound(schema, f)
    ensures Sound(schema, Publish(schema, f, status)) && f.table == Publish(schema, f, status).table
  {
    RecordedKeeps(schema, f, f.(version := f.version + 1, settings := f.settings["status" := status]));
  }

  lemma SameKeysKeeps<V>(schema: Schema<V>, f: Form<V>, g: Form<V>)
    requires Sound(schema, f) && g.history == f.history && g.table.fields.Keys == f.table.fields.Keys
    requires f.settings.Keys <= g.settings.Keys && TableOk(schema.blank, g.table)
    ensures Sound(schema, g)
  {
  }

  /** No question of a form is ever lost, and its history always lists questions it still has, whole and in order. */
  lemma {:induction false} NothingIsLost<V>(schema: Schema<V>, f: Form<V>, steps: seq<Step<V>>)
    requires Sound(schema, f) && forall i :: 0 <= i < |steps| ==> Proper(schema, steps[i])
    ensures Sound(schema, Run(schema, f, steps)) && f.table.fields.Keys <= Run(schema, f, steps).table.fields.Keys
  {
    if steps == [] {
    } else {
      var before := steps[..|steps| - 1];
      forall i | 0 <= i < |before| ensures Proper(schema, before[i]) { assert before[i] == steps[i]; }
      NothingIsLost(schema, f, before);
      StepKeeps(schema, Run(schema, f, before), steps[|steps| - 1]);
    }
  }

  // ----- restoring is exact ----------------------------------------------------------------------------------------

  function FieldOf<V>(e: Entry<V>): Field<V>
    requires e.kind.Some? && e.order.Some?
  {
    Field(e.kind.value, e.order.value, e.attrs, false)
  }

  /** Writing one entry leaves every other row alone. */
  lemma WriteElsewhere<V>(t: Table<V>, schema: Schema<V>, e: Entry<V>, position: nat, id: nat)
    requires TableOk(schema.blank, t) && id in t.fields && !Names(e, id)
    ensures id in Write(t, schema.blank, e, position).fields
        && Write(t, schema.blank, e, position).fields[id] == t.fields[id]
  {
  }

  lemma {:induction false} NotNamedNotWritten<V>(t: Table<V>, schema: Schema<V>, es: seq<Entry<V>>, n: nat, id: nat)
    requires TableOk(schema.blank, t) && Fits(schema, es) && n <= |es| && id in t.fields
    requires forall i :: 0 <= i < n ==> !Names(es[i], id)
    ensures Get(WriteAll(t, schema.blank, es, n).fields, id) == Some(t.fields[id])
  {
    if n == 0 {
    } else {
      NotNamedNotWritten(t, schema, es, n - 1, id);
      WriteAllKeeps(t, schema, es, n - 1);
      WriteElsewhere(WriteAll(t, schema.blank, es, n - 1), schema, es[n - 1], n, id);
    }
  }

  /** A whole entry for a known question is stored as it is, unless a later one names the same question. */
  lemma {:induction false} WholeEntryStored<V>(t: Table<V>, schema: Schema<V>, es: seq<Entry<V>>, n: nat, i: nat)
    requires TableOk(schema.blank, t) && Fits(schema, es) && i < n <= |es|
    requires Complete(schema, t.fields.Keys, es[i]) && InRange(es[i])
    requires forall j :: i < j < n ==> !Names(es[j], es[i].id.value)
    ensures Get(WriteAll(t, schema.blank, es, n).fields, es[i].id.value) == Some(FieldOf(es[i]))
  {
    var u := WriteAll(t, schema.blank, es, n - 1);
    WriteAllKeeps(t, schema, es, n - 1);
    if i == n - 1 {
      WriteWhole(u, schema, es[i], n);
    } else {
      WholeEntryStored(t, schema, es, n - 1, i);
      WriteElsewhere(u, schema, es[n - 1], n, es[i].id.value);
    }
  }

  lemma WriteWhole<V>(t: Table<V>, schema: Schema<V>, e: Entry<V>, position: nat)
    requires TableOk(schema.blank, t) && Complete(schema, t.fields.Keys, e) && InRange(e)
    ensures Get(Write(t, schema.blank, e, position).fields, e.id.value) == Some(FieldOf(e))
  {
    assert t.fields[e.id.value].attrs + e.attrs == e.attrs;
  }

  lemma {:induction false} KnownOnly<V>(t: Table<V>, blank: map<string, V>, es: seq<Entry<V>>, n: nat)
    requires n <= |es| && forall i :: 0 <= i < n ==> InRange(es[i]) && es[i].id.value in t.fields
    ensures WriteAll(t, blank, es, n).fields.Keys == t.fields.Keys
  {
    if n == 0 {
    } else {
      KnownOnly(t, blank, es, n - 1);
    }
  }

  lemma DistinctIds<V>(schema: Schema<V>, known: set<nat>, s: Snapshot<V>, i: nat, j: nat)
    requires Faithful(schema, known, s) && i < j < |s.questions|
    ensures s.questions[i].id != s.questions[j].id
  {
    assert Complete(schema, known, s.questions[i]) && Complete(schema, known, s.questions[j]);
    assert Sooner(s.questions[i], s.questions[j]);
  }

  ghost predicate AllInRange<V>(s: Snapshot<V>) {
    forall i :: 0 <= i < |s.questions| ==> InRange(s.questions[i])
  }

  /** The row of each question of the snapshot is what the snapshot says. */
  lemma RestoredRow<V>(schema: Schema<V>, f: Form<V>, v: nat, i: nat)
    requires Sound(schema, f) && v in f.history && AllInRange(f.history[v]) && i < |f.history[v].questions|
    ensures var e := f.history[v].questions[i];
      Complete(schema, f.table.fields.Keys, e) &&
      Get(Updated(f.table, schema.blank, f.history[v].questions).fields, e.id.value) == Some(FieldOf(e))
  {
    var s := f.history[v];
    var es := s.questions;
    SnapshotsFit(schema, f, v);
    assert Faithful(schema, f.table.fields.Keys, s) && Complete(schema, f.table.fields.Keys, es[i]);
    forall j | i < j < |es| ensures !Names(es[j], es[i].id.value) { DistinctIds(schema, f.table.fields.Keys, s, i, j); }
    WholeEntryStored(f.table.(fields := Retired(f.table.fields, Incoming(es))), schema, es, |es|, i);
  }

  /** A row the snapshot does not list is deleted. */
  lemma RetiredRow<V>(schema: Schema<V>, f: Form<V>, es: seq<Entry<V>>, id: nat)
    requires TableOk(schema.blank, f.table) && Fits(schema, es) && id in f.table.fields
    requires forall i :: 0 <= i < |es| ==> !Names(es[i], id)
    ensures Get(Updated(f.table, schema.blank, es).fields, id) == Some(f.table.fields[id].(deleted := true))
  {
    NotNamedNotWritten(f.table.(fields := Retired(f.table.fields, Incoming(es))), schema, es, |es|, id);
  }

  /**
   Leaving a question out of a save removes no reference to it: a question the save names once has afterwards the values
   it had, except those its own entry gives.
   */
  lemma OmissionPrunesNothing<V>(schema: Schema<V>, t: Table<V>, es: seq<Entry<V>>, i: nat, id: nat)
    requires TableOk(schema.blank, t) && Fits(schema, es) && id in t.fields
    requires i < |es| && forall j :: 0 <= j < |es| ==> (Names(es[j], id) <==> j == i)
    ensures var u := Updated(t, schema.blank, es).fields;
      id in u && u[id].attrs == t.fields[id].attrs + es[i].attrs && !u[id].deleted
  {
    var retired := t.(fields := Retired(t.fields, Incoming(es)));
    NamedOnceWritten(retired, schema, es, |es|, i, id);
  }

  /** Of the first n entries the one at i names the question, and no other does. */
  ghost predicate NamedOnlyAt<V>(es: seq<Entry<V>>, n: nat, i: nat, id: nat) {
    forall j :: 0 <= j < n && j < |es| ==> (Names(es[j], id) <==> j == i)
  }

  lemma WriteNamed<V>(t: Table<V>, blank: map<string, V>, e: Entry<V>, position: nat, id: nat)
    requires id in t.fields && Names(e, id)
    ensures var u := Write(t, blank, e, position).fields;
      id in u && u[id].attrs == t.fields[id].attrs + e.attrs && !u[id].deleted
  {
  }

  lemma {:induction false} NotNamedLater<V>(t: Table<V>, schema: Schema<V>, es: seq<Entry<V>>, m: nat, n: nat, id: nat)
    requires TableOk(schema.blank, t) && Fits(schema, es) && m <= n <= |es|
    requires id in WriteAll(t, schema.blank, es, m).fields && forall j :: m <= j < n ==> !Names(es[j], id)
    ensures Get(WriteAll(t, schema.blank, es, n).fields, id) == Get(WriteAll(t, schema.blank, es, m).fields, id)
  {
    if m < n {
      NotNamedLater(t, schema, es, m, n - 1, id);
      WriteAllKeeps(t, schema, es, n - 1);
      WriteElsewhere(WriteAll(t, schema.blank, es, n - 1), schema, es[n - 1], n, id);
    }
  }

  lemma NamedOnceWritten<V>(t: Table<V>, schema: Schema<V>, es: seq<Entry<V>>, n: nat, i: nat, id: nat)
    requires TableOk(schema.blank, t) && Fits(schema, es) && id in t.fields
    requires i < n <= |es| && NamedOnlyAt(es, n, i, id)
    ensures var u := WriteAll(t, schema.blank, es, n).fields;
      id in u && u[id].attrs == t.fields[id].attrs + es[i].attrs && !u[id].deleted
  {
    NotNamedNotWritten(t, schema, es, i, id);
    assert Names(es[i], id);
    WriteNamed(WriteAll(t, schema.blank, es, i), schema.blank, es[i], i + 1, id);
    NotNamedLater(t, schema, es, i + 1, n, id);
  }

  function IdsOf<V>(es: seq<Entry<V>>): seq<nat>
    requires forall i :: 0 <= i < |es| ==> es[i].id.Some? && es[i].id.value >= 0
  {
    seq(|es|, i requires 0 <= i < |es| => es[i].id.value)
  }

  lemma RestoredActive<V>(schema: Schema<V>, f: Form<V>, v: nat)
    requires Sound(schema, f) && v in f.history && AllInRange(f.history[v])
    ensures var es := f.history[v].questions;
      && (forall i :: 0 <= i < |es| ==> es[i].id.Some? && es[i].id.value >= 0)
      && forall x :: x in IdsOf(es) <==> x in Active(Updated(f.table, schema.blank, es).fields)
  {
    var es := f.history[v].questions;
    var u := Updated(f.table, schema.blank, es).fields;
    SnapshotsFit(schema, f, v);
    forall i | 0 <= i < |es|
        ensures es[i].id.Some? && es[i].id.value >= 0 && es[i].id.value in Active(u)
        && es[i].id.value in f.table.fields {
      RestoredRow(schema, f, v, i);
    }
    KnownOnly(f.table.(fields := Retired(f.table.fields, Incoming(es))), schema.blank, es, |es|);
    forall x | x in Active(u) ensures x in IdsOf(es) {
      if forall i :: 0 <= i < |es| ==> !Names(es[i], x) {
        RetiredRow(schema, f, es, x);
      } else {
        var i :| 0 <= i < |es| && Names(es[i], x);
        assert IdsOf(es)[i] == x;
      }
    }
  }

  lemma RestoredListing<V>(schema: Schema<V>, f: Form<V>, v: nat)
    requires Sound(schema, f) && v in f.history && AllInRange(f.history[v])
    ensures Questions(Updated(f.table, schema.blank, f.history[v].questions).fields) == f.history[v].questions
  {
    var es := f.history[v].questions;
    var u := Updated(f.table, schema.blank, es).fields;
    RestoredActive(schema, f, v);
    var ids := IdsOf(es);
    forall i | 0 <= i < |es| ensures ids[i] in u && u[ids[i]] == FieldOf(es[i]) { RestoredRow(schema, f, v, i); }
    forall i, j | 0 <= i < j < |ids| ensures Before(u, ids[i], ids[j]) {
      assert Faithful(schema, f.table.fields.Keys, f.history[v]) && Sooner(es[i], es[j]);
    }
    ListingUnique(u, Active(u), ids);
    forall i | 0 <= i < |es| ensures EntryOf(ids[i], u[ids[i]]) == es[i] { RestoredRow(schema, f, v, i); }
  }

  /** No question of this listing has this id. */
  ghost predicate Lacks<V>(es: seq<Entry<V>>, id: Option<int>) {
    forall j :: 0 <= j < |es| ==> es[j].id != id
  }

  /** A question whose id the save does not recognise stays deleted, so the listing misses it. */
  lemma UnrecognisedIsMissed<V>(schema: Schema<V>, f: Form<V>, v: nat)
    requires Sound(schema, f) && v in f.history && !AllInRange(f.history[v])
    ensures var l := Questions(Updated(f.table, schema.blank, f.history[v].questions).fields);
      exists k :: 0 <= k < |f.history[v].questions| && Lacks(l, f.history[v].questions[k].id)
    ensures Questions(Updated(f.table, schema.blank, f.history[v].questions).fields) != f.history[v].questions
  {
    var es := f.history[v].questions;
    var u := Updated(f.table, schema.blank, es).fields;
    SnapshotsFit(schema, f, v);
    var k :| 0 <= k < |es| && !InRange(es[k]);
    assert Faithful(schema, f.table.fields.Keys, f.history[v]) && Complete(schema, f.table.fields.Keys, es[k]);
    var id := es[k].id.value;
    forall i | 0 <= i < |es| ensures !Names(es[i], id) {}
    RetiredRow(schema, f, es, id);
    ListingIds(u, Active(u));
    assert forall j :: 0 <= j < |Questions(u)| ==> Questions(u)[j].id.Some? && Questions(u)[j].id.value in Active(u);
    assert Lacks(Questions(u), es[k].id);
  }

  /**
   The main result: restoring a kept version, when the type lock lets it through, makes the questions people see
   exactly those of the snapshot, same ids, order and values, and the recorded new version is that snapshot again;
   settings outside it stay. This needs every question id to be below the limit a save recognises, and fails whenever
   one is not.
   */
  lemma RestoreIsExact<V>(schema: Schema<V>, f: Form<V>, v: nat)
    requires Sound(schema, f) && v in f.history && Locked(f, f.history[v].questions) == {}
    ensures var g := Restore(schema, f, v);
      && (Questions(g.table.fields) == f.history[v].questions <==> AllInRange(f.history[v]))
      && (Taken(schema, g) == f.history[v] <==> AllInRange(f.history[v]))
      && g.version == f.version + 1
      && g.settings == f.settings + f.history[v].settings
  {
    var s := f.history[v];
    assert Faithful(schema, f.table.fields.Keys, s);
    if AllInRange(s) { RestoredListing(schema, f, v); } else { UnrecognisedIsMissed(schema, f, v); }
    var g := Restore(schema, f, v);
    assert Taken(schema, g).settings == s.settings;
  }

  // ----- the numbers of the history ----------------------------------------------------------------------------------

  /** At most `limit` versions are kept, and whatever was dropped is older than all of them. */
  lemma NewestAreKept<V>(history: map<nat, V>, limit: nat)
    ensures |Newest(history, limit)| <= limit
    ensures forall v, w :: v in Newest(history, limit) && w in history && w !in Newest(history, limit) ==> w < v
  {
    var kept := Newest(history, limit);
    forall v, w | v in kept && w in history && w !in kept ensures w < v {
      if v < w {
        assert Newer(history.Keys, w) <= Newer(history.Keys, v);
        SubsetSize(Newer(history.Keys, w), Newer(history.Keys, v));
      }
    }
    if kept != map[] {
      var m := Oldest(kept.Keys);
      assert kept.Keys - {m} <= Newer(history.Keys, m);
      SubsetSize(kept.Keys - {m}, Newer(history.Keys, m));
      assert |kept.Keys - {m}| == |kept.Keys| - 1;
    }
  }

  lemma {:induction false} Oldest(versions: set<nat>) returns (m: nat)
    requires versions != {}
    ensures m in versions && forall v :: v in versions ==> m <= v
  {
    m :| m in versions;
    var rest := versions - {m};
    if rest == {} {
      forall v | v in versions ensures m <= v { assert v == m || v in rest; }
    } else {
      var n := Oldest(rest);
      forall v | v in versions ensures m <= v || n <= v { assert v == m || v in rest; }
      if n < m { m := n; }
    }
  }

  /** The versions after `lo`, up to `hi`. */
  function After(lo: nat, hi: nat): (versions: set<nat>)
    requires lo <= hi
    ensures forall v: nat :: v in versions <==> lo < v <= hi
    ensures |versions| == hi - lo
    decreases hi - lo
  {
    if lo == hi then {} else After(lo, hi - 1) + {hi}
  }

  /** The history holds the latest fifty versions, no gap, nothing newer. */
  ghost predicate Recent<V>(f: Form<V>) {
    forall v: nat :: v in f.history <==> 1 <= v <= f.version && f.version < v + VERSIONS_KEPT
  }

  /** The payload does not carry a version number of its own. */
  predicate Unnumbered<V>(step: Step<V>) {
    step.SaveForm? ==> step.payload.version.None?
  }

  lemma RecordedIsRecent<V>(schema: Schema<V>, f: Form<V>, g: Form<V>)
    requires Recent(f) && g.history == f.history && g.version == f.version + 1
    ensures Recent(Recorded(schema, g))
    ensures forall v :: v in f.history && v in Recorded(schema, g).history ==>
        Recorded(schema, g).history[v] == f.history[v]
  {
    var history := g.history[g.version := Taken(schema, g)];
    forall v: nat | v in history ensures |Newer(history.Keys, v)| == g.version - v {
      assert Newer(history.Keys, v) == After(v, g.version);
    }
  }

  lemma SaveIsRecent<V>(schema: Schema<V>, f: Form<V>, p: Payload<V>)
    requires Recent(f) && p.version.None?
    ensures var g := Save(schema, f, p);
      && Recent(g) && f.version <= g.version
      && (forall v :: v in f.history && v in g.history ==> g.history[v] == f.history[v])
  {
    RecordedIsRecent(schema, f, Changed(schema, f, p));
  }

  lemma StepIsRecent<V>(schema: Schema<V>, f: Form<V>, step: Step<V>)
    requires Recent(f) && Unnumbered(step)
    ensures var g := Apply(schema, f, step);
      && Recent(g) && f.version <= g.version
      && (forall v :: v in f.history && v in g.history ==> g.history[v] == f.history[v])
  {
    match step {
      case SaveForm(p) => SaveIsRecent(schema, f, p);
      case RestoreVersion(v) =>
        if v in f.history { SaveIsRecent(schema, f, RestorePayload(f.history[v])); }
      case PublishForm(status) =>
        RecordedIsRecent(schema, f, f.(version := f.version + 1, settings := f.settings["status" := status]));
      case _ =>
    }
  }

  /**
   Over any run of saves without version numbers of their own, the history is exactly the latest fifty versions and no
   kept snapshot ever changes.
   */
  lemma {:induction false} HistoryIsRecent<V>(schema: Schema<V>, f: Form<V>, steps: seq<Step<V>>)
    requires Recent(f) && forall i :: 0 <= i < |steps| ==> Unnumbered(steps[i])
    ensures var g := Run(schema, f, steps);
      && Recent(g) && f.version <= g.version
      && (forall v :: v in f.history && v in g.history ==> g.history[v] == f.history[v])
  {
    if steps == [] {
    } else {
      var before := steps[..|steps| - 1];
      forall i | 0 <= i < |before| ensures Unnumbered(before[i]) { assert before[i] == steps[i]; }
      HistoryIsRecent(schema, f, before);
      StepIsRecent(schema, Run(schema, f, before), steps[|steps| - 1]);
    }
  }

  /**
   A payload may carry a version number, and it is obeyed. The history stays the latest versions without a gap exactly
   when the payload carries none, the present one or the next; the number grows exactly when it carries none or a
   greater one.
   */
  lemma NumberedSave<V>(schema: Schema<V>, f: Form<V>, p: Payload<V>)
    requires Recent(f) && f.version >= 1 && Accepted(f, p)
    ensures var g := Save(schema, f, p);
      && (Recent(g) <==> p.version.None? || p.version.value == f.version || p.version.value == f.version + 1)
      && (f.version < g.version <==> p.version.None? || f.version < p.version.value)
  {
    var g := Save(schema, f, p);
    var w := g.version;
    if w == f.version + 1 {
      RecordedIsRecent(schema, f, Changed(schema, f, p));
    } else if w == f.version {
      Rerecorded(schema, f, p);
    } else if w < f.version {
      var all := f.history[w := Taken(schema, Changed(schema, f, p))];
      assert f.version in all && forall v :: v in all ==> v <= f.version;
      assert Newer(all.Keys, f.version) == {};
      assert f.version in g.history;
    } else {
      assert w - 1 !in g.history;
    }
  }

  /** The step does not save under a number other than the present one or the next. */
  predicate InSequence<V>(f: Form<V>, step: Step<V>) {
    step.SaveForm? && Accepted(f, step.payload) && step.payload.version.Some? ==>
      step.payload.version.value == f.version || step.payload.version.value == f.version + 1
  }

  lemma StepRecentExactly<V>(schema: Schema<V>, f: Form<V>, step: Step<V>)
    requires Recent(f) && f.version >= 1
    ensures Recent(Apply(schema, f, step)) <==> InSequence(f, step)
    ensures InSequence(f, step) ==> Apply(schema, f, step).version >= 1
  {
    if step.SaveForm? {
      if Accepted(f, step.payload) { NumberedSave(schema, f, step.payload); }
    } else {
      StepIsRecent(schema, f, step);
    }
  }

  ghost predicate RecentThroughout<V>(schema: Schema<V>, f: Form<V>, steps: seq<Step<V>>) {
    Recent(Run(schema, f, steps)) && (steps == [] || RecentThroughout(schema, f, steps[..|steps| - 1]))
  }

  ghost predicate SequenceKept<V>(schema: Schema<V>, f: Form<V>, steps: seq<Step<V>>) {
    steps == [] ||
    (var before := steps[..|steps| - 1];
     SequenceKept(schema, f, before) && InSequence(Run(schema, f, before), steps[|steps| - 1]))
  }

  /**
   All through a run the history is the latest fifty versions without a gap, exactly when no save steps out of the
   sequence of numbers.
   */
  lemma {:induction false} HistoryIsRecentExactly<V>(schema: Schema<V>, f: Form<V>, steps: seq<Step<V>>)
    requires Recent(f) && f.version >= 1
    ensures RecentThroughout(schema, f, steps) <==> SequenceKept(schema, f, steps)
    ensures SequenceKept(schema, f, steps) ==> Run(schema, f, steps).version >= 1
  {
    if steps == [] {
    } else {
      var before := steps[..|steps| - 1];
      HistoryIsRecentExactly(schema, f, before);
      if SequenceKept(schema, f, before) { StepRecentExactly(schema, Run(schema, f, before), steps[|steps| - 1]); }
    }
  }

  /** Recording under a number that is already kept drops nothing. */
  lemma Rerecorded<V>(schema: Schema<V>, f: Form<V>, p: Payload<V>)
    requires Recent(f) && Accepted(f, p) && p.version.Some? && p.version.value in f.history
    ensures Save(schema, f, p).history == f.history[p.version.value := Taken(schema, Changed(schema, f, p))]
  {
    var all := f.history[p.version.value := Taken(schema, Changed(schema, f, p))];
    assert all.Keys == f.history.Keys;
    forall v | v in all ensures |Newer(all.Keys, v)| < VERSIONS_KEPT {
      assert Newer(all.Keys, v) == After(v, f.version);
    }
  }

  /**
   Every kept snapshot stays as it was exactly when the payload carries no number, one that is not kept, or one whose
   snapshot is the form as it is now saved; any other number overwrites that snapshot.
   */
  lemma SnapshotsStay<V>(schema: Schema<V>, f: Form<V>, p: Payload<V>)
    requires Recent(f) && Accepted(f, p)
    ensures var g := Save(schema, f, p);
      (forall v :: v in f.history && v in g.history ==> g.history[v] == f.history[v])
      <==> (p.version.None? || p.version.value !in f.history
            || f.history[p.version.value] == Taken(schema, Changed(schema, f, p)))
  {
    if p.version.Some? && p.version.value in f.history { Rerecorded(schema, f, p); }
  }

  /** A save numbered 1 after version 2 goes back to version 1 and overwrites it. */
  lemma OldNumberRewritesHistory<V>(schema: Schema<V>, f: Form<V>, p: Payload<V>)
    requires Recent(f) && f.version == 2 && p.version == Some(1) && Accepted(f, p)
    ensures var g := Save(schema, f, p);
      g.version == 1 && g.history.Keys == {1, 2} && g.history[1] == Taken(schema, g) && !Recent(g)
  {
    Rerecorded(schema, f, p);
    NumberedSave(schema, f, p);
  }

  // ----- the type of an answered question ----------------------------------------------------------------------------

  /** However the payload is written, a known question ends with the last type it is given. */
  lemma {:induction false} KindAfter<V>(t: Table<V>, schema: Schema<V>, es: seq<Entry<V>>, n: nat, id: nat)
    requires TableOk(schema.blank, t) && Fits(schema, es) && n <= |es| && id in t.fields
    ensures var u := WriteAll(t, schema.blank, es, n);
      id in u.fields && u.fields[id].kind == LastKind(es[..n], id).GetOr(t.fields[id].kind)
  {
    if n == 0 {
    } else {
      KindAfter(t, schema, es, n - 1, id);
      WriteAllKeeps(t, schema, es, n - 1);
      assert es[..n][..n - 1] == es[..n - 1];
    }
  }

  /**
   The lock looks at the last entry that names a question only: its hole is a last entry without a type after one with
   another type.
   */
  ghost predicate SlipsThrough<V>(es: seq<Entry<V>>, id: nat, kind: string) {
    && LastNaming(es, id).Some? && LastNaming(es, id).value.kind.None?
    && LastKind(es, id).Some? && LastKind(es, id).value != kind
  }

  lemma {:induction false} LastKindIsLast<V>(es: seq<Entry<V>>, id: int)
    ensures LastNaming(es, id).None? ==> LastKind(es, id).None?
    ensures LastNaming(es, id).Some? && LastNaming(es, id).value.kind.Some? ==>
        LastKind(es, id) == LastNaming(es, id).value.kind
  {
    if es == [] {
    } else {
      LastKindIsLast(es[..|es| - 1], id);
    }
  }

  /** An accepted save changes the type of an answered question exactly when the payload slips through the lock. */
  lemma AnsweredTypeChanges<V>(schema: Schema<V>, f: Form<V>, p: Payload<V>, id: nat)
    requires Sound(schema, f) && Accepted(f, p) && p.questions.Some? && Fits(schema, p.questions.value)
    requires id in f.table.fields && id in f.answered
    ensures var g := Save(schema, f, p);
      id in g.table.fields && (g.table.fields[id].kind != f.table.fields[id].kind <==>
          SlipsThrough(p.questions.value, id, f.table.fields[id].kind))
  {
    var es := p.questions.value;
    KindAfter(f.table.(fields := Retired(f.table.fields, Incoming(es))), schema, es, |es|, id);
    assert es[..|es|] == es;
    LastKindIsLast(es, id);
    assert id !in Locked(f, es);
  }

  /** Such a payload exists: the same question twice, the second time without a type. */
  lemma TypeCanChange<V>(schema: Schema<V>, f: Form<V>, p: Payload<V>)
    requires Sound(schema, f) && 7 in f.table.fields && f.table.fields[7].kind == "RADIO" && 7 in f.answered
    requires p.questions == Some([Entry(Some(7), Some("NUMBER"), None, map[]), Entry(Some(7), None, None, map[])])
    ensures Accepted(f, p) && 7 in Save(schema, f, p).table.fields
        && Save(schema, f, p).table.fields[7].kind == "NUMBER"
  {
    var (a, b) := (Entry(Some(7), Some("NUMBER"), None, map[]), Entry(Some(7), None, None, map[]));
    var es := [a, b];
    assert es[..1] == [a] && [a][..0] == [] && p.questions.value == es;
    assert LastNaming(es, 7) == Some(b);
    forall id | id in f.table.fields ensures id !in Locked(f, es) {
      if id != 7 { NotNamedNoKind(es, id); }
    }
    assert Locked(f, es) == {};
    var t := f.table.(fields := Retired(f.table.fields, Incoming(es)));
    assert es[..2] == es && es[..2][..1] == [a];
    KindAfter(t, schema, es, 2, 7);
  }

  /** No question is named twice. */
  ghost predicate OnceEach<V>(es: seq<Entry<V>>) {
    forall i, j :: 0 <= i < j < |es| && es[i].id.Some? ==> es[i].id != es[j].id
  }

  lemma {:induction false} NotNamedNoKind<V>(es: seq<Entry<V>>, id: int)
    requires forall i :: 0 <= i < |es| ==> !Names(es[i], id)
    ensures LastNaming(es, id).None? && LastKind(es, id).None?
  {
    if es == [] {
    } else {
      NotNamedNoKind(es[..|es| - 1], id);
    }
  }

  lemma {:induction false} OnceEachHolds<V>(es: seq<Entry<V>>, id: nat, kind: string)
    requires OnceEach(es)
    ensures !SlipsThrough(es, id, kind)
  {
    if es == [] {
    } else {
      var before := es[..|es| - 1];
      assert forall i :: 0 <= i < |before| ==> before[i] == es[i];
      if Names(es[|es| - 1], id) {
        NotNamedNoKind(before, id);
      } else {
        OnceEachHolds(before, id, kind);
      }
    }
  }

  /** Every payload names a question once, and the question keeps having answers. */
  ghost predicate Careful<V>(schema: Schema<V>, step: Step<V>, id: nat) {
    && Proper(schema, step)
    && (step.SaveForm? && step.payload.questions.Some? ==> OnceEach(step.payload.questions.value))
    && (step.Collect? ==> id in step.answered)
  }

  lemma SaveKeepsType<V>(schema: Schema<V>, f: Form<V>, p: Payload<V>, id: nat)
    requires Sound(schema, f) && id in f.table.fields && id in f.answered
    requires p.questions.Some? ==> Fits(schema, p.questions.value) && OnceEach(p.questions.value)
    ensures var g := Save(schema, f, p);
      id in g.table.fields && g.table.fields[id].kind == f.table.fields[id].kind && g.answered == f.answered
  {
    if Accepted(f, p) && p.questions.Some? {
      AnsweredTypeChanges(schema, f, p, id);
      OnceEachHolds(p.questions.value, id, f.table.fields[id].kind);
    }
  }

  lemma StepKeepsType<V>(schema: Schema<V>, f: Form<V>, step: Step<V>, id: nat)
    requires Sound(schema, f) && Careful(schema, step, id) && id in f.table.fields && id in f.answered
    ensures var g := Apply(schema, f, step);
      id in g.table.fields && g.table.fields[id].kind == f.table.fields[id].kind && id in g.answered
  {
    match step {
      case SaveForm(p) => SaveKeepsType(schema, f, p, id);
      case RestoreVersion(v) =>
        if v in f.history {
          var s := f.history[v];
          SnapshotsFit(schema, f, v);
          forall i, j | 0 <= i < j < |s.questions| ensures s.questions[i].id != s.questions[j].id {
            DistinctIds(schema, f.table.fields.Keys, s, i, j);
          }
          SaveKeepsType(schema, f, RestorePayload(s), id);
        }
      case _ =>
    }
  }

  /** As long as payloads name each question once, a question with answers never changes type, restores included. */
  lemma {:induction false} AnsweredTypesAreKept<V>(schema: Schema<V>, f: Form<V>, steps: seq<Step<V>>, id: nat)
    requires Sound(schema, f) && id in f.table.fields && id in f.answered
    requires forall i :: 0 <= i < |steps| ==> Careful(schema, steps[i], id)
    ensures var g := Run(schema, f, steps);
      Sound(schema, g) && id in g.table.fields && g.table.fields[id].kind == f.table.fields[id].kind && id in g.answered
  {
    if steps == [] {
    } else {
      var before := steps[..|steps| - 1];
      forall i | 0 <= i < |before| ensures Careful(schema, before[i], id) { assert before[i] == steps[i]; }
      AnsweredTypesAreKept(schema, f, before, id);
      StepKeeps(schema, Run(schema, f, before), steps[|steps| - 1]);
      StepKeepsType(schema, Run(schema, f, before), steps[|steps| - 1], id);
    }
  }
}
