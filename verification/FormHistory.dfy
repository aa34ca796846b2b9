/**
 Saving, restoring and publishing a form's definition: question rows that are never lost, and a history of snapshots.
 */
module FormHistory {
  import opened Options

  const ID_LIMIT := 2147483647
  const VERSIONS_KEPT := 50
  const DEFAULT_KIND := "TEXT"

  /** Which settings a snapshot keeps, and the values of a new question. */
  datatype Schema<V> = Schema(settings: set<string>, blank: map<string, V>)

  /** A stored question. Deleting one only marks it. */
  datatype Field<V> = Field(kind: string, order: int, attrs: map<string, V>, deleted: bool)

  /** One question of a payload or a snapshot; what a payload leaves out stays as it is. */
  datatype Entry<V> = Entry(id: Option<int>, kind: Option<string>, order: Option<int>, attrs: map<string, V>)

  datatype Snapshot<V> = Snapshot(settings: map<string, V>, questions: seq<Entry<V>>)

  /** `next` is the id the next question gets, here or in any other form. */
  datatype Table<V> = Table(fields: map<nat, Field<V>>, next: nat)

  /** `answered` holds the questions with stored answers. */
  datatype Form<V> = Form(version: nat, settings: map<string, V>, table: Table<V>, history: map<nat, Snapshot<V>>,
      answered: set<nat>)

  datatype Payload<V> = Payload(settings: map<string, V>, version: Option<nat>, questions: Option<seq<Entry<V>>>)

  // ----- writing the questions of a payload ------------------------------------------------------------------

  predicate InRange<V>(e: Entry<V>) {
    e.id.Some? && 0 < e.id.value < ID_LIMIT
  }

  predicate Names<V>(e: Entry<V>, id: int) {
    InRange(e) && e.id.value == id
  }

  function Incoming<V>(es: seq<Entry<V>>): set<int> {
    set i | 0 <= i < |es| && InRange(es[i]) :: es[i].id.value
  }

  function Retired<V>(fields: map<nat, Field<V>>, keep: set<int>): map<nat, Field<V>> {
    map id | id in fields :: if id in keep then fields[id] else fields[id].(deleted := true)
  }

  /** A known question is revived and updated, anything else becomes a new question. */
  function Write<V>(t: Table<V>, blank: map<string, V>, e: Entry<V>, position: nat): Table<V> {
    var order := if e.order.Some? then e.order.value else position;
    if InRange(e) && e.id.value in t.fields then
      var was := t.fields[e.id.value];
      t.(fields := t.fields[e.id.value := Field(if e.kind.Some? then e.kind.value
          else was.kind, order, was.attrs + e.attrs, false)])
    else
      Table(t.fields[t.next := Field(if e.kind.Some? then e.kind.value
          else DEFAULT_KIND, order, blank + e.attrs, false)], t.next + 1)
  }

  function WriteAll<V>(t: Table<V>, blank: map<string, V>, es: seq<Entry<V>>, n: nat): Table<V>
    requires n <= |es|
  {
    if n == 0 then t else Write(WriteAll(t, blank, es, n - 1), blank, es[n - 1], n)
  }

  /** Active questions the payload does not mention are marked deleted, then its questions are written in order. */
  function Updated<V>(t: Table<V>, blank: map<string, V>, es: seq<Entry<V>>): Table<V> {
    WriteAll(t.(fields := Retired(t.fields, Incoming(es))), blank, es, |es|)
  }

  // ----- snapshots and the history -----------------------------------------------------------------------------

  function Active<V>(fields: map<nat, Field<V>>): set<nat> {
    set id | id in fields && !fields[id].deleted
  }

  /** Questions are listed by order number, those with the same number by id. */
  predicate Before<V>(fields: map<nat, Field<V>>, x: nat, y: nat)
    requires x in fields && y in fields
  {
    fields[x].order < fields[y].order || (fields[x].order == fields[y].order && x < y)
  }

  /** x comes before all the others. */
  predicate Least<V>(fields: map<nat, Field<V>>, ids: set<nat>, x: nat)
    requires ids <= fields.Keys
  {
    x in ids && forall y :: y in ids ==> y == x || Before(fields, x, y)
  }

  lemma LeastOfMore<V>(fields: map<nat, Field<V>>, ids: set<nat>, z: nat, x: nat)
    requires ids <= fields.Keys && z in ids && Least(fields, ids - {z}, x)
    ensures Least(fields, ids, if Before(fields, z, x) then z else x)
  {
    forall y | y in ids ensures y == z || y == x || Before(fields, x, y) { assert y == z || y in ids - {z}; }
  }

  lemma {:induction false} LeastExists<V>(fields: map<nat, Field<V>>, ids: set<nat>)
    requires ids <= fields.Keys && ids != {}
    ensures exists x :: x in ids && Least(fields, ids, x)
    decreases |ids|
  {
    var z :| z in ids;
    if ids == {z} {
      assert Least(fields, ids, z);
    } else {
      assert ids - {z} != {} by { assert exists w :: w in ids && w != z; }
      LeastExists(fields, ids - {z});
      var x :| x in ids - {z} && Least(fields, ids - {z}, x);
      LeastOfMore(fields, ids, z, x);
    }
  }

  function Listing<V>(fields: map<nat, Field<V>>, ids: set<nat>): seq<nat>
    requires ids <= fields.Keys
    decreases |ids|
  {
    if ids == {} then []
    else
      LeastExists(fields, ids);
      var x :| x in ids && Least(fields, ids, x);
      [x] + Listing(fields, ids - {x})
  }

  function EntryOf<V>(id: nat, f: Field<V>): Entry<V> {
    Entry(Some(id), Some(f.kind), Some(f.order), f.attrs)
  }

  function Entries<V>(fields: map<nat, Field<V>>, ids: seq<nat>): seq<Entry<V>>
    requires forall i :: 0 <= i < |ids| ==> ids[i] in fields
  {
    seq(|ids|, i requires 0 <= i < |ids| => EntryOf(ids[i], fields[ids[i]]))
  }

  /** The questions people see, in order. */
  function Questions<V>(fields: map<nat, Field<V>>): seq<Entry<V>> {
    ListingIds(fields, Active(fields));
    Entries(fields, Listing(fields, Active(fields)))
  }

  function Taken<V>(schema: Schema<V>, f: Form<V>): Snapshot<V> {
    Snapshot(map k | k in schema.settings && k in f.settings :: f.settings[k], Questions(f.table.fields))
  }

  function Newer(versions: set<nat>, v: nat): set<nat> {
    set w | w in versions && w > v
  }

  /** Only the newest versions are kept. */
  function Newest<V>(history: map<nat, V>, limit: nat): map<nat, V> {
    map v | v in history && |Newer(history.Keys, v)| < limit :: history[v]
  }

  function Recorded<V>(schema: Schema<V>, f: Form<V>): Form<V> {
    f.(history := Newest(f.history[f.version := Taken(schema, f)], VERSIONS_KEPT))
  }

  // ----- the steps -----------------------------------------------------------------------------------------------

  function LastNaming<V>(es: seq<Entry<V>>, id: int): Option<Entry<V>> {
    if es == [] then None
    else if Names(es[|es| - 1], id) then Some(es[|es| - 1]) else LastNaming(es[..|es| - 1], id)
  }

  /** The last type the payload gives the question. */
  function LastKind<V>(es: seq<Entry<V>>, id: int): Option<string> {
    if es == [] then None
    else if Names(es[|es| - 1], id) && es[|es| - 1].kind.Some? then es[|es| - 1].kind else LastKind(es[..|es| - 1], id)
  }

  /** Answered questions whose type the payload would change, going by the last entry that names each. */
  function Locked<V>(f: Form<V>, es: seq<Entry<V>>): set<nat> {
    set id | id in f.table.fields && id in f.answered && LastNaming(es, id).Some? &&
             LastNaming(es, id).value.kind.Some? && LastNaming(es, id).value.kind.value != f.table.fields[id].kind
  }

  predicate Accepted<V>(f: Form<V>, p: Payload<V>) {
    p.questions.None? || Locked(f, p.questions.value) == {}
  }

  /** The form as a save leaves it, before it is recorded. */
  function Changed<V>(schema: Schema<V>, f: Form<V>, p: Payload<V>): Form<V> {
    f.(version := p.version.GetOr(f.version + 1),
       settings := f.settings + p.settings,
       table := if p.questions.Some? then Updated(f.table, schema.blank, p.questions.value) else f.table)
  }

  function Saved<V>(schema: Schema<V>, f: Form<V>, p: Payload<V>): Form<V> {
    Recorded(schema, Changed(schema, f, p))
  }

  function Save<V>(schema: Schema<V>, f: Form<V>, p: Payload<V>): Form<V> {
    if Accepted(f, p) then Saved(schema, f, p) else f
  }

  function RestorePayload<V>(s: Snapshot<V>): Payload<V> {
    Payload(s.settings, None, Some(s.questions))
  }

  function Restore<V>(schema: Schema<V>, f: Form<V>, v: nat): Form<V> {
    if v in f.history then Save(schema, f, RestorePayload(f.history[v])) else f
  }

  /** `edits` is what stripping the references writes to other questions and to the settings. */
  datatype Edits<V> = Edits(questions: map<nat, map<string, V>>, settings: map<string, V>)

  function Edited<V>(fields: map<nat, Field<V>>, edits: map<nat, map<string, V>>): map<nat, Field<V>> {
    map id | id in fields :: if id in edits then fields[id].(attrs := fields[id].attrs + edits[id]) else fields[id]
  }

  function SoftDelete<V>(f: Form<V>, id: nat, edits: Edits<V>): Form<V> {
    if id !in Active(f.table.fields) then f
    else
      var fields := Edited(f.table.fields, edits.questions);
      f.(table := f.table.(fields := fields[id := fields[id].(deleted := true)]), settings :=
          f.settings + edits.settings)
  }

  function Publish<V>(schema: Schema<V>, f: Form<V>, status: V): Form<V> {
    Recorded(schema, f.(version := f.version + 1, settings := f.settings["status" := status]))
  }

  /** A step: the saves, and what happens around them (answers coming and going, questions created in other forms). */
  datatype Step<V> =
    | SaveForm(payload: Payload<V>)
    | RestoreVersion(version: nat)
    | DeleteField(id: nat, edits: Edits<V>)
    | PublishForm(status: V)
    | Collect(answered: set<nat>)
    | Elsewhere(created: nat)

  function Apply<V>(schema: Schema<V>, f: Form<V>, step: Step<V>): Form<V> {
    match step
    case SaveForm(p) => Save(schema, f, p)
    case RestoreVersion(v) => Restore(schema, f, v)
    case DeleteField(id, edits) => SoftDelete(f, id, edits)
    case PublishForm(status) => Publish(schema, f, status)
    case Collect(answered) => f.(answered := answered)
    case Elsewhere(n) => f.(table := f.table.(next := f.table.next + n))
  }

  function Run<V>(schema: Schema<V>, f: Form<V>, steps: seq<Step<V>>): Form<V> {
    if steps == [] then f else Apply(schema, Run(schema, f, steps[..|steps| - 1]), steps[|steps| - 1])
  }

  // ----- the order of a listing ------------------------------------------------------------------------------------

  lemma {:induction false} ListingIds<V>(fields: map<nat, Field<V>>, ids: set<nat>)
    requires ids <= fields.Keys
    ensures forall x :: x in Listing(fields, ids) <==> x in ids
    decreases |ids|
  {
    if ids == {} {
    } else {
      LeastExists(fields, ids);
      var x := Listing(fields, ids)[0];
      ListingIds(fields, ids - {x});
    }
  }

  lemma {:induction false} ListingSorted<V>(fields: map<nat, Field<V>>, ids: set<nat>)
    requires ids <= fields.Keys
    ensures forall i :: 0 <= i < |Listing(fields, ids)| ==> Listing(fields, ids)[i] in ids
    ensures forall i, j :: 0 <= i < j < |Listing(fields, ids)| ==>
        Before(fields, Listing(fields, ids)[i], Listing(fields, ids)[j])
    decreases |ids|
  {
    ListingIds(fields, ids);
    if ids == {} {
    } else {
      LeastExists(fields, ids);
      var x := Listing(fields, ids)[0];
      ListingIds(fields, ids - {x});
      ListingSorted(fields, ids - {x});
      var l := Listing(fields, ids);
      forall i, j | 0 <= i < j < |l| ensures Before(fields, l[i], l[j]) {
        assert l[j] in Listing(fields, ids - {x});
      }
    }
  }

  /** There is only one way to list a set of questions in order. */
  lemma {:induction false} ListingUnique<V>(fields: map<nat, Field<V>>, ids: set<nat>, l: seq<nat>)
    requires ids <= fields.Keys && (forall x :: x in l <==> x in ids)
    requires forall i, j :: 0 <= i < j < |l| ==> Before(fields, l[i], l[j])
    ensures Listing(fields, ids) == l
    decreases |l|
  {
    if l == [] {
      assert ids == {};
    } else {
      assert l[0] in ids;
      LeastExists(fields, ids);
      forall y | y in ids ensures y == l[0] || Before(fields, l[0], y) {
        var i :| 0 <= i < |l| && l[i] == y;
      }
      forall x ensures x in l[1..] <==> x in ids - {l[0]} {
        if x in l[1..] {
          var i :| 0 <= i < |l[1..]| && l[1..][i] == x;
          assert l[i + 1] == x && Before(fields, l[0], x);
        }
      }
      ListingUnique(fields, ids - {l[0]}, l[1..]);
    }
  }
}
