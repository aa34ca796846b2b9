/**
 A form's definition as code that updates its rows in place; every method is one saved change, and says attribute by
 attribute what it leaves.
 */
module FormRecord {
  import opened FormHistory
  import opened FormVersions
  import opened Options
  import opened WrittenQuestions

  /** The entries without their ids. */
  function Anonymous<V>(es: seq<Entry<V>>): (r: seq<Entry<V>>)
    ensures |r| == |es| && forall i :: 0 <= i < |es| ==> r[i] == es[i].(id := None)
  {
    seq(|es|, i requires 0 <= i < |es| => es[i].(id := None))
  }

  /** Every row is active and has an id already given out. */
  ghost predicate AllNew<V>(t: Table<V>) {
    forall id :: id in t.fields ==> id < t.next && !t.fields[id].deleted
  }

  /** `u` has `n` more rows than `t`, and all are active. */
  ghost predicate MoreRows<V>(t: Table<V>, u: Table<V>, n: nat) {
    AllNew(u) && u.next == t.next + n && |u.fields| == |t.fields| + n
  }

  lemma WriteNew<V>(t: Table<V>, u: Table<V>, n: nat, blank: map<string, V>, e: Entry<V>, position: nat)
    requires MoreRows(t, u, n) && e.id.None?
    ensures MoreRows(t, Write(u, blank, e, position), n + 1)
  {
    assert u.next !in u.fields;
  }

  ghost predicate Unnumbered<V>(es: seq<Entry<V>>) {
    forall i :: 0 <= i < |es| ==> es[i].id.None?
  }

  /** Entries without ids make one new active question each. */
  lemma {:induction false} CreatedKeeps<V>(t: Table<V>, blank: map<string, V>, es: seq<Entry<V>>, n: nat)
    requires AllNew(t) && n <= |es| && Unnumbered(es)
    ensures MoreRows(t, WriteAll(t, blank, es, n), n)
  {
    if n == 0 {
    } else {
      CreatedKeeps(t, blank, es, n - 1);
      var (earlier, last) := (WriteAll(t, blank, es, n - 1), es[n - 1]);
      assert WriteAll(t, blank, es, n) == Write(earlier, blank, last, n);
      WriteNew(t, earlier, n - 1, blank, last, n);
    }
  }

  lemma OneVersion<V>(f: Form<V>)
    requires f.history.Keys == {f.version}
    ensures Recent(f) <==> f.version == 1
  {
    if f.version > 1 { assert f.version - 1 !in f.history; }
  }

  lemma CreatedTable<V>(t: Table<V>, schema: Schema<V>, es: seq<Entry<V>>)
    requires t.fields == map[] && t.next > 0 && Fits(schema, es)
    ensures var u := Updated(t, schema.blank, Anonymous(es));
      TableOk(schema.blank, u) && Active(u.fields) == u.fields.Keys && |Active(u.fields)| == |es|
  {
    assert Retired(t.fields, Incoming(Anonymous(es))) == t.fields;
    CreatedKeeps(t, schema.blank, Anonymous(es), |es|);
    UpdatedKeeps(t, schema, Anonymous(es));
    var u := Updated(t, schema.blank, Anonymous(es));
    assert Active(u.fields) == u.fields.Keys;
  }

  /** A form whose questions are all new, recorded for the first time. */
  lemma CreatedForm<V>(schema: Schema<V>, f: Form<V>, es: seq<Entry<V>>)
    requires schema.settings <= f.settings.Keys && f.table.fields == map[] && f.table.next > 0 && f.history == map[]
    requires Fits(schema, es)
    ensures var t := Updated(f.table, schema.blank, Anonymous(es));
      var g := Recorded(schema, f.(table := t));
      && Sound(schema, g) && |Active(t.fields)| == |es| && t.fields.Keys == Active(t.fields)
      && g.history == map[f.version := Taken(schema, g)] && (Recent(g) <==> f.version == 1)
  {
    CreatedTable(f.table, schema, es);
    var u := f.(table := Updated(f.table, schema.blank, Anonymous(es)));
    RecordedKeeps(schema, f, u);
    assert Newer({f.version}, f.version) == {};
    assert Recorded(schema, u).history == map[f.version := Taken(schema, u)];
    OneVersion(Recorded(schema, u));
  }

  lemma PublishMeans<V>(schema: Schema<V>, f: Form<V>, status: V)
    requires Sound(schema, f)
    ensures var g := Publish(schema, f, status);
      Sound(schema, g) && RecordedNow(schema, f.history, g, Taken(schema, g))
  {
    PublishKeeps(schema, f, status);
    RecordMeans(schema, f.(version := f.version + 1, settings := f.settings["status" := status]));
  }

  class FormStore<V(==)> {
    var version: nat
    var settings: map<string, V>
    var fields: map<nat, Field<V>>
    var next: nat
    var history: map<nat, Snapshot<V>>
    var answered: set<nat>
    const schema: Schema<V>

    function View(): Form<V>
      reads this
    {
      Form(version, settings, Table(fields, next), history, answered)
    }

    ghost predicate Valid()
      reads this
    {
      Sound(schema, View())
    }

    /**
     A new form: its questions are all new, whatever ids the payload gives. Its number is the payload's, or 1, and is
     recorded; only a form numbered 1 starts with a history without gaps.
     */
    constructor (schema: Schema<V>, p: Payload<V>, next: nat)
      requires schema.settings <= p.settings.Keys && next > 0 && Fits(schema, p.questions.GetOr([]))
      ensures Valid() && this.schema == schema && version == p.version.GetOr(1) && settings == p.settings
      ensures |Active(fields)| == |p.questions.GetOr([])| && fields.Keys == Active(fields)
      ensures history == map[version := Taken(schema, View())]
      ensures Recent(View()) <==> version == 1
      ensures OneRowEach(Table(fields, this.next), schema.blank, p.questions.GetOr([]), next)
    {
      this.schema, this.settings, this.next := schema, p.settings, next;
      version, fields, history, answered := p.version.GetOr(1), map[], map[], {};
      new;
      var es := p.questions.GetOr([]);
      ghost var f := View();
      CreatedForm(schema, f, es);
      CreatedMeans(f.table, schema.blank, es, Anonymous(es));
      WriteQuestions(Anonymous(es));
      RecordVersion();
    }

    /** Stores the current definition under the current number and drops all but the newest versions. */
    method RecordVersion()
      modifies this`history
      ensures View() == Recorded(schema, old(View()))
    {
      history := history[version := Taken(schema, View())];
      history := Newest(history, VERSIONS_KEPT);
    }

    /** Writes the payload's questions one by one, in order. */
    method WriteQuestions(es: seq<Entry<V>>)
      modifies this`fields, this`next
      ensures Table(fields, next) == Updated(old(Table(fields, next)), schema.blank, es)
      ensures IdsBelow(old(Table(fields, next))) ==>
          exists target :: QuestionsAsGiven(old(Table(fields, next)), Table(fields, next), schema.blank, es, target)
    {
      ghost var was := Table(fields, next);
      fields := Retired(fields, Incoming(es));
      ghost var t := Table(fields, next);
      for i := 0 to |es|
        invariant Table(fields, next) == WriteAll(t, schema.blank, es, i)
      {
        var e := es[i];
        var order := if e.order.Some? then e.order.value else i + 1;
        if InRange(e) && e.id.value in fields {
          var was := fields[e.id.value];
          fields := fields[e.id.value := Field(e.kind.GetOr(was.kind), order, was.attrs + e.attrs, false)];
        } else {
          fields := fields[next := Field(e.kind.GetOr(DEFAULT_KIND), order, schema.blank + e.attrs, false)];
          next := next + 1;
        }
      }
      if IdsBelow(was) {
        ghost var target := UpdatedMeans(was, schema.blank, es);
      }
    }

    /** Answered questions whose type the payload would change. */
    method LockedFields(es: seq<Entry<V>>) returns (locked: set<nat>)
      ensures locked == Locked(View(), es)
    {
      var incoming: map<int, Entry<V>> := map[];
      for i := 0 to |es|
        invariant forall id :: Get(incoming, id) == LastNaming(es[..i], id)
      {
        assert es[..i + 1][..i] == es[..i];
        if InRange(es[i]) {
          incoming := incoming[es[i].id.value := es[i]];
        }
      }
      assert es[..|es|] == es;
      locked := set id | id in fields && id in answered && id in incoming && incoming[id].kind.Some?
          && incoming[id].kind.value != fields[id].kind;
      assert forall id :: id in incoming <==> LastNaming(es, id).Some?;
    }

    /**
     Saves a payload unless it changes the type of an answered question. `target` is the question each entry was
     written to.
     */
    method UpdateForm(p: Payload<V>) returns (saved: bool, ghost target: seq<nat>)
      requires Valid() && (p.questions.Some? ==> Fits(schema, p.questions.value))
      modifies this
      ensures Valid() && View() == Save(schema, old(View()), p)
      ensures old(fields).Keys <= fields.Keys
      ensures saved <==> p.questions.None? || TypesAgree(old(fields), old(answered), p.questions.value)
      ensures !saved ==> View() == old(View())
      ensures saved ==> SavedAsGiven(schema, old(View()), View(), p, target)
      ensures saved ==> RecordedNow(schema, old(history), View(), Taken(schema, View()))
    {
      SaveKeeps(schema, View(), p);
      target := SavedMeans(schema, View(), p);
      RecordMeans(schema, Changed(schema, View(), p));
      if p.questions.Some? {
        var locked := LockedFields(p.questions.value);
        if locked != {} {
          return false, target;
        }
      }
      StoreChanges(p);
      return true, target;
    }

    /** Writes what the payload gives, whatever it is, and records the form. */
    method StoreChanges(p: Payload<V>)
      modifies this
      ensures View() == FormHistory.Saved(schema, old(View()), p)
    {
      version := version + 1;
      settings := settings + p.settings;
      if p.version.Some? {
        version := p.version.value;
      }
      if p.questions.Some? {
        WriteQuestions(p.questions.value);
      }
      RecordVersion();
    }

    /** Saves a kept version again, as a new version; afterwards the questions are the snapshot's. */
    method RestoreTo(v: nat) returns (restored: bool)
      requires Valid()
      modifies this
      ensures Valid() && View() == Restore(schema, old(View()), v)
      ensures restored <==> v in old(history) && Locked(old(View()), old(history)[v].questions) == {}
      ensures restored ==> version == old(version) + 1 && settings == old(settings) + old(history)[v].settings
      ensures restored && AllInRange(old(history)[v]) ==> Taken(schema, View()) == old(history)[v]
      ensures !restored ==> View() == old(View())
    {
      if v !in history {
        return false;
      }
      SnapshotsFit(schema, View(), v);
      if Locked(View(), history[v].questions) == {} { RestoreIsExact(schema, View(), v); }
      ghost var target;
      restored, target := UpdateForm(RestorePayload(history[v]));
    }

    /** Marks a question deleted; `edits` is what the removal of its references writes elsewhere. */
    method SoftDeleteField(id: nat, edits: Edits<V>) returns (found: bool)
      requires Valid() && forall k :: k in edits.questions ==> edits.questions[k].Keys <= schema.blank.Keys
      modifies this`fields, this`settings
      ensures Valid() && View() == SoftDelete(old(View()), id, edits)
      ensures found <==> id in old(fields) && !old(fields)[id].deleted
      ensures if found then RowsSoftened(old(fields), fields, id, edits.questions) else fields == old(fields)
      ensures settings == if found then old(settings) + edits.settings else old(settings)
      ensures fields.Keys == old(fields).Keys && Active(fields) == Active(old(fields)) - {id}
    {
      StepKeeps(schema, View(), DeleteField(id, edits));
      if id in Active(fields) { SoftDeletedActive(View(), id, edits); }
      if id !in Active(fields) {
        return false;
      }
      fields := Edited(fields, edits.questions);
      settings := settings + edits.settings;
      fields := fields[id := fields[id].(deleted := true)];
      return true;
    }

    method StorePublished(status: V)
      modifies this
      ensures View() == Publish(schema, old(View()), status)
    {
      version := version + 1;
      settings := settings["status" := status];
      RecordVersion();
    }

    method PublishNow(status: V)
      requires Valid()
      modifies this
      ensures Valid() && View() == Publish(schema, old(View()), status)
      ensures version == old(version) + 1 && settings == old(settings)["status" := status]
      ensures fields == old(fields) && next == old(next) && answered == old(answered)
      ensures RecordedNow(schema, old(history), View(), Taken(schema, View()))
    {
      PublishMeans(schema, View(), status);
      StorePublished(status);
    }
  }

  /** The question is marked deleted, and every question has the values that the edits give it. */
  ghost predicate RowsSoftened<V>(before: map<nat, Field<V>>, after: map<nat, Field<V>>, id: nat,
                                  edits: map<nat, map<string, V>>) {
    && after.Keys == before.Keys
    && forall k :: k in before ==>
         after[k] == before[k].(attrs := if k in edits then before[k].attrs + edits[k] else before[k].attrs,
                                deleted := before[k].deleted || k == id)
  }

  /** Deleting a question takes it, and no other, out of the active ones. */
  lemma SoftDeletedActive<V>(f: Form<V>, id: nat, edits: Edits<V>)
    requires id in Active(f.table.fields)
    ensures var fields := SoftDelete(f, id, edits).table.fields;
      && fields.Keys == f.table.fields.Keys && Active(fields) == Active(f.table.fields) - {id}
      && RowsSoftened(f.table.fields, fields, id, edits.questions)
  {
  }
}
