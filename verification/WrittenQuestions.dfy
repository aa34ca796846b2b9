/** What a save makes of the questions, told entry by entry and attribute by attribute. */
module WrittenQuestions {
  import opened Lists
  import opened Options
  import opened FormHistory

  // `target[i]` is the question that entry i was written to.

  ghost predicate Aims(target: seq<nat>, i: nat, id: nat) {
    i < |target| && target[i] == id
  }

  /** The entry names, in range, a question the form had or one that an earlier entry made. */
  ghost predicate NamesKnown<V>(fields: map<nat, Field<V>>, e: Entry<V>, target: seq<nat>, i: nat) {
    e.id.Some? && 0 < e.id.value < 2147483647
    && (e.id.value in fields || exists j: nat :: j < i && Aims(target, j, e.id.value))
  }

  /** The earlier entries that make a new question. */
  ghost function NewBefore<V>(fields: map<nat, Field<V>>, es: seq<Entry<V>>, target: seq<nat>, i: nat): set<nat>
    requires i <= |es|
  {
    set j: nat | j < i && !NamesKnown(fields, es[j], target, j)
  }

  /** An entry that names a known question is written to it, any other to a new one; the new ids follow each other. */
  ghost predicate AimedRight<V>(t: Table<V>, es: seq<Entry<V>>, target: seq<nat>, i: nat)
    requires i < |es| && i < |target|
  {
    if NamesKnown(t.fields, es[i], target, i) then es[i].id == Some(target[i])
    else target[i] == t.next + |NewBefore(t.fields, es, target, i)|
  }

  /** Entry i is the last of those written to the question. */
  ghost predicate Last(target: seq<nat>, i: nat, id: nat) {
    Aims(target, i, id) && forall j: nat :: i < j ==> !Aims(target, j, id)
  }

  ghost predicate GivesKind<V>(es: seq<Entry<V>>, target: seq<nat>, i: nat, id: nat) {
    Aims(target, i, id) && i < |es| && es[i].kind.Some?
  }

  /** The type is the last one given, or the one from before, or the default. */
  ghost predicate KindGiven<V>(was: Option<Field<V>>, kind: string, es: seq<Entry<V>>, target: seq<nat>, id: nat) {
    && (forall i: nat :: GivesKind(es, target, i, id) && (forall j: nat :: i < j ==> !GivesKind(es, target, j, id)) ==>
          es[i].kind == Some(kind))
    && ((forall i: nat :: !GivesKind(es, target, i, id)) ==> kind == if was.Some? then was.value.kind else "TEXT")
  }

  ghost predicate Gives<V>(es: seq<Entry<V>>, target: seq<nat>, i: nat, id: nat, a: string) {
    Aims(target, i, id) && i < |es| && a in es[i].attrs
  }

  /** The value is the last one given, or the one from before, or the blank one. */
  ghost predicate ValueGiven<V>(was: map<string, V>, value: Option<V>, es: seq<Entry<V>>, target: seq<nat>, id: nat,
                                a: string) {
    && (forall i: nat :: Gives(es, target, i, id, a) && (forall j: nat :: i < j ==> !Gives(es, target, j, id, a)) ==>
          value == Some(es[i].attrs[a]))
    && ((forall i: nat :: !Gives(es, target, i, id, a)) ==> value == Get(was, a))
  }

  /** A question that entries were written to is active, in the place the last of them gives it. */
  ghost predicate RowGiven<V>(was: Option<Field<V>>, blank: map<string, V>, f: Field<V>, es: seq<Entry<V>>,
                              target: seq<nat>, id: nat) {
    && !f.deleted
    && (forall i: nat :: Last(target, i, id) && i < |es| ==> f.order == es[i].order.GetOr(i + 1))
    && KindGiven(was, f.kind, es, target, id)
    && forall a :: ValueGiven(if was.Some? then was.value.attrs else blank, Get(f.attrs, a), es, target, id, a)
  }

  /** Some entry names the question. */
  ghost predicate Mentioned<V>(es: seq<Entry<V>>, id: nat) {
    exists i: nat :: i < |es| && es[i].id == Some(id) && 0 < id < 2147483647
  }

  /** A question nothing was written to keeps its row; it is deleted unless some entry names it. */
  ghost predicate RowLeft<V>(was: Field<V>, f: Field<V>, es: seq<Entry<V>>, id: nat) {
    f == if Mentioned(es, id) then was else was.(deleted := true)
  }

  ghost predicate Targeted(target: seq<nat>, id: nat) {
    exists i: nat :: Aims(target, i, id)
  }

  ghost predicate RowWritten<V>(was: Option<Field<V>>, blank: map<string, V>, f: Field<V>, es: seq<Entry<V>>,
                                target: seq<nat>, id: nat) {
    if Targeted(target, id) then RowGiven(was, blank, f, es, target, id)
    else was.Some? && RowLeft(was.value, f, es, id)
  }

  /** The table after the first entries, as many as there are targets. */
  ghost predicate WrittenTo<V>(t: Table<V>, u: Table<V>, blank: map<string, V>, es: seq<Entry<V>>, target: seq<nat>) {
    && |target| <= |es|
    && TargetsRight(t, u.next, es, target)
    && KeysRight(t, u, target)
    && RowsRight(t, u, blank, es, target)
  }

  ghost predicate TargetsRight<V>(t: Table<V>, next: nat, es: seq<Entry<V>>, target: seq<nat>)
    requires |target| <= |es|
  {
    && (forall i: nat :: i < |target| ==> AimedRight(t, es, target, i))
    && next == t.next + |NewBefore(t.fields, es, target, |target|)|
  }

  ghost predicate KeysRight<V>(t: Table<V>, u: Table<V>, target: seq<nat>) {
    forall id :: id in u.fields <==> id in t.fields || Targeted(target, id)
  }

  ghost predicate RowsRight<V>(t: Table<V>, u: Table<V>, blank: map<string, V>, es: seq<Entry<V>>, target: seq<nat>) {
    forall id :: id in u.fields ==> RowWritten(Get(t.fields, id), blank, u.fields[id], es, target, id)
  }

  /**
   Every entry was written: to the question it names, if that is known, and otherwise to a new one. The questions no
   entry was written to are deleted and otherwise as they were.
   */
  ghost predicate Written<V>(t: Table<V>, u: Table<V>, blank: map<string, V>, es: seq<Entry<V>>, target: seq<nat>) {
    && |target| == |es| && WrittenTo(t, u, blank, es, target)
    && forall id :: id in t.fields && id in u.fields && !Targeted(target, id) ==>
         u.fields[id] == t.fields[id].(deleted := true)
  }

  lemma AimsSnoc(target: seq<nat>, x: nat, i: nat, id: nat)
    ensures Aims(target + [x], i, id) <==> Aims(target, i, id) || (i == |target| && id == x)
  {
  }

  lemma NamesKnownSnoc<V>(fields: map<nat, Field<V>>, e: Entry<V>, target: seq<nat>, x: nat, i: nat)
    requires i <= |target|
    ensures NamesKnown(fields, e, target + [x], i) <==> NamesKnown(fields, e, target, i)
  {
    forall j: nat, id | j < i ensures Aims(target + [x], j, id) <==> Aims(target, j, id) {}
  }

  lemma NewBeforeSnoc<V>(fields: map<nat, Field<V>>, es: seq<Entry<V>>, target: seq<nat>, x: nat, i: nat)
    requires i <= |target| < |es|
    ensures NewBefore(fields, es, target + [x], i) == NewBefore(fields, es, target, i)
  {
    forall j: nat | j < i ensures NamesKnown(fields, es[j], target + [x], j) <==> NamesKnown(fields, es[j], target, j) {
      NamesKnownSnoc(fields, es[j], target, x, j);
    }
  }

  lemma NewBeforeNext<V>(fields: map<nat, Field<V>>, es: seq<Entry<V>>, target: seq<nat>, i: nat)
    requires i < |es|
    ensures |NewBefore(fields, es, target, i + 1)|
         == |NewBefore(fields, es, target, i)| + if NamesKnown(fields, es[i], target, i) then 0 else 1
  {
    assert NewBefore(fields, es, target, i + 1)
        == NewBefore(fields, es, target, i) + if NamesKnown(fields, es[i], target, i) then {} else {i};
  }

  /** The question the next entry is written to. */
  ghost function NextTarget<V>(t: Table<V>, e: Entry<V>): nat {
    if InRange(e) && e.id.value in t.fields then e.id.value else t.next
  }

  lemma KindSnoc<V>(was: Option<Field<V>>, kind: string, es: seq<Entry<V>>, target: seq<nat>, id: nat)
    requires |target| < |es| && KindGiven(was, kind, es, target, id)
    ensures KindGiven(was, es[|target|].kind.GetOr(kind), es, target + [id], id)
  {
    forall i: nat ensures GivesKind(es, target + [id], i, id)
        <==> GivesKind(es, target, i, id) || (i == |target| && es[i].kind.Some?) {
      AimsSnoc(target, id, i, id);
    }
    if es[|target|].kind.Some? { assert GivesKind(es, target + [id], |target|, id); }
  }

  lemma ValueSnoc<V>(was: map<string, V>, value: Option<V>, es: seq<Entry<V>>, target: seq<nat>, id: nat, a: string)
    requires |target| < |es| && ValueGiven(was, value, es, target, id, a)
    ensures var e := es[|target|];
      ValueGiven(was, if a in e.attrs then Some(e.attrs[a]) else value, es, target + [id], id, a)
  {
    forall i: nat ensures Gives(es, target + [id], i, id, a)
        <==> Gives(es, target, i, id, a) || (i == |target| && a in es[i].attrs) {
      AimsSnoc(target, id, i, id);
    }
    if a in es[|target|].attrs { assert Gives(es, target + [id], |target|, id, a); }
  }

  /** Writing one more entry to its question. */
  lemma RowSnoc<V>(was: Option<Field<V>>, blank: map<string, V>, f: Field<V>, es: seq<Entry<V>>, target: seq<nat>,
                   id: nat)
    requires |target| < |es| && KindGiven(was, f.kind, es, target, id)
    requires forall a :: ValueGiven(if was.Some? then was.value.attrs else blank, Get(f.attrs, a), es, target, id, a)
    ensures var e := es[|target|];
      RowGiven(was, blank, Field(e.kind.GetOr(f.kind), e.order.GetOr(|target| + 1), f.attrs + e.attrs, false), es,
               target + [id], id)
  {
    var e := es[|target|];
    KindSnoc(was, f.kind, es, target, id);
    forall a ensures ValueGiven(if was.Some? then was.value.attrs else blank, Get(f.attrs + e.attrs, a), es,
                                target + [id], id, a) {
      ValueSnoc(if was.Some? then was.value.attrs else blank, Get(f.attrs, a), es, target, id, a);
    }
    assert Aims(target + [id], |target|, id);
    forall i: nat | Last(target + [id], i, id) ensures i == |target| {}
  }

  /** Writing an entry to another question. */
  lemma RowElsewhere<V>(was: Option<Field<V>>, blank: map<string, V>, f: Field<V>, es: seq<Entry<V>>,
                        target: seq<nat>, x: nat, id: nat)
    requires RowWritten(was, blank, f, es, target, id) && x != id
    ensures RowWritten(was, blank, f, es, target + [x], id)
  {
    TargetedSnoc(target, x, id);
    forall i: nat ensures Aims(target + [x], i, id) <==> Aims(target, i, id) { AimsSnoc(target, x, i, id); }
    forall i: nat ensures GivesKind(es, target + [x], i, id) <==> GivesKind(es, target, i, id) {}
    forall a | Targeted(target, id) ensures ValueGiven(if was.Some? then was.value.attrs else blank, Get(f.attrs, a),
                                                       es, target + [x], id, a) {
      assert ValueGiven(if was.Some? then was.value.attrs else blank, Get(f.attrs, a), es, target, id, a);
      forall i: nat ensures Gives(es, target + [x], i, id, a) <==> Gives(es, target, i, id, a) {}
    }
  }

  /** Nothing was written to the question yet. */
  lemma RowUntouched<V>(was: Option<Field<V>>, blank: map<string, V>, es: seq<Entry<V>>, target: seq<nat>, id: nat)
    requires !Targeted(target, id)
    ensures KindGiven(was, if was.Some? then was.value.kind else DEFAULT_KIND, es, target, id)
    ensures var attrs := if was.Some? then was.value.attrs else blank;
      forall a :: ValueGiven(attrs, Get(attrs, a), es, target, id, a)
  {
    forall i: nat ensures !Aims(target, i, id) {}
    var attrs := if was.Some? then was.value.attrs else blank;
    forall a ensures ValueGiven(attrs, Get(attrs, a), es, target, id, a) {
      forall i: nat ensures !Gives(es, target, i, id, a) {}
    }
  }

  lemma TargetedSnoc(target: seq<nat>, x: nat, id: nat)
    ensures Targeted(target + [x], id) <==> Targeted(target, id) || id == x
  {
    if Targeted(target, id) {
      var i: nat :| Aims(target, i, id);
      AimsSnoc(target, x, i, id);
    }
    if Targeted(target + [x], id) && id != x {
      var i: nat :| Aims(target + [x], i, id);
      AimsSnoc(target, x, i, id);
    }
    assert Aims(target + [x], |target|, x);
  }

  lemma NextIsAimed<V>(t: Table<V>, u: Table<V>, blank: map<string, V>, es: seq<Entry<V>>, target: seq<nat>)
    requires |target| < |es| && TargetsRight(t, u.next, es, target) && KeysRight(t, u, target)
    ensures TargetsRight(t, Write(u, blank, es[|target|], |target| + 1).next, es,
                         target + [NextTarget(u, es[|target|])])
  {
    var (e, n) := (es[|target|], |target|);
    var longer := target + [NextTarget(u, e)];
    if InRange(e) && Targeted(target, e.id.value) {
      var j: nat :| Aims(target, j, e.id.value);
      assert j < n;
    }
    forall i: nat | i <= n ensures NamesKnown(t.fields, es[i], longer, i) <==> NamesKnown(t.fields, es[i], target, i)
      ensures NewBefore(t.fields, es, longer, i) == NewBefore(t.fields, es, target, i) {
      NamesKnownSnoc(t.fields, es[i], target, NextTarget(u, e), i);
      NewBeforeSnoc(t.fields, es, target, NextTarget(u, e), i);
    }
    forall i: nat | i < n ensures AimedRight(t, es, longer, i) { assert AimedRight(t, es, target, i); }
    NewBeforeNext(t.fields, es, longer, n);
  }

  /** The question an entry is written to, before the entry is. */
  ghost function Base<V>(u: Table<V>, blank: map<string, V>, x: nat): Field<V> {
    if x in u.fields then u.fields[x] else Field(DEFAULT_KIND, 0, blank, false)
  }

  lemma WriteAt<V>(u: Table<V>, blank: map<string, V>, e: Entry<V>, place: nat)
    requires u.next !in u.fields
    ensures var (x, f) := (NextTarget(u, e), Base(u, blank, NextTarget(u, e)));
      Write(u, blank, e, place).fields
      == u.fields[x := Field(e.kind.GetOr(f.kind), e.order.GetOr(place), f.attrs + e.attrs, false)]
  {
  }

  lemma BaseGiven<V>(t: Table<V>, u: Table<V>, blank: map<string, V>, es: seq<Entry<V>>, target: seq<nat>, x: nat)
    requires x in u.fields ==> RowWritten(Get(t.fields, x), blank, u.fields[x], es, target, x)
    requires x in t.fields || Targeted(target, x) ==> x in u.fields
    ensures var (was, f) := (Get(t.fields, x), Base(u, blank, x));
      && KindGiven(was, f.kind, es, target, x)
      && forall a :: ValueGiven(if was.Some? then was.value.attrs else blank, Get(f.attrs, a), es, target, x, a)
  {
    if !Targeted(target, x) { RowUntouched(Get(t.fields, x), blank, es, target, x); }
  }

  lemma RowNext<V>(t: Table<V>, u: Table<V>, blank: map<string, V>, es: seq<Entry<V>>, target: seq<nat>, id: nat)
    requires |target| < |es| && u.next !in u.fields && KeysRight(t, u, target) && RowsRight(t, u, blank, es, target)
    requires id in Write(u, blank, es[|target|], |target| + 1).fields
    ensures RowWritten(Get(t.fields, id), blank, Write(u, blank, es[|target|], |target| + 1).fields[id], es,
                       target + [NextTarget(u, es[|target|])], id)
  {
    var e := es[|target|];
    var x := NextTarget(u, e);
    WriteAt(u, blank, e, |target| + 1);
    if id == x {
      BaseGiven(t, u, blank, es, target, x);
      RowSnoc(Get(t.fields, x), blank, Base(u, blank, x), es, target, x);
      TargetedSnoc(target, x, x);
    } else {
      RowElsewhere(Get(t.fields, id), blank, u.fields[id], es, target, x, id);
    }
  }

  lemma WrittenSnoc<V>(t: Table<V>, u: Table<V>, blank: map<string, V>, es: seq<Entry<V>>, target: seq<nat>)
    requires |target| < |es| && WrittenTo(t, u, blank, es, target) && forall id :: id in u.fields ==> id < u.next
    ensures WrittenTo(t, Write(u, blank, es[|target|], |target| + 1), blank, es,
                      target + [NextTarget(u, es[|target|])])
  {
    var (e, x) := (es[|target|], NextTarget(u, es[|target|]));
    var w := Write(u, blank, e, |target| + 1);
    NextIsAimed(t, u, blank, es, target);
    forall id | id in w.fields ensures RowWritten(Get(t.fields, id), blank, w.fields[id], es, target + [x], id) {
      RowNext(t, u, blank, es, target, id);
    }
    KeysNext(t, u, blank, e, |target| + 1, target);
  }

  lemma KeysNext<V>(t: Table<V>, u: Table<V>, blank: map<string, V>, e: Entry<V>, place: nat, target: seq<nat>)
    requires KeysRight(t, u, target) && u.next !in u.fields
    ensures KeysRight(t, Write(u, blank, e, place), target + [NextTarget(u, e)])
  {
    WriteAt(u, blank, e, place);
    forall id ensures Targeted(target + [NextTarget(u, e)], id) <==> Targeted(target, id) || id == NextTarget(u, e) {
      TargetedSnoc(target, NextTarget(u, e), id);
    }
  }

  lemma NothingWritten<V>(t: Table<V>, blank: map<string, V>, es: seq<Entry<V>>)
    ensures WrittenTo(t, t.(fields := Retired(t.fields, Incoming(es))), blank, es, [])
  {
    var fields := Retired(t.fields, Incoming(es));
    assert NewBefore(t.fields, es, [], 0) == {};
    forall id ensures !Targeted([], id) {}
    forall id | id in t.fields ensures RowLeft(t.fields[id], fields[id], es, id) {
      if Mentioned(es, id) {
        var i: nat :| i < |es| && es[i].id == Some(id);
        assert InRange(es[i]);
      }
    }
  }

  ghost predicate IdsBelow<V>(t: Table<V>) {
    forall id :: id in t.fields ==> id < t.next
  }

  lemma {:induction false} FirstWritten<V>(t: Table<V>, blank: map<string, V>, es: seq<Entry<V>>, n: nat)
    returns (target: seq<nat>)
    requires n <= |es| && IdsBelow(t)
    ensures var u := WriteAll(t.(fields := Retired(t.fields, Incoming(es))), blank, es, n);
      |target| == n && IdsBelow(u) && WrittenTo(t, u, blank, es, target)
  {
    if n == 0 {
      NothingWritten(t, blank, es);
      target := [];
    } else {
      target := FirstWritten(t, blank, es, n - 1);
      var u := WriteAll(t.(fields := Retired(t.fields, Incoming(es))), blank, es, n - 1);
      WrittenSnoc(t, u, blank, es, target);
      target := target + [NextTarget(u, es[n - 1])];
    }
  }

  lemma AllWritten<V>(t: Table<V>, blank: map<string, V>, es: seq<Entry<V>>) returns (target: seq<nat>)
    requires IdsBelow(t)
    ensures Written(t, Updated(t, blank, es), blank, es, target)
  {
    target := FirstWritten(t, blank, es, |es|);
    var u := Updated(t, blank, es);
    forall id | id in t.fields && id in u.fields && !Targeted(target, id)
      ensures u.fields[id] == t.fields[id].(deleted := true) {
      assert RowWritten(Get(t.fields, id), blank, u.fields[id], es, target, id);
      if Mentioned(es, id) { MentionedIsTargeted(t, u.next, es, target, id); }
    }
  }

  lemma MentionedIsTargeted<V>(t: Table<V>, next: nat, es: seq<Entry<V>>, target: seq<nat>, id: nat)
    requires |target| == |es| && TargetsRight(t, next, es, target) && id in t.fields && Mentioned(es, id)
    ensures Targeted(target, id)
  {
    var i: nat :| i < |es| && es[i].id == Some(id) && 0 < id < ID_LIMIT;
    assert AimedRight(t, es, target, i);
    assert Aims(target, i, id);
  }

  /** The row of a question just created: the entry's values and blank ones, its kind or text, its order or place. */
  ghost predicate NewRow<V>(fields: map<nat, Field<V>>, blank: map<string, V>, e: Entry<V>, id: nat, place: nat) {
    && id in fields && !fields[id].deleted
    && fields[id].kind == (if e.kind.Some? then e.kind.value else "TEXT")
    && fields[id].order == (if e.order.Some? then e.order.value else place)
    && forall a :: Get(fields[id].attrs, a) == if a in e.attrs then Some(e.attrs[a]) else Get(blank, a)
  }

  /** Unless a later entry happens to name its id, a new question holds what its entry says. */
  lemma NewQuestion<V>(t: Table<V>, u: Table<V>, blank: map<string, V>, es: seq<Entry<V>>, target: seq<nat>, i: nat)
    requires Written(t, u, blank, es, target) && IdsBelow(t)
    requires i < |es| && !NamesKnown(t.fields, es[i], target, i) && forall j :: i < j < |es| ==> target[j] != target[i]
    ensures t.next <= target[i] < u.next && NewRow(u.fields, blank, es[i], target[i], i + 1)
  {
    var id := target[i];
    NewIds(t, es, target, i, |es|);
    assert AimedRight(t, es, target, i) && Aims(target, i, id) && id !in t.fields;
    forall j: nat ensures Aims(target, j, id) <==> j == i {
      if j < i { EarlierDiffers(t, u, blank, es, target, j, i); }
    }
    assert Last(target, i, id);
    forall j: nat ensures GivesKind(es, target, j, id) <==> j == i && es[i].kind.Some? {}
    forall a ensures Get(u.fields[id].attrs, a) == if a in es[i].attrs then Some(es[i].attrs[a]) else Get(blank, a) {
      assert ValueGiven(blank, Get(u.fields[id].attrs, a), es, target, id, a);
      forall j: nat ensures Gives(es, target, j, id, a) <==> j == i && a in es[i].attrs {}
    }
  }

  lemma NewIds<V>(t: Table<V>, es: seq<Entry<V>>, target: seq<nat>, i: nat, n: nat)
    requires i < n <= |es|
    ensures |NewBefore(t.fields, es, target, i)| + (if NamesKnown(t.fields, es[i], target, i) then 0 else 1)
         <= |NewBefore(t.fields, es, target, n)|
  {
    NewBeforeNext(t.fields, es, target, i);
    SubsetSize(NewBefore(t.fields, es, target, i + 1), NewBefore(t.fields, es, target, n));
  }

  /** The question an entry makes is not one that an earlier entry was written to. */
  lemma {:induction false} EarlierDiffers<V>(t: Table<V>, u: Table<V>, blank: map<string, V>, es: seq<Entry<V>>,
                                             target: seq<nat>, j: nat, i: nat)
    requires Written(t, u, blank, es, target) && IdsBelow(t) && j < i < |es|
    requires !NamesKnown(t.fields, es[i], target, i)
    ensures target[j] != target[i]
  {
    assert AimedRight(t, es, target, j) && AimedRight(t, es, target, i);
    if !NamesKnown(t.fields, es[j], target, j) {
      NewIds(t, es, target, j, i);
    } else if target[j] !in t.fields {
      var k: nat :| k < j && Aims(target, k, target[j]);
      EarlierDiffers(t, u, blank, es, target, k, i);
    }
  }

  /** Two entries that make questions make different ones, the earlier entry the one with the smaller id. */
  lemma NewIdsGoUp<V>(t: Table<V>, u: Table<V>, blank: map<string, V>, es: seq<Entry<V>>, target: seq<nat>, i: nat,
                      j: nat)
    requires Written(t, u, blank, es, target) && i < j < |es|
    requires !NamesKnown(t.fields, es[i], target, i) && !NamesKnown(t.fields, es[j], target, j)
    ensures target[i] < target[j]
  {
    assert AimedRight(t, es, target, i) && AimedRight(t, es, target, j);
    NewIds(t, es, target, i, j);
  }

  /**
   Each entry that names no known question makes a new one, with a fresh id, the later entry the higher one; unless a
   later entry happens to name that id, the new question holds what its entry says.
   */
  ghost predicate NewOnesAsGiven<V>(t: Table<V>, u: Table<V>, blank: map<string, V>, es: seq<Entry<V>>,
                                    target: seq<nat>) {
    && |target| == |es|
    && (forall i: nat :: i < |es| && !NamesKnown(t.fields, es[i], target, i) ==>
          && target[i] !in t.fields && t.next <= target[i]
          && ((forall j :: i < j < |es| ==> target[j] != target[i]) ==>
                NewRow(u.fields, blank, es[i], target[i], i + 1)))
    && (forall i: nat, j: nat ::
          i < j < |es| && !NamesKnown(t.fields, es[i], target, i) && !NamesKnown(t.fields, es[j], target, j) ==>
            target[i] < target[j])
  }

  lemma NewQuestions<V>(t: Table<V>, u: Table<V>, blank: map<string, V>, es: seq<Entry<V>>, target: seq<nat>)
    requires Written(t, u, blank, es, target) && IdsBelow(t)
    ensures NewOnesAsGiven(t, u, blank, es, target)
  {
    forall i: nat | i < |es| && !NamesKnown(t.fields, es[i], target, i)
      ensures target[i] !in t.fields && t.next <= target[i] {
      assert AimedRight(t, es, target, i);
    }
    forall i: nat | i < |es| && !NamesKnown(t.fields, es[i], target, i)
                    && forall j :: i < j < |es| ==> target[j] != target[i]
      ensures NewRow(u.fields, blank, es[i], target[i], i + 1) {
      NewQuestion(t, u, blank, es, target, i);
    }
    forall i: nat, j: nat | i < j < |es| && !NamesKnown(t.fields, es[i], target, i)
                            && !NamesKnown(t.fields, es[j], target, j)
      ensures target[i] < target[j] {
      NewIdsGoUp(t, u, blank, es, target, i, j);
    }
  }

  /** Entries without ids make one question each, numbered one after the other. */
  lemma AllEntriesNew<V>(t: Table<V>, u: Table<V>, blank: map<string, V>, es: seq<Entry<V>>, target: seq<nat>)
    requires Written(t, u, blank, es, target) && IdsBelow(t) && forall i :: 0 <= i < |es| ==> es[i].id.None?
    ensures u.next == t.next + |es|
    ensures forall i: nat :: i < |es| ==> NewRow(u.fields, blank, es[i], t.next + i, i + 1)
  {
    NumbersUpTo(t, es, target, |es|);
    forall i: nat | i < |es| ensures target[i] == t.next + i { NumberOf(t, es, target, i); }
    forall i: nat | i < |es| ensures NewRow(u.fields, blank, es[i], t.next + i, i + 1) {
      NewQuestion(t, u, blank, es, target, i);
    }
  }

  lemma NumberOf<V>(t: Table<V>, es: seq<Entry<V>>, target: seq<nat>, i: nat)
    requires i < |es| == |target| && AimedRight(t, es, target, i) && forall j :: 0 <= j < |es| ==> es[j].id.None?
    ensures target[i] == t.next + i
  {
    NumbersUpTo(t, es, target, i);
  }

  lemma {:induction false} NumbersUpTo<V>(t: Table<V>, es: seq<Entry<V>>, target: seq<nat>, i: nat)
    requires i <= |es| && forall j :: 0 <= j < |es| ==> es[j].id.None?
    ensures |NewBefore(t.fields, es, target, i)| == i
  {
    if i == 0 {
    } else {
      NumbersUpTo(t, es, target, i - 1);
      NewBeforeNext(t.fields, es, target, i - 1);
    }
  }

  // ----- what is recorded, and what is refused -------------------------------------------------------------

  /** The snapshot's entry is the question as it is stored. */
  ghost predicate EntryIsRow<V>(e: Entry<V>, fields: map<nat, Field<V>>, id: nat) {
    && id in fields && !fields[id].deleted
    && e == Entry(Some(id), Some(fields[id].kind), Some(fields[id].order), fields[id].attrs)
  }

  ghost predicate IsAt<V>(es: seq<Entry<V>>, i: nat, id: nat) {
    i < |es| && es[i].id == Some(id)
  }

  /** Every active question once, by order number and id. */
  ghost predicate QuestionsOf<V>(fields: map<nat, Field<V>>, es: seq<Entry<V>>) {
    && (forall i: nat, id: nat :: IsAt(es, i, id) ==> EntryIsRow(es[i], fields, id))
    && (forall i :: 0 <= i < |es| ==> es[i].id.Some? && es[i].id.value >= 0)
    && (forall id :: id in fields && !fields[id].deleted ==> exists i: nat :: IsAt(es, i, id))
    && (forall i: nat, j: nat, a: nat, b: nat :: i < j && IsAt(es, i, a) && IsAt(es, j, b) ==> Earlier(fields, a, b))
  }

  ghost predicate Earlier<V>(fields: map<nat, Field<V>>, a: nat, b: nat) {
    && a in fields && b in fields
    && (fields[a].order < fields[b].order || (fields[a].order == fields[b].order && a < b))
  }

  /** The settings that are kept, and the questions. */
  ghost predicate SnapshotOf<V>(kept: set<string>, settings: map<string, V>, fields: map<nat, Field<V>>,
                                s: Snapshot<V>) {
    && (forall k :: Get(s.settings, k) == if k in kept then Get(settings, k) else None)
    && QuestionsOf(fields, s.questions)
  }

  lemma EntriesAre<V>(fields: map<nat, Field<V>>, l: seq<nat>)
    requires forall i :: 0 <= i < |l| ==> l[i] in fields && !fields[l[i]].deleted
    requires forall i, j :: 0 <= i < j < |l| ==> Before(fields, l[i], l[j])
    requires forall id :: id in fields && !fields[id].deleted ==> id in l
    ensures QuestionsOf(fields, Entries(fields, l))
  {
    var es := Entries(fields, l);
    forall i: nat, id: nat ensures IsAt(es, i, id) <==> i < |l| && l[i] == id {}
    forall i: nat, j: nat, a: nat, b: nat | i < j && IsAt(es, i, a) && IsAt(es, j, b) ensures Earlier(fields, a, b) {
      assert l[i] == a && l[j] == b;
    }
    forall id | id in fields && !fields[id].deleted ensures exists i: nat :: IsAt(es, i, id) {
      var i: nat :| i < |l| && l[i] == id;
      assert IsAt(es, i, id);
    }
  }

  lemma TakenMeans<V>(schema: Schema<V>, f: Form<V>)
    ensures SnapshotOf(schema.settings, f.settings, f.table.fields, Taken(schema, f))
  {
    var fields := f.table.fields;
    ListingIds(fields, Active(fields));
    ListingSorted(fields, Active(fields));
    EntriesAre(fields, Listing(fields, Active(fields)));
  }

  /** The versions after `v`, of those there were and the one just recorded. */
  ghost function Later<V>(history: map<nat, Snapshot<V>>, version: nat, v: nat): set<nat> {
    set w | w in history.Keys + {version} && w > v
  }

  /** The definition is recorded under its number; of all versions the fifty with the highest numbers stay. */
  ghost predicate RecordedIn<V>(before: map<nat, Snapshot<V>>, after: map<nat, Snapshot<V>>, version: nat,
                                taken: Snapshot<V>) {
    && (forall v :: v in after <==> (v in before || v == version) && |Later(before, version, v)| < 50)
    && (forall v :: v in after ==> after[v] == if v == version then taken else before[v])
  }

  lemma RecordedMeans<V>(schema: Schema<V>, f: Form<V>)
    ensures RecordedIn(f.history, Recorded(schema, f).history, f.version, Taken(schema, f))
  {
    var wider := f.history[f.version := Taken(schema, f)];
    assert wider.Keys == f.history.Keys + {f.version};
    forall v ensures Newer(wider.Keys, v) == Later(f.history, f.version, v) {}
  }

  /** The last entry that names the question. */
  ghost predicate NamedLast<V>(es: seq<Entry<V>>, i: nat, id: nat) {
    && i < |es| && 0 < id < 2147483647 && es[i].id == Some(id)
    && forall j :: i < j < |es| ==> es[j].id != Some(id)
  }

  /** The last entry that names an answered question gives it no other type than it has. */
  ghost predicate TypesAgree<V>(fields: map<nat, Field<V>>, answered: set<nat>, es: seq<Entry<V>>) {
    forall id, i: nat :: id in fields && id in answered && NamedLast(es, i, id) ==>
      es[i].kind.None? || es[i].kind.value == fields[id].kind
  }

  lemma {:induction false} LastNamingIs<V>(es: seq<Entry<V>>, id: nat)
    ensures forall i: nat :: NamedLast(es, i, id) ==> LastNaming(es, id) == Some(es[i])
    ensures LastNaming(es, id).Some? ==> exists i: nat :: NamedLast(es, i, id)
  {
    if es == [] {
    } else {
      var n := |es| - 1;
      LastNamingIs(es[..n], id);
      if Names(es[n], id) {
        assert NamedLast(es, n, id);
      } else {
        forall i: nat ensures NamedLast(es, i, id) <==> NamedLast(es[..n], i, id) {}
      }
    }
  }

  lemma AcceptedMeans<V>(f: Form<V>, es: seq<Entry<V>>)
    ensures Locked(f, es) == {} <==> TypesAgree(f.table.fields, f.answered, es)
  {
    forall id: nat ensures forall i: nat :: NamedLast(es, i, id) ==> LastNaming(es, id) == Some(es[i])
      ensures LastNaming(es, id).Some? ==> exists i: nat :: NamedLast(es, i, id) {
      LastNamingIs(es, id);
    }
    if !TypesAgree(f.table.fields, f.answered, es) {
      var id, i: nat :| id in f.table.fields && id in f.answered && NamedLast(es, i, id) &&
        !(es[i].kind.None? || es[i].kind.value == f.table.fields[id].kind);
      assert id in Locked(f, es);
    } else {
      forall id ensures id !in Locked(f, es) {}
    }
  }

  // ----- a whole save ---------------------------------------------------------------------------------------

  /** The questions are written as the payload gives them. */
  ghost predicate QuestionsAsGiven<V>(t: Table<V>, u: Table<V>, blank: map<string, V>, es: seq<Entry<V>>,
                                      target: seq<nat>) {
    Written(t, u, blank, es, target) && NewOnesAsGiven(t, u, blank, es, target)
  }

  lemma UpdatedMeans<V>(t: Table<V>, blank: map<string, V>, es: seq<Entry<V>>) returns (target: seq<nat>)
    requires IdsBelow(t)
    ensures QuestionsAsGiven(t, Updated(t, blank, es), blank, es, target)
  {
    target := AllWritten(t, blank, es);
    NewQuestions(t, Updated(t, blank, es), blank, es, target);
  }

  /** The number goes up unless the payload gives one; settings are merged; the questions are as given, if there are. */
  ghost predicate SavedAsGiven<V>(schema: Schema<V>, f: Form<V>, g: Form<V>, p: Payload<V>, target: seq<nat>) {
    && g.version == (if p.version.Some? then p.version.value else f.version + 1)
    && g.settings == f.settings + p.settings && g.answered == f.answered
    && (if p.questions.None? then g.table == f.table
        else QuestionsAsGiven(f.table, g.table, schema.blank, p.questions.value, target))
  }

  lemma SavedMeans<V>(schema: Schema<V>, f: Form<V>, p: Payload<V>) returns (target: seq<nat>)
    requires IdsBelow(f.table)
    ensures Accepted(f, p) <==> p.questions.None? || TypesAgree(f.table.fields, f.answered, p.questions.value)
    ensures SavedAsGiven(schema, f, FormHistory.Saved(schema, f, p), p, target)
  {
    target := [];
    if p.questions.Some? {
      AcceptedMeans(f, p.questions.value);
      target := UpdatedMeans(f.table, schema.blank, p.questions.value);
    }
  }

  /** The form's definition was recorded. */
  ghost predicate RecordedNow<V>(schema: Schema<V>, before: map<nat, Snapshot<V>>, g: Form<V>, taken: Snapshot<V>) {
    && RecordedIn(before, g.history, g.version, taken)
    && SnapshotOf(schema.settings, g.settings, g.table.fields, taken)
  }

  lemma RecordMeans<V>(schema: Schema<V>, f: Form<V>)
    ensures RecordedNow(schema, f.history, Recorded(schema, f), Taken(schema, f))
  {
    RecordedMeans(schema, f);
    TakenMeans(schema, f);
  }

  /** Entry i made the question with the i-th number, and it holds what the entry says. */
  ghost predicate OneRowEach<V>(t: Table<V>, blank: map<string, V>, es: seq<Entry<V>>, first: nat) {
    t.next == first + |es| && forall i: nat :: i < |es| ==> NewRow(t.fields, blank, es[i], first + i, i + 1)
  }

  lemma CreatedMeans<V>(t: Table<V>, blank: map<string, V>, es: seq<Entry<V>>, bare: seq<Entry<V>>)
    requires IdsBelow(t) && |bare| == |es| && forall i :: 0 <= i < |es| ==> bare[i] == es[i].(id := None)
    ensures OneRowEach(Updated(t, blank, bare), blank, es, t.next)
  {
    var target := AllWritten(t, blank, bare);
    var u := Updated(t, blank, bare);
    AllEntriesNew(t, u, blank, bare, target);
    forall i: nat | i < |es| ensures NewRow(u.fields, blank, es[i], t.next + i, i + 1) {
      assert NewRow(u.fields, blank, bare[i], t.next + i, i + 1);
    }
  }
}
