/**
 What each upload operation does to rows, answers and objects, told row by row and object by object, without the steps
 of the protocol.
 */
module UploadEffects {
  import opened Lists
  import opened Options
  import opened UploadModel
  import opened UploadSafety

  // ----- asking for and discarding an upload -------------------------------------------------------------

  /** The person's earlier files for this question that were neither submitted nor too late. */
  ghost function Earlier(s: Store, form: FormId, user: UserId, field: FieldId, now: Time): set<Id> {
    set id | id in Unsubmitted(s, form, user, now) && id in s.rows && s.rows[id].field == field
  }

  ghost function Unsubmitted(s: Store, form: FormId, user: UserId, now: Time): set<Id> {
    set id |
      && id in s.rows && s.rows[id].form == form && s.rows[id].uploader == Some(user)
      && (s.rows[id].state == Pending || s.rows[id].state == Uploaded)
      && s.rows[id].response.None? && s.rows[id].expires.Some? && now < s.rows[id].expires.value
  }

  /** An earlier file that makes way: only at a question for one file. */
  ghost predicate MakesWay(s: Store, form: FormId, user: UserId, q: Question, c: Clock, id: Id) {
    !q.multi && id in Earlier(s, form, user, q.field, c.first)
  }

  ghost predicate AskedByRules(s: Store, limits: Limits, form: FormId, user: UserId, q: Question, c: Clock,
                               asked: Asked) {
    var left := set id | id in Unsubmitted(s, form, user, c.second) && !MakesWay(s, form, user, q, c, id);
    var full := q.multi && |Earlier(s, form, user, q.field, c.first)| >= q.maxFiles;
    && (asked == TooManyFiles <==> full)
    && (asked == TooManyPending <==> !full && |left| >= limits.cap)
    && (asked == Granted <==> !full && |left| < limits.cap)
  }

  ghost predicate RowsGranted(s: Store, t: Store, limits: Limits, form: FormId, user: UserId, q: Question, id: Id,
                              c: Clock) {
    forall other :: Get(t.rows, other) ==
      if other == id
      then Some(Row(form, q.field, Some(user), None, Tmp(form, id), Pending, NotScanned,
                    Some(c.third + limits.hours), 0))
      else if other in s.rows && MakesWay(s, form, user, q, c, other)
      then Some(s.rows[other].(state := Deleted))
      else Get(s.rows, other)
  }

  ghost predicate ObjectsGranted(s: Store, t: Store, form: FormId, user: UserId, q: Question, c: Clock,
                                 failed: set<Key>) {
    forall k :: Get(t.bucket, k) ==
      if k !in failed && exists id :: id in s.rows && MakesWay(s, form, user, q, c, id) && s.rows[id].key == k
      then None
      else Get(s.bucket, k)
  }

  /** A granted request adds the row; at a question for one file the earlier ones and their objects go. */
  ghost predicate GrantedNow(s: Store, t: Store, limits: Limits, form: FormId, user: UserId, q: Question, id: Id,
                             c: Clock, failed: set<Key>) {
    && RowsGranted(s, t, limits, form, user, q, id, c) && ObjectsGranted(s, t, form, user, q, c, failed)
    && t.issued == s.issued + {id} && t.now == c.third
    && t.answers == s.answers && t.responses == s.responses && t.scheduled == s.scheduled
  }

  lemma AskedMeans(s: Store, limits: Limits, form: FormId, user: UserId, q: Question, c: Clock, failed: set<Key>)
    ensures AskedByRules(s, limits, form, user, q, c, MadeRoom(s, limits, form, user, q, c, failed).1)
  {
    assert ActiveFor(s.rows, form, user, q.field, c.first) == Earlier(s, form, user, q.field, c.first);
    var cleared := MadeRoom(s, limits, form, user, q, c, failed).0;
    assert Active(cleared.rows, form, user, c.second)
        == set id | id in Unsubmitted(s, form, user, c.second) && !MakesWay(s, form, user, q, c, id);
  }

  lemma RoomMeans(s: Store, limits: Limits, form: FormId, user: UserId, q: Question, c: Clock, failed: set<Key>)
    ensures var t := MadeRoom(s, limits, form, user, q, c, failed).0;
      && ObjectsGranted(s, t, form, user, q, c, failed) && t == s.(rows := t.rows, bucket := t.bucket)
      && forall id :: Get(t.rows, id) ==
           if id in s.rows && MakesWay(s, form, user, q, c, id) then Some(s.rows[id].(state := Deleted))
           else Get(s.rows, id)
  {
    var mine := ActiveFor(s.rows, form, user, q.field, c.first);
    assert mine == Earlier(s, form, user, q.field, c.first);
    var t := MadeRoom(s, limits, form, user, q, c, failed).0;
    forall k ensures k in KeysOf(s.rows, mine)
        <==> exists id :: id in s.rows && id in mine && s.rows[id].key == k {
    }
    if q.multi { assert t == s; }
  }

  lemma RequestMeans(s: Store, limits: Limits, form: FormId, user: UserId, q: Question, id: Id, c: Clock,
                     failed: set<Key>)
    ensures var (t, asked) := Request(s, limits, form, user, q, id, c, failed);
      && AskedByRules(s, limits, form, user, q, c, asked)
      && (asked == Granted ==> GrantedNow(s, t, limits, form, user, q, id, c, failed))
  {
    AskedMeans(s, limits, form, user, q, c, failed);
    RoomMeans(s, limits, form, user, q, c, failed);
  }

  /** Discarding marks an own waiting upload deleted and removes its object, and does nothing else. */
  ghost predicate DiscardedNow(s: Store, t: Store, form: FormId, user: UserId, id: Id, fails: bool) {
    if id in s.rows && s.rows[id].form == form && s.rows[id].uploader == Some(user)
       && (s.rows[id].state == Pending || s.rows[id].state == Uploaded)
    then t == s.(rows := s.rows[id := s.rows[id].(state := Deleted)],
                 bucket := if fails then s.bucket else s.bucket - {s.rows[id].key})
    else t == s
  }

  lemma DiscardMeans(s: Store, form: FormId, user: UserId, id: Id, fails: bool)
    ensures DiscardedNow(s, Discard(s, form, user, id, fails), form, user, id, fails)
  {
    if id in s.rows {
      assert WithState(s.rows, {id}, Deleted) == s.rows[id := s.rows[id].(state := Deleted)];
      assert KeysOf(s.rows, {id}) == {s.rows[id].key};
    }
  }

  // ----- taking files out of answers ---------------------------------------------------------------------

  /** Everything but references to these files. */
  function Sparing(gone: set<Id>): Item -> Option<Item> {
    (item: Item) => if item.Ref? && item.id in gone then None else Some(item)
  }

  /** The answer keeps its other items in order and its form; without any item left it goes away. */
  ghost predicate AnswerWithout(before: Option<Value>, after: Option<Value>, gone: set<Id>) {
    if before.None? then after.None?
    else exists kept :: Selected(Items(before.value), kept, Sparing(gone))
           && if kept == [] then after.None?
              else after.Some? && after.value.Many? == before.value.Many? && Items(after.value) == kept
  }

  lemma {:induction false} WithoutIsSelected(items: seq<Item>, id: Id)
    ensures Selected(items, Without(items, id), Sparing({id})) && |Without(items, id)| <= |items|
  {
    if items == [] {
    } else {
      WithoutIsSelected(items[1..], id);
      SelectedCons(items[0], items[1..], Without(items[1..], id), Sparing({id}));
      assert items == [items[0]] + items[1..];
    }
  }

  /** Where the file is answered, if anywhere. */
  ghost function Place(row: Row): set<AnswerKey> {
    if row.response.Some? then {At(row.response.value, row.field)} else {}
  }

  /** The file is out of the answer it was part of, and no other answer changes. */
  ghost predicate TakenOut(s: Store, answers: map<AnswerKey, Value>, id: Id)
    requires id in s.rows
  {
    && AlikeOutside(s.answers, answers, Place(s.rows[id]))
    && forall k :: k in Place(s.rows[id]) ==> AnswerWithout(Get(s.answers, k), Get(answers, k), {id})
  }

  lemma ForgetMeans(s: Store, id: Id)
    requires id in s.rows
    ensures var t := Forget(s, id);
      && t.rows == s.rows[id := s.rows[id].(state := Deleted)] && TakenOut(s, t.answers, id)
      && t == s.(rows := t.rows, answers := t.answers)
  {
    var row := s.rows[id];
    if row.response.Some? && At(row.response.value, row.field) in s.answers {
      WithoutIsSelected(Items(s.answers[At(row.response.value, row.field)]), id);
    }
  }

  /** Malware takes the file out of its answer and schedules its object; a clean file only gets the mark. */
  ghost predicate ScannedNow(s: Store, t: Store, id: Id, infected: bool) {
    if id !in s.rows || s.rows[id].scan != NotScanned then t == s
    else if !infected then t == s.(rows := s.rows[id := s.rows[id].(scan := Clean)])
    else
      && TakenOut(s, t.answers, id)
      && t == s.(rows := s.rows[id := s.rows[id].(scan := Infected, state := Deleted)], answers := t.answers,
                 scheduled := s.scheduled + {s.rows[id].key})
  }

  lemma ScanMeans(s: Store, id: Id, infected: bool)
    ensures ScannedNow(s, Scanned(s, id, infected), id, infected)
  {
    if id in s.rows { ForgetMeans(s, id); }
  }

  /** The items without these references. */
  function Left(items: seq<Item>, gone: set<Id>): seq<Item> {
    if items == [] then []
    else (if items[0].Ref? && items[0].id in gone then [] else [items[0]]) + Left(items[1..], gone)
  }

  lemma {:induction false} LeftIsSelected(items: seq<Item>, gone: set<Id>)
    ensures Selected(items, Left(items, gone), Sparing(gone)) && |Left(items, gone)| <= |items|
  {
    if items == [] {
    } else {
      LeftIsSelected(items[1..], gone);
      SelectedCons(items[0], items[1..], Left(items[1..], gone), Sparing(gone));
      assert items == [items[0]] + items[1..];
    }
  }

  lemma {:induction false} LeftWithout(items: seq<Item>, gone: set<Id>, id: Id)
    ensures Without(Left(items, gone), id) == Left(items, gone + {id})
  {
    if items == [] {
    } else {
      LeftWithout(items[1..], gone, id);
      var rest := Left(items[1..], gone);
      if !(items[0].Ref? && items[0].id in gone) {
        assert Left(items, gone) == [items[0]] + rest && ([items[0]] + rest)[1..] == rest;
        assert Left(items, gone + {id}) == (if items[0] == Ref(id) then [] else [items[0]]) + Without(rest, id);
      } else {
        assert Left(items, gone) == rest;
      }
    }
  }

  function AnswerLeft(v: Option<Value>, gone: set<Id>): Option<Value> {
    if v.None? || gone == {} then v
    else
      var kept := Left(Items(v.value), gone);
      LeftIsSelected(Items(v.value), gone);
      if kept == [] then None else Some(WithItems(v.value, kept))
  }

  lemma AnswerLeftMore(v: Option<Value>, gone: set<Id>, id: Id)
    ensures AnswerLeft(AnswerLeft(v, gone), {id}) == AnswerLeft(v, gone + {id})
  {
    if v.Some? {
      var items := Items(v.value);
      LeftWithout(items, gone, id);
      LeftNone(items);
      LeftWithout(items, {}, id);
      LeftNone(Left(items, gone));
      LeftWithout(Left(items, gone), {}, id);
      assert {} + {id} == {id};
      LeftIsSelected(items, gone);
    }
  }

  lemma {:induction false} LeftNone(items: seq<Item>)
    ensures Left(items, {}) == items
  {
    if items == [] {
    } else {
      LeftNone(items[1..]);
    }
  }

  /** The attached files of this form among those to be removed. */
  ghost function Going(s: Store, form: FormId, ids: seq<Id>): set<Id> {
    set id | id in ids && id in s.rows && s.rows[id].form == form && s.rows[id].state == Attached
  }

  ghost function GoingAt(s: Store, gone: set<Id>, k: AnswerKey): set<Id> {
    set id | id in gone && id in s.rows && k in Place(s.rows[id])
  }

  /** Exactly these files go: rows, answers and objects. */
  ghost predicate RemovedNow(s: Store, t: Store, gone: set<Id>) {
    && (forall id :: Get(t.rows, id) ==
          if id in gone && id in s.rows then Some(s.rows[id].(state := Deleted)) else Get(s.rows, id))
    && (forall k :: k in t.scheduled <==>
          k in s.scheduled || exists id :: id in gone && id in s.rows && s.rows[id].key == k)
    && (forall k ::
          if GoingAt(s, gone, k) == {} then Get(t.answers, k) == Get(s.answers, k)
          else AnswerWithout(Get(s.answers, k), Get(t.answers, k), GoingAt(s, gone, k)))
    && t.responses == s.responses && t.bucket == s.bucket && t.issued == s.issued && t.now == s.now
  }

  ghost predicate RemovedSoFar(s: Store, t: Store, gone: set<Id>) {
    && (forall id :: Get(t.rows, id) ==
          if id in gone && id in s.rows then Some(s.rows[id].(state := Deleted)) else Get(s.rows, id))
    && (forall k :: k in t.scheduled <==>
          k in s.scheduled || exists id :: id in gone && id in s.rows && s.rows[id].key == k)
    && (forall k :: Get(t.answers, k) == AnswerLeft(Get(s.answers, k), GoingAt(s, gone, k)))
    && t.responses == s.responses && t.bucket == s.bucket && t.issued == s.issued && t.now == s.now
  }

  lemma ForgetLeaves(s: Store, id: Id, k: AnswerKey)
    requires id in s.rows
    ensures Get(Forget(s, id).answers, k) == AnswerLeft(Get(s.answers, k), if k in Place(s.rows[id]) then {id} else {})
  {
    if k in s.answers && k in Place(s.rows[id]) {
      LeftNone(Items(s.answers[k]));
      LeftWithout(Items(s.answers[k]), {}, id);
      assert {} + {id} == {id};
    }
  }

  lemma OneMoreRemoved(s: Store, t: Store, gone: set<Id>, id: Id)
    requires RemovedSoFar(s, t, gone) && id in s.rows && id !in gone
    ensures var u := Forget(t, id).(scheduled := t.scheduled + {t.rows[id].key}); RemovedSoFar(s, u, gone + {id})
  {
    assert Get(t.rows, id) == Some(s.rows[id]);
    var u := Forget(t, id).(scheduled := t.scheduled + {t.rows[id].key});
    forall k ensures Get(u.answers, k) == AnswerLeft(Get(s.answers, k), GoingAt(s, gone + {id}, k)) {
      ForgetLeaves(t, id, k);
      assert GoingAt(s, gone + {id}, k) == GoingAt(s, gone, k) + if k in Place(s.rows[id]) then {id} else {};
      AnswerLeftMore(Get(s.answers, k), GoingAt(s, gone, k), id);
      assert GoingAt(s, gone, k) + {} == GoingAt(s, gone, k);
    }
  }

  lemma {:induction false} RemovedInTurn(s: Store, form: FormId, ids: seq<Id>)
    ensures RemovedSoFar(s, UploadModel.RemoveFiles(s, form, ids), Going(s, form, ids))
  {
    if ids == [] {
    } else {
      var (n, id) := (|ids| - 1, ids[|ids| - 1]);
      RemovedInTurn(s, form, ids[..n]);
      var (t, gone) := (UploadModel.RemoveFiles(s, form, ids[..n]), Going(s, form, ids[..n]));
      assert ids == ids[..n] + [id];
      assert Going(s, form, ids) == gone + Going(s, form, [id]);
      assert Get(t.rows, id) == if id in gone then Some(s.rows[id].(state := Deleted)) else Get(s.rows, id);
      if Removable(t, form, id) {
        assert Going(s, form, ids) == gone + {id};
        OneMoreRemoved(s, t, gone, id);
      } else {
        assert Going(s, form, ids) == gone;
      }
    }
  }

  lemma RemoveMeans(s: Store, form: FormId, ids: seq<Id>)
    ensures RemovedNow(s, UploadModel.RemoveFiles(s, form, ids), Going(s, form, ids))
  {
    RemovedInTurn(s, form, ids);
    var (t, gone) := (UploadModel.RemoveFiles(s, form, ids), Going(s, form, ids));
    forall k | GoingAt(s, gone, k) != {}
      ensures AnswerWithout(Get(s.answers, k), Get(t.answers, k), GoingAt(s, gone, k)) {
      AnswerLeftIs(Get(s.answers, k), GoingAt(s, gone, k));
    }
  }

  lemma AnswerLeftIs(v: Option<Value>, gone: set<Id>)
    requires gone != {}
    ensures AnswerWithout(v, AnswerLeft(v, gone), gone)
  {
    if v.Some? { LeftIsSelected(Items(v.value), gone); }
  }

  // ----- replacing a file ------------------------------------------------------------------------------------

  /** Item by item the same, with the new file for the old one. */
  ghost predicate Exchanged(before: Option<Value>, after: Option<Value>, oldId: Id, newId: Id) {
    if before.None? then after == Some(Many([Ref(newId)]))
    else
      && after.Some? && after.value.Many? == before.value.Many?
      && |Items(after.value)| == |Items(before.value)|
      && forall i :: 0 <= i < |Items(before.value)| ==>
           Items(after.value)[i] == if Items(before.value)[i] == Ref(oldId) then Ref(newId) else Items(before.value)[i]
  }

  /** The new file takes the old one's place in the response; nothing else changes but the objects of the two. */
  ghost predicate ReplacedNow(s: Store, t: Store, oldId: Id, newId: Id) {
    && oldId in s.rows && newId in s.rows && s.rows[oldId].response.Some?
    && (var (was, row) := (s.rows[oldId], s.rows[newId]);
        var k := At(was.response.value, was.field);
        && t.rows == s.rows[newId := row.(key := Final(row.form, newId), state := Attached, response := was.response,
                                          expires := None)][oldId := was.(state := Deleted)]
        && AlikeOutside(s.answers, t.answers, {k}) && Exchanged(Get(s.answers, k), Get(t.answers, k), oldId, newId)
        && t.scheduled == s.scheduled + {row.key, was.key}
        && AlikeOutside(s.bucket, t.bucket, {Final(row.form, newId)})
        && Get(t.bucket, Final(row.form, newId)) == Get(s.bucket, row.key))
    && t.responses == s.responses && t.issued == s.issued && t.now == s.now
  }

  lemma {:induction false} SwappedEach(items: seq<Item>, oldId: Id, newId: Id)
    ensures |Swapped(items, oldId, newId)| == |items|
    ensures forall i :: 0 <= i < |items| ==>
        Swapped(items, oldId, newId)[i] == if items[i] == Ref(oldId) then Ref(newId) else items[i]
  {
    if items == [] {
    } else {
      SwappedEach(items[1..], oldId, newId);
      assert forall i :: 0 < i < |items| ==> items[i] == items[1..][i - 1];
    }
  }

  lemma ReplaceMeans(s: Store, oldId: Id, newId: Id)
    requires oldId in s.rows && newId in s.rows && s.rows[oldId].response.Some? && s.rows[newId].key in s.bucket
    ensures ReplacedNow(s, Replaced(s, oldId, newId), oldId, newId)
  {
    var k := At(s.rows[oldId].response.value, s.rows[oldId].field);
    if k in s.answers { SwappedEach(Items(s.answers[k]), oldId, newId); }
  }

  // ----- housekeeping ----------------------------------------------------------------------------------------

  ghost predicate TooOld(s: Store, batch: set<Id>, id: Id) {
    && id in batch && id in s.rows && (s.rows[id].state == Pending || s.rows[id].state == Uploaded)
    && s.rows[id].expires.Some? && s.rows[id].expires.value < s.now
  }

  /** Waiting uploads of the batch whose time is over are deleted with their objects; finished rows may go. */
  ghost predicate SweptNow(s: Store, t: Store, batch: set<Id>, failed: set<Key>, forgotten: set<Id>) {
    && (forall id :: Get(t.rows, id) ==
          if id !in s.rows then None
          else
            var row := if TooOld(s, batch, id) then s.rows[id].(state := Deleted) else s.rows[id];
            if id in forgotten && (row.state == Deleted || row.state == Rejected) then None else Some(row))
    && (forall k :: Get(t.bucket, k) ==
          if k !in failed && exists id :: TooOld(s, batch, id) && s.rows[id].key == k then None else Get(s.bucket, k))
    && t == s.(rows := t.rows, bucket := t.bucket)
  }

  ghost function Overdue(s: Store, batch: set<Id>): set<Id> {
    set id | id in batch && TooOld(s, batch, id)
  }

  lemma SweepMeans(s: Store, batch: set<Id>, failed: set<Key>, forgotten: set<Id>)
    ensures Overdue(s, batch) == set id | id in batch && id in s.rows && Expired(s.rows[id], s.now)
    ensures SweptNow(s, Sweep(s, batch, failed, forgotten), batch, failed, forgotten)
  {
    var stale := set id | id in batch && id in s.rows && Expired(s.rows[id], s.now);
    assert forall id :: id in stale <==> TooOld(s, batch, id);
    forall k ensures k in KeysOf(s.rows, stale) <==> exists id :: TooOld(s, batch, id) && s.rows[id].key == k {
      if k in KeysOf(s.rows, stale) {
        var id :| id in stale && id in s.rows && s.rows[id].key == k;
        assert TooOld(s, batch, id);
      }
    }
  }

  // ----- moving old inline files -----------------------------------------------------------------------------

  /** The item is an inline file that passes the checks, one of the first `n`. */
  ghost predicate Moves(items: seq<Item>, n: nat, i: nat) {
    i < n && i < |items| && items[i].Inline? && items[i].bytes.Some?
  }

  ghost function AllMoving(items: seq<Item>, n: nat): set<nat> {
    set i: nat | i < n && Moves(items, n, i)
  }

  lemma OneMoreMoving(items: seq<Item>, n: nat)
    requires n < |items|
    ensures |AllMoving(items, n + 1)| == |AllMoving(items, n)| + if Movable(items[n]) then 1 else 0
  {
    assert AllMoving(items, n + 1) == AllMoving(items, n) + if Movable(items[n]) then {n} else {};
  }

  ghost predicate MadeFor(items: seq<Item>, ids: seq<Id>, n: nat, id: Id) {
    exists i: nat :: i < |ids| && Moves(items, n, i) && ids[i] == id
  }

  ghost predicate Stored(t: Store, response: Response, id: Id, bytes: nat) {
    Get(t.bucket, Final(response.form, id)) == Some(bytes)
  }

  /** An attached row for every inline file moved. */
  ghost predicate RowsMoved(s: Store, t: Store, response: Response, k: AnswerKey, items: seq<Item>, ids: seq<Id>,
                            n: nat)
    requires |items| == |ids|
  {
    && (forall i: nat :: Moves(items, n, i) ==>
          Get(t.rows, ids[i]) == Some(Row(response.form, k.field, response.user, Some(k.response),
                                          Final(response.form, ids[i]), Attached, NotScanned, None,
                                          items[i].bytes.value)))
    && forall id :: !MadeFor(items, ids, n, id) ==> Get(t.rows, id) == Get(s.rows, id)
  }

  /** An object for every inline file moved. */
  ghost predicate ObjectsMoved(s: Store, t: Store, response: Response, items: seq<Item>, ids: seq<Id>, n: nat)
    requires |items| == |ids|
  {
    && (forall i: nat :: Moves(items, n, i) ==> Stored(t, response, ids[i], items[i].bytes.value))
    && forall key: Key :: !(key.Final? && key.form == response.form && MadeFor(items, ids, n, key.id)) ==>
         Get(t.bucket, key) == Get(s.bucket, key)
  }

  lemma DifferentIds(ids: seq<Id>, i: nat, j: nat)
    requires i < j < |ids| && NoRepeats(ids)
    ensures ids[i] != ids[j]
  {
    assert ids == ids[..j] + ids[j..] && ids[i] in ids[..j] && ids[j] in ids[j..];
    NoRepeatsConcat(ids[..j], ids[j..]);
  }

  lemma MadeForMore(items: seq<Item>, ids: seq<Id>, n: nat, id: Id)
    requires n < |items| == |ids|
    ensures MadeFor(items, ids, n + 1, id) <==> MadeFor(items, ids, n, id) || (Moves(items, n + 1, n) && ids[n] == id)
  {
    if MadeFor(items, ids, n, id) {
      var i: nat :| i < |ids| && Moves(items, n, i) && ids[i] == id;
      assert Moves(items, n + 1, i);
    }
  }

  lemma MovesMore(items: seq<Item>, ids: seq<Id>, n: nat)
    requires n < |items| == |ids| && NoRepeats(ids)
    ensures forall id :: MadeFor(items, ids, n + 1, id) <==>
        MadeFor(items, ids, n, id) || (Moves(items, n + 1, n) && ids[n] == id)
    ensures forall i: nat :: Moves(items, n + 1, i) && i < n ==> Moves(items, n, i) && ids[i] != ids[n]
  {
    forall id ensures MadeFor(items, ids, n + 1, id) <==>
        MadeFor(items, ids, n, id) || (Moves(items, n + 1, n) && ids[n] == id) {
      MadeForMore(items, ids, n, id);
    }
    forall i: nat | Moves(items, n + 1, i) && i < n ensures ids[i] != ids[n] { DifferentIds(ids, i, n); }
  }

  lemma RowMoved(s: Store, t: Store, response: Response, k: AnswerKey, items: seq<Item>, ids: seq<Id>, n: nat)
    requires n < |items| == |ids| && NoRepeats(ids) && RowsMoved(s, t, response, k, items, ids, n)
    ensures RowsMoved(s, MoveItem(t, response, k, items[n], ids[n]), response, k, items, ids, n + 1)
  {
    MovesMore(items, ids, n);
  }

  lemma ObjectMoved(s: Store, t: Store, response: Response, k: AnswerKey, items: seq<Item>, ids: seq<Id>, n: nat)
    requires n < |items| == |ids| && NoRepeats(ids) && ObjectsMoved(s, t, response, items, ids, n)
    ensures ObjectsMoved(s, MoveItem(t, response, k, items[n], ids[n]), response, items, ids, n + 1)
  {
    MovesMore(items, ids, n);
  }

  lemma {:induction false} MoveMeans(s: Store, response: Response, k: AnswerKey, items: seq<Item>, ids: seq<Id>, n: nat)
    requires n <= |items| == |ids| && NoRepeats(ids)
    ensures var t := MoveItems(s, response, k, items, ids, n);
      RowsMoved(s, t, response, k, items, ids, n) && ObjectsMoved(s, t, response, items, ids, n)
  {
    if n == 0 {
    } else {
      MoveMeans(s, response, k, items, ids, n - 1);
      RowMoved(s, MoveItems(s, response, k, items, ids, n - 1), response, k, items, ids, n - 1);
      ObjectMoved(s, MoveItems(s, response, k, items, ids, n - 1), response, k, items, ids, n - 1);
    }
  }

  /** The answer has a reference in place of every inline file that was moved. */
  ghost predicate Referring(before: Value, after: Value, ids: seq<Id>) {
    && after.Many? == before.Many? && |Items(after)| == |Items(before)| == |ids|
    && forall i :: 0 <= i < |ids| ==>
         Items(after)[i] == if Moves(Items(before), |ids|, i) then Ref(ids[i]) else Items(before)[i]
  }

  lemma {:induction false} RewrittenEach(items: seq<Item>, ids: seq<Id>)
    requires |items| == |ids|
    ensures |Rewritten(items, ids)| == |items|
    ensures forall i :: 0 <= i < |ids| ==>
        Rewritten(items, ids)[i] == if Moves(items, |ids|, i) then Ref(ids[i]) else items[i]
  {
    if items == [] {
    } else {
      RewrittenEach(items[1..], ids[1..]);
      forall i | 0 <= i < |ids|
        ensures Rewritten(items, ids)[i] == if Moves(items, |ids|, i) then Ref(ids[i]) else items[i] {
        if i > 0 {
          assert items[i] == items[1..][i - 1] && ids[i] == ids[1..][i - 1];
        }
      }
    }
  }

  ghost predicate BackfilledNow(s: Store, t: Store, k: AnswerKey, ids: seq<Id>, failsAt: Option<nat>)
    requires k in s.answers && k.response in s.responses && |ids| == |Items(s.answers[k])|
  {
    var items := Items(s.answers[k]);
    var n := if failsAt.Some? && failsAt.value < |items| then failsAt.value else |items|;
    && ObjectsMoved(s, t, s.responses[k.response], items, ids, n)
    && (forall id :: id in t.issued <==> id in s.issued || id in ids)
    && t.responses == s.responses && t.scheduled == s.scheduled && t.now == s.now
    && if failsAt.Some? then t.rows == s.rows && t.answers == s.answers
       else
         && RowsMoved(s, t, s.responses[k.response], k, items, ids, n)
         && AlikeOutside(s.answers, t.answers, {k}) && k in t.answers && Referring(s.answers[k], t.answers[k], ids)
  }

  lemma BackfillMeans(s: Store, k: AnswerKey, ids: seq<Id>, failsAt: Option<nat>)
    requires k in s.answers && k.response in s.responses && |ids| == |Items(s.answers[k])| && Fresh(s, ids)
    ensures BackfilledNow(s, Backfill(s, k, ids, failsAt), k, ids, failsAt)
  {
    var items := Items(s.answers[k]);
    var n := if failsAt.Some? && failsAt.value < |items| then failsAt.value else |items|;
    MoveMeans(s, s.responses[k.response], k, items, ids, n);
    MoveLeaves(s, s.responses[k.response], k, items, ids, n);
    RewrittenEach(items, ids);
  }

  lemma {:induction false} MoveLeaves(s: Store, response: Response, k: AnswerKey, items: seq<Item>, ids: seq<Id>,
                                      n: nat)
    requires n <= |items| == |ids|
    ensures var t := MoveItems(s, response, k, items, ids, n); t == s.(rows := t.rows, bucket := t.bucket)
  {
    if n == 0 {
    } else {
      MoveLeaves(s, response, k, items, ids, n - 1);
    }
  }

  // ----- deleting responses and forms --------------------------------------------------------------------------

  /** Every object a row of these had, unless it was deleted already, is scheduled. */
  ghost predicate LetGo(s: Store, t: Store, mine: set<Id>) {
    forall k :: k in t.scheduled <==>
      k in s.scheduled || exists id :: id in mine && id in s.rows && s.rows[id].state != Deleted && s.rows[id].key == k
  }

  ghost predicate ResponseReleased(s: Store, t: Store, r: ResponseId) {
    && (forall id :: Get(t.rows, id) ==
          if id in s.rows && s.rows[id].response == Some(r) then Some(s.rows[id].(response := None))
          else Get(s.rows, id))
    && (forall k: AnswerKey :: Get(t.answers, k) == if k.response == r then None else Get(s.answers, k))
    && (forall q :: Get(t.responses, q) == if q == r then None else Get(s.responses, q))
    && LetGo(s, t, set id | id in s.rows && s.rows[id].response == Some(r))
    && t.bucket == s.bucket && t.issued == s.issued && t.now == s.now
  }

  ghost predicate FormReleased(s: Store, t: Store, form: FormId) {
    && (forall id :: Get(t.rows, id) == if id in s.rows && s.rows[id].form == form then None else Get(s.rows, id))
    && (forall k: AnswerKey :: Get(t.answers, k) ==
          if k.response in s.responses && s.responses[k.response].form == form then None else Get(s.answers, k))
    && (forall q :: Get(t.responses, q) ==
          if q in s.responses && s.responses[q].form == form then None else Get(s.responses, q))
    && LetGo(s, t, set id | id in s.rows && s.rows[id].form == form)
    && t.bucket == s.bucket && t.issued == s.issued && t.now == s.now
  }

  lemma ResponseReleaseMeans(s: Store, r: ResponseId)
    ensures ResponseReleased(s, DeleteResponse(s, r), r)
  {
  }

  lemma FormReleaseMeans(s: Store, form: FormId)
    ensures FormReleased(s, DeleteForm(s, form), form)
  {
  }
}
