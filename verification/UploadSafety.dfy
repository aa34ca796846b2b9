/** What every run of the upload protocol keeps. */
module UploadSafety {
  // Files are where their rows say, and answers name exactly the attached files.

  import opened Lists
  import opened Options
  import opened UploadModel

  // ----- the invariant ---------------------------------------------------------------------------

  /** The stored object is there with the recorded size, and nothing will delete it. */
  ghost predicate Safe(s: Store, row: Row) {
    row.key in s.bucket && s.bucket[row.key] == row.size && row.key !in s.scheduled
  }

  /** A file someone can still rely on: finished and waiting, or part of a response that exists. */
  predicate Live(row: Row) {
    row.state == Uploaded || (row.state == Attached && row.response.Some?)
  }

  ghost predicate RowOk(s: Store, id: Id, row: Row) {
    && id in s.issued
    && (Waiting(row) ==>
          row.key == Tmp(row.form, id) && row.response.None? && row.expires.Some?
          && Tmp(row.form, id) !in s.scheduled && Final(row.form, id) !in s.scheduled)
    && (row.state == Attached ==> row.key == Final(row.form, id))
    && (row.key == Tmp(row.form, id) || row.key == Final(row.form, id))
    && (row.response.Some? ==> row.response.value in s.responses && s.responses[row.response.value].form == row.form)
    && (row.scan == Infected ==> row.state == Deleted)
    && (Live(row) ==> Safe(s, row))
  }

  ghost predicate ObjectsOk(s: Store) {
    && (forall id :: id in s.rows ==> RowOk(s, id, s.rows[id]))
    && (forall k :: k in s.scheduled ==> k.id in s.issued)
  }

  predicate AttachedAt(row: Row, k: AnswerKey) {
    row.state == Attached && row.response == Some(k.response) && row.field == k.field
  }

  function IdsAt(answers: map<AnswerKey, Value>, k: AnswerKey): seq<Id> {
    if k in answers then Ids(Items(answers[k])) else []
  }

  /** The answer to one question of one response names exactly the uploads attached there, each once. */
  ghost predicate AnswerOk(rows: map<Id, Row>, answers: map<AnswerKey, Value>, k: AnswerKey) {
    && NoRepeats(IdsAt(answers, k))
    && (forall id :: id in IdsAt(answers, k) <==> id in rows && AttachedAt(rows[id], k))
  }

  ghost predicate AnswersOk(s: Store) {
    && (forall k :: k in s.answers ==> k.response in s.responses)
    && (forall k: AnswerKey {:trigger AnswerOk(s.rows, s.answers, k)} :: AnswerOk(s.rows, s.answers, k))
  }

  /** Nobody ever has more unsubmitted uploads on one form than the cap. */
  ghost predicate CapOk(s: Store, cap: int) {
    forall form, user {:trigger Active(s.rows, form, user, s.now)} ::
      |Active(s.rows, form, user, s.now)| <= if cap < 0 then 0 else cap
  }

  ghost predicate Inv(s: Store, limits: Limits) {
    ObjectsOk(s) && AnswersOk(s) && CapOk(s, limits.cap)
  }

  // ----- lists of references -----------------------------------------------------------------------

  lemma IdsCons(x: Item, rest: seq<Item>)
    ensures forall id :: id in Ids([x] + rest) <==> x == Ref(id) || id in Ids(rest)
    ensures NoRepeats(Ids([x] + rest)) <==> NoRepeats(Ids(rest)) && (x.Ref? ==> x.id !in Ids(rest))
  {
    assert ([x] + rest)[1..] == rest;
    if x.Ref? {
      NoRepeatsConcat([x.id], Ids(rest));
    } else {
      assert Ids([x] + rest) == Ids(rest);
    }
  }

  lemma {:induction false} WithoutIds(items: seq<Item>, id: Id)
    ensures forall x :: x in Ids(Without(items, id)) <==> x in Ids(items) && x != id
    ensures NoRepeats(Ids(items)) ==> NoRepeats(Ids(Without(items, id)))
  {
    if items == [] {
    } else {
      assert items == [items[0]] + items[1..];
      WithoutIds(items[1..], id);
      var rest := Without(items[1..], id);
      IdsCons(items[0], items[1..]);
      IdsCons(items[0], rest);
      assert Without(items, id) == if items[0] == Ref(id) then rest else [items[0]] + rest;
    }
  }

  lemma {:induction false} SwappedIds(items: seq<Item>, oldId: Id, newId: Id)
    requires newId !in Ids(items) || newId == oldId
    ensures |Swapped(items, oldId, newId)| == |items|
    ensures forall x :: x in Ids(Swapped(items, oldId, newId)) <==>
              (x in Ids(items) && x != oldId) || (x == newId && oldId in Ids(items))
    ensures NoRepeats(Ids(items)) ==> NoRepeats(Ids(Swapped(items, oldId, newId)))
  {
    if items == [] {
    } else {
      assert items == [items[0]] + items[1..];
      IdsCons(items[0], items[1..]);
      SwappedIds(items[1..], oldId, newId);
      IdsCons(SwapItem(items[0], oldId, newId), Swapped(items[1..], oldId, newId));
    }
  }

  /** The uploads made for the movable ones of the first `n` items. */
  ghost function NewIds(items: seq<Item>, ids: seq<Id>, n: nat): set<Id>
    requires n <= |items| == |ids|
  {
    if n == 0 then {} else NewIds(items, ids, n - 1) + if Movable(items[n - 1]) then {ids[n - 1]} else {}
  }

  lemma {:induction false} NewIdsCons(items: seq<Item>, ids: seq<Id>, n: nat)
    requires 0 < n <= |items| == |ids|
    ensures NewIds(items, ids, n) == (if Movable(items[0]) then {ids[0]} else {}) + NewIds(items[1..], ids[1..], n - 1)
  {
    if n == 1 {
    } else {
      NewIdsCons(items, ids, n - 1);
    }
  }

  lemma NewIdsAmong(items: seq<Item>, ids: seq<Id>, n: nat)
    requires n <= |items| == |ids|
    ensures forall id :: id in NewIds(items, ids, n) ==> id in ids[..n]
  {
  }

  lemma {:induction false} RewrittenIds(items: seq<Item>, ids: seq<Id>)
    requires |items| == |ids| && NoRepeats(ids)
    requires forall id :: id in ids ==> id !in Ids(items)
    ensures |Rewritten(items, ids)| == |items|
    ensures forall x :: x in Ids(Rewritten(items, ids)) <==> x in Ids(items) || x in NewIds(items, ids, |items|)
    ensures NoRepeats(Ids(items)) ==> NoRepeats(Ids(Rewritten(items, ids)))
  {
    if items == [] {
    } else {
      assert items == [items[0]] + items[1..] && ids == [ids[0]] + ids[1..];
      IdsCons(items[0], items[1..]);
      NoRepeatsConcat([ids[0]], ids[1..]);
      RewrittenIds(items[1..], ids[1..]);
      NewIdsCons(items, ids, |items|);
      NewIdsAmong(items[1..], ids[1..], |items| - 1);
      IdsCons(if Movable(items[0]) then Ref(ids[0]) else items[0], Rewritten(items[1..], ids[1..]));
    }
  }

  // ----- counting active uploads ---------------------------------------------------------------------

  /** A step that makes no upload active keeps the cap. */
  lemma CapKept(s: Store, t: Store, cap: int)
    requires CapOk(s, cap) && s.now <= t.now
    requires forall id :: id in t.rows && Waiting(t.rows[id]) && t.rows[id].response.None? ==>
               id in s.rows && Waiting(s.rows[id]) && s.rows[id].response.None?
               && t.rows[id].form == s.rows[id].form && t.rows[id].uploader == s.rows[id].uploader
                   && t.rows[id].expires == s.rows[id].expires
    ensures CapOk(t, cap)
  {
    forall form, user ensures |Active(t.rows, form, user, t.now)| <= if cap < 0 then 0 else cap {
      SubsetSize(Active(t.rows, form, user, t.now), Active(s.rows, form, user, s.now));
    }
  }

  // ----- each step keeps the invariant ---------------------------------------------------------------

  lemma DiscardAllKeeps(s: Store, ids: set<Id>, failed: set<Key>)
    requires ObjectsOk(s) && AnswersOk(s)
    requires forall id :: id in ids && id in s.rows ==> Waiting(s.rows[id])
    ensures ObjectsOk(DiscardAll(s, ids, failed)) && AnswersOk(DiscardAll(s, ids, failed))
  {
    var t := DiscardAll(s, ids, failed);
    forall id | id in t.rows ensures RowOk(t, id, t.rows[id]) {
      assert RowOk(s, id, s.rows[id]);
    }
    SameAttachments(s, t);
  }

  /** When the attached rows and the answers are the same, the answers still agree with the rows. */
  lemma SameAttachments(s: Store, t: Store)
    requires AnswersOk(s) && t.answers == s.answers && t.responses == s.responses
    requires forall id, k: AnswerKey :: (id in s.rows && AttachedAt(s.rows[id], k)) <==>
        (id in t.rows && AttachedAt(t.rows[id], k))
    ensures AnswersOk(t)
  {
    forall k: AnswerKey ensures AnswerOk(t.rows, t.answers, k) {
      assert AnswerOk(s.rows, s.answers, k);
    }
  }

  /** After discarding at least one active upload there is room under the cap. */
  lemma RoomAfterDiscard(s: Store, limits: Limits, form: FormId, user: UserId, field: FieldId, c: Clock,
          failed: set<Key>)
    requires CapOk(s, limits.cap) && Ticks(s, c)
    ensures var mine := ActiveFor(s.rows, form, user, field, c.first);
      mine == {} || |Active(DiscardAll(s, mine, failed).rows, form, user, c.second)| < limits.cap
  {
    var mine := ActiveFor(s.rows, form, user, field, c.first);
    if mine != {} {
      var id :| id in mine;
      var before := Active(s.rows, form, user, s.now);
      var after := Active(DiscardAll(s, mine, failed).rows, form, user, c.second);
      assert id in before && id !in after;
      SubsetSize(after, before - {id});
    }
  }

  lemma RequestKeeps(s: Store, limits: Limits, form: FormId, user: UserId, q: Question, id: Id, c: Clock,
          failed: set<Key>)
    requires Inv(s, limits) && id !in s.issued && Ticks(s, c)
    ensures Inv(Request(s, limits, form, user, q, id, c, failed).0, limits)
    ensures Request(s, limits, form, user, q, id, c, failed).1 != Granted ==>
        Request(s, limits, form, user, q, id, c, failed).0 == s
  {
    var mine := ActiveFor(s.rows, form, user, q.field, c.first);
    var cleared := if q.multi then s else DiscardAll(s, mine, failed);
    RoomAfterDiscard(s, limits, form, user, q.field, c, failed);
    if mine == {} {
      assert cleared.bucket == s.bucket;
    }
    var (t, asked) := Request(s, limits, form, user, q, id, c, failed);
    if asked == Granted {
      if !q.multi { DiscardAllKeeps(s, mine, failed); }
      GrantKeeps(s, cleared, limits, form, user, q.field, id, c);
    }
  }

  lemma GrantKeeps(s: Store, cleared: Store, limits: Limits, form: FormId, user: UserId, field: FieldId, id: Id,
          c: Clock)
    requires Inv(s, limits) && ObjectsOk(cleared) && AnswersOk(cleared) && Ticks(s, c)
    requires cleared == s.(rows := cleared.rows, bucket := cleared.bucket) && id !in s.issued
    requires forall x :: x in cleared.rows ==>
        x in s.rows && (cleared.rows[x] == s.rows[x] || cleared.rows[x] == s.rows[x].(state := Deleted))
    requires |Active(cleared.rows, form, user, c.second)| < limits.cap
    ensures Inv(WithGrant(cleared, limits, form, user, field, id, c), limits)
  {
    var t := WithGrant(cleared, limits, form, user, field, id, c);
    assert forall x :: x in cleared.rows ==> RowOk(cleared, x, cleared.rows[x]) && x != id;
    forall x | x in t.rows ensures RowOk(t, x, t.rows[x]) {
      if x != id { assert RowOk(cleared, x, cleared.rows[x]); }
    }
    SameAttachments(cleared, t);
    GrantedCap(s, cleared, limits, form, user, field, id, c);
  }

  lemma GrantedCap(s: Store, cleared: Store, limits: Limits, form: FormId, user: UserId, field: FieldId, id: Id,
          c: Clock)
    requires CapOk(s, limits.cap) && Ticks(s, c) && id !in cleared.rows
    requires forall x :: x in cleared.rows ==>
        x in s.rows && (cleared.rows[x] == s.rows[x] || cleared.rows[x] == s.rows[x].(state := Deleted))
    requires |Active(cleared.rows, form, user, c.second)| < limits.cap
    ensures CapOk(WithGrant(cleared, limits, form, user, field, id, c), limits.cap)
  {
    var t := WithGrant(cleared, limits, form, user, field, id, c);
    forall f, u ensures |Active(t.rows, f, u, t.now)| <= if limits.cap < 0 then 0 else limits.cap {
      var after := Active(t.rows, f, u, t.now);
      if f == form && u == user {
        var rest := Active(cleared.rows, form, user, c.second);
        SubsetSize(after - {id}, rest);
      } else {
        SubsetSize(after, Active(s.rows, f, u, s.now));
      }
    }
  }

  /** Completing is safe to call twice: whatever came of the first call, a second one changes nothing. */
  lemma CompletingTwice(s: Store, form: FormId, user: UserId, id: Id, accepted: bool, fails: bool, again: bool,
                        failsAgain: bool)
    ensures var t := Complete(s, form, user, id, accepted, fails);
      Complete(t, form, user, id, again, failsAgain) == t
  {
  }

  lemma CompleteKeeps(s: Store, limits: Limits, form: FormId, user: UserId, id: Id, accepted: bool, failed: bool)
    requires Inv(s, limits)
    ensures Inv(Complete(s, form, user, id, accepted, failed), limits)
  {
    var t := Complete(s, form, user, id, accepted, failed);
    forall x | x in t.rows ensures RowOk(t, x, t.rows[x]) {
      assert RowOk(s, x, s.rows[x]) && (id in s.rows ==> RowOk(s, id, s.rows[id]));
    }
    SameAttachments(s, t);
    CapKept(s, t, limits.cap);
  }

  lemma DiscardKeeps(s: Store, limits: Limits, form: FormId, user: UserId, id: Id, failed: bool)
    requires Inv(s, limits)
    ensures Inv(Discard(s, form, user, id, failed), limits)
  {
    var t := Discard(s, form, user, id, failed);
    if t != s {
      DiscardAllKeeps(s, {id}, if failed then {s.rows[id].key} else {});
      CapKept(s, t, limits.cap);
    }
  }

  /** Copies into `files/` never disturb an object a live row relies on: an aborted save leaves only harmless extras. */
  lemma CopiesKeep(s: Store, limits: Limits, ids: set<Id>)
    requires Inv(s, limits)
    requires forall id :: id in ids ==> id in s.rows && s.rows[id].state == Uploaded
    ensures Inv(s.(bucket := Copied(s, ids)), limits)
    ensures forall id :: id in ids ==>
        Final(s.rows[id].form, id) in Copied(s, ids) && Copied(s, ids)[Final(s.rows[id].form, id)] == s.rows[id].size
  {
    var t := s.(bucket := Copied(s, ids));
    forall id | id in s.rows ensures RowOk(t, id, s.rows[id]) {
      assert RowOk(s, id, s.rows[id]);
    }
    forall id | id in ids
      ensures Final(s.rows[id].form, id) in Copied(s, ids)
          && Copied(s, ids)[Final(s.rows[id].form, id)] == s.rows[id].size
    {
      assert RowOk(s, id, s.rows[id]);
    }
    SameAttachments(s, t);
    CapKept(s, t, limits.cap);
  }

  /** The only key of an upload that a save schedules is the one its row leaves behind. */
  lemma StaleKeysOf(s: Store, r: ResponseId, wanted: map<Id, FieldId>, id: Id)
    requires id in s.rows && forall x :: x in s.rows ==> s.rows[x].key.id == x
    ensures forall k :: k in StaleKeys(s, r, wanted) && k.id == id ==>
              k == s.rows[id].key && (MovesIn(s.rows[id], id, wanted) || DropsOut(s.rows[id], id, r, wanted))
  {
  }

  lemma SavedObject(s: Store, r: ResponseId, response: Response, user: Option<UserId>,
                    cleaned: map<FieldId, seq<Item>>, wanted: map<Id, FieldId>, id: Id)
    requires AllUsable(s.rows, r, FormOf(s, r, response), user, wanted)
    requires id in s.rows && RowOk(s, id, s.rows[id])
    requires id in Moving(s, wanted) ==>
        Final(s.rows[id].form, id) in Copied(s, Moving(s, wanted))
        && Copied(s, Moving(s, wanted))[Final(s.rows[id].form, id)] == s.rows[id].size
    requires s.rows[id].key in s.bucket ==> s.rows[id].key in Copied(s, Moving(s, wanted))
    requires forall x :: x in s.rows ==> s.rows[x].key.id == x
    ensures RowOk(Saved(s, r, response, cleaned, wanted), id, SavedRow(s.rows[id], id, r, wanted))
  {
    var t := Saved(s, r, response, cleaned, wanted);
    var row := s.rows[id];
    StaleKeysOf(s, r, wanted, id);
    if MovesIn(row, id, wanted) {
      assert Usable(row, FormOf(s, r, response), user, wanted[id], Some(r));
    }
  }

  lemma SavedObjects(s: Store, limits: Limits, r: ResponseId, response: Response, user: Option<UserId>,
                     cleaned: map<FieldId, seq<Item>>, wanted: map<Id, FieldId>)
    requires Inv(s, limits) && AllUsable(s.rows, r, FormOf(s, r, response), user, wanted)
    ensures ObjectsOk(Saved(s, r, response, cleaned, wanted))
  {
    var t := Saved(s, r, response, cleaned, wanted);
    CopiesKeep(s, limits, Moving(s, wanted));
    forall id | id in s.rows ensures RowOk(s, id, s.rows[id]) && s.rows[id].key.id == id {}
    forall id | id in t.rows ensures RowOk(t, id, t.rows[id]) {
      SavedObject(s, r, response, user, cleaned, wanted, id);
    }
  }

  lemma SavedAnswer(rows: map<Id, Row>, answers: map<AnswerKey, Value>, r: ResponseId, form: FormId,
          user: Option<UserId>,
                    cleaned: map<FieldId, seq<Item>>, wanted: map<Id, FieldId>, k: AnswerKey)
    requires AnswerOk(rows, answers, k) && Mentions(cleaned, wanted) && AllUsable(rows, r, form, user, wanted)
    requires forall id :: id in rows && rows[id].state == Uploaded ==> rows[id].response.None?
    ensures AnswerOk(SavedRows(rows, r, wanted), AnswersWith(answers, r, cleaned), k)
  {
    if k.response != r {
      OtherAnswer(rows, answers, r, form, user, cleaned, wanted, k);
    } else {
      OwnAnswer(rows, answers, r, form, user, cleaned, wanted, k);
    }
  }

  /** The response's own answers name what the new answers mention, and exactly that ends up attached. */
  lemma OwnAnswer(rows: map<Id, Row>, answers: map<AnswerKey, Value>, r: ResponseId, form: FormId, user: Option<UserId>,
                  cleaned: map<FieldId, seq<Item>>, wanted: map<Id, FieldId>, k: AnswerKey)
    requires AnswerOk(rows, answers, k) && Mentions(cleaned, wanted) && AllUsable(rows, r, form, user, wanted)
        && k.response == r
    requires forall id :: id in rows && rows[id].state == Uploaded ==> rows[id].response.None?
    ensures AnswerOk(SavedRows(rows, r, wanted), AnswersWith(answers, r, cleaned), k)
  {
    if k.field in cleaned {
      assert MentionsAt(cleaned[k.field], k.field, wanted);
      assert IdsAt(AnswersWith(answers, r, cleaned), k) == Ids(cleaned[k.field]);
    }
  }

  /** The answers of other responses, and the files attached to them, are left alone. */
  lemma OtherAnswer(rows: map<Id, Row>, answers: map<AnswerKey, Value>, r: ResponseId, form: FormId,
          user: Option<UserId>,
                    cleaned: map<FieldId, seq<Item>>, wanted: map<Id, FieldId>, k: AnswerKey)
    requires AnswerOk(rows, answers, k) && AllUsable(rows, r, form, user, wanted) && k.response != r
    requires forall id :: id in rows && rows[id].state == Uploaded ==> rows[id].response.None?
    ensures AnswerOk(SavedRows(rows, r, wanted), AnswersWith(answers, r, cleaned), k)
  {
    assert IdsAt(AnswersWith(answers, r, cleaned), k) == IdsAt(answers, k);
    forall id ensures id in rows && AttachedAt(rows[id], k) <==>
        id in rows && AttachedAt(SavedRow(rows[id], id, r, wanted), k) {}
  }

  lemma SavedAnswers(s: Store, r: ResponseId, response: Response, user: Option<UserId>,
                     cleaned: map<FieldId, seq<Item>>, wanted: map<Id, FieldId>)
    requires AnswersOk(s) && Mentions(cleaned, wanted) && AllUsable(s.rows, r, FormOf(s, r, response), user, wanted)
    requires forall id :: id in s.rows && s.rows[id].state == Uploaded ==> s.rows[id].response.None?
    ensures AnswersOk(Saved(s, r, response, cleaned, wanted))
  {
    var t := Saved(s, r, response, cleaned, wanted);
    forall k: AnswerKey ensures AnswerOk(t.rows, t.answers, k) {
      assert AnswerOk(s.rows, s.answers, k);
      SavedAnswer(s.rows, s.answers, r, FormOf(s, r, response), user, cleaned, wanted, k);
    }
  }

  lemma WaitingRowsHaveNoResponse(s: Store)
    requires ObjectsOk(s)
    ensures forall id :: id in s.rows && s.rows[id].state == Uploaded ==> s.rows[id].response.None?
  {
    forall id | id in s.rows && s.rows[id].state == Uploaded ensures s.rows[id].response.None? {
      assert RowOk(s, id, s.rows[id]);
    }
  }

  lemma SavedCap(s: Store, cap: int, r: ResponseId, response: Response, cleaned: map<FieldId, seq<Item>>,
          wanted: map<Id, FieldId>)
    requires CapOk(s, cap)
    ensures CapOk(Saved(s, r, response, cleaned, wanted), cap)
  {
    CapKept(s, Saved(s, r, response, cleaned, wanted), cap);
  }

  lemma SaveKeeps(s: Store, limits: Limits, r: ResponseId, response: Response, user: Option<UserId>,
                  cleaned: map<FieldId, seq<Item>>, wanted: map<Id, FieldId>, cut: Cut)
    requires Inv(s, limits) && Mentions(cleaned, wanted)
    ensures Inv(Save(s, r, response, user, cleaned, wanted, cut), limits)
  {
    if AllUsable(s.rows, r, FormOf(s, r, response), user, wanted) {
      match cut {
        case Abort(copied) => CopiesKeep(s, limits, copied * Moving(s, wanted));
        case Commit =>
          SavedObjects(s, limits, r, response, user, cleaned, wanted);
          WaitingRowsHaveNoResponse(s);
          SavedAnswers(s, r, response, user, cleaned, wanted);
          SavedCap(s, limits.cap, r, response, cleaned, wanted);
      }
    }
  }

  /** Under the invariant a save that finds its uploads usable also finds their objects. */
  lemma UsableFilesAreThere(s: Store, wanted: map<Id, FieldId>)
    requires ObjectsOk(s)
    ensures Copyable(s, Moving(s, wanted))
  {
    forall id | id in Moving(s, wanted) ensures s.rows[id].key in s.bucket {
      assert RowOk(s, id, s.rows[id]);
    }
  }

  lemma ForgetAnswer(s: Store, id: Id, k: AnswerKey)
    requires id in s.rows && AnswerOk(s.rows, s.answers, k)
    ensures AnswerOk(Forget(s, id).rows, Forget(s, id).answers, k)
  {
    var t := Forget(s, id);
    if k in s.answers && s.rows[id].response == Some(k.response) && s.rows[id].field == k.field {
      WithoutIds(Items(s.answers[k]), id);
      var kept := Without(Items(s.answers[k]), id);
      assert IdsAt(t.answers, k) == Ids(kept) by { WithoutLength(Items(s.answers[k]), id); }
    } else {
      assert IdsAt(t.answers, k) == IdsAt(s.answers, k);
    }
  }

  lemma WithoutLength(items: seq<Item>, id: Id)
    ensures |Without(items, id)| <= |items|
  {
  }

  lemma ForgetKeeps(s: Store, limits: Limits, id: Id)
    requires Inv(s, limits) && id in s.rows
    ensures Inv(Forget(s, id), limits)
  {
    var t := Forget(s, id);
    forall x | x in t.rows ensures RowOk(t, x, t.rows[x]) { assert RowOk(s, x, s.rows[x]); }
    forall k: AnswerKey ensures AnswerOk(t.rows, t.answers, k) { ForgetAnswer(s, id, k); }
    CapKept(s, t, limits.cap);
  }

  lemma RemoveFileKeeps(s: Store, limits: Limits, form: FormId, id: Id)
    requires Inv(s, limits)
    ensures Inv(RemoveFile(s, form, id), limits)
  {
    if Removable(s, form, id) {
      ForgetKeeps(s, limits, id);
      var u := Forget(s, id);
      var t := RemoveFile(s, form, id);
      forall x | x in t.rows
          ensures RowOk(t, x, t.rows[x]) { assert RowOk(u, x, u.rows[x]) && RowOk(s, x, s.rows[x])
          && RowOk(s, id, s.rows[id]); }
      SameAttachments(u, t);
      CapKept(u, t, limits.cap);
    }
  }

  lemma {:induction false} RemoveFilesKeeps(s: Store, limits: Limits, form: FormId, ids: seq<Id>)
    requires Inv(s, limits)
    ensures Inv(RemoveFiles(s, form, ids), limits)
  {
    if ids == [] {
    } else {
      RemoveFilesKeeps(s, limits, form, ids[..|ids| - 1]);
      RemoveFileKeeps(RemoveFiles(s, form, ids[..|ids| - 1]), limits, form, ids[|ids| - 1]);
    }
  }

  lemma ReplacedAnswer(s: Store, form: FormId, oldId: Id, newId: Id, admin: UserId, k: AnswerKey)
    requires Replaceable(s, form, oldId, newId, admin) && s.rows[oldId].response.Some? && s.rows[newId].key in s.bucket
    requires AnswerOk(s.rows, s.answers, k) && s.rows[newId].response.None?
    ensures AnswerOk(Replaced(s, oldId, newId).rows, Replaced(s, oldId, newId).answers, k)
  {
    var t := Replaced(s, oldId, newId);
    if AttachedAt(s.rows[oldId], k) {
      assert oldId in IdsAt(s.answers, k) && newId !in IdsAt(s.answers, k);
      var items := Items(s.answers[k]);
      SwappedIds(items, oldId, newId);
      assert Items(t.answers[k]) == Swapped(items, oldId, newId);
    } else {
      assert IdsAt(t.answers, k) == IdsAt(s.answers, k);
    }
  }

  lemma ReplaceKeeps(s: Store, limits: Limits, form: FormId, oldId: Id, newId: Id, admin: UserId, copies: bool,
          commits: bool)
    requires Inv(s, limits)
    ensures Inv(Replace(s, form, oldId, newId, admin, copies, commits), limits)
  {
    var t := Replace(s, form, oldId, newId, admin, copies, commits);
    if t != s {
      CopiesKeep(s, limits, {newId});
      if commits && s.rows[oldId].response.Some? { ReplacedKeeps(s, limits, form, oldId, newId, admin); }
    }
  }

  lemma ReplacedObject(s: Store, form: FormId, oldId: Id, newId: Id, admin: UserId, x: Id)
    requires ObjectsOk(s) && Replaceable(s, form, oldId, newId, admin) && s.rows[newId].key in s.bucket
        && s.rows[oldId].response.Some?
    requires x in s.rows
    ensures var t := Replaced(s, oldId, newId); x in t.rows && RowOk(t, x, t.rows[x])
  {
    assert RowOk(s, oldId, s.rows[oldId]) && RowOk(s, newId, s.rows[newId]) && RowOk(s, x, s.rows[x]);
  }

  lemma ReplacedKeeps(s: Store, limits: Limits, form: FormId, oldId: Id, newId: Id, admin: UserId)
    requires Inv(s, limits) && Replaceable(s, form, oldId, newId, admin) && s.rows[newId].key in s.bucket
        && s.rows[oldId].response.Some?
    ensures Inv(Replaced(s, oldId, newId), limits)
  {
    var t := Replaced(s, oldId, newId);
    forall x | x in t.rows ensures RowOk(t, x, t.rows[x]) { ReplacedObject(s, form, oldId, newId, admin, x); }
    forall k: AnswerKey ensures AnswerOk(t.rows, t.answers, k) { ReplacedAnswer(s, form, oldId, newId, admin, k); }
    assert RowOk(s, newId, s.rows[newId]) && RowOk(s, oldId, s.rows[oldId]);
    CapKept(s, t, limits.cap);
  }

  lemma SweepKeeps(s: Store, limits: Limits, batch: set<Id>, failed: set<Key>, forgotten: set<Id>)
    requires Inv(s, limits)
    ensures Inv(Sweep(s, batch, failed, forgotten), limits)
  {
    var stale := set id | id in batch && id in s.rows && Expired(s.rows[id], s.now);
    var u := DiscardAll(s, stale, failed);
    DiscardAllKeeps(s, stale, failed);
    var t := Sweep(s, batch, failed, forgotten);
    forall x | x in t.rows ensures RowOk(t, x, t.rows[x]) { assert RowOk(u, x, u.rows[x]); }
    SameAttachments(u, t);
    CapKept(s, t, limits.cap);
  }

  /** A row that stops being attached nowhere, or changes only its scan, disturbs no answer. */
  lemma RowUpdateKeeps(s: Store, limits: Limits, id: Id, row: Row, doomed: set<Key>)
    requires Inv(s, limits) && id in s.rows
    requires row.(scan := s.rows[id].scan) == s.rows[id]
        || row.(scan := s.rows[id].scan, state := s.rows[id].state) == s.rows[id]
    requires row.state == s.rows[id].state || (row.state == Deleted
        && !(s.rows[id].state == Attached && s.rows[id].response.Some?))
    requires row.scan == Infected ==> row.state == Deleted
    requires doomed == {} || (doomed == {row.key} && row.state == Deleted)
    ensures Inv(s.(rows := s.rows[id := row], scheduled := s.scheduled + doomed), limits)
  {
    var t := s.(rows := s.rows[id := row], scheduled := s.scheduled + doomed);
    assert RowOk(s, id, s.rows[id]);
    forall x | x in t.rows ensures RowOk(t, x, t.rows[x]) { assert RowOk(s, x, s.rows[x]); }
    SameAttachments(s, t);
    CapKept(s, t, limits.cap);
  }

  lemma ScannedKeeps(s: Store, limits: Limits, id: Id, infected: bool)
    requires Inv(s, limits)
    ensures Inv(Scanned(s, id, infected), limits)
  {
    if id in s.rows && s.rows[id].scan == NotScanned {
      var row := s.rows[id];
      if !infected {
        RowUpdateKeeps(s, limits, id, row.(scan := Clean), {});
        assert Scanned(s, id, infected) == s.(rows := s.rows[id := row.(scan := Clean)], scheduled := s.scheduled + {});
      } else {
        var u := if row.response.Some? then Forget(s, id) else s;
        if row.response.Some? { ForgetKeeps(s, limits, id); }
        RowUpdateKeeps(u, limits, id, row.(scan := Infected, state := Deleted), {row.key});
      }
    }
  }

  lemma UnrelatedObject(s: Store, r: ResponseId, x: Id)
    requires ObjectsOk(s) && x in s.rows
    ensures RowOk(DeleteResponse(s, r), x, DeleteResponse(s, r).rows[x])
  {
    assert RowOk(s, x, s.rows[x]);
    forall y | y in s.rows ensures RowOk(s, y, s.rows[y]) {}
  }

  lemma DeleteResponseKeeps(s: Store, limits: Limits, r: ResponseId)
    requires Inv(s, limits)
    ensures Inv(DeleteResponse(s, r), limits)
  {
    var t := DeleteResponse(s, r);
    forall x | x in t.rows ensures RowOk(t, x, t.rows[x]) { UnrelatedObject(s, r, x); }
    forall k: AnswerKey ensures AnswerOk(t.rows, t.answers, k) { assert AnswerOk(s.rows, s.answers, k); }
    forall k | k in t.scheduled ensures k.id in t.issued {
      if k !in s.scheduled {
        var id :| id in s.rows && s.rows[id].key == k;
        assert RowOk(s, id, s.rows[id]);
      }
    }
    CapKept(s, t, limits.cap);
  }

  lemma DeleteFormKeeps(s: Store, limits: Limits, form: FormId)
    requires Inv(s, limits)
    ensures Inv(DeleteForm(s, form), limits)
  {
    var t := DeleteForm(s, form);
    forall x | x in t.rows ensures RowOk(t, x, t.rows[x]) {
      assert RowOk(s, x, s.rows[x]);
      forall y | y in s.rows ensures RowOk(s, y, s.rows[y]) {}
    }
    forall k: AnswerKey ensures AnswerOk(t.rows, t.answers, k) {
      assert AnswerOk(s.rows, s.answers, k);
      forall x | x in s.rows ensures RowOk(s, x, s.rows[x]) {}
    }
    forall k | k in t.scheduled ensures k.id in t.issued {
      if k !in s.scheduled {
        var id :| id in s.rows && s.rows[id].key == k;
        assert RowOk(s, id, s.rows[id]);
      }
    }
    CapKept(s, t, limits.cap);
  }

  // ----- moving inline files ---------------------------------------------------------------------------

  /** An object written for an id that has no row disturbs nobody. */
  lemma PutKeeps(s: Store, form: FormId, id: Id, bytes: nat)
    requires ObjectsOk(s) && id !in s.rows
    ensures ObjectsOk(s.(bucket := s.bucket[Final(form, id) := bytes]))
  {
    var t := s.(bucket := s.bucket[Final(form, id) := bytes]);
    forall x | x in t.rows ensures RowOk(t, x, t.rows[x]) { assert RowOk(s, x, s.rows[x]); }
  }

  lemma MoveItemKeeps(s: Store, response: Response, k: AnswerKey, item: Item, id: Id)
    requires ObjectsOk(s) && id !in s.rows && id in s.issued && Final(response.form, id) !in s.scheduled
    requires k.response in s.responses && s.responses[k.response] == response
    ensures ObjectsOk(MoveItem(s, response, k, item, id))
  {
    if Movable(item) {
      var u := s.(bucket := s.bucket[Final(response.form, id) := item.bytes.value]);
      PutKeeps(s, response.form, id, item.bytes.value);
      var t := MoveItem(s, response, k, item, id);
      forall x | x in t.rows ensures RowOk(t, x, t.rows[x]) {
        if x != id { assert RowOk(u, x, u.rows[x]); }
      }
    }
  }

  lemma IssueKeeps(s: Store, ids: seq<Id>)
    requires ObjectsOk(s)
    ensures ObjectsOk(s.(issued := s.issued + set id | id in ids))
  {
    var t := s.(issued := s.issued + set id | id in ids);
    forall x | x in t.rows ensures RowOk(t, x, t.rows[x]) { assert RowOk(s, x, s.rows[x]); }
  }

  /** The rows after `n` items: those from before, and the ones made so far, attached to this answer. */
  lemma {:induction false} MovedRows(s: Store, response: Response, k: AnswerKey, items: seq<Item>, ids: seq<Id>, n: nat)
    requires n <= |items| == |ids| && NoRepeats(ids) && forall id :: id in ids ==> id !in s.rows
    ensures var t := MoveItems(s, response, k, items, ids, n);
      && t == s.(rows := t.rows, bucket := t.bucket)
      && (forall id :: id in t.rows <==> id in s.rows || id in NewIds(items, ids, n))
      && (forall id :: id in s.rows ==> t.rows[id] == s.rows[id])
      && (forall id :: id in NewIds(items, ids, n) ==>
          t.rows[id].state == Attached && t.rows[id].response == Some(k.response) && t.rows[id].field == k.field)
  {
    NewIdsAmong(items, ids, n);
    if n == 0 {
    } else {
      MovedRows(s, response, k, items, ids, n - 1);
    }
  }

  /** The id for the next item is still unused. */
  lemma NotMadeYet(s: Store, response: Response, k: AnswerKey, items: seq<Item>, ids: seq<Id>, n: nat)
    requires n < |items| == |ids| && NoRepeats(ids) && forall id :: id in ids ==> id !in s.rows
    ensures var t := MoveItems(s, response, k, items, ids, n);
      t == s.(rows := t.rows, bucket := t.bucket) && ids[n] !in t.rows
  {
    MovedRows(s, response, k, items, ids, n);
    NewIdsAmong(items, ids, n);
    assert ids == ids[..n] + ids[n..] && ids[n] in ids[n..];
    NoRepeatsConcat(ids[..n], ids[n..]);
  }

  /** Part way through one answer every object is in place, whether the rows made so far are kept or rolled back. */
  lemma {:induction false} MovedObjects(s: Store, response: Response, k: AnswerKey, items: seq<Item>, ids: seq<Id>,
          n: nat)
    requires ObjectsOk(s) && n <= |items| == |ids| && NoRepeats(ids)
    requires forall id :: id in ids ==> id in s.issued && id !in s.rows && Final(response.form, id) !in s.scheduled
    requires k.response in s.responses && s.responses[k.response] == response
    ensures var t := MoveItems(s, response, k, items, ids, n);
      ObjectsOk(t) && ObjectsOk(s.(bucket := t.bucket))
  {
    if n == 0 {
    } else {
      MovedObjects(s, response, k, items, ids, n - 1);
      NotMadeYet(s, response, k, items, ids, n - 1);
      var t := MoveItems(s, response, k, items, ids, n - 1);
      MoveItemKeeps(t, response, k, items[n - 1], ids[n - 1]);
      if Movable(items[n - 1]) {
        PutKeeps(s.(bucket := t.bucket), response.form, ids[n - 1], items[n - 1].bytes.value);
      }
    }
  }

  lemma MovedAnswer(s: Store, response: Response, k: AnswerKey, ids: seq<Id>, j: AnswerKey)
    requires k in s.answers && |ids| == |Items(s.answers[k])| && NoRepeats(ids)
    requires AnswerOk(s.rows, s.answers, j) && forall id :: id in ids ==> id !in s.rows
    ensures var items := Items(s.answers[k]);
      AnswerOk(MoveItems(s, response, k, items, ids, |items|).rows,
               s.answers[k := WithItems(s.answers[k], Rewritten(items, ids))], j)
  {
    var items := Items(s.answers[k]);
    var answers := s.answers[k := WithItems(s.answers[k], Rewritten(items, ids))];
    MovedRows(s, response, k, items, ids, |items|);
    if j == k {
      RewrittenIds(items, ids);
      assert Items(answers[k]) == Rewritten(items, ids);
    } else {
      assert IdsAt(answers, j) == IdsAt(s.answers, j);
    }
  }

  lemma BackfilledAnswers(s: Store, t: Store, response: Response, k: AnswerKey, ids: seq<Id>)
    requires k in s.answers && |ids| == |Items(s.answers[k])| && NoRepeats(ids) && forall id :: id in ids ==>
        id !in s.rows
    requires AnswersOk(s) && t.responses == s.responses
    requires t.rows == MoveItems(s, response, k, Items(s.answers[k]), ids, |ids|).rows
    requires t.answers == s.answers[k := WithItems(s.answers[k], Rewritten(Items(s.answers[k]), ids))]
    ensures AnswersOk(t)
  {
    forall j: AnswerKey ensures AnswerOk(t.rows, t.answers, j) {
      assert AnswerOk(s.rows, s.answers, j);
      MovedAnswer(s, response, k, ids, j);
    }
  }

  lemma BackfillKeeps(s: Store, limits: Limits, k: AnswerKey, ids: seq<Id>, failsAfter: Option<nat>)
    requires Inv(s, limits)
    ensures Inv(Backfill(s, k, ids, failsAfter), limits)
  {
    if k in s.answers && k.response in s.responses && |ids| == |Items(s.answers[k])| && Fresh(s, ids) {
      var u := s.(issued := s.issued + set id | id in ids);
      var t := Backfill(s, k, ids, failsAfter);
      var items := Items(s.answers[k]);
      var response := s.responses[k.response];
      assert forall id :: id in s.rows ==> RowOk(s, id, s.rows[id]) && id !in ids;
      IssueKeeps(s, ids);
      var n := if failsAfter.Some? && failsAfter.value < |items| then failsAfter.value else |items|;
      MovedObjects(u, response, k, items, ids, n);
      MovedIssued(s, u.issued, response, k, items, ids, n);
      MovedRows(s, response, k, items, ids, n);
      if failsAfter.None? {
        BackfilledAnswers(s, t, response, k, ids);
      } else {
        SameAttachments(s, t);
      }
      CapKept(s, t, limits.cap);
    }
  }

  lemma {:induction false} MovedIssued(s: Store, issued: set<Id>, response: Response, k: AnswerKey, items: seq<Item>,
          ids: seq<Id>, n: nat)
    requires n <= |items| == |ids|
    ensures MoveItems(s.(issued := issued), response, k, items, ids, n)
        == MoveItems(s, response, k, items, ids, n).(issued := issued)
  {
    if n == 0 {
    } else {
      MovedIssued(s, issued, response, k, items, ids, n - 1);
    }
  }

  // ----- every run -----------------------------------------------------------------------------------

  lemma BucketOnlyKeeps(s: Store, t: Store, limits: Limits)
    requires Inv(s, limits) && t == s.(bucket := t.bucket, now := t.now) && s.now <= t.now
    requires forall id :: id in s.rows && Live(s.rows[id]) && s.rows[id].key in s.bucket ==>
               s.rows[id].key in t.bucket && t.bucket[s.rows[id].key] == s.bucket[s.rows[id].key]
    ensures Inv(t, limits)
  {
    forall id | id in t.rows ensures RowOk(t, id, t.rows[id]) { assert RowOk(s, id, s.rows[id]); }
    SameAttachments(s, t);
    CapKept(s, t, limits.cap);
  }

  lemma ScheduledAreNotLive(s: Store, key: Key)
    requires ObjectsOk(s) && key in s.scheduled
    ensures forall id :: id in s.rows && Live(s.rows[id]) ==> s.rows[id].key != key
  {
    forall id | id in s.rows && Live(s.rows[id]) ensures s.rows[id].key != key { assert RowOk(s, id, s.rows[id]); }
  }

  /**
   A discard deletes objects before its transaction commits. Rolling it back restores the rows only, so files stay
   safe exactly when no finished upload was among those discarded, or its removal failed.
   */
  lemma AbortedDiscard(s: Store, ids: set<Id>, failed: set<Key>)
    requires ObjectsOk(s) && ids <= s.rows.Keys && forall id :: id in ids ==> Waiting(s.rows[id])
    ensures ObjectsOk(s.(bucket := DiscardAll(s, ids, failed).bucket))
            <==> forall id :: id in ids && s.rows[id].state == Uploaded ==> s.rows[id].key in failed
  {
    var t := s.(bucket := DiscardAll(s, ids, failed).bucket);
    forall id | id in s.rows && RowOk(t, id, s.rows[id])
        ensures id in ids && s.rows[id].state == Uploaded ==> s.rows[id].key in failed {}
    if forall id :: id in ids && s.rows[id].state == Uploaded ==> s.rows[id].key in failed {
      forall id | id in s.rows ensures RowOk(t, id, s.rows[id]) {
        assert RowOk(s, id, s.rows[id]);
        forall other | other in ids && s.rows[other].key == s.rows[id].key
            ensures other == id { assert RowOk(s, other, s.rows[other]); }
      }
    }
  }

  /** The step is rolled back after removing the object of a finished upload, whose row then claims to have one. */
  predicate LosesFile(s: Store, step: Step) {
    match step
    case RequestFails(form, user, q, c, failed) =>
      && Ticks(s, c) && !q.multi
      && exists id :: id in ActiveFor(s.rows, form, user, q.field, c.first) && s.rows[id].state == Uploaded
          && s.rows[id].key !in failed
    case DiscardFails(form, user, id, unremoved) =>
      Owned(s, form, user, id) && s.rows[id].state == Uploaded && !unremoved
    case _ => false
  }

  /** Only the objects differ, so only their part of the invariant can. */
  lemma ObjectsDecide(s: Store, t: Store, limits: Limits)
    requires Inv(s, limits) && t == s.(bucket := t.bucket)
    ensures Inv(t, limits) <==> ObjectsOk(t)
  {
    SameAttachments(s, t);
    CapKept(s, t, limits.cap);
  }

  lemma RequestFailsKeeps(s: Store, limits: Limits, form: FormId, user: UserId, q: Question, c: Clock, failed: set<Key>)
    requires Inv(s, limits) && Ticks(s, c)
    ensures Inv(RequestRolledBack(s, limits, form, user, q, c, failed), limits) <==>
        !LosesFile(s, RequestFails(form, user, q, c, failed))
  {
    if !q.multi {
      AbortedDiscard(s, ActiveFor(s.rows, form, user, q.field, c.first), failed);
      ObjectsDecide(s, RequestRolledBack(s, limits, form, user, q, c, failed), limits);
    }
  }

  lemma DiscardFailsKeeps(s: Store, limits: Limits, form: FormId, user: UserId, id: Id, unremoved: bool)
    requires Inv(s, limits)
    ensures Inv(DiscardRolledBack(s, form, user, id, unremoved), limits) <==>
        !LosesFile(s, DiscardFails(form, user, id, unremoved))
  {
    if Owned(s, form, user, id) && Waiting(s.rows[id]) {
      AbortedDiscard(s, {id}, if unremoved then {s.rows[id].key} else {});
      ObjectsDecide(s, DiscardRolledBack(s, form, user, id, unremoved), limits);
    }
  }

  /** A step breaks the invariant exactly when it loses a file. */
  lemma StepKeeps(s: Store, limits: Limits, step: Step)
    requires Inv(s, limits)
    ensures Inv(Apply(s, limits, step), limits) <==> !LosesFile(s, step)
  {
    match step {
      case Tick(t) => BucketOnlyKeeps(s, Apply(s, limits, step), limits);
      case BrowserPost(form, id, size) => BucketOnlyKeeps(s, Apply(s, limits, step), limits);
      case RequestUpload(form, user, q, id, c, failed) =>
        if id !in s.issued && Ticks(s, c) { RequestKeeps(s, limits, form, user, q, id, c, failed); }
      case CompleteUpload(form, user, id, accepted, unremoved) =>
        CompleteKeeps(s, limits, form, user, id, accepted, unremoved);
      case DiscardUpload(form, user, id, unremoved) => DiscardKeeps(s, limits, form, user, id, unremoved);
      case RequestFails(form, user, q, c, failed) =>
        if Ticks(s, c) { RequestFailsKeeps(s, limits, form, user, q, c, failed); }
      case DiscardFails(form, user, id, unremoved) => DiscardFailsKeeps(s, limits, form, user, id, unremoved);
      case SaveResponse(r, response, caller, cleaned, wanted, cut) =>
        if Mentions(cleaned, wanted) { SaveKeeps(s, limits, r, response, caller, cleaned, wanted, cut); }
      case AdminRemove(form, ids) => RemoveFilesKeeps(s, limits, form, ids);
      case AdminReplace(form, oldId, newId, admin, copies, commits) =>
        ReplaceKeeps(s, limits, form, oldId, newId, admin, copies, commits);
      case SweepExpired(batch, failed, forgotten) => SweepKeeps(s, limits, batch, failed, forgotten);
      case ScanVerdict(id, infected) => ScannedKeeps(s, limits, id, infected);
      case BackfillAnswer(k, ids, failsAfter) => BackfillKeeps(s, limits, k, ids, failsAfter);
      case ResponseDeleted(r) => DeleteResponseKeeps(s, limits, r);
      case FormDeleted(form) => DeleteFormKeeps(s, limits, form);
      case CleanUp(key) =>
        if key in s.scheduled {
          ScheduledAreNotLive(s, key);
          BucketOnlyKeeps(s, Apply(s, limits, step), limits);
        }
    }
  }

  lemma EmptyIsSafe(limits: Limits)
    ensures Inv(EMPTY, limits)
  {
    assert forall k: AnswerKey :: AnswerOk(EMPTY.rows, EMPTY.answers, k);
    assert forall form, user :: Active(EMPTY.rows, form, user, EMPTY.now) == {};
  }

  /** The invariant holds all through a run. */
  ghost predicate SafeThroughout(s: Store, limits: Limits, steps: seq<Step>) {
    Inv(Run(s, limits, steps), limits) && (steps == [] || SafeThroughout(s, limits, steps[..|steps| - 1]))
  }

  /** No step of the run loses a file. */
  ghost predicate NoneLost(s: Store, limits: Limits, steps: seq<Step>) {
    steps == [] ||
    (var before := steps[..|steps| - 1];
     NoneLost(s, limits, before) && !LosesFile(Run(s, limits, before), steps[|steps| - 1]))
  }

  /**
   The main result: from any state that satisfies it, the invariant holds all through a run, aborted copies, lost
   deletions and delayed clean-ups included, exactly when no discard of a finished upload is rolled back after
   removing its object.
   */
  lemma {:induction false} EveryRunIsSafe(s: Store, limits: Limits, steps: seq<Step>)
    requires Inv(s, limits)
    ensures SafeThroughout(s, limits, steps) <==> NoneLost(s, limits, steps)
  {
    if steps == [] {
    } else {
      var before := steps[..|steps| - 1];
      EveryRunIsSafe(s, limits, before);
      if SafeThroughout(s, limits, before) { StepKeeps(Run(s, limits, before), limits, steps[|steps| - 1]); }
    }
  }

  /**
   After any run, a refused request leaves rows and bucket exactly as they were, although it may discard before it
   refuses.
   */
  lemma RefusedRequestChangesNothing(s0: Store, limits: Limits, steps: seq<Step>, form: FormId, user: UserId,
          q: Question, id: Id, c: Clock, failed: set<Key>)
    requires Inv(s0, limits) && NoneLost(s0, limits, steps)
    requires id !in Run(s0, limits, steps).issued && Ticks(Run(s0, limits, steps), c)
    ensures var s := Run(s0, limits, steps);
      var (t, asked) := Request(s, limits, form, user, q, id, c, failed);
      asked != Granted ==> t == s
  {
    EveryRunIsSafe(s0, limits, steps);
    RequestKeeps(Run(s0, limits, steps), limits, form, user, q, id, c, failed);
  }

  /**
   After any run a request is granted exactly when there is room under the cap, and for a multi-file question under
   its own limit, or when it replaces an earlier pick: a person at the cap can still change a single file.
   */
  lemma GrantedExactly(s0: Store, limits: Limits, steps: seq<Step>, form: FormId, user: UserId, q: Question, id: Id,
          c: Clock, failed: set<Key>)
    requires Inv(s0, limits) && NoneLost(s0, limits, steps)
    requires Ticks(Run(s0, limits, steps), c)
    ensures var s := Run(s0, limits, steps);
      var mine := ActiveFor(s.rows, form, user, q.field, c.first);
      Request(s, limits, form, user, q, id, c, failed).1 == Granted <==>
        if q.multi then |mine| < q.maxFiles && |Active(s.rows, form, user, c.second)| < limits.cap
        else mine != {} || |Active(s.rows, form, user, c.second)| < limits.cap
  {
    EveryRunIsSafe(s0, limits, steps);
    var s := Run(s0, limits, steps);
    var mine := ActiveFor(s.rows, form, user, q.field, c.first);
    RoomAfterDiscard(s, limits, form, user, q.field, c, failed);
    if mine == {} { assert DiscardAll(s, mine, failed).rows == s.rows; }
  }

  /**
   A granted request leaves a single-file question with the new upload only, and a multi-file one within its limit.
   */
  lemma GrantedWithinQuestion(s: Store, limits: Limits, form: FormId, user: UserId, q: Question, id: Id, c: Clock,
          failed: set<Key>)
    requires Ticks(s, c) && limits.hours > 0 && Request(s, limits, form, user, q, id, c, failed).1 == Granted
    ensures var active := ActiveFor(Request(s, limits, form, user, q, id, c, failed).0.rows, form, user, q.field,
        c.third);
      id in active && if q.multi then |active| <= q.maxFiles else active == {id}
  {
    if q.multi {
      GrantedMulti(s, limits, form, user, q, id, c, failed);
    } else {
      GrantedSingle(s, limits, form, user, q, id, c, failed);
    }
  }

  lemma GrantedMulti(s: Store, limits: Limits, form: FormId, user: UserId, q: Question, id: Id, c: Clock,
          failed: set<Key>)
    requires Ticks(s, c) && limits.hours > 0 && q.multi && Request(s, limits, form, user, q, id, c, failed).1 == Granted
    ensures var active := ActiveFor(Request(s, limits, form, user, q, id, c, failed).0.rows, form, user, q.field,
        c.third);
      id in active && |active| <= q.maxFiles
  {
    var mine := ActiveFor(s.rows, form, user, q.field, c.first);
    NewRowIsActive(s.rows, form, user, q.field, id, c.third + limits.hours, c.third);
    StillActive(s, form, user, q.field, c);
    SubsetSize(ActiveFor(s.rows, form, user, q.field, c.third), mine);
  }

  lemma GrantedSingle(s: Store, limits: Limits, form: FormId, user: UserId, q: Question, id: Id, c: Clock,
          failed: set<Key>)
    requires Ticks(s, c) && limits.hours > 0 && !q.multi
        && Request(s, limits, form, user, q, id, c, failed).1 == Granted
    ensures ActiveFor(Request(s, limits, form, user, q, id, c, failed).0.rows, form, user, q.field, c.third) == {id}
  {
    var mine := ActiveFor(s.rows, form, user, q.field, c.first);
    NewRowIsActive(DiscardAll(s, mine, failed).rows, form, user, q.field, id, c.third + limits.hours, c.third);
    StillActive(s, form, user, q.field, c);
    NoneLeft(s, mine, failed, form, user, q.field, c.third);
  }

  lemma StillActive(s: Store, form: FormId, user: UserId, field: FieldId, c: Clock)
    requires Ticks(s, c)
    ensures ActiveFor(s.rows, form, user, field, c.third) <= ActiveFor(s.rows, form, user, field, c.first)
  {
  }

  lemma NewRowIsActive(rows: map<Id, Row>, form: FormId, user: UserId, field: FieldId, id: Id, expires: Time, now: Time)
    requires now < expires
    ensures ActiveFor(rows[id := NewRow(form, user, field, id, expires)], form, user, field, now)
        == ActiveFor(rows, form, user, field, now) + {id}
  {
  }

  lemma NoneLeft(s: Store, mine: set<Id>, failed: set<Key>, form: FormId, user: UserId, field: FieldId, now: Time)
    requires ActiveFor(s.rows, form, user, field, now) <= mine
    ensures ActiveFor(DiscardAll(s, mine, failed).rows, form, user, field, now) == {}
  {
  }

  /**
   The upload ids a response's answers refer to are exactly the uploads attached to it, each named once, after any
   run.
   */
  lemma AnswersNameAttachedFiles(s0: Store, limits: Limits, steps: seq<Step>, k: AnswerKey)
    requires Inv(s0, limits) && NoneLost(s0, limits, steps)
    ensures var s := Run(s0, limits, steps);
      && NoRepeats(IdsAt(s.answers, k))
      && (forall id :: id in IdsAt(s.answers, k) <==> id in s.rows && AttachedAt(s.rows[id], k))
      && (forall id :: id in IdsAt(s.answers, k) ==> Safe(s, s.rows[id]))
  {
    EveryRunIsSafe(s0, limits, steps);
    var s := Run(s0, limits, steps);
    assert AnswerOk(s.rows, s.answers, k);
    forall id | id in IdsAt(s.answers, k) ensures Safe(s, s.rows[id]) { assert RowOk(s, id, s.rows[id]); }
  }

  /** No clean-up that is still waiting names an object someone relies on, after any run. */
  lemma CleanUpsAreHarmless(s0: Store, limits: Limits, steps: seq<Step>, key: Key)
    requires Inv(s0, limits) && NoneLost(s0, limits, steps)
    requires key in Run(s0, limits, steps).scheduled
    ensures forall id :: id in Run(s0, limits, steps).rows && Live(Run(s0, limits, steps).rows[id]) ==>
        Run(s0, limits, steps).rows[id].key != key
  {
    EveryRunIsSafe(s0, limits, steps);
    ScheduledAreNotLive(Run(s0, limits, steps), key);
  }

  // ----- what is finished stays finished -----------------------------------------------------------------

  /** The upload once existed and is now rejected, deleted, forgotten, or left behind by a deleted response. */
  ghost predicate Gone(s: Store, id: Id) {
    id in s.issued && (id in s.rows ==>
        Finished(s.rows[id]) || (s.rows[id].state == Attached && s.rows[id].response.None?))
  }

  lemma {:induction false} RemoveFilesStaysGone(s: Store, form: FormId, ids: seq<Id>, id: Id)
    requires Gone(s, id)
    ensures Gone(RemoveFiles(s, form, ids), id)
  {
    if ids == [] {
    } else {
      RemoveFilesStaysGone(s, form, ids[..|ids| - 1], id);
    }
  }

  lemma RequestStaysGone(s: Store, limits: Limits, form: FormId, user: UserId, q: Question, newId: Id, c: Clock,
          failed: set<Key>, id: Id)
    requires Gone(s, id)
    ensures Gone(Apply(s, limits, RequestUpload(form, user, q, newId, c, failed)), id)
  {
  }

  lemma SaveStaysGone(s: Store, r: ResponseId, response: Response, caller: Option<UserId>, cleaned: map<FieldId,
          seq<Item>>, wanted: map<Id, FieldId>, cut: Cut, id: Id)
    requires Gone(s, id)
    ensures Gone(Save(s, r, response, caller, cleaned, wanted, cut), id)
  {
  }

  lemma ReplaceStaysGone(s: Store, form: FormId, oldId: Id, newId: Id, admin: UserId, copies: bool, commits: bool,
          id: Id)
    requires Gone(s, id)
    ensures Gone(Replace(s, form, oldId, newId, admin, copies, commits), id)
  {
  }

  lemma ScanStaysGone(s: Store, other: Id, infected: bool, id: Id)
    requires Gone(s, id)
    ensures Gone(Scanned(s, other, infected), id)
  {
  }

  lemma SweepStaysGone(s: Store, batch: set<Id>, failed: set<Key>, forgotten: set<Id>, id: Id)
    requires Gone(s, id)
    ensures Gone(Sweep(s, batch, failed, forgotten), id)
  {
  }

  lemma DiscardStaysGone(s: Store, form: FormId, user: UserId, other: Id, unremoved: bool, id: Id)
    requires Gone(s, id)
    ensures Gone(Discard(s, form, user, other, unremoved), id)
  {
  }

  lemma CompleteStaysGone(s: Store, form: FormId, user: UserId, other: Id, accepted: bool, unremoved: bool, id: Id)
    requires Gone(s, id)
    ensures Gone(Complete(s, form, user, other, accepted, unremoved), id)
  {
  }

  lemma StepStaysGone(s: Store, limits: Limits, step: Step, id: Id)
    requires Gone(s, id)
    ensures Gone(Apply(s, limits, step), id)
  {
    match step {
      case AdminRemove(form, ids) => RemoveFilesStaysGone(s, form, ids, id);
      case BackfillAnswer(k, ids, failsAfter) =>
        if k in s.answers && k.response in s.responses && |ids| == |Items(s.answers[k])| && Fresh(s, ids) {
          var items := Items(s.answers[k]);
          MoveItemsSpares(s, s.responses[k.response], k, items, ids, if failsAfter.Some?
              && failsAfter.value < |items| then failsAfter.value else |items|, id);
        }
      case RequestUpload(form, user, q, newId, c, failed) =>
        RequestStaysGone(s, limits, form, user, q, newId, c, failed, id);
      case RequestFails(form, user, q, c, failed) =>
      case DiscardFails(form, user, other, unremoved) =>
      case SaveResponse(r, response, caller, cleaned, wanted, cut) =>
        SaveStaysGone(s, r, response, caller, cleaned, wanted, cut, id);
      case AdminReplace(form, oldId, newId, admin, copies, commits) =>
        ReplaceStaysGone(s, form, oldId, newId, admin, copies, commits, id);
      case ScanVerdict(other, infected) => ScanStaysGone(s, other, infected, id);
      case SweepExpired(batch, failed, forgotten) => SweepStaysGone(s, batch, failed, forgotten, id);
      case DiscardUpload(form, user, other, unremoved) => DiscardStaysGone(s, form, user, other, unremoved, id);
      case CompleteUpload(form, user, other, accepted, unremoved) =>
        CompleteStaysGone(s, form, user, other, accepted, unremoved, id);
      case _ =>
    }
  }

  lemma {:induction false} MoveItemsSpares(s: Store, response: Response, k: AnswerKey, items: seq<Item>, ids: seq<Id>,
          n: nat, id: Id)
    requires n <= |items| == |ids| && id !in ids
    ensures Get(MoveItems(s, response, k, items, ids, n).rows, id) == Get(s.rows, id)
  {
    if n == 0 {
    } else {
      MoveItemsSpares(s, response, k, items, ids, n - 1, id);
    }
  }

  /**
   A deleted or rejected upload never becomes pending, uploaded or attached again, and its id is never given out
   again.
   */
  lemma {:induction false} GoneForGood(s: Store, limits: Limits, steps: seq<Step>, id: Id)
    requires Gone(s, id)
    ensures Gone(Run(s, limits, steps), id)
  {
    if steps == [] {
    } else {
      GoneForGood(s, limits, steps[..|steps| - 1], id);
      StepStaysGone(Run(s, limits, steps[..|steps| - 1]), limits, steps[|steps| - 1], id);
    }
  }
}
