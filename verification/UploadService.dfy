/**
 The upload services as code that updates the database and the bucket in place; each method is one step of the
 protocol, and says which rows, answers and objects it changes.
 */
module UploadService {
  import opened Lists
  import opened Options
  import opened UploadModel
  import opened UploadSafety
  import opened UploadEffects
  import opened UploadReferences
  import opened UploadSubmission

  const MAX_BULK := 100

  /** How finishing an upload ends. */
  datatype Completion = Completed | AlreadyComplete | UploadNotFound | UploadExpired | UploadMissing | FileRefused

  class UploadStore {
    var rows: map<Id, Row>
    var answers: map<AnswerKey, Value>
    var responses: map<ResponseId, Response>
    var bucket: map<Key, nat>
    var scheduled: set<Key>
    var issued: set<Id>
    var now: Time
    const limits: Limits

    ghost function View(): Store
      reads this
    {
      Store(rows, answers, responses, bucket, scheduled, issued, now)
    }

    ghost predicate Valid()
      reads this
    {
      Inv(View(), limits)
    }

    constructor (limits: Limits)
      ensures Valid() && View() == EMPTY && this.limits == limits
    {
      rows, answers, responses, bucket, scheduled, issued, now := map[], map[], map[], map[], {}, {}, 0;
      this.limits := limits;
      new;
      EmptyIsSafe(limits);
    }

    /** Marks the rows deleted one by one, removing each object at once unless the bucket refuses. */
    method DiscardEach(ids: set<Id>, failed: set<Key>)
      requires ids <= rows.Keys
      modifies this`rows, this`bucket
      ensures View() == DiscardAll(old(View()), ids, failed)
    {
      ghost var s := View();
      var todo := ids;
      while todo != {}
        invariant todo <= ids <= rows.Keys
        invariant View() == DiscardAll(s, ids - todo, failed)
        decreases todo
      {
        var id :| id in todo;
        DiscardAllAdd(s, ids - todo, id, failed);
        assert ids - (todo - {id}) == ids - todo + {id};
        if rows[id].key !in failed {
          bucket := bucket - {rows[id].key};
        }
        rows := rows[id := rows[id].(state := Deleted)];
        todo := todo - {id};
      }
      assert ids - todo == ids;
    }

    /** Checks a multi-file question's limit or discards a single-file one's earlier picks, and then checks the cap. */
    method MakeRoom(form: FormId, user: UserId, q: Question, c: Clock, failed: set<Key>) returns (asked: Asked)
      modifies this`rows, this`bucket
      ensures (View(), asked) == MadeRoom(old(View()), limits, form, user, q, c, failed)
    {
      var mine := ActiveFor(rows, form, user, q.field, c.first);
      if q.multi {
        if |mine| >= q.maxFiles {
          return TooManyFiles;
        }
      } else {
        DiscardEach(mine, failed);
      }
      return if |Active(rows, form, user, c.second)| >= limits.cap then TooManyPending else Granted;
    }

    /** Makes room and adds the row, or puts the rows back. */
    method AddUpload(form: FormId, user: UserId, q: Question, id: Id, c: Clock, failed: set<Key>, commits: bool)
            returns (asked: Asked)
      modifies this
      ensures commits ==> (View(), asked) == Request(old(View()), limits, form, user, q, id, c, failed)
      ensures !commits ==>
          asked != Granted && View() == RequestRolledBack(old(View()), limits, form, user, q, c, failed)
    {
      var saved := rows;
      asked := MakeRoom(form, user, q, c, failed);
      if asked == Granted && !commits {
        asked := RolledBack;
      }
      if asked != Granted {
        rows := saved;
        return;
      }
      rows := rows[id := NewRow(form, user, q.field, id, c.third + limits.hours)];
      issued := issued + {id};
      now := c.third;
    }

    /** `commits` is false when the transaction is rolled back after its work for a reason of its own. */
    method RequestUpload(form: FormId, user: UserId, q: Question, id: Id, c: Clock, failed: set<Key>, commits: bool)
            returns (asked: Asked)
      requires Valid() && id !in issued && Ticks(View(), c)
      modifies this
      ensures Valid() <==> commits || !LosesFile(old(View()), RequestFails(form, user, q, c, failed))
      ensures commits ==> (View(), asked) == Request(old(View()), limits, form, user, q, id, c, failed)
      ensures commits && asked != Granted ==> View() == old(View())
      ensures !commits ==>
          asked != Granted && View() == RequestRolledBack(old(View()), limits, form, user, q, c, failed)
      ensures commits ==> AskedByRules(old(View()), limits, form, user, q, c, asked)
      ensures asked == Granted ==> GrantedNow(old(View()), View(), limits, form, user, q, id, c, failed)
      ensures !commits ==> View() == old(View()).(bucket := bucket)
    {
      RequestMeans(View(), limits, form, user, q, id, c, failed);
      RequestKeeps(View(), limits, form, user, q, id, c, failed);
      RequestFailsKeeps(View(), limits, form, user, q, c, failed);
      asked := AddUpload(form, user, q, id, c, failed, commits);
    }

    /** `accepted` is what the checks of size and content say of the object that arrived. */
    method CompleteUpload(form: FormId, user: UserId, id: Id, accepted: bool, fails: bool)
        returns (outcome: Completion)
      requires Valid()
      modifies this`rows, this`bucket
      ensures Valid()
      ensures View() == Complete(old(View()), form, user, id, accepted, fails)
      ensures outcome == UploadNotFound <==>
          !(&& id in old(rows) && old(rows)[id].form == form && old(rows)[id].uploader == Some(user)
            && (old(rows)[id].state == Pending || old(rows)[id].state == Uploaded))
      ensures outcome != UploadNotFound ==> var row := old(rows)[id];
        && (outcome == AlreadyComplete <==> row.state == Uploaded)
        && (outcome == UploadExpired <==> row.state == Pending && row.expires.Some? && row.expires.value <= now)
        && (outcome == UploadMissing <==>
              row.state == Pending && !(row.expires.Some? && row.expires.value <= now) && row.key !in old(bucket))
        && (outcome == Completed ==> accepted) && (outcome == FileRefused ==> !accepted)
      ensures outcome == Completed <==> id in old(rows) && old(rows)[id].state == Pending && rows[id].state == Uploaded
      ensures outcome == Completed ==> var row := old(rows)[id];
        && rows == old(rows)[id := row.(state := Uploaded, size := old(bucket)[row.key])] && bucket == old(bucket)
      ensures outcome == FileRefused <==>
          id in old(rows) && old(rows)[id].state == Pending && rows[id].state == Rejected
      ensures outcome == FileRefused ==> var row := old(rows)[id];
        && rows == old(rows)[id := row.(state := Rejected)]
        && bucket == if fails then old(bucket) else old(bucket) - {row.key}
      ensures outcome != Completed && outcome != FileRefused ==> rows == old(rows) && bucket == old(bucket)
    {
      CompleteKeeps(View(), limits, form, user, id, accepted, fails);
      if id !in rows || rows[id].form != form || rows[id].uploader != Some(user) {
        return UploadNotFound;
      }
      var row := rows[id];
      if row.state == Uploaded {
        return AlreadyComplete;
      }
      if row.state != Pending {
        return UploadNotFound;
      }
      if TookTooLong(row, now) {
        return UploadExpired;
      }
      if row.key !in bucket {
        return UploadMissing;
      }
      if accepted {
        rows := rows[id := row.(state := Uploaded, size := bucket[row.key])];
        return Completed;
      }
      rows := rows[id := row.(state := Rejected)];
      if !fails {
        bucket := bucket - {row.key};
      }
      return FileRefused;
    }

    method DiscardUpload(form: FormId, user: UserId, id: Id, fails: bool, commits: bool)
      requires Valid()
      modifies this`rows, this`bucket
      ensures Valid() <==> commits || !LosesFile(old(View()), DiscardFails(form, user, id, fails))
      ensures View() == if commits then Discard(old(View()), form, user, id, fails)
          else DiscardRolledBack(old(View()), form, user, id, fails)
      ensures if commits then DiscardedNow(old(View()), View(), form, user, id, fails)
          else View() == old(View()).(bucket := bucket)
    {
      DiscardMeans(View(), form, user, id, fails);
      DiscardKeeps(View(), limits, form, user, id, fails);
      DiscardFailsKeeps(View(), limits, form, user, id, fails);
      var saved := rows;
      if id in rows && rows[id].form == form && rows[id].uploader == Some(user) && Waiting(rows[id]) {
        DiscardEach({id}, if fails then {rows[id].key} else {});
        if !commits {
          rows := saved;
        }
      }
    }

    // ----- attaching files to a response ---------------------------------------------------------------

    /** Copies the objects to their final keys until one copy fails; it succeeds exactly when none is faulty. */
    method CopyEach(ids: set<Id>, faults: set<Id>) returns (ok: bool, ghost copied: set<Id>)
      requires ObjectsOk(View()) && ids <= rows.Keys && forall id :: id in ids ==> rows[id].state == Uploaded
      modifies this`bucket
      ensures ok <==> ids !! faults
      ensures copied <= ids - faults && bucket == Copied(old(View()), copied)
      ensures ok ==> copied == ids
    {
      ghost var s := View();
      copied := {};
      var todo := ids;
      assert bucket == Copied(s, {});
      while todo != {}
        invariant todo <= ids && copied == ids - todo && copied !! faults && bucket == Copied(s, copied)
        decreases todo
      {
        var id :| id in todo;
        assert RowOk(s, id, rows[id]);
        CopiedAdd(s, copied, id);
        if id in faults || rows[id].key !in bucket {
          return false, copied;
        }
        bucket := bucket[Final(rows[id].form, id) := bucket[rows[id].key]];
        todo := todo - {id};
        copied := copied + {id};
      }
      return true, copied;
    }

    /** Whether the caller may use every wanted upload for its question. */
    method CheckUsable(r: ResponseId, user: Option<UserId>, wanted: map<Id, FieldId>) returns (ok: bool)
      requires r in responses
      ensures ok <==> AllUsable(rows, r, responses[r].form, user, wanted)
    {
      var unchecked := wanted.Keys;
      while unchecked != {}
        invariant unchecked <= wanted.Keys
        invariant forall id :: id in wanted.Keys - unchecked ==>
            id in rows && Usable(rows[id], responses[r].form, user, wanted[id], Some(r))
        decreases unchecked
      {
        var id :| id in unchecked;
        if id !in rows || !Usable(rows[id], responses[r].form, user, wanted[id], Some(r)) {
          return false;
        }
        unchecked := unchecked - {id};
      }
      return true;
    }

    /** Attaches or drops one row; returns the key it leaves behind, if any. */
    method SettleOne(r: ResponseId, wanted: map<Id, FieldId>, id: Id) returns (left: set<Key>)
      requires id in rows
      modifies this`rows
      ensures rows == old(rows)[id := SavedRow(old(rows)[id], id, r, wanted)]
      ensures left == if MovesIn(old(rows)[id], id, wanted)
          || DropsOut(old(rows)[id], id, r, wanted) then {old(rows)[id].key} else {}
    {
      var row := rows[id];
      left := {};
      if MovesIn(row, id, wanted) {
        left := {row.key};
        row := AttachedTo(row, id, r);
      } else if DropsOut(row, id, r, wanted) {
        left := {row.key};
        row := row.(state := Deleted);
      }
      rows := rows[id := row];
    }

    /** Points moved rows at their new place and drops the ones no longer mentioned; returns the keys left behind. */
    method SettleRows(r: ResponseId, wanted: map<Id, FieldId>) returns (stale: set<Key>)
      modifies this`rows
      ensures rows == SavedRows(old(rows), r, wanted)
      ensures stale == StaleKeys(old(View()), r, wanted)
    {
      LeavingKeys(View(), r, wanted);
      stale := SettleEach(r, wanted, Leaving(View(), r, wanted));
    }

    method SettleEach(r: ResponseId, wanted: map<Id, FieldId>, ghost leaving: set<Id>) returns (stale: set<Key>)
      requires leaving == Leaving(View(), r, wanted)
      modifies this`rows
      ensures rows.Keys == old(rows).Keys && forall id :: id in rows ==>
          rows[id] == SavedRow(old(rows)[id], id, r, wanted)
      ensures stale == KeysOf(old(rows), leaving)
    {
      ghost var was := rows;
      stale := {};
      var todo := rows.Keys;
      while todo != {}
        invariant todo <= was.Keys == rows.Keys && stale == KeysOf(was, leaving - todo)
        invariant forall id :: id in todo ==> rows[id] == was[id]
        invariant forall id :: id in was && id !in todo ==> rows[id] == SavedRow(was[id], id, r, wanted)
        decreases todo
      {
        var id :| id in todo;
        KeysOfRest(was, leaving, todo, id);
        var left := SettleOne(r, wanted, id);
        stale, todo := stale + left, todo - {id};
      }
      assert leaving - todo == leaving;
    }

    /**
     Makes the response's files permanent and lets go of the ones it dropped; what it copied before failing stays in
     the bucket.
     */
    method Attach(r: ResponseId, user: Option<UserId>, wanted: map<Id, FieldId>, faults: set<Id>)
            returns (ok: bool, ghost copied: set<Id>)
      requires ObjectsOk(View()) && r in responses
      modifies this`rows, this`bucket, this`scheduled
      ensures ok <==> AllUsable(old(rows), r, responses[r].form, user, wanted) && Moving(old(View()), wanted) !! faults
      ensures copied <= Moving(old(View()), wanted) - faults && bucket == Copied(old(View()), copied)
      ensures !AllUsable(old(rows), r, responses[r].form, user, wanted) ==> copied == {}
      ensures !ok ==> rows == old(rows) && scheduled == old(scheduled)
      ensures ok ==> copied == Moving(old(View()), wanted) && rows == SavedRows(old(rows), r, wanted)
                     && scheduled == old(scheduled) + StaleKeys(old(View()), r, wanted)
    {
      ghost var s := View();
      copied := {};
      assert bucket == Copied(s, {});
      var usable := CheckUsable(r, user, wanted);
      if !usable {
        return false, copied;
      }
      var moving := set id | id in rows && MovesIn(rows[id], id, wanted);
      ok, copied := CopyEach(moving, faults);
      if !ok {
        return;
      }
      var stale := SettleRows(r, wanted);
      scheduled := scheduled + stale;
    }

    /** Replaces the response's stored answers by the new ones. */
    method WriteAnswers(r: ResponseId, cleaned: map<FieldId, seq<Item>>)
      modifies this`answers
      ensures answers == AnswersWith(old(answers), r, cleaned)
    {
      ghost var before := answers;
      answers := map k | k in answers && (k.response != r || k.field in cleaned) :: answers[k];
      var todo := cleaned.Keys;
      while todo != {}
        invariant todo <= cleaned.Keys
        invariant forall k: AnswerKey :: k.response != r ==>
            (k in answers <==> k in before) && (k in before ==> answers[k] == before[k])
        invariant forall k: AnswerKey :: k.response == r && k in answers ==> k.field in cleaned
        invariant forall f :: f in cleaned.Keys - todo ==> At(r, f) in answers && answers[At(r, f)] == Many(cleaned[f])
        decreases todo
      {
        var f :| f in todo;
        answers := answers[At(r, f) := Many(cleaned[f])];
        todo := todo - {f};
      }
      forall k ensures k in answers <==> k in AnswersWith(before, r, cleaned) {
        if k.response == r && k.field in cleaned {
          assert k == At(r, k.field) && At(r, k.field) in answers;
        }
      }
      forall k | k in answers ensures answers[k] == AnswersWith(before, r, cleaned)[k] {
        if k.response == r { assert k == At(r, k.field); }
      }
    }

    /** What the transaction of a submission or an edit does before anything is rolled back. */
    method WriteAndAttach(r: ResponseId, response: Response, caller: Option<UserId>,
                          cleaned: map<FieldId, seq<Item>>, wanted: map<Id, FieldId>, faults: set<Id>)
        returns (ok: bool, ghost copied: set<Id>)
      requires ObjectsOk(View())
      modifies this
      ensures ok <==> AllUsable(old(rows), r, FormOf(old(View()), r, response), caller, wanted)
                      && Moving(old(View()), wanted) !! faults
      ensures copied <= Moving(old(View()), wanted) - faults && bucket == Copied(old(View()), copied)
      ensures !AllUsable(old(rows), r, FormOf(old(View()), r, response), caller, wanted) ==> copied == {}
      ensures ok ==> View() == Saved(old(View()), r, response, cleaned, wanted)
      ensures issued == old(issued) && now == old(now)
    {
      ghost var s := View();
      if r !in responses {
        responses := responses[r := response];
      }
      WriteAnswers(r, cleaned);
      ghost var mid := View();
      WiderKeeps(s, mid);
      MovingSame(s, mid, wanted);
      ok, copied := Attach(r, caller, wanted, faults);
      CopiedSame(s, mid, copied);
    }

    /**
     The transaction of a submission or an edit. It goes through exactly when the caller may use every file, no copy
     fails and nothing after the copies fails (`commits`).
     */
    method SaveInTransaction(r: ResponseId, response: Response, caller: Option<UserId>,
                             cleaned: map<FieldId, seq<Item>>, wanted: map<Id, FieldId>,
                             faults: set<Id>, commits: bool)
        returns (saved: bool, ghost cut: Cut)
      requires ObjectsOk(View())
      modifies this
      ensures View() == Save(old(View()), r, response, caller, cleaned, wanted, cut)
      ensures if saved then View() == Saved(old(View()), r, response, cleaned, wanted)
          else View() == old(View()).(bucket := bucket)
      ensures saved <==> commits && AllUsable(old(rows), r, FormOf(old(View()), r, response), caller, wanted)
                         && Moving(old(View()), wanted) !! faults
      ensures cut == Commit <==> saved
      ensures cut.Abort? ==> cut.copied <= Moving(old(View()), wanted) - faults
    {
      ghost var s := View();
      var saveRows, saveAnswers, saveResponses, saveScheduled := rows, answers, responses, scheduled;
      ghost var copied;
      saved, copied := WriteAndAttach(r, response, caller, cleaned, wanted, faults);
      if !saved || !commits {
        SaveAborts(s, r, response, caller, cleaned, wanted, copied);
        rows, answers, responses, scheduled := saveRows, saveAnswers, saveResponses, saveScheduled;
        return false, Abort(copied);
      }
      SaveCommits(s, r, response, caller, cleaned, wanted);
      return true, Commit;
    }

    /** Checks the references and saves what is to be stored. */
    method CheckAndSave(r: ResponseId, response: Response, caller: Option<UserId>, all: seq<Sent>,
                        visible: set<FieldId>, faults: set<Id>, commits: bool)
        returns (saved: bool, ghost wanted: map<Id, FieldId>, ghost cut: Cut)
      requires Valid()
      modifies this
      ensures Valid()
      ensures !Acceptable(old(View()), r, response, caller, all) ==> !saved && View() == old(View())
      ensures Acceptable(old(View()), r, response, caller, all) ==>
          && Mentions(Chosen(all, visible, |all|), wanted)
          && View() == Save(old(View()), r, response, caller, Chosen(all, visible, |all|), wanted, cut)
          && (saved <==> commits && Moving(old(View()), wanted) !! faults)
          && (cut == Commit <==> saved)
          && (cut.Abort? ==> cut.copied <= Moving(old(View()), wanted) - faults)
      ensures saved ==> View() == Saved(old(View()), r, response, Chosen(all, visible, |all|), wanted)
      ensures !saved ==> View() == old(View()).(bucket := bucket)
    {
      wanted, cut := map[], Abort({});
      var who := Asker(rows, if r in responses then responses[r].form else response.form, caller,
                       if r in responses then Some(r) else None);
      var out, errors := ResolveReferences(who, all);
      if errors != [] || !OncePerQuestion(out) {
        return false, wanted, cut;
      }
      ChosenNamedOnce(who, out, visible, |out|);
      var found := ReferencedIds(Chosen(out, visible, |out|));
      ChosenUsable(who, out, visible, |out|);
      UsableForResponse(who, r, Chosen(out, visible, |out|), found);
      ghost var s := View();
      saved, cut := SaveInTransaction(r, response, caller, Chosen(out, visible, |out|), found, faults, commits);
      SaveKeeps(s, limits, r, response, caller, Chosen(out, visible, |out|), found, cut);
      wanted := found;
    }

    /**
     A submission (`r` is new) or an edit. The validation may hide any of the answered questions. Refused, it changes
     nothing. Accepted, it is one save step, and it is saved exactly when the transaction commits and no copy fails;
     rolled back, only copies that did not fail remain.
     */
    method SaveResponse(r: ResponseId, response: Response, caller: Option<UserId>, all: seq<Sent>,
                        visible: set<FieldId>, faults: set<Id>, commits: bool)
        returns (saved: bool, ghost wanted: map<Id, FieldId>, ghost cut: Cut)
      requires Valid()
      modifies this
      ensures Valid()
      ensures !Acceptable(old(View()), r, response, caller, all) ==> !saved && View() == old(View())
      ensures Acceptable(old(View()), r, response, caller, all) ==>
          && Mentions(Chosen(all, visible, |all|), wanted)
          && View() == Save(old(View()), r, response, caller, Chosen(all, visible, |all|), wanted, cut)
          && (cut == Commit <==> saved)
          && (cut.Abort? ==> cut.copied <= Moving(old(View()), wanted) - faults)
      ensures !saved ==> View() == old(View()).(bucket := bucket)
      ensures saved <==>
        && commits && (forall i, j :: 0 <= i < j < |all| ==> all[i].field != all[j].field) && ReferredOnce(all)
        && AllFine(Asker(old(rows), if r in old(responses) then old(responses)[r].form else response.form, caller,
                         if r in old(responses) then Some(r) else None), all)
        && forall id :: id in faults && id in old(rows) && Named(all, visible, id) ==> old(rows)[id].state != Uploaded
      ensures saved ==> AnswersAsSent(old(answers), answers, r, all, visible)
      ensures saved ==> FilesAsReferred(old(rows), rows, r, all, visible)
      ensures saved ==> ObjectsFollow(old(View()), View())
      ensures saved ==> responses == if r in old(responses) then old(responses) else old(responses)[r := response]
    {
      ghost var s := View();
      AcceptableMeans(s, r, response, caller, all);
      saved, wanted, cut := CheckAndSave(r, response, caller, all, visible, faults, commits);
      if Acceptable(s, r, response, caller, all) { FaultsMet(s, all, visible, wanted, faults); }
      if saved {
        AnswersSaved(s, View(), r, response, all, visible, wanted);
        FilesSaved(s, View(), r, response, all, visible, wanted);
        ObjectsSaved(s, View(), r, response, Chosen(all, visible, |all|), wanted);
      }
    }

    // ----- admins --------------------------------------------------------------------------------------

    /** Takes one attached file out of its answer and marks it deleted; tells whether the answer went away with it. */
    method ForgetOne(id: Id) returns (emptied: bool)
      requires id in rows
      modifies this`rows, this`answers
      ensures View() == Forget(old(View()), id) && rows == old(rows)[id := old(rows)[id].(state := Deleted)]
      ensures TakenOut(old(View()), answers, id)
      ensures emptied ==>
          old(rows)[id].response.Some? && At(old(rows)[id].response.value, old(rows)[id].field) in old(answers)
      ensures answers.Keys == old(answers).Keys - (if emptied then
          {At(old(rows)[id].response.value, old(rows)[id].field)} else {})
    {
      ForgetMeans(View(), id);
      emptied := false;
      var row := rows[id];
      if row.response.Some? {
        var k := At(row.response.value, row.field);
        if k in answers {
          var kept := Without(Items(answers[k]), id);
          if kept == [] {
            answers := answers - {k};
            emptied := true;
          } else {
            answers := answers[k := WithItems(answers[k], kept)];
          }
        }
      }
      rows := rows[id := row.(state := Deleted)];
    }

    method RemoveOne(form: FormId, id: Id, required: set<FieldId>) returns (removed: bool, lost: set<ResponseId>)
      modifies this`rows, this`answers, this`scheduled
      ensures View() == RemoveFile(old(View()), form, id)
      ensures removed <==> Removable(old(View()), form, id)
      ensures answers.Keys <= old(answers).Keys && lost == Losers(old(answers).Keys - answers.Keys, required)
    {
      removed, lost := false, {};
      if id in rows && rows[id].form == form && rows[id].state == Attached {
        ghost var before := answers.Keys;
        var row := rows[id];
        var emptied := ForgetOne(id);
        scheduled := scheduled + {row.key};
        removed := true;
        if emptied {
          assert before - answers.Keys == {At(row.response.value, row.field)};
          if row.field in required {
            lost := {row.response.value};
          }
        }
      }
    }

    method RemoveEach(form: FormId, ids: seq<Id>, required: set<FieldId>)
            returns (removed: nat, missing: set<ResponseId>)
      requires NoRepeats(ids)
      modifies this`rows, this`answers, this`scheduled
      ensures View() == UploadModel.RemoveFiles(old(View()), form, ids)
      ensures removed == |Going(old(View()), form, ids)|
      ensures missing == Losers(old(answers).Keys - answers.Keys, required)
    {
      ghost var s := View();
      removed, missing := 0, {};
      for i := 0 to |ids|
        invariant View() == UploadModel.RemoveFiles(s, form, ids[..i])
        invariant removed == |Going(s, form, ids[..i])|
        invariant answers.Keys <= s.answers.Keys && missing == Losers(s.answers.Keys - answers.Keys, required)
      {
        ghost var before := answers.Keys;
        RemoveStep(s, form, ids, i);
        var went, lost := RemoveOne(form, ids[i], required);
        LosersAdd(s.answers.Keys, before, answers.Keys, required);
        missing := missing + lost;
        if went {
          removed := removed + 1;
        }
      }
      assert ids[..|ids|] == ids;
    }

    /**
     Deletes attached files, at most a hundred at a time. Returns how many went, and which responses lost their whole
     answer to a required question.
     */
    method RemoveFiles(form: FormId, ids: seq<Id>, required: set<FieldId>)
      returns (removed: nat, missing: set<ResponseId>, ghost wanted: seq<Id>)
      requires Valid()
      modifies this`rows, this`answers, this`scheduled
      ensures Valid()
      ensures FirstOf(ids, wanted, MAX_BULK) && View() == UploadModel.RemoveFiles(old(View()), form, wanted)
      ensures RemovedNow(old(View()), View(), Going(old(View()), form, wanted))
      ensures removed == |Going(old(View()), form, wanted)|
      ensures missing == Losers(old(answers).Keys - answers.Keys, required)
    {
      var chosen := FirstDistinct(ids, MAX_BULK);
      wanted := chosen;
      RemoveFilesKeeps(View(), limits, form, wanted);
      RemoveMeans(View(), form, wanted);
      removed, missing := RemoveEach(form, chosen, required);
    }

    /**
     Attaches the new file in the old one's place, in the answer too, and schedules both left-over objects for
     deletion.
     */
    method SwapFiles(oldId: Id, newId: Id)
      requires oldId in rows && newId in rows && oldId != newId && rows[oldId].response.Some?
      modifies this`rows, this`answers, this`scheduled
      ensures var was, row := old(rows)[oldId], old(rows)[newId];
        && rows == old(rows)[newId := AttachedTo(row, newId, was.response.value)][oldId := was.(state := Deleted)]
        && answers == old(answers)[At(was.response.value, was.field) :=
            SwappedAnswer(old(answers), At(was.response.value, was.field), oldId, newId)]
        && scheduled == old(scheduled) + {row.key, was.key}
    {
      var was, row := rows[oldId], rows[newId];
      rows := rows[newId := AttachedTo(row, newId, was.response.value)];
      var k := At(was.response.value, was.field);
      answers := answers[k := SwappedAnswer(answers, k, oldId, newId)];
      rows := rows[oldId := was.(state := Deleted)];
      scheduled := scheduled + {row.key, was.key};
    }

    method ReplaceFile(form: FormId, oldId: Id, newId: Id, admin: UserId, copies: bool, commits: bool)
            returns (done: bool)
      requires Valid()
      modifies this`rows, this`answers, this`bucket, this`scheduled
      ensures Valid()
      ensures View() == Replace(old(View()), form, oldId, newId, admin, copies, commits)
      ensures !done ==> View() == old(View()).(bucket := bucket)
      ensures done ==> oldId in rows && rows[oldId].state == Deleted && newId in rows && rows[newId].state == Attached
      ensures done <==>
        && oldId in old(rows) && old(rows)[oldId].form == form && old(rows)[oldId].state == Attached
        && newId in old(rows) && old(rows)[newId].form == form && old(rows)[newId].uploader == Some(admin)
        && old(rows)[newId].state == Uploaded && old(rows)[newId].field == old(rows)[oldId].field
        && old(rows)[oldId].response.Some? && copies && commits
      ensures done ==> ReplacedNow(old(View()), View(), oldId, newId)
    {
      if newId in rows { assert RowOk(View(), newId, rows[newId]); }
      ReplaceKeeps(View(), limits, form, oldId, newId, admin, copies, commits);
      if !(oldId in rows && rows[oldId].form == form && rows[oldId].state == Attached) {
        return false;
      }
      if !(newId in rows && rows[newId].form == form && rows[newId].uploader == Some(admin)
          && rows[newId].state == Uploaded) {
        return false;
      }
      if rows[newId].field != rows[oldId].field {
        return false;
      }
      if !copies || rows[newId].key !in bucket {
        return false;
      }
      var was, row := rows[oldId], rows[newId];
      assert Copied(View(), {newId}) == bucket[Final(row.form, newId) := bucket[row.key]];
      ghost var s := View();
      bucket := bucket[Final(row.form, newId) := bucket[row.key]];
      if !commits || was.response.None? {
        return false;
      }
      SwapFiles(oldId, newId);
      ReplaceMeans(s, oldId, newId);
      assert View() == Replaced(s, oldId, newId);
      return true;
    }

    // ----- housekeeping --------------------------------------------------------------------------------

    /** `batch` bounds one pass; `forgotten` are the finished rows old enough to drop. */
    method SweepExpired(batch: set<Id>, failed: set<Key>, forgotten: set<Id>) returns (expired: nat)
      requires Valid()
      modifies this`rows, this`bucket
      ensures Valid()
      ensures View() == Sweep(old(View()), batch, failed, forgotten)
      ensures SweptNow(old(View()), View(), batch, failed, forgotten)
      ensures expired == |Overdue(old(View()), batch)|
    {
      ghost var s := View();
      SweepKeeps(View(), limits, batch, failed, forgotten);
      var stale := set id | id in batch && id in rows && Expired(rows[id], now);
      assert stale == Overdue(s, batch);
      DiscardEach(stale, failed);
      rows := map id | id in rows && !(id in forgotten && Finished(rows[id])) :: rows[id];
      expired := |stale|;
      SweepMeans(s, batch, failed, forgotten);
    }

    /** Records a scan verdict; `None` means none could be read. */
    method RefreshScan(id: Id, verdict: Option<bool>) returns (status: Scan)
      requires Valid() && id in rows
      modifies this`rows, this`answers, this`scheduled
      ensures Valid()
      ensures View() == if verdict.Some? then Scanned(old(View()), id, verdict.value) else old(View())
      ensures id in rows && rows[id].scan == status
      ensures status == Infected ==> rows[id].state == Deleted
      ensures verdict.None? ==> View() == old(View())
      ensures verdict.Some? ==> ScannedNow(old(View()), View(), id, verdict.value)
    {
      ghost var s := View();
      if verdict.Some? {
        ScannedKeeps(s, limits, id, verdict.value);
        ScanMeans(s, id, verdict.value);
      }
      assert RowOk(s, id, s.rows[id]);
      if rows[id].scan != NotScanned || verdict.None? {
        return rows[id].scan;
      }
      if !verdict.value {
        rows := rows[id := rows[id].(scan := Clean)];
        return Clean;
      }
      var key := rows[id].key;
      if rows[id].response.Some? {
        var _ := ForgetOne(id);
      }
      rows := rows[id := rows[id].(scan := Infected, state := Deleted)];
      scheduled := scheduled + {key};
      return Infected;
    }

    /** Stores the movable ones of the first items and makes attached rows for them. */
    method MoveEach(k: AnswerKey, response: Response, items: seq<Item>, ids: seq<Id>, stop: nat)
            returns (rewritten: seq<Item>, moved: nat)
      requires stop <= |items| == |ids| && NoRepeats(ids)
      modifies this`rows, this`bucket
      ensures View() == MoveItems(old(View()), response, k, items, ids, stop)
      ensures stop == |items| ==> rewritten == Rewritten(items, ids)
      ensures moved == |AllMoving(items, stop)|
    {
      ghost var s := View();
      rewritten, moved := [], 0;
      for i := 0 to stop
        invariant View() == MoveItems(s, response, k, items, ids, i)
        invariant rewritten == Rewritten(items[..i], ids[..i])
        invariant moved == |AllMoving(items, i)|
      {
        RewrittenSnoc(items, ids, i);
        OneMoreMoving(items, i);
        if Movable(items[i]) {
          bucket := bucket[Final(response.form, ids[i]) := items[i].bytes.value];
          rows := rows[ids[i] := InlineRow(response, k, ids[i], items[i].bytes.value)];
          rewritten := rewritten + [Ref(ids[i])];
          moved := moved + 1;
        } else {
          rewritten := rewritten + [items[i]];
        }
      }
      assert stop == |items| ==> items[..stop] == items && ids[..stop] == ids;
    }

    /**
     Moves the base64 files of one answer into the bucket; `failsAt` is the item at which the transaction fails, if
     any.
     */
    method BackfillAnswer(k: AnswerKey, ids: seq<Id>, failsAt: Option<nat>) returns (moved: nat)
      requires Valid() && k in answers && k.response in responses && |ids| == |Items(answers[k])| && Fresh(View(), ids)
      modifies this`rows, this`answers, this`bucket, this`issued
      ensures Valid()
      ensures View() == Backfill(old(View()), k, ids, failsAt)
      ensures failsAt.None? ==> moved == |AllMoving(Items(old(answers)[k]), |ids|)|
      ensures failsAt.Some? ==> moved == 0 && rows == old(rows) && answers == old(answers)
      ensures BackfilledNow(old(View()), View(), k, ids, failsAt)
    {
      ghost var s := View();
      BackfillKeeps(s, limits, k, ids, failsAt);
      var items := Items(answers[k]);
      var response := responses[k.response];
      var save := rows;
      var stop := if failsAt.Some? && failsAt.value < |items| then failsAt.value else |items|;
      var rewritten;
      rewritten, moved := MoveEach(k, response, items, ids, stop);
      issued := issued + set id | id in ids;
      MoveLeaves(s, response, k, items, ids, stop);
      if failsAt.Some? {
        rows := save;
        moved := 0;
      } else {
        answers := answers[k := WithItems(answers[k], rewritten)];
      }
      assert View() == Backfill(s, k, ids, failsAt);
      BackfillMeans(s, k, ids, failsAt);
    }

    // ----- deleting responses and forms ------------------------------------------------------------------

    method ReleaseResponse(r: ResponseId)
      requires Valid()
      modifies this`rows, this`answers, this`responses, this`scheduled
      ensures Valid()
      ensures View() == DeleteResponse(old(View()), r) && ResponseReleased(old(View()), View(), r)
    {
      ResponseReleaseMeans(View(), r);
      DeleteResponseKeeps(View(), limits, r);
      var mine := set id | id in rows && rows[id].response == Some(r);
      scheduled := scheduled + Released(rows, mine);
      rows := map id | id in rows :: if id in mine then rows[id].(response := None) else rows[id];
      answers := map k | k in answers && k.response != r :: answers[k];
      responses := responses - {r};
    }

    method ReleaseForm(form: FormId)
      requires Valid()
      modifies this`rows, this`answers, this`responses, this`scheduled
      ensures Valid()
      ensures View() == DeleteForm(old(View()), form) && FormReleased(old(View()), View(), form)
    {
      FormReleaseMeans(View(), form);
      DeleteFormKeeps(View(), limits, form);
      var mine := set id | id in rows && rows[id].form == form;
      var gone := set r | r in responses && responses[r].form == form;
      scheduled := scheduled + Released(rows, mine);
      rows := rows - mine;
      answers := map k | k in answers && k.response !in gone :: answers[k];
      responses := responses - gone;
    }

    method CleanUp(key: Key, fails: bool)
      requires Valid() && key in scheduled
      modifies this`bucket
      ensures Valid()
      ensures View() == if fails then old(View()) else Apply(old(View()), limits, Step.CleanUp(key))
      ensures forall id :: id in rows && Live(rows[id]) ==> Get(bucket, rows[id].key) == Get(old(bucket), rows[id].key)
    {
      StepKeeps(View(), limits, Step.CleanUp(key));
      ScheduledAreNotLive(View(), key);
      if !fails {
        bucket := bucket - {key};
      }
    }
  }

  /** The uploads whose object a save leaves behind. */
  ghost function Leaving(s: Store, r: ResponseId, wanted: map<Id, FieldId>): set<Id> {
    set id | id in s.rows && (MovesIn(s.rows[id], id, wanted) || DropsOut(s.rows[id], id, r, wanted))
  }

  lemma LeavingKeys(s: Store, r: ResponseId, wanted: map<Id, FieldId>)
    ensures StaleKeys(s, r, wanted) == KeysOf(s.rows, Leaving(s, r, wanted))
  {
  }

  lemma KeysOfRest(rows: map<Id, Row>, ids: set<Id>, todo: set<Id>, id: Id)
    requires id in todo && id in rows
    ensures KeysOf(rows, ids - (todo - {id})) == KeysOf(rows, ids - todo) + if id in ids then {rows[id].key} else {}
  {
    assert ids - (todo - {id}) == ids - todo + if id in ids then {id} else {};
  }

  lemma DiscardAllAdd(s: Store, ids: set<Id>, id: Id, failed: set<Key>)
    requires id in s.rows
    ensures var t := DiscardAll(s, ids, failed);
      DiscardAll(s, ids + {id}, failed)
      == t.(rows := t.rows[id := s.rows[id].(state := Deleted)],
            bucket := if s.rows[id].key in failed then t.bucket else t.bucket - {s.rows[id].key})
  {
    assert KeysOf(s.rows, ids + {id}) == KeysOf(s.rows, ids) + {s.rows[id].key};
    var t := DiscardAll(s, ids, failed);
    assert DiscardAll(s, ids + {id}, failed).rows == t.rows[id := s.rows[id].(state := Deleted)];
    assert DiscardAll(s, ids + {id}, failed).bucket == if s.rows[id].key in failed then t.bucket
        else t.bucket - {s.rows[id].key};
  }

  lemma CopiedAdd(s: Store, ids: set<Id>, id: Id)
    requires ObjectsOk(s) && id in s.rows && s.rows[id].state == Uploaded
    ensures s.rows[id].key in Copied(s, ids) && Copied(s, ids)[s.rows[id].key] == s.bucket[s.rows[id].key]
    ensures Copied(s, ids + {id}) == Copied(s, ids)[Final(s.rows[id].form, id) := s.bucket[s.rows[id].key]]
  {
    assert RowOk(s, id, s.rows[id]);
  }

  /** Adding a response, and writing answers, puts no stored object at risk. */
  lemma WiderKeeps(s: Store, t: Store)
    requires ObjectsOk(s) && t == s.(answers := t.answers, responses := t.responses)
    requires forall r :: r in s.responses ==> r in t.responses && t.responses[r] == s.responses[r]
    ensures ObjectsOk(t)
  {
    forall id | id in t.rows ensures RowOk(t, id, t.rows[id]) { assert RowOk(s, id, s.rows[id]); }
  }

  lemma CopiedSame(s: Store, t: Store, ids: set<Id>)
    requires s.rows == t.rows && s.bucket == t.bucket
    ensures Copied(s, ids) == Copied(t, ids)
  {
  }

  lemma MovingSame(s: Store, t: Store, wanted: map<Id, FieldId>)
    requires s.rows == t.rows
    ensures Moving(s, wanted) == Moving(t, wanted)
  {
  }

  lemma SaveAborts(s: Store, r: ResponseId, response: Response, caller: Option<UserId>,
                   cleaned: map<FieldId, seq<Item>>, wanted: map<Id, FieldId>, copied: set<Id>)
    requires copied <= Moving(s, wanted) && (!AllUsable(s.rows, r, FormOf(s, r, response), caller, wanted) ==>
        copied == {})
    ensures Save(s, r, response, caller, cleaned, wanted, Abort(copied)) == s.(bucket := Copied(s, copied))
  {
    if copied == {} { assert Copied(s, {}) == s.bucket; }
    assert copied * Moving(s, wanted) == copied;
  }

  lemma SaveCommits(s: Store, r: ResponseId, response: Response, caller: Option<UserId>,
                    cleaned: map<FieldId, seq<Item>>, wanted: map<Id, FieldId>)
    requires ObjectsOk(s) && AllUsable(s.rows, r, FormOf(s, r, response), caller, wanted)
    ensures Save(s, r, response, caller, cleaned, wanted, Commit) == Saved(s, r, response, cleaned, wanted)
  {
    UsableFilesAreThere(s, wanted);
  }

  predicate SameIds(a: seq<Id>, b: seq<Id>) {
    (forall id :: id in a ==> id in b) && (forall id :: id in b ==> id in a)
  }

  /** `wanted` holds, once each, the ids of the longest start of the list with at most `limit` different ones. */
  ghost predicate FirstOf(ids: seq<Id>, wanted: seq<Id>, limit: nat) {
    && NoRepeats(wanted) && |wanted| <= limit
    && exists n :: 0 <= n <= |ids| && SameIds(ids[..n], wanted)
                   && (n == |ids| || (|wanted| == limit && ids[n] !in wanted))
  }

  method FirstDistinct(ids: seq<Id>, limit: nat) returns (wanted: seq<Id>)
    ensures FirstOf(ids, wanted, limit)
  {
    wanted := [];
    ghost var n := 0;
    for i := 0 to |ids|
      invariant n <= i && NoRepeats(wanted) && |wanted| <= limit && SameIds(ids[..n], wanted)
      invariant n == i || (|wanted| == limit && ids[n] !in wanted)
    {
      assert ids[..i + 1] == ids[..i] + [ids[i]];
      NoRepeatsConcat(wanted, [ids[i]]);
      if n == i && (|wanted| < limit || ids[i] in wanted) {
        n := i + 1;
      }
      if |wanted| < limit && ids[i] !in wanted {
        wanted := wanted + [ids[i]];
      }
    }
  }

  lemma LosersAdd(a: set<AnswerKey>, b: set<AnswerKey>, c: set<AnswerKey>, required: set<FieldId>)
    requires c <= b <= a
    ensures Losers(a - c, required) == Losers(a - b, required) + Losers(b - c, required)
  {
    assert a - c == (a - b) + (b - c);
  }

  /** Removing other files first does not change whether a file can be removed. */
  lemma RemoveStep(s: Store, form: FormId, ids: seq<Id>, i: nat)
    requires i < |ids| && NoRepeats(ids)
    ensures var t := UploadModel.RemoveFiles(s, form, ids[..i]);
      && UploadModel.RemoveFiles(s, form, ids[..i + 1]) == RemoveFile(t, form, ids[i])
      && |Going(s, form, ids[..i + 1])| == |Going(s, form, ids[..i])| + if Removable(t, form, ids[i]) then 1
          else 0
  {
    assert ids[..i + 1][..i] == ids[..i] && ids[..i + 1] == ids[..i] + [ids[i]];
    EarlierDiffer(ids, i);
    RemoveFilesSpares(s, form, ids[..i], ids[i]);
    GoingSnoc(s, form, ids[..i], ids[i]);
  }

  lemma EarlierDiffer(ids: seq<Id>, i: nat)
    requires i < |ids| && NoRepeats(ids)
    ensures ids[i] !in ids[..i]
  {
    assert ids == ids[..i] + ids[i..] && ids[i] in ids[i..];
    NoRepeatsConcat(ids[..i], ids[i..]);
  }

  lemma GoingSnoc(s: Store, form: FormId, ids: seq<Id>, id: Id)
    requires id !in ids
    ensures |Going(s, form, ids + [id])| == |Going(s, form, ids)| + if Removable(s, form, id) then 1 else 0
  {
    assert Going(s, form, ids + [id]) == Going(s, form, ids) + if Removable(s, form, id) then {id} else {};
  }

  lemma {:induction false} RemoveFilesSpares(s: Store, form: FormId, ids: seq<Id>, id: Id)
    requires id !in ids
    ensures Get(UploadModel.RemoveFiles(s, form, ids).rows, id) == Get(s.rows, id)
  {
    if ids == [] {
    } else {
      RemoveFilesSpares(s, form, ids[..|ids| - 1], id);
    }
  }

  /** The responses whose answer to a required question is among these. */
  function Losers(keys: set<AnswerKey>, required: set<FieldId>): set<ResponseId> {
    set k | k in keys && k.field in required :: k.response
  }

  lemma RewrittenSnoc(items: seq<Item>, ids: seq<Id>, i: nat)
    requires i < |items| == |ids|
    ensures Rewritten(items[..i + 1], ids[..i + 1])
        == Rewritten(items[..i], ids[..i]) + [if Movable(items[i]) then Ref(ids[i]) else items[i]]
  {
    if i == 0 {
    } else {
      assert items[..i + 1][1..] == items[1..][..i] && ids[..i + 1][1..] == ids[1..][..i];
      assert items[..i][1..] == items[1..][..i - 1] && ids[..i][1..] == ids[1..][..i - 1];
      RewrittenSnoc(items[1..], ids[1..], i - 1);
    }
  }
}
