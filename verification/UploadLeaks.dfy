/** No stored file is forgotten. */
module UploadLeaks {
  // What lies under a final key belongs to someone, or its deletion is scheduled.

  import opened Lists
  import opened Options
  import opened UploadModel
  import opened UploadSafety

  ghost predicate Accounted(s: Store, k: Key) {
    k in s.scheduled || (k.id in s.rows && s.rows[k.id].key == k && Live(s.rows[k.id]))
  }

  ghost predicate NothingLeaks(s: Store) {
    forall k :: k in s.bucket && k.Final? ==> Accounted(s, k)
  }

  /** The step is rolled back after writing a file under its final key. */
  ghost predicate LeavesCopy(s: Store, step: Step) {
    match step
    case SaveResponse(r, response, caller, cleaned, wanted, cut) =>
      && cut.Abort? && Mentions(cleaned, wanted) && AllUsable(s.rows, r, FormOf(s, r, response), caller, wanted)
      && cut.copied * Moving(s, wanted) != {}
    case AdminReplace(form, oldId, newId, admin, copies, commits) =>
      Replaceable(s, form, oldId, newId, admin) && copies && (!commits || s.rows[oldId].response.None?)
    case BackfillAnswer(k, ids, failsAfter) =>
      && k in s.answers && k.response in s.responses && |ids| == |Items(s.answers[k])| && Fresh(s, ids)
          && failsAfter.Some?
      && exists i :: 0 <= i < |ids| && i < failsAfter.value && Movable(Items(s.answers[k])[i])
    case _ => false
  }

  /** Objects may go, keys may be scheduled, and rows may change as long as no live final row is lost unscheduled. */
  lemma LosesNoOwner(s: Store, t: Store)
    requires NothingLeaks(s) && s.scheduled <= t.scheduled
    requires forall k :: k in t.bucket && k.Final? ==> k in s.bucket
    requires forall id :: id in s.rows && Live(s.rows[id]) && s.rows[id].key.Final? ==>
               s.rows[id].key in t.scheduled || (id in t.rows && t.rows[id].key == s.rows[id].key && Live(t.rows[id]))
    ensures NothingLeaks(t)
  {
    forall k | k in t.bucket && k.Final? ensures Accounted(t, k) { assert Accounted(s, k); }
  }

  lemma SavedLeaksNothing(s: Store, r: ResponseId, response: Response, cleaned: map<FieldId, seq<Item>>, wanted: map<Id,
          FieldId>)
    requires ObjectsOk(s) && NothingLeaks(s)
    ensures NothingLeaks(Saved(s, r, response, cleaned, wanted))
  {
    var t := Saved(s, r, response, cleaned, wanted);
    forall k | k in t.bucket && k.Final? ensures Accounted(t, k) {
      if IsCopy(s, Moving(s, wanted), k) {
        assert t.rows[k.id] == AttachedTo(s.rows[k.id], k.id, r);
      } else {
        assert Accounted(s, k);
        if k !in s.scheduled { assert RowOk(s, k.id, s.rows[k.id]); }
      }
    }
  }

  lemma ReplacedLeaksNothing(s: Store, form: FormId, oldId: Id, newId: Id, admin: UserId)
    requires ObjectsOk(s) && NothingLeaks(s) && Replaceable(s, form, oldId, newId, admin)
    requires s.rows[newId].key in s.bucket && s.rows[oldId].response.Some?
    ensures NothingLeaks(Replaced(s, oldId, newId))
  {
    var t := Replaced(s, oldId, newId);
    forall k | k in t.bucket && k.Final? ensures Accounted(t, k) {
      if !IsCopy(s, {newId}, k) {
        assert Accounted(s, k);
        if k !in s.scheduled { assert RowOk(s, k.id, s.rows[k.id]); }
      }
    }
  }

  lemma RemoveFileLeaksNothing(s: Store, form: FormId, id: Id)
    requires NothingLeaks(s)
    ensures NothingLeaks(RemoveFile(s, form, id))
  {
    LosesNoOwner(s, RemoveFile(s, form, id));
  }

  lemma {:induction false} RemoveFilesLeaksNothing(s: Store, form: FormId, ids: seq<Id>)
    requires NothingLeaks(s)
    ensures NothingLeaks(RemoveFiles(s, form, ids))
  {
    if ids == [] {
    } else {
      RemoveFilesLeaksNothing(s, form, ids[..|ids| - 1]);
      RemoveFileLeaksNothing(RemoveFiles(s, form, ids[..|ids| - 1]), form, ids[|ids| - 1]);
    }
  }

  lemma RequestLeaksNothing(s: Store, limits: Limits, form: FormId, user: UserId, q: Question, id: Id, c: Clock,
          failed: set<Key>)
    requires ObjectsOk(s) && NothingLeaks(s) && id !in s.issued
    ensures NothingLeaks(Request(s, limits, form, user, q, id, c, failed).0)
  {
    forall x | x in s.rows ensures RowOk(s, x, s.rows[x]) && x != id {}
    LosesNoOwner(s, Request(s, limits, form, user, q, id, c, failed).0);
  }

  lemma SweepLeaksNothing(s: Store, batch: set<Id>, failed: set<Key>, forgotten: set<Id>)
    requires ObjectsOk(s) && NothingLeaks(s)
    ensures NothingLeaks(Sweep(s, batch, failed, forgotten))
  {
    forall x | x in s.rows ensures RowOk(s, x, s.rows[x]) {}
    LosesNoOwner(s, Sweep(s, batch, failed, forgotten));
  }

  lemma {:induction false} MovedLeaksNothing(s: Store, response: Response, k: AnswerKey, items: seq<Item>, ids: seq<Id>,
          n: nat)
    requires NothingLeaks(s) && n <= |items| == |ids| && NoRepeats(ids) && forall id :: id in ids ==> id !in s.rows
    ensures NothingLeaks(MoveItems(s, response, k, items, ids, n))
  {
    if n == 0 {
    } else {
      MovedLeaksNothing(s, response, k, items, ids, n - 1);
      NotMadeYet(s, response, k, items, ids, n - 1);
      var t := MoveItems(s, response, k, items, ids, n - 1);
      var u := MoveItem(t, response, k, items[n - 1], ids[n - 1]);
      forall key | key in u.bucket && key.Final? ensures Accounted(u, key) {
        if key in t.bucket { assert Accounted(t, key); }
      }
    }
  }

  lemma BackfillLeaksNothing(s: Store, k: AnswerKey, ids: seq<Id>)
    requires ObjectsOk(s) && NothingLeaks(s)
    ensures NothingLeaks(Backfill(s, k, ids, None))
  {
    if k in s.answers && k.response in s.responses && |ids| == |Items(s.answers[k])| && Fresh(s, ids) {
      forall x | x in s.rows ensures RowOk(s, x, s.rows[x]) {}
      var items := Items(s.answers[k]);
      MovedLeaksNothing(s, s.responses[k.response], k, items, ids, |items|);
      var moved := MoveItems(s, s.responses[k.response], k, items, ids, |items|);
      MovedRows(s, s.responses[k.response], k, items, ids, |items|);
      LosesNoOwner(moved, Backfill(s, k, ids, None));
    }
  }

  lemma DeletionLeaksNothing(s: Store, t: Store, mine: set<Id>)
    requires NothingLeaks(s) && t.bucket == s.bucket && t.scheduled == s.scheduled + Released(s.rows, mine)
    requires forall id :: id in s.rows && id !in mine ==> id in t.rows && t.rows[id] == s.rows[id]
    ensures NothingLeaks(t)
  {
    LosesNoOwner(s, t);
  }

  lemma CompleteLeaksNothing(s: Store, form: FormId, user: UserId, id: Id, accepted: bool, unremoved: bool)
    requires ObjectsOk(s) && NothingLeaks(s)
    ensures NothingLeaks(Complete(s, form, user, id, accepted, unremoved))
  {
    forall x | x in s.rows ensures RowOk(s, x, s.rows[x]) {}
    LosesNoOwner(s, Complete(s, form, user, id, accepted, unremoved));
  }

  lemma DiscardLeaksNothing(s: Store, form: FormId, user: UserId, id: Id, unremoved: bool)
    requires ObjectsOk(s) && NothingLeaks(s)
    ensures NothingLeaks(Discard(s, form, user, id, unremoved))
  {
    forall x | x in s.rows ensures RowOk(s, x, s.rows[x]) {}
    LosesNoOwner(s, Discard(s, form, user, id, unremoved));
  }

  lemma ScanLeaksNothing(s: Store, id: Id, infected: bool)
    requires NothingLeaks(s)
    ensures NothingLeaks(Scanned(s, id, infected))
  {
    LosesNoOwner(s, Scanned(s, id, infected));
  }

  /**
   A submission rolled back after copying leaves a file behind exactly when it copied one; nothing will delete it
   unless the upload is used after all.
   */
  lemma AbortedSaveLeaks(s: Store, r: ResponseId, response: Response, caller: Option<UserId>,
                         cleaned: map<FieldId, seq<Item>>, wanted: map<Id, FieldId>, copied: set<Id>)
    requires ObjectsOk(s) && NothingLeaks(s) && AllUsable(s.rows, r, FormOf(s, r, response), caller, wanted)
    ensures NothingLeaks(Save(s, r, response, caller, cleaned, wanted, Abort(copied))) <==>
        copied * Moving(s, wanted) == {}
  {
    var t := Save(s, r, response, caller, cleaned, wanted, Abort(copied));
    if copied * Moving(s, wanted) == {} {
      assert Copied(s, {}) == s.bucket;
    } else {
      var id :| id in copied * Moving(s, wanted);
      assert RowOk(s, id, s.rows[id]);
      var k := Final(s.rows[id].form, id);
      assert IsCopy(s, copied * Moving(s, wanted), k);
      assert k in t.bucket && !Accounted(t, k);
    }
  }

  lemma SaveLeaks(s: Store, r: ResponseId, response: Response, caller: Option<UserId>,
                  cleaned: map<FieldId, seq<Item>>, wanted: map<Id, FieldId>, cut: Cut)
    requires ObjectsOk(s) && NothingLeaks(s) && Mentions(cleaned, wanted)
    ensures NothingLeaks(Save(s, r, response, caller, cleaned, wanted, cut))
            <==> !LeavesCopy(s, SaveResponse(r, response, caller, cleaned, wanted, cut))
  {
    if AllUsable(s.rows, r, FormOf(s, r, response), caller, wanted) {
      match cut {
        case Abort(copied) => AbortedSaveLeaks(s, r, response, caller, cleaned, wanted, copied);
        case Commit => SavedLeaksNothing(s, r, response, cleaned, wanted);
      }
    }
  }

  lemma ReplaceLeaks(s: Store, form: FormId, oldId: Id, newId: Id, admin: UserId, copies: bool, commits: bool)
    requires ObjectsOk(s) && NothingLeaks(s)
    ensures NothingLeaks(Replace(s, form, oldId, newId, admin, copies, commits))
            <==> !LeavesCopy(s, AdminReplace(form, oldId, newId, admin, copies, commits))
  {
    if Replaceable(s, form, oldId, newId, admin) && copies {
      assert RowOk(s, newId, s.rows[newId]);
      if commits && s.rows[oldId].response.Some? {
        ReplacedLeaksNothing(s, form, oldId, newId, admin);
      } else {
        var k := Final(s.rows[newId].form, newId);
        assert IsCopy(s, {newId}, k) && !Accounted(s, k);
      }
    }
  }

  lemma {:induction false} MovedBucket(s: Store, response: Response, k: AnswerKey, items: seq<Item>, ids: seq<Id>,
          n: nat)
    requires n <= |items| == |ids|
    ensures var t := MoveItems(s, response, k, items, ids, n);
      && (forall key :: key in t.bucket <==>
          key in s.bucket || WrittenFor(response, items, ids, n, key))
  {
    if n == 0 {
    } else {
      MovedBucket(s, response, k, items, ids, n - 1);
      var t := MoveItems(s, response, k, items, ids, n - 1);
      assert MoveItems(s, response, k, items, ids, n) == MoveItem(t, response, k, items[n - 1], ids[n - 1]);
      forall key ensures WrittenFor(response, items, ids, n, key)
          <==> WrittenFor(response, items, ids, n - 1, key)
               || (Movable(items[n - 1]) && key == Final(response.form, ids[n - 1])) {
      }
    }
  }

  /** One of the first n items is written under this key. */
  ghost predicate WrittenFor(response: Response, items: seq<Item>, ids: seq<Id>, n: nat, key: Key)
    requires n <= |items| == |ids|
  {
    exists i :: 0 <= i < n && Movable(items[i]) && key == Final(response.form, ids[i])
  }

  lemma FailedBackfillLeaks(s: Store, k: AnswerKey, ids: seq<Id>, failsAfter: nat)
    requires ObjectsOk(s) && NothingLeaks(s)
    ensures NothingLeaks(Backfill(s, k, ids, Some(failsAfter))) <==>
        !LeavesCopy(s, BackfillAnswer(k, ids, Some(failsAfter)))
  {
    if k in s.answers && k.response in s.responses && |ids| == |Items(s.answers[k])| && Fresh(s, ids) {
      var items := Items(s.answers[k]);
      var response := s.responses[k.response];
      var t := Backfill(s, k, ids, Some(failsAfter));
      var n := if failsAfter < |items| then failsAfter else |items|;
      MovedBucket(s, response, k, items, ids, n);
      if LeavesCopy(s, BackfillAnswer(k, ids, Some(failsAfter))) {
        var i :| 0 <= i < |ids| && i < failsAfter && Movable(items[i]);
        var key := Final(response.form, ids[i]);
        assert ids[i] in ids && WrittenFor(response, items, ids, n, key);
        assert key in t.bucket && !Accounted(t, key);
      } else {
        forall key | key in t.bucket && key.Final? ensures Accounted(t, key) { assert Accounted(s, key); }
      }
    }
  }

  lemma BucketOnlyLeaksNothing(s: Store, limits: Limits, step: Step)
    requires NothingLeaks(s)
    requires step.Tick? || step.BrowserPost? || step.RequestFails? || step.DiscardFails? || step.CleanUp?
    ensures NothingLeaks(Apply(s, limits, step))
  {
    LosesNoOwner(s, Apply(s, limits, step));
  }

  /** A step leaks a file exactly when it is rolled back after writing one. */
  lemma StepLeaks(s: Store, limits: Limits, step: Step)
    requires Inv(s, limits) && NothingLeaks(s)
    ensures NothingLeaks(Apply(s, limits, step)) <==> !LeavesCopy(s, step)
  {
    match step {
      case Tick(_) => BucketOnlyLeaksNothing(s, limits, step);
      case BrowserPost(_, _, _) => BucketOnlyLeaksNothing(s, limits, step);
      case RequestUpload(form, user, q, id, c, failed) =>
        if id !in s.issued && Ticks(s, c) { RequestLeaksNothing(s, limits, form, user, q, id, c, failed); }
      case CompleteUpload(form, user, id, accepted, unremoved) =>
        CompleteLeaksNothing(s, form, user, id, accepted, unremoved);
      case DiscardUpload(form, user, id, unremoved) => DiscardLeaksNothing(s, form, user, id, unremoved);
      case RequestFails(_, _, _, _, _) => BucketOnlyLeaksNothing(s, limits, step);
      case DiscardFails(_, _, _, _) => BucketOnlyLeaksNothing(s, limits, step);
      case SaveResponse(r, response, caller, cleaned, wanted, cut) =>
        if Mentions(cleaned, wanted) { SaveLeaks(s, r, response, caller, cleaned, wanted, cut); }
      case AdminRemove(form, ids) => RemoveFilesLeaksNothing(s, form, ids);
      case AdminReplace(form, oldId, newId, admin, copies, commits) =>
        ReplaceLeaks(s, form, oldId, newId, admin, copies, commits);
      case SweepExpired(batch, failed, forgotten) => SweepLeaksNothing(s, batch, failed, forgotten);
      case ScanVerdict(id, infected) => ScanLeaksNothing(s, id, infected);
      case BackfillAnswer(k, ids, failsAfter) =>
        if failsAfter.None? { BackfillLeaksNothing(s, k, ids); } else {
            FailedBackfillLeaks(s, k, ids, failsAfter.value); }
      case ResponseDeleted(r) =>
        DeletionLeaksNothing(s, DeleteResponse(s, r), set id | id in s.rows && s.rows[id].response == Some(r));
      case FormDeleted(form) =>
        DeletionLeaksNothing(s, DeleteForm(s, form), set id | id in s.rows && s.rows[id].form == form);
      case CleanUp(_) => BucketOnlyLeaksNothing(s, limits, step);
    }
  }

  ghost predicate LeakFreeThroughout(s: Store, limits: Limits, steps: seq<Step>) {
    NothingLeaks(Run(s, limits, steps)) && (steps == [] || LeakFreeThroughout(s, limits, steps[..|steps| - 1]))
  }

  ghost predicate NoCopyLeft(s: Store, limits: Limits, steps: seq<Step>) {
    steps == [] ||
    (var before := steps[..|steps| - 1];
     NoCopyLeft(s, limits, before) && !LeavesCopy(Run(s, limits, before), steps[|steps| - 1]))
  }

  /**
   All through a run every object under a final key is someone's file or about to be deleted, exactly when no
   transaction of the run is rolled back after writing one.
   */
  lemma {:induction false} NoFileIsForgotten(s: Store, limits: Limits, steps: seq<Step>)
    requires Inv(s, limits) && NoneLost(s, limits, steps) && NothingLeaks(s)
    ensures LeakFreeThroughout(s, limits, steps) <==> NoCopyLeft(s, limits, steps)
  {
    if steps == [] {
    } else {
      var before := steps[..|steps| - 1];
      NoFileIsForgotten(s, limits, before);
      EveryRunIsSafe(s, limits, before);
      if LeakFreeThroughout(s, limits, before) { StepLeaks(Run(s, limits, before), limits, steps[|steps| - 1]); }
    }
  }
}
