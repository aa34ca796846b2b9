/** What a saved submission leaves behind, in terms of the answers that were sent. */
module UploadSubmission {
  import opened Lists
  import opened Options
  import opened UploadModel
  import opened UploadSafety
  import opened UploadReferences

  /** One answer for each question, and nothing wrong with any reference, in what is sent in for this response. */
  ghost predicate Acceptable(s: Store, r: ResponseId, response: Response, caller: Option<UserId>, all: seq<Sent>) {
    && OncePerQuestion(all)
    && AllClean(Asker(s.rows, FormOf(s, r, response), caller, if r in s.responses then Some(r) else None), all, |all|)
  }

  /** An answer that holds something is stored with exactly its items. */
  ghost predicate StoredAsSent(after: map<AnswerKey, Value>, r: ResponseId, sent: Sent) {
    match sent.value
    case None => true
    case Some(One(item)) => Get(after, At(r, sent.field)) == Some(Many([item]))
    case Some(Many(items)) => items != [] ==> Get(after, At(r, sent.field)) == Some(Many(items))
  }

  /** Somebody answered this question, and the answer holds something. */
  ghost predicate AnsweredIn(all: seq<Sent>, f: FieldId) {
    exists i, p: nat, item :: 0 <= i < |all| && all[i].field == f && Sends(all[i], p, item)
  }

  /**
   Every answer that may be seen and holds something is there with exactly its items; the response has no other
   answer, and those of other responses are as before.
   */
  ghost predicate AnswersAsSent(before: map<AnswerKey, Value>, after: map<AnswerKey, Value>, r: ResponseId,
                                all: seq<Sent>, visible: set<FieldId>) {
    && (forall i :: 0 <= i < |all| && all[i].field in visible ==> StoredAsSent(after, r, all[i]))
    && (forall f :: At(r, f) in after ==> f in visible && AnsweredIn(all, f))
    && (forall k: AnswerKey :: k.response != r ==> Get(after, k) == Get(before, k))
  }

  /** The upload is one that some answer, which may be seen, refers to. */
  ghost predicate Named(all: seq<Sent>, visible: set<FieldId>, id: Id) {
    exists f :: NamedFor(all, visible, id, f)
  }

  /**
   A finished upload that a visible answer refers to is attached, an attached one that no such answer refers to is
   deleted, and no other row changes.
   */
  ghost predicate RowFollows(was: Row, row: Row, id: Id, r: ResponseId, named: bool) {
    row ==
      if named && was.state == Uploaded
      then was.(key := Final(was.form, id), state := Attached, response := Some(r), expires := None)
      else if !named && was.state == Attached && was.response == Some(r) then was.(state := Deleted)
      else was
  }

  /** The response's files are then exactly those referred to, each at its question. */
  ghost predicate FilesAsReferred(before: map<Id, Row>, after: map<Id, Row>, r: ResponseId, all: seq<Sent>,
                                  visible: set<FieldId>) {
    && after.Keys == before.Keys
    && (forall id :: id in before ==> RowFollows(before[id], after[id], id, r, Named(all, visible, id)))
    && (forall id, f :: NamedFor(all, visible, id, f) <==>
          id in after && after[id].state == Attached && after[id].response == Some(r) && after[id].field == f)
  }

  /** The object of a newly attached file is copied to its new key, and no other object changes. */
  ghost predicate ObjectFollows(s: Store, t: Store, k: Key) {
    Get(t.bucket, k) ==
      if k.Final? && k.id in s.rows && s.rows[k.id].form == k.form
         && s.rows[k.id].state == Uploaded && k.id in t.rows && t.rows[k.id].state == Attached
      then Get(s.bucket, s.rows[k.id].key)
      else Get(s.bucket, k)
  }

  /** The object is one that a row which changed had before. */
  ghost predicate LeftBehind(s: Store, t: Store, k: Key) {
    exists id :: id in s.rows && s.rows[id].key == k && id in t.rows && t.rows[id] != s.rows[id]
  }

  /** Objects are where the rows say, and what the rows left behind is scheduled for deletion. */
  ghost predicate ObjectsFollow(s: Store, t: Store) {
    && (forall k :: ObjectFollows(s, t, k))
    && (forall k :: k in t.scheduled <==> k in s.scheduled || LeftBehind(s, t, k))
  }

  lemma AnswersSaved(s: Store, t: Store, r: ResponseId, response: Response, all: seq<Sent>, visible: set<FieldId>,
                     wanted: map<Id, FieldId>)
    requires OncePerQuestion(all) && t == Saved(s, r, response, Chosen(all, visible, |all|), wanted)
    ensures AnswersAsSent(s.answers, t.answers, r, all, visible)
  {
    var cleaned := Chosen(all, visible, |all|);
    ChosenAre(all, visible);
    forall i | 0 <= i < |all| && all[i].field in visible ensures StoredAsSent(t.answers, r, all[i]) {
      if SentItems(all[i]) != [] {
        assert all[i].field in cleaned;
        assert t.answers[At(r, all[i].field)] == Many(SentItems(all[i]));
      }
    }
    forall f | At(r, f) in t.answers ensures f in visible && AnsweredIn(all, f) {
      assert f in cleaned;
      var i :| 0 <= i < |all| && all[i].field == f && f in visible && SentItems(all[i]) != [];
      assert Sends(all[i], 0, SentItems(all[i])[0]);
    }
  }

  lemma RowSaved(row: Row, id: Id, r: ResponseId, wanted: map<Id, FieldId>)
    ensures RowFollows(row, SavedRow(row, id, r, wanted), id, r, id in wanted)
  {
  }

  lemma AttachedAsWanted(t: Store, r: ResponseId, cleaned: map<FieldId, seq<Item>>, wanted: map<Id, FieldId>,
                         id: Id, f: FieldId)
    requires Mentions(cleaned, wanted) && AnswerOk(t.rows, t.answers, At(r, f))
    requires Get(t.answers, At(r, f)) == if f in cleaned then Some(Many(cleaned[f])) else None
    ensures (id in wanted && wanted[id] == f) <==> id in t.rows && AttachedAt(t.rows[id], At(r, f))
  {
    if f in cleaned { assert MentionsAt(cleaned[f], f, wanted); }
  }

  lemma FilesSaved(s: Store, t: Store, r: ResponseId, response: Response, all: seq<Sent>, visible: set<FieldId>,
                   wanted: map<Id, FieldId>)
    requires OncePerQuestion(all) && Mentions(Chosen(all, visible, |all|), wanted) && AnswersOk(t)
    requires t == Saved(s, r, response, Chosen(all, visible, |all|), wanted)
    ensures FilesAsReferred(s.rows, t.rows, r, all, visible)
  {
    var cleaned := Chosen(all, visible, |all|);
    WantedAre(all, visible, wanted);
    forall id | id in s.rows ensures RowFollows(s.rows[id], t.rows[id], id, r, Named(all, visible, id)) {
      if id in wanted { assert NamedFor(all, visible, id, wanted[id]); }
      RowSaved(s.rows[id], id, r, wanted);
    }
    forall id, f ensures NamedFor(all, visible, id, f) <==> id in t.rows && AttachedAt(t.rows[id], At(r, f)) {
      assert AnswerOk(t.rows, t.answers, At(r, f));
      AttachedAsWanted(t, r, cleaned, wanted, id, f);
    }
  }

  lemma ObjectSaved(s: Store, t: Store, r: ResponseId, wanted: map<Id, FieldId>, k: Key)
    requires ObjectsOk(s) && t.rows == SavedRows(s.rows, r, wanted) && t.bucket == Copied(s, Moving(s, wanted))
    ensures ObjectFollows(s, t, k)
  {
    if k.Final? && k.id in s.rows && s.rows[k.id].form == k.form {
      assert RowOk(s, k.id, s.rows[k.id]);
    }
  }

  lemma LeavesBehind(s: Store, t: Store, r: ResponseId, wanted: map<Id, FieldId>, k: Key)
    requires t.rows == SavedRows(s.rows, r, wanted)
    ensures k in StaleKeys(s, r, wanted) <==> LeftBehind(s, t, k)
  {
  }

  lemma ObjectsSaved(s: Store, t: Store, r: ResponseId, response: Response, cleaned: map<FieldId, seq<Item>>,
                     wanted: map<Id, FieldId>)
    requires ObjectsOk(s) && t == Saved(s, r, response, cleaned, wanted)
    ensures ObjectsFollow(s, t)
  {
    forall k ensures ObjectFollows(s, t, k) { ObjectSaved(s, t, r, wanted, k); }
    forall k ensures k in StaleKeys(s, r, wanted) <==> LeftBehind(s, t, k) { LeavesBehind(s, t, r, wanted, k); }
  }

  /** When a submission goes through. */
  lemma AcceptableMeans(s: Store, r: ResponseId, response: Response, caller: Option<UserId>, all: seq<Sent>)
    ensures Acceptable(s, r, response, caller, all) <==>
      && (forall i, j :: 0 <= i < j < |all| ==> all[i].field != all[j].field) && ReferredOnce(all)
      && AllFine(Asker(s.rows, if r in s.responses then s.responses[r].form else response.form, caller,
                       if r in s.responses then Some(r) else None), all)
  {
    CleanMeans(Asker(s.rows, FormOf(s, r, response), caller, if r in s.responses then Some(r) else None), all);
  }

  lemma FaultsMet(s: Store, all: seq<Sent>, visible: set<FieldId>, wanted: map<Id, FieldId>, faults: set<Id>)
    requires OncePerQuestion(all) && Mentions(Chosen(all, visible, |all|), wanted)
    ensures Moving(s, wanted) !! faults <==>
      forall id :: id in faults && id in s.rows && Named(all, visible, id) ==> s.rows[id].state != Uploaded
  {
    WantedAre(all, visible, wanted);
    forall id ensures id in wanted <==> Named(all, visible, id) {
      if id in wanted { assert NamedFor(all, visible, id, wanted[id]); }
    }
    assert forall id :: id in Moving(s, wanted) <==> id in s.rows && id in wanted && s.rows[id].state == Uploaded;
    if forall id :: id in faults && id in s.rows && Named(all, visible, id) ==> s.rows[id].state != Uploaded {
      assert forall id :: id in Moving(s, wanted) ==> id !in faults;
    }
  }
}
