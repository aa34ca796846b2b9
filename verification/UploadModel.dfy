/**
 The file-upload protocol as a state machine over two stores: the database rows and the bucket.

 Every step below is one database transaction (or one effect outside a transaction). A transaction that does not
 commit restores the database but never the bucket, so an aborted step still carries the objects it had copied.
 */
module UploadModel {
  import opened Lists
  import opened Options

  type Id = nat
  type FormId = nat
  type FieldId = nat
  type UserId = nat
  type ResponseId = nat
  type Time = int

  /** The server-made object keys: `tmp/` for a file nobody submitted yet, `files/` once it is part of a response. */
  datatype Key = Tmp(form: FormId, id: Id) | Final(form: FormId, id: Id)

  datatype UploadState = Pending | Uploaded | Attached | Rejected | Deleted

  datatype Scan = NotScanned | Clean | Infected

  datatype Row = Row(
    form: FormId, field: FieldId, uploader: Option<UserId>, response: Option<ResponseId>,
    key: Key, state: UploadState, scan: Scan, expires: Option<Time>, size: nat)

  /**
   One item of a file answer. `Inline(Some(n))` is a base64 file of n bytes that passes the checks; `Inline(None)`
   fails them.
   */
  datatype Item = Ref(id: Id) | BadRef | Inline(bytes: Option<nat>) | Plain(text: string)

  /** A stored answer is a list, or (in old rows) a single bare item. */
  datatype Value = Many(items: seq<Item>) | One(item: Item)

  datatype Response = Response(form: FormId, user: Option<UserId>)

  datatype AnswerKey = At(response: ResponseId, field: FieldId)

  /**
   `answers` holds the answers to file questions. `bucket` maps a key to the size of the object under it.
   `scheduled` holds every key that some committed transaction has handed to its on-commit clean-up: from then on it may
   be deleted at any moment, or never. `issued` holds every upload id ever generated.
   */
  datatype Store = Store(
    rows: map<Id, Row>, answers: map<AnswerKey, Value>, responses: map<ResponseId, Response>,
    bucket: map<Key, nat>, scheduled: set<Key>, issued: set<Id>, now: Time)

  const EMPTY := Store(map[], map[], map[], map[], {}, {}, 0)

  // ----- answers ---------------------------------------------------------------------------------

  function Items(v: Value): seq<Item> {
    match v
    case Many(items) => items
    case One(item) => [item]
  }

  /** The upload ids an answer refers to, in order and with repetitions. */
  function Ids(items: seq<Item>): seq<Id> {
    if items == [] then []
    else (if items[0].Ref? then [items[0].id] else []) + Ids(items[1..])
  }

  /** `wanted` is the question each mentioned upload belongs to, and no upload is mentioned twice in the answers. */
  ghost predicate Mentions(cleaned: map<FieldId, seq<Item>>, wanted: map<Id, FieldId>) {
    && (forall f :: f in cleaned ==> MentionsAt(cleaned[f], f, wanted))
    && (forall id :: id in wanted ==> wanted[id] in cleaned)
  }

  ghost predicate MentionsAt(items: seq<Item>, f: FieldId, wanted: map<Id, FieldId>) {
    NoRepeats(Ids(items)) && forall id :: id in Ids(items) <==> id in wanted && wanted[id] == f
  }

  /** The items that do not refer to `id`. */
  function Without(items: seq<Item>, id: Id): seq<Item> {
    if items == [] then []
    else (if items[0] == Ref(id) then [] else [items[0]]) + Without(items[1..], id)
  }

  function SwapItem(item: Item, oldId: Id, newId: Id): Item {
    if item == Ref(oldId) then Ref(newId) else item
  }

  /** The items with every reference to `oldId` turned into one to `newId`. */
  function Swapped(items: seq<Item>, oldId: Id, newId: Id): seq<Item> {
    if items == [] then []
    else [SwapItem(items[0], oldId, newId)] + Swapped(items[1..], oldId, newId)
  }

  function WithItems(v: Value, items: seq<Item>): Value
    requires v.One? ==> items != []
  {
    if v.Many? then Many(items) else One(items[0])
  }

  // ----- rows ------------------------------------------------------------------------------------

  /** A person's own finished upload for this question, or one that is already part of the response being edited. */
  predicate Usable(row: Row, form: FormId, user: Option<UserId>, field: FieldId, response: Option<ResponseId>) {
    && row.form == form && row.field == field && user.Some? && row.uploader == user
    && (|| row.state == Uploaded
        || (row.state == Attached && response.Some? && row.response == response))
  }

  predicate Waiting(row: Row) {
    row.state == Pending || row.state == Uploaded
  }

  predicate Finished(row: Row) {
    row.state == Deleted || row.state == Rejected
  }

  predicate ActiveRow(row: Row, form: FormId, user: UserId, now: Time) {
    && row.form == form && row.uploader == Some(user) && Waiting(row)
    && row.response.None? && row.expires.Some? && now < row.expires.value
  }

  /** A person's unsubmitted, unexpired uploads on a form. */
  function Active(rows: map<Id, Row>, form: FormId, user: UserId, now: Time): set<Id> {
    set id | id in rows && ActiveRow(rows[id], form, user, now)
  }

  function ActiveFor(rows: map<Id, Row>, form: FormId, user: UserId, field: FieldId, now: Time): set<Id> {
    set id | id in rows && ActiveRow(rows[id], form, user, now) && rows[id].field == field
  }

  // ----- asking for, finishing and discarding an upload ------------------------------------------

  /** The file question an upload is for. */
  datatype Question = Question(field: FieldId, multi: bool, maxFiles: nat)

  datatype Limits = Limits(cap: int, hours: nat)

  /** The clock is read three times while a request is handled. */
  datatype Clock = Clock(first: Time, second: Time, third: Time)

  datatype Asked = Granted | TooManyFiles | TooManyPending | RolledBack

  predicate Ticks(s: Store, c: Clock) {
    s.now <= c.first <= c.second <= c.third
  }

  function KeysOf(rows: map<Id, Row>, ids: set<Id>): set<Key> {
    set id | id in ids && id in rows :: rows[id].key
  }

  function WithState(rows: map<Id, Row>, ids: set<Id>, state: UploadState): map<Id, Row> {
    map id | id in rows :: if id in ids then rows[id].(state := state) else rows[id]
  }

  /** Marks the rows deleted and removes their objects at once; an object whose removal fails stays. */
  function DiscardAll(s: Store, ids: set<Id>, failed: set<Key>): Store {
    s.(rows := WithState(s.rows, ids, Deleted), bucket := s.bucket - (KeysOf(s.rows, ids) - failed))
  }

  function NewRow(form: FormId, user: UserId, field: FieldId, id: Id, expires: Time): Row {
    Row(form, field, Some(user), None, Tmp(form, id), Pending, NotScanned, Some(expires), 0)
  }

  /**
   A multi-file question has its own limit; a single-file one discards the person's earlier picks, objects included.
   Then the cap is checked.
   */
  function MadeRoom(s: Store, limits: Limits, form: FormId, user: UserId, q: Question, c: Clock,
          failed: set<Key>): (Store, Asked) {
    var mine := ActiveFor(s.rows, form, user, q.field, c.first);
    var cleared := if q.multi then s else DiscardAll(s, mine, failed);
    (cleared,
     if q.multi && |mine| >= q.maxFiles then TooManyFiles
     else if |Active(cleared.rows, form, user, c.second)| >= limits.cap then TooManyPending
     else Granted)
  }

  function WithGrant(cleared: Store, limits: Limits, form: FormId, user: UserId, field: FieldId, id: Id,
          c: Clock): Store {
    cleared.(rows := cleared.rows[id := NewRow(form, user, field, id, c.third + limits.hours)],
             issued := cleared.issued + {id}, now := c.third)
  }

  /** Asks for room for one more file. A refusal rolls the rows back, but objects discarded before it are gone. */
  function Request(s: Store, limits: Limits, form: FormId, user: UserId, q: Question, id: Id, c: Clock,
          failed: set<Key>): (Store, Asked) {
    var (cleared, asked) := MadeRoom(s, limits, form, user, q, c, failed);
    (if asked == Granted then WithGrant(cleared, limits, form, user, q.field, id, c)
        else s.(bucket := cleared.bucket), asked)
  }

  /** A request that is rolled back whatever was decided: the rows are as before, the discarded objects are gone. */
  function RequestRolledBack(s: Store, limits: Limits, form: FormId, user: UserId, q: Question, c: Clock,
          failed: set<Key>): Store {
    s.(bucket := MadeRoom(s, limits, form, user, q, c, failed).0.bucket)
  }

  predicate Owned(s: Store, form: FormId, user: UserId, id: Id) {
    id in s.rows && s.rows[id].form == form && s.rows[id].uploader == Some(user)
  }

  predicate TookTooLong(row: Row, now: Time) {
    row.expires.Some? && row.expires.value <= now
  }

  /** Whether the server will look at what arrived for this pending upload. */
  predicate Completable(s: Store, form: FormId, user: UserId, id: Id) {
    && Owned(s, form, user, id) && s.rows[id].state == Pending
    && !TookTooLong(s.rows[id], s.now)
    && s.rows[id].key in s.bucket
  }

  /** What reached the bucket is accepted with its real size, or refused and removed. */
  function Complete(s: Store, form: FormId, user: UserId, id: Id, accepted: bool, failed: bool): Store {
    if !Completable(s, form, user, id) then s
    else if accepted then s.(rows := s.rows[id := s.rows[id].(state := Uploaded, size := s.bucket[s.rows[id].key])])
    else s.(rows := s.rows[id := s.rows[id].(state := Rejected)],
            bucket := s.bucket - (if failed then {} else {s.rows[id].key}))
  }

  function Discard(s: Store, form: FormId, user: UserId, id: Id, failed: bool): Store {
    if Owned(s, form, user, id) && Waiting(s.rows[id])
    then DiscardAll(s, {id}, if failed then {s.rows[id].key} else {})
    else s
  }

  function DiscardRolledBack(s: Store, form: FormId, user: UserId, id: Id, failed: bool): Store {
    s.(bucket := Discard(s, form, user, id, failed).bucket)
  }

  // ----- saving a response -----------------------------------------------------------------------

  /** How a transaction ends: it commits, or it is rolled back after these copies into `files/`. */
  datatype Cut = Commit | Abort(copied: set<Id>)

  function FormOf(s: Store, r: ResponseId, response: Response): FormId {
    if r in s.responses then s.responses[r].form else response.form
  }

  predicate AllUsable(rows: map<Id, Row>, r: ResponseId, form: FormId, user: Option<UserId>, wanted: map<Id, FieldId>) {
    forall id :: id in wanted ==> id in rows && Usable(rows[id], form, user, wanted[id], Some(r))
  }

  /** A wanted upload that is not part of the response yet. */
  predicate MovesIn(row: Row, id: Id, wanted: map<Id, FieldId>) {
    id in wanted && row.state == Uploaded
  }

  /** An upload attached to the response that the new answers no longer mention. */
  predicate DropsOut(row: Row, id: Id, r: ResponseId, wanted: map<Id, FieldId>) {
    id !in wanted && row.state == Attached && row.response == Some(r)
  }

  function AttachedTo(row: Row, id: Id, r: ResponseId): Row {
    row.(key := Final(row.form, id), state := Attached, response := Some(r), expires := None)
  }

  function SavedRow(row: Row, id: Id, r: ResponseId, wanted: map<Id, FieldId>): Row {
    if MovesIn(row, id, wanted) then AttachedTo(row, id, r)
    else if DropsOut(row, id, r, wanted) then row.(state := Deleted)
    else row
  }

  function SavedRows(rows: map<Id, Row>, r: ResponseId, wanted: map<Id, FieldId>): map<Id, Row> {
    map id | id in rows :: SavedRow(rows[id], id, r, wanted)
  }

  function Moving(s: Store, wanted: map<Id, FieldId>): set<Id> {
    set id | id in s.rows && MovesIn(s.rows[id], id, wanted)
  }

  /** The keys a committed save leaves behind: the old places of moved files, and dropped files. */
  function StaleKeys(s: Store, r: ResponseId, wanted: map<Id, FieldId>): set<Key> {
    set id | id in s.rows && (MovesIn(s.rows[id], id, wanted) || DropsOut(s.rows[id], id, r, wanted)) :: s.rows[id].key
  }

  /** The final key `k` is where an object of `ids` gets copied. */
  predicate IsCopy(s: Store, ids: set<Id>, k: Key) {
    k.Final? && k.id in ids && k.id in s.rows && s.rows[k.id].form == k.form && s.rows[k.id].key in s.bucket
  }

  /** The bucket after copying the objects of `ids` from where they are to the final prefix. */
  function Copied(s: Store, ids: set<Id>): map<Key, nat> {
    var targets := set id | id in ids && id in s.rows && s.rows[id].key in s.bucket :: Final(s.rows[id].form, id);
    map k | k in s.bucket.Keys + targets :: if IsCopy(s, ids, k) then s.bucket[s.rows[k.id].key] else s.bucket[k]
  }

  predicate Copyable(s: Store, ids: set<Id>) {
    forall id :: id in ids ==> id in s.rows && s.rows[id].key in s.bucket
  }

  function AnswersWith(answers: map<AnswerKey, Value>, r: ResponseId, cleaned: map<FieldId, seq<Item>>): map<AnswerKey,
          Value> {
    map k | k in answers.Keys + (set f | f in cleaned :: At(r, f)) && (k.response == r ==> k.field in cleaned) ::
      if k.response == r then Many(cleaned[k.field]) else answers[k]
  }

  /**
   A submission (`r` is new) or an edit that goes through: answers written, files moved, dropped files scheduled for
   deletion.
   */
  function Saved(s: Store, r: ResponseId, response: Response, cleaned: map<FieldId, seq<Item>>, wanted: map<Id,
          FieldId>): Store {
    Store(
      SavedRows(s.rows, r, wanted),
      AnswersWith(s.answers, r, cleaned),
      if r in s.responses then s.responses else s.responses[r := response],
      Copied(s, Moving(s, wanted)),
      s.scheduled + StaleKeys(s, r, wanted),
      s.issued, s.now)
  }

  function Save(s: Store, r: ResponseId, response: Response, user: Option<UserId>,
                cleaned: map<FieldId, seq<Item>>, wanted: map<Id, FieldId>, cut: Cut): Store {
    if !AllUsable(s.rows, r, FormOf(s, r, response), user, wanted) then s
    else match cut
      case Abort(copied) => s.(bucket := Copied(s, copied * Moving(s, wanted)))
      case Commit => if Copyable(s, Moving(s, wanted)) then Saved(s, r, response, cleaned, wanted) else s
  }

  // ----- what admins and housekeeping do ---------------------------------------------------------

  /** Takes the file out of its response's answer (an emptied answer goes away) and marks it deleted. */
  function Forget(s: Store, id: Id): Store
    requires id in s.rows
  {
    var row := s.rows[id];
    var deleted := s.(rows := s.rows[id := row.(state := Deleted)]);
    if row.response.None? || At(row.response.value, row.field) !in s.answers then deleted
    else
      var k := At(row.response.value, row.field);
      var kept := Without(Items(s.answers[k]), id);
      deleted.(answers := if kept == [] then s.answers - {k} else s.answers[k := WithItems(s.answers[k], kept)])
  }

  predicate Removable(s: Store, form: FormId, id: Id) {
    id in s.rows && s.rows[id].form == form && s.rows[id].state == Attached
  }

  function RemoveFile(s: Store, form: FormId, id: Id): Store {
    if Removable(s, form, id) then Forget(s, id).(scheduled := s.scheduled + {s.rows[id].key}) else s
  }

  function RemoveFiles(s: Store, form: FormId, ids: seq<Id>): Store {
    if ids == [] then s
    else RemoveFile(RemoveFiles(s, form, ids[..|ids| - 1]), form, ids[|ids| - 1])
  }

  predicate Replaceable(s: Store, form: FormId, oldId: Id, newId: Id, admin: UserId) {
    && Removable(s, form, oldId)
    && Owned(s, form, admin, newId) && s.rows[newId].state == Uploaded && s.rows[newId].field == s.rows[oldId].field
  }

  /** The answer with the new file in the old one's place; a missing answer becomes the new file alone. */
  function SwappedAnswer(answers: map<AnswerKey, Value>, k: AnswerKey, oldId: Id, newId: Id): Value {
    if k in answers then WithItems(answers[k], Swapped(Items(answers[k]), oldId, newId)) else Many([Ref(newId)])
  }

  function Replaced(s: Store, oldId: Id, newId: Id): Store
    requires oldId in s.rows && newId in s.rows && s.rows[oldId].response.Some?
    requires s.rows[newId].key in s.bucket
  {
    var (was, row) := (s.rows[oldId], s.rows[newId]);
    var k := At(was.response.value, was.field);
    s.(rows := s.rows[newId := AttachedTo(row, newId, was.response.value)][oldId := was.(state := Deleted)],
       answers := s.answers[k := SwappedAnswer(s.answers, k, oldId, newId)],
       bucket := Copied(s, {newId}),
       scheduled := s.scheduled + {row.key, was.key})
  }

  /**
   Swaps an attached file for a finished upload. Without a response there is no answer row to write, so the
   transaction fails.
   */
  function Replace(s: Store, form: FormId, oldId: Id, newId: Id, admin: UserId, copies: bool, commits: bool): Store {
    if !Replaceable(s, form, oldId, newId, admin) || !copies || s.rows[newId].key !in s.bucket then s
    else if !commits || s.rows[oldId].response.None? then s.(bucket := Copied(s, {newId}))
    else Replaced(s, oldId, newId)
  }

  predicate Expired(row: Row, now: Time) {
    Waiting(row) && row.expires.Some? && row.expires.value < now
  }

  /** Deletes a batch of expired uploads with their objects, and drops a batch of long finished rows. */
  function Sweep(s: Store, batch: set<Id>, failed: set<Key>, forgotten: set<Id>): Store {
    var stale := set id | id in batch && id in s.rows && Expired(s.rows[id], s.now);
    var swept := DiscardAll(s, stale, failed);
    swept.(rows := map id | id in swept.rows && !(id in forgotten && Finished(swept.rows[id])) :: swept.rows[id])
  }

  /**
   A verdict counts only while none was recorded. Malware takes the file out of its answer and, later, out of the
   bucket.
   */
  function Scanned(s: Store, id: Id, infected: bool): Store {
    if id !in s.rows || s.rows[id].scan != NotScanned then s
    else if !infected then s.(rows := s.rows[id := s.rows[id].(scan := Clean)])
    else
      var forgot := if s.rows[id].response.Some? then Forget(s, id) else s;
      forgot.(rows := forgot.rows[id := s.rows[id].(scan := Infected, state := Deleted)],
              scheduled := s.scheduled + {s.rows[id].key})
  }

  // ----- moving old inline files into the bucket ---------------------------------------------------

  predicate Movable(item: Item) {
    item.Inline? && item.bytes.Some?
  }

  /**
   The items with every movable inline file replaced by a reference to the upload made for it; `ids[i]` serves item i.
   */
  function Rewritten(items: seq<Item>, ids: seq<Id>): seq<Item>
    requires |items| == |ids|
  {
    if items == [] then []
    else [if Movable(items[0]) then Ref(ids[0]) else items[0]] + Rewritten(items[1..], ids[1..])
  }

  ghost predicate Fresh(s: Store, ids: seq<Id>) {
    NoRepeats(ids) && forall id :: id in ids ==> id !in s.issued
  }

  function InlineRow(response: Response, k: AnswerKey, id: Id, bytes: nat): Row {
    Row(response.form, k.field, response.user, Some(k.response), Final(response.form, id), Attached, NotScanned, None,
        bytes)
  }

  /** Writes one movable file to its final key and makes an attached row for it. */
  function MoveItem(s: Store, response: Response, k: AnswerKey, item: Item, id: Id): Store {
    if !Movable(item) then s
    else s.(rows := s.rows[id := InlineRow(response, k, id, item.bytes.value)],
            bucket := s.bucket[Final(response.form, id) := item.bytes.value])
  }

  /** After the first `n` items. */
  function MoveItems(s: Store, response: Response, k: AnswerKey, items: seq<Item>, ids: seq<Id>, n: nat): Store
    requires n <= |items| == |ids|
  {
    if n == 0 then s
    else MoveItem(MoveItems(s, response, k, items, ids, n - 1), response, k, items[n - 1], ids[n - 1])
  }

  /**
   Handles one answer. When it fails after `n` items the answer stays as it was and only the objects written so far
   remain.
   */
  ghost function Backfill(s: Store, k: AnswerKey, ids: seq<Id>, failsAfter: Option<nat>): Store {
    if k !in s.answers || k.response !in s.responses || |ids| != |Items(s.answers[k])| || !Fresh(s, ids) then s
    else
      var items := Items(s.answers[k]);
      var issued := s.issued + set id | id in ids;
      var n := if failsAfter.Some? && failsAfter.value < |items| then failsAfter.value else |items|;
      var moved := MoveItems(s, s.responses[k.response], k, items, ids, n).(issued := issued);
      if failsAfter.Some? then s.(bucket := moved.bucket, issued := issued)
      else moved.(answers := s.answers[k := WithItems(s.answers[k], Rewritten(items, ids))])
  }

  // ----- deleting responses and forms --------------------------------------------------------------

  function Released(rows: map<Id, Row>, ids: set<Id>): set<Key> {
    set id | id in ids && id in rows && rows[id].state != Deleted :: rows[id].key
  }

  function DeleteResponse(s: Store, r: ResponseId): Store {
    var mine := set id | id in s.rows && s.rows[id].response == Some(r);
    s.(rows := map id | id in s.rows :: if id in mine then s.rows[id].(response := None) else s.rows[id],
       answers := map k | k in s.answers && k.response != r :: s.answers[k],
       responses := s.responses - {r},
       scheduled := s.scheduled + Released(s.rows, mine))
  }

  /** The form's rows and responses go with it. */
  function DeleteForm(s: Store, form: FormId): Store {
    var mine := set id | id in s.rows && s.rows[id].form == form;
    var gone := set r | r in s.responses && s.responses[r].form == form;
    s.(rows := s.rows - mine,
       answers := map k | k in s.answers && k.response !in gone :: s.answers[k],
       responses := s.responses - gone,
       scheduled := s.scheduled + Released(s.rows, mine))
  }

  // ----- runs ----------------------------------------------------------------------------------------

  datatype Step =
    | Tick(time: Time)
    | BrowserPost(form: FormId, id: Id, size: nat)
    | RequestUpload(form: FormId, user: UserId, question: Question, id: Id, clock: Clock, failed: set<Key>)
    | CompleteUpload(form: FormId, user: UserId, id: Id, accepted: bool, unremoved: bool)
    | DiscardUpload(form: FormId, user: UserId, id: Id, unremoved: bool)
    | RequestFails(form: FormId, user: UserId, question: Question, clock: Clock, failed: set<Key>)
    | DiscardFails(form: FormId, user: UserId, id: Id, unremoved: bool)
    | SaveResponse(r: ResponseId, response: Response, caller: Option<UserId>, cleaned: map<FieldId, seq<Item>>,
        wanted: map<Id, FieldId>, cut: Cut)
    | AdminRemove(form: FormId, ids: seq<Id>)
    | AdminReplace(form: FormId, oldId: Id, newId: Id, admin: UserId, copies: bool, commits: bool)
    | SweepExpired(batch: set<Id>, failed: set<Key>, forgotten: set<Id>)
    | ScanVerdict(id: Id, infected: bool)
    | BackfillAnswer(k: AnswerKey, ids: seq<Id>, failsAfter: Option<nat>)
    | ResponseDeleted(r: ResponseId)
    | FormDeleted(form: FormId)
    | CleanUp(key: Key)

  /** A step that cannot happen in `s` leaves it alone. */
  ghost function Apply(s: Store, limits: Limits, step: Step): Store {
    match step
    case Tick(t) => if s.now <= t then s.(now := t) else s
    case BrowserPost(form, id, size) =>
      if id in s.issued && Tmp(form, id) !in s.bucket then s.(bucket := s.bucket[Tmp(form, id) := size]) else s
    case RequestUpload(form, user, q, id, c, failed) =>
      if id !in s.issued && Ticks(s, c) then Request(s, limits, form, user, q, id, c, failed).0 else s
    case CompleteUpload(form, user, id, accepted, unremoved) => Complete(s, form, user, id, accepted, unremoved)
    case DiscardUpload(form, user, id, unremoved) => Discard(s, form, user, id, unremoved)
    case RequestFails(form, user, q, c, failed) =>
      if Ticks(s, c) then RequestRolledBack(s, limits, form, user, q, c, failed) else s
    case DiscardFails(form, user, id, unremoved) => DiscardRolledBack(s, form, user, id, unremoved)
    case SaveResponse(r, response, caller, cleaned, wanted, cut) =>
      if Mentions(cleaned, wanted) then Save(s, r, response, caller, cleaned, wanted, cut) else s
    case AdminRemove(form, ids) => RemoveFiles(s, form, ids)
    case AdminReplace(form, oldId, newId, admin, copies, commits) =>
      Replace(s, form, oldId, newId, admin, copies, commits)
    case SweepExpired(batch, failed, forgotten) => Sweep(s, batch, failed, forgotten)
    case ScanVerdict(id, infected) => Scanned(s, id, infected)
    case BackfillAnswer(k, ids, failsAfter) => Backfill(s, k, ids, failsAfter)
    case ResponseDeleted(r) => DeleteResponse(s, r)
    case FormDeleted(form) => DeleteForm(s, form)
    case CleanUp(key) => if key in s.scheduled then s.(bucket := s.bucket - {key}) else s
  }

  ghost function Run(s: Store, limits: Limits, steps: seq<Step>): Store {
    if steps == [] then s else Apply(Run(s, limits, steps[..|steps| - 1]), limits, steps[|steps| - 1])
  }
}
