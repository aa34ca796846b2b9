/**
 Checking the upload references of a submission before anything is written, and what of it is stored: answer by answer
 and item by item.
 */
module UploadReferences {
  import opened Lists
  import opened Options
  import opened UploadModel
  import opened UploadSafety

  /** What is wrong with a file answer that was sent in. */
  datatype Fault = NotFound(field: FieldId) | AttachedTwice(field: FieldId)

  /** A sent-in answer to a file question; `None` is an answer without a value. */
  datatype Sent = Sent(field: FieldId, value: Option<Value>)

  function SentItems(sent: Sent): seq<Item> {
    if sent.value.Some? then Items(sent.value.value) else []
  }

  function IdSet(items: seq<Item>): set<Id> {
    set id | id in Ids(items)
  }

  /** Every upload the first n answers of a submission refer to. */
  function SentIds(all: seq<Sent>, n: nat): set<Id>
    requires n <= |all|
  {
    if n == 0 then {} else SentIds(all, n - 1) + IdSet(SentItems(all[n - 1]))
  }

  /** Who is sending answers to which form; `response` is the one being edited, if any. */
  datatype Asker = Asker(rows: map<Id, Row>, form: FormId, user: Option<UserId>, response: Option<ResponseId>)

  /** The item names no upload, or one the person may use here. */
  predicate ItemFine(who: Asker, field: FieldId, item: Item) {
    item != BadRef && (item.Ref? ==>
        item.id in who.rows && Usable(who.rows[item.id], who.form, who.user, field, who.response))
  }

  predicate ItemsFine(who: Asker, field: FieldId, items: seq<Item>) {
    forall i :: 0 <= i < |items| ==> ItemFine(who, field, items[i])
  }

  lemma {:induction false} IdsConcat(a: seq<Item>, b: seq<Item>)
    ensures Ids(a + b) == Ids(a) + Ids(b)
  {
    if a == [] {
      assert a + b == b;
    } else {
      IdsConcat(a[1..], b);
      assert (a + b)[1..] == a[1..] + b;
    }
  }

  /** Every item is fine and no upload is repeated, here or among those already seen. */
  ghost predicate Clean(who: Asker, field: FieldId, items: seq<Item>, seen: set<Id>) {
    ItemsFine(who, field, items) && NoRepeats(Ids(items)) && forall id :: id in Ids(items) ==> id !in seen
  }

  lemma SnocIds(items: seq<Item>, item: Item)
    ensures Ids(items + [item]) == Ids(items) + (if item.Ref? then [item.id] else [])
    ensures NoRepeats(Ids(items + [item])) <==> NoRepeats(Ids(items)) && (item.Ref? ==> item.id !in Ids(items))
  {
    IdsConcat(items, [item]);
    NoRepeatsConcat(Ids(items), Ids([item]));
    assert item.Ref? ==> NoRepeats([item.id]);
    assert Ids([item]) == if item.Ref? then [item.id] else [];
  }

  lemma CleanSnoc(who: Asker, field: FieldId, items: seq<Item>, seen: set<Id>, item: Item)
    ensures Clean(who, field, items + [item], seen) <==>
              && Clean(who, field, items, seen) && ItemFine(who, field, item)
              && (item.Ref? ==> item.id !in seen && item.id !in Ids(items))
  {
    SnocIds(items, item);
    var all := items + [item];
    if ItemsFine(who, field, all) {
      assert all[|items|] == item;
      forall i | 0 <= i < |items| ensures ItemFine(who, field, items[i]) { assert all[i] == items[i]; }
    }
  }

  /** The items of one answer: good references and plain items are kept, anything else is a fault. */
  method ResolveItems(who: Asker, field: FieldId, items: seq<Item>, seen: set<Id>)
    returns (kept: seq<Item>, faults: seq<Fault>, nowSeen: set<Id>)
    ensures faults == [] <==> Clean(who, field, items, seen)
    ensures faults == [] ==> kept == items
    ensures |kept| <= |items| && Clean(who, field, kept, seen)
    ensures nowSeen == seen + IdSet(kept)
  {
    kept, faults, nowSeen := [], [], seen;
    for i := 0 to |items|
      invariant |kept| <= i && Clean(who, field, kept, seen)
      invariant nowSeen == seen + IdSet(kept)
      invariant faults == [] ==> kept == items[..i]
      invariant faults == [] <==> Clean(who, field, items[..i], seen)
    {
      var item := items[i];
      assert items[..i + 1] == items[..i] + [item];
      CleanSnoc(who, field, items[..i], seen, item);
      CleanSnoc(who, field, kept, seen, item);
      SnocIds(kept, item);
      if !(item.Ref? || item.BadRef?) {
        kept := kept + [item];
      } else if !ItemFine(who, field, item) {
        faults := faults + [NotFound(field)];
      } else if item.id in nowSeen {
        faults := faults + [AttachedTwice(field)];
      } else {
        nowSeen := nowSeen + {item.id};
        kept := kept + [item];
      }
    }
    assert items[..|items|] == items;
  }

  /**
   Nothing in the first n answers is unusable or repeated: each is clean, given the uploads named by those before it.
   */
  ghost predicate AllClean(who: Asker, all: seq<Sent>, n: nat)
    requires n <= |all|
  {
    n == 0 || (AllClean(who, all, n - 1) && Clean(who, all[n - 1].field, SentItems(all[n - 1]), SentIds(all, n - 1)))
  }

  lemma {:induction false} SameStart(who: Asker, a: seq<Sent>, b: seq<Sent>, n: nat)
    requires n <= |a| && n <= |b| && forall i :: 0 <= i < n ==> a[i] == b[i]
    ensures AllClean(who, a, n) == AllClean(who, b, n) && SentIds(a, n) == SentIds(b, n)
  {
    if n == 0 {
    } else {
      SameStart(who, a, b, n - 1);
    }
  }

  lemma Follows(out: seq<Sent>, all: seq<Sent>, next: Sent)
    requires |out| < |all| && next == all[|out|] && forall i :: 0 <= i < |out| ==> out[i] == all[i]
    ensures forall i :: 0 <= i < |out| + 1 ==> (out + [next])[i] == all[i]
  {
  }

  /** One more clean answer keeps a clean submission clean. */
  lemma OneMoreClean(who: Asker, out: seq<Sent>, sent: Sent)
    requires AllClean(who, out, |out|) && Clean(who, sent.field, SentItems(sent), SentIds(out, |out|))
    ensures AllClean(who, out + [sent], |out| + 1)
    ensures SentIds(out + [sent], |out| + 1) == SentIds(out, |out|) + IdSet(SentItems(sent))
  {
    SameStart(who, out, out + [sent], |out|);
  }

  /** The answer with only these of its items left. */
  function Rebuilt(value: Option<Value>, kept: seq<Item>): Option<Value> {
    if value.None? then None
    else if value.value.Many? then Some(Many(kept))
    else if kept == [] then None else Some(One(kept[0]))
  }

  /** The answer with what is kept of its items. */
  method ResolveOne(who: Asker, sent: Sent, seen: set<Id>)
          returns (resolved: Sent, faults: seq<Fault>, nowSeen: set<Id>)
    ensures |faults| == 0 <==> Clean(who, sent.field, SentItems(sent), seen)
    ensures |faults| == 0 ==> resolved == sent
    ensures resolved.field == sent.field && Clean(who, sent.field, SentItems(resolved), seen)
    ensures nowSeen == seen + IdSet(SentItems(resolved))
  {
    var kept;
    kept, faults, nowSeen := ResolveItems(who, sent.field, SentItems(sent), seen);
    resolved := Sent(sent.field, Rebuilt(sent.value, kept));
    assert SentItems(resolved) == kept;
  }

  /**
   Checks the upload references of a submission against the database, question by question and item by item.
   No error means: every reference is to an upload the person may use for that very question, and none is repeated;
   what comes out is then exactly what came in. In any case what comes out is clean.
   */
  method ResolveReferences(who: Asker, all: seq<Sent>)
    returns (out: seq<Sent>, errors: seq<Fault>)
    ensures errors == [] <==> AllClean(who, all, |all|)
    ensures errors == [] ==> out == all
    ensures |out| == |all| && AllClean(who, out, |out|)
  {
    out, errors := [], [];
    var seen: set<Id> := {};
    for n := 0 to |all|
      invariant |out| == n && AllClean(who, out, n) && seen == SentIds(out, n)
      invariant |errors| == 0 ==> forall i :: 0 <= i < n ==> out[i] == all[i]
      invariant |errors| == 0 <==> AllClean(who, all, n)
    {
      var resolved, faults, nowSeen := ResolveOne(who, all[n], seen);
      if |errors| == 0 {
        SameStart(who, out, all, n);
        if |faults| == 0 { Follows(out, all, resolved); }
      }
      OneMoreClean(who, out, resolved);
      out, errors, seen := out + [resolved], errors + faults, nowSeen;
    }
  }

  // ----- the same in terms of single items --------------------------------------------------------------

  /** The item is the p-th of the answer. */
  predicate Sends(sent: Sent, p: nat, item: Item) {
    match sent.value
    case None => false
    case Some(One(x)) => p == 0 && item == x
    case Some(Many(items)) => p < |items| && item == items[p]
  }

  ghost predicate RefersTo(sent: Sent, id: Id) {
    exists p: nat :: Sends(sent, p, Ref(id))
  }

  /** No upload is referred to at two places. */
  ghost predicate ReferredOnce(all: seq<Sent>) {
    forall i, j, p: nat, q: nat, id :: 0 <= i < |all| && 0 <= j < |all| ==>
      Sends(all[i], p, Ref(id)) && Sends(all[j], q, Ref(id)) ==> i == j && p == q
  }

  /** Every reference is to an upload the person may use for that very question. */
  ghost predicate AllFine(who: Asker, all: seq<Sent>) {
    forall i, p: nat, item :: 0 <= i < |all| && Sends(all[i], p, item) ==>
      match item
      case BadRef => false
      case Ref(id) =>
        && id in who.rows && who.user.Some? && who.rows[id].uploader == who.user
        && who.rows[id].form == who.form && who.rows[id].field == all[i].field
        && (|| who.rows[id].state == Uploaded
            || (who.rows[id].state == Attached && who.response.Some? && who.rows[id].response == who.response))
      case _ => true
  }

  lemma SendsItems(sent: Sent, p: nat, item: Item)
    ensures Sends(sent, p, item) <==> p < |SentItems(sent)| && SentItems(sent)[p] == item
  {
  }

  lemma {:induction false} IdsAre(items: seq<Item>)
    ensures forall id :: id in Ids(items) <==> Ref(id) in items
    ensures NoRepeats(Ids(items)) <==>
      forall p: nat, q: nat :: p < q < |items| && items[p] == items[q] ==> !items[p].Ref?
  {
    if items == [] {
    } else {
      var rest := items[1..];
      assert items == [items[0]] + rest;
      IdsCons(items[0], rest);
      IdsAre(rest);
      if NoRepeats(Ids(items)) {
        forall p: nat, q: nat | p < q < |items| && items[p] == items[q] ensures !items[p].Ref? {
          assert items[q] == rest[q - 1] && (p > 0 ==> items[p] == rest[p - 1]);
        }
      } else if NoRepeats(Ids(rest)) {
        var q :| 0 <= q < |rest| && rest[q] == items[0];
        assert items[0] == items[q + 1];
      } else {
        var p: nat, q: nat :| p < q < |rest| && rest[p] == rest[q] && rest[p].Ref?;
        assert items[p + 1] == items[q + 1];
      }
    }
  }

  lemma {:induction false} SentIdsAre(all: seq<Sent>, n: nat)
    requires n <= |all|
    ensures forall id :: id in SentIds(all, n) <==> exists i :: 0 <= i < n && id in Ids(SentItems(all[i]))
  {
    if n == 0 {
    } else {
      SentIdsAre(all, n - 1);
    }
  }

  /** The two answers refer to no common upload. */
  ghost predicate Apart(a: Sent, b: Sent) {
    IdSet(SentItems(a)) !! IdSet(SentItems(b))
  }

  ghost predicate AllApart(all: seq<Sent>, n: nat)
    requires n <= |all|
  {
    forall i, j :: 0 <= i < j < n ==> Apart(all[i], all[j])
  }

  /** The answer is clean by itself. */
  ghost predicate CleanAlone(who: Asker, sent: Sent) {
    ItemsFine(who, sent.field, SentItems(sent)) && NoRepeats(Ids(SentItems(sent)))
  }

  ghost predicate EachCleanAlone(who: Asker, all: seq<Sent>, n: nat)
    requires n <= |all|
  {
    forall i :: 0 <= i < n ==> CleanAlone(who, all[i])
  }

  lemma CleanParts(who: Asker, sent: Sent, seen: set<Id>)
    ensures Clean(who, sent.field, SentItems(sent), seen) <==> CleanAlone(who, sent) && IdSet(SentItems(sent)) !! seen
  {
    var ids := IdSet(SentItems(sent));
    if ids !! seen {
      forall id | id in Ids(SentItems(sent)) ensures id !in seen { assert id in ids; }
    }
  }

  lemma {:induction false} ApartFromAll(all: seq<Sent>, n: nat, sent: Sent)
    requires n <= |all|
    ensures IdSet(SentItems(sent)) !! SentIds(all, n) <==> forall i :: 0 <= i < n ==> Apart(all[i], sent)
  {
    if n == 0 {
    } else {
      ApartFromAll(all, n - 1, sent);
    }
  }

  lemma {:induction false} AllCleanAre(who: Asker, all: seq<Sent>, n: nat)
    requires n <= |all|
    ensures AllClean(who, all, n) <==> EachCleanAlone(who, all, n) && AllApart(all, n)
  {
    if n == 0 {
    } else {
      AllCleanAre(who, all, n - 1);
      ApartFromAll(all, n - 1, all[n - 1]);
      CleanParts(who, all[n - 1], SentIds(all, n - 1));
      EachCleanNext(who, all, n);
      AllApartNext(all, n);
    }
  }

  lemma EachCleanNext(who: Asker, all: seq<Sent>, n: nat)
    requires 0 < n <= |all|
    ensures EachCleanAlone(who, all, n) <==> EachCleanAlone(who, all, n - 1) && CleanAlone(who, all[n - 1])
  {
  }

  lemma AllApartNext(all: seq<Sent>, n: nat)
    requires 0 < n <= |all|
    ensures AllApart(all, n) <==> AllApart(all, n - 1) && forall i :: 0 <= i < n - 1 ==> Apart(all[i], all[n - 1])
  {
  }

  lemma FineAre(who: Asker, all: seq<Sent>)
    ensures AllFine(who, all) <==> forall i :: 0 <= i < |all| ==> ItemsFine(who, all[i].field, SentItems(all[i]))
  {
    if AllFine(who, all) {
      forall i, p | 0 <= i < |all| && 0 <= p < |SentItems(all[i])|
        ensures ItemFine(who, all[i].field, SentItems(all[i])[p]) {
        assert Sends(all[i], p, SentItems(all[i])[p]);
      }
    }
    if forall i :: 0 <= i < |all| ==> ItemsFine(who, all[i].field, SentItems(all[i])) {
      forall i, p: nat, item | 0 <= i < |all| && Sends(all[i], p, item) ensures ItemFine(who, all[i].field, item) {
        SendsItems(all[i], p, item);
        assert ItemsFine(who, all[i].field, SentItems(all[i]));
      }
    }
  }

  lemma RefersAre(sent: Sent)
    ensures forall id :: RefersTo(sent, id) <==> id in Ids(SentItems(sent))
  {
    IdsAre(SentItems(sent));
    forall id ensures RefersTo(sent, id) <==> Ref(id) in SentItems(sent) {
      if RefersTo(sent, id) {
        var p: nat :| Sends(sent, p, Ref(id));
        SendsItems(sent, p, Ref(id));
      }
      if Ref(id) in SentItems(sent) {
        var p :| 0 <= p < |SentItems(sent)| && SentItems(sent)[p] == Ref(id);
        assert Sends(sent, p, Ref(id));
      }
    }
  }

  lemma OnceAcross(a: Sent, b: Sent)
    ensures Apart(a, b) <==> forall id :: RefersTo(a, id) ==> !RefersTo(b, id)
  {
    RefersAre(a);
    RefersAre(b);
    if Apart(a, b) {
      forall id | RefersTo(a, id) ensures !RefersTo(b, id) { assert id in IdSet(SentItems(a)); }
    }
  }

  lemma OnceAre(all: seq<Sent>)
    ensures ReferredOnce(all) <==>
      AllApart(all, |all|) && forall i :: 0 <= i < |all| ==> NoRepeats(Ids(SentItems(all[i])))
  {
    forall i, j | 0 <= i < j < |all|
      ensures Apart(all[i], all[j]) <==> forall id :: RefersTo(all[i], id) ==> !RefersTo(all[j], id) {
      OnceAcross(all[i], all[j]);
    }
    forall i | 0 <= i < |all|
      ensures NoRepeats(Ids(SentItems(all[i]))) <==> OnceIn(all[i])
    {
      OnceInOne(all[i]);
    }
    if ReferredOnce(all) {
      forall i, j, id | 0 <= i < j < |all| && RefersTo(all[i], id) ensures !RefersTo(all[j], id) {
        var p: nat :| Sends(all[i], p, Ref(id));
        assert forall q: nat :: !Sends(all[j], q, Ref(id));
      }
    } else {
      var i, j, p: nat, q: nat, id :| 0 <= i < |all| && 0 <= j < |all| && Sends(all[i], p, Ref(id))
        && Sends(all[j], q, Ref(id)) && (i != j || p != q);
      if i == j {
        assert !OnceIn(all[i]);
      } else {
        assert RefersTo(all[i], id) && RefersTo(all[j], id);
        assert !Apart(all[if i < j then i else j], all[if i < j then j else i]);
      }
    }
  }

  /** The answer refers to no upload twice. */
  ghost predicate OnceIn(sent: Sent) {
    forall p: nat, q: nat, id :: Sends(sent, p, Ref(id)) && Sends(sent, q, Ref(id)) ==> p == q
  }

  lemma OnceInOne(sent: Sent)
    ensures NoRepeats(Ids(SentItems(sent))) <==> OnceIn(sent)
  {
    var items := SentItems(sent);
    IdsAre(items);
    forall p: nat, item ensures Sends(sent, p, item) <==> p < |items| && items[p] == item {
      SendsItems(sent, p, item);
    }
    if OnceIn(sent) {
      forall p: nat, q: nat | p < q < |items| && items[p] == items[q] ensures !items[p].Ref? {
        if items[p].Ref? { assert Sends(sent, p, Ref(items[p].id)) && Sends(sent, q, Ref(items[p].id)); }
      }
    }
  }

  /** What the check of the references lets through, item by item. */
  lemma CleanMeans(who: Asker, all: seq<Sent>)
    ensures AllClean(who, all, |all|) <==> AllFine(who, all) && ReferredOnce(all)
  {
    AllCleanAre(who, all, |all|);
    FineAre(who, all);
    OnceAre(all);
  }

  // ----- from what was sent to what is stored ----------------------------------------------------------

  /**
   Of the first n answers, those that are stored: the ones the validation lets through (`visible`), when they hold
   anything.
   */
  function Chosen(all: seq<Sent>, visible: set<FieldId>, n: nat): map<FieldId, seq<Item>>
    requires n <= |all|
  {
    if n == 0 then map[]
    else
      var rest := Chosen(all, visible, n - 1);
      var last := all[n - 1];
      if last.field in visible && SentItems(last) != [] then rest[last.field := SentItems(last)] else rest
  }

  /** No question is answered twice. */
  predicate OncePerQuestion(all: seq<Sent>) {
    forall i, j :: 0 <= i < j < |all| ==> all[i].field != all[j].field
  }

  /** No upload is named twice, within one answer or across two. */
  ghost predicate NamedOnce(cleaned: map<FieldId, seq<Item>>) {
    && (forall f :: f in cleaned ==> NoRepeats(Ids(cleaned[f])))
    && (forall f, g :: f in cleaned && g in cleaned && f != g ==> IdSet(cleaned[f]) !! IdSet(cleaned[g]))
  }

  /** Answers without reference faults, one per question, name every upload once whatever the validation hides. */
  lemma {:induction false} ChosenNamedOnce(who: Asker, all: seq<Sent>, visible: set<FieldId>, n: nat)
    requires n <= |all| && AllClean(who, all, n) && OncePerQuestion(all)
    ensures NamedOnce(Chosen(all, visible, n))
    ensures forall f :: f in Chosen(all, visible, n) ==> IdSet(Chosen(all, visible, n)[f]) <= SentIds(all, n)
    ensures forall f :: f in Chosen(all, visible, n) ==> exists i :: 0 <= i < n && all[i].field == f
  {
    if n == 0 {
    } else {
      ChosenNamedOnce(who, all, visible, n - 1);
      assert all[n - 1].field !in Chosen(all, visible, n - 1);
    }
  }

  /** Every upload the stored answers name is one the sender may use for that very question. */
  lemma {:induction false} ChosenUsable(who: Asker, all: seq<Sent>, visible: set<FieldId>, n: nat)
    requires n <= |all| && AllClean(who, all, n)
    ensures forall f :: f in Chosen(all, visible, n) ==> ItemsFine(who, f, Chosen(all, visible, n)[f])
  {
    if n == 0 {
    } else {
      ChosenUsable(who, all, visible, n - 1);
    }
  }

  lemma {:induction false} FineIdsUsable(who: Asker, field: FieldId, items: seq<Item>)
    requires ItemsFine(who, field, items)
    ensures forall id :: id in Ids(items) ==>
        id in who.rows && Usable(who.rows[id], who.form, who.user, field, who.response)
  {
    if items == [] {
    } else {
      assert ItemFine(who, field, items[0]);
      assert forall i :: 0 < i < |items| ==> items[1..][i - 1] == items[i];
      FineIdsUsable(who, field, items[1..]);
    }
  }

  /** The check before the files are attached never refuses what the check of the references let through. */
  lemma UsableForResponse(who: Asker, r: ResponseId, cleaned: map<FieldId, seq<Item>>, wanted: map<Id, FieldId>)
    requires forall f :: f in cleaned ==> ItemsFine(who, f, cleaned[f])
    requires Mentions(cleaned, wanted) && (who.response.None? || who.response == Some(r))
    ensures AllUsable(who.rows, r, who.form, who.user, wanted)
  {
    forall id | id in wanted ensures id in who.rows && Usable(who.rows[id], who.form, who.user, wanted[id], Some(r)) {
      var f := wanted[id];
      assert MentionsAt(cleaned[f], f, wanted);
      FineIdsUsable(who, f, cleaned[f]);
    }
  }

  /** Notes the references of one answer. */
  method AddReferences(before: map<Id, FieldId>, field: FieldId, items: seq<Item>) returns (found: map<Id, FieldId>)
    ensures forall id :: id in found <==> id in before || id in Ids(items)
    ensures forall id :: id in found ==> found[id] == if id in Ids(items) then field else before[id]
  {
    found := before;
    for i := 0 to |items|
      invariant forall id :: id in found <==> id in before || id in Ids(items[..i])
      invariant forall id :: id in found ==> found[id] == if id in Ids(items[..i]) then field else before[id]
    {
      assert items[..i + 1] == items[..i] + [items[i]];
      SnocIds(items[..i], items[i]);
      if items[i].Ref? {
        found := found[items[i].id := field];
      }
    }
    assert items[..|items|] == items;
  }

  /** The question each stored reference belongs to. */
  method ReferencedIds(cleaned: map<FieldId, seq<Item>>) returns (found: map<Id, FieldId>)
    requires NamedOnce(cleaned)
    ensures Mentions(cleaned, found)
  {
    found := map[];
    var todo := cleaned.Keys;
    while todo != {}
      invariant todo <= cleaned.Keys
      invariant forall id :: id in found ==> found[id] in cleaned.Keys - todo && id in Ids(cleaned[found[id]])
      invariant forall f :: f in cleaned.Keys - todo ==> forall id :: id in Ids(cleaned[f]) ==>
          id in found && found[id] == f
      decreases todo
    {
      var field :| field in todo;
      ghost var before := found;
      found := AddReferences(found, field, cleaned[field]);
      forall f | f in cleaned.Keys - todo ensures forall id :: id in Ids(cleaned[f]) ==> id in found && found[id] == f {
        assert IdSet(cleaned[f]) !! IdSet(cleaned[field]);
        forall id | id in Ids(cleaned[f])
            ensures id in found && found[id] == f { assert id in IdSet(cleaned[f]) && id !in IdSet(cleaned[field]); }
      }
      todo := todo - {field};
    }
    forall f | f in cleaned ensures MentionsAt(cleaned[f], f, found) {}
  }

  lemma {:induction false} ChosenFrom(all: seq<Sent>, visible: set<FieldId>, n: nat, f: FieldId)
    requires n <= |all| && f in Chosen(all, visible, n)
    ensures f in visible && exists i :: 0 <= i < n && all[i].field == f && SentItems(all[i]) != []
  {
    if n == 0 {
    } else if f in Chosen(all, visible, n - 1) {
      ChosenFrom(all, visible, n - 1, f);
    }
  }

  lemma {:induction false} ChosenAt(all: seq<Sent>, visible: set<FieldId>, n: nat, i: nat)
    requires i < n <= |all| && OncePerQuestion(all) && all[i].field in visible && SentItems(all[i]) != []
    ensures Get(Chosen(all, visible, n), all[i].field) == Some(SentItems(all[i]))
  {
    if i < n - 1 { ChosenAt(all, visible, n - 1, i); }
  }

  /** A question's answer is stored exactly when it was sent, may be seen and holds something; and as it was sent. */
  lemma ChosenAre(all: seq<Sent>, visible: set<FieldId>)
    requires OncePerQuestion(all)
    ensures forall f :: f in Chosen(all, visible, |all|) <==>
        exists i :: 0 <= i < |all| && all[i].field == f && f in visible && SentItems(all[i]) != []
    ensures forall i :: 0 <= i < |all| && all[i].field in Chosen(all, visible, |all|) ==>
        Chosen(all, visible, |all|)[all[i].field] == SentItems(all[i])
  {
    forall i: nat | i < |all| && all[i].field in visible && SentItems(all[i]) != []
      ensures Get(Chosen(all, visible, |all|), all[i].field) == Some(SentItems(all[i])) {
      ChosenAt(all, visible, |all|, i);
    }
    forall f | f in Chosen(all, visible, |all|)
      ensures f in visible && exists i :: 0 <= i < |all| && all[i].field == f && SentItems(all[i]) != [] {
      ChosenFrom(all, visible, |all|, f);
    }
  }

  /** The upload is one that an answer to this question, which may be seen, refers to. */
  ghost predicate NamedFor(all: seq<Sent>, visible: set<FieldId>, id: Id, f: FieldId) {
    f in visible && exists i :: 0 <= i < |all| && all[i].field == f && RefersTo(all[i], id)
  }

  lemma WantedAre(all: seq<Sent>, visible: set<FieldId>, wanted: map<Id, FieldId>)
    requires OncePerQuestion(all) && Mentions(Chosen(all, visible, |all|), wanted)
    ensures forall id, f :: id in wanted && wanted[id] == f <==> NamedFor(all, visible, id, f)
  {
    var cleaned := Chosen(all, visible, |all|);
    ChosenAre(all, visible);
    forall i | 0 <= i < |all| ensures forall id :: RefersTo(all[i], id) <==> id in Ids(SentItems(all[i])) {
      RefersAre(all[i]);
    }
    forall id, f ensures id in wanted && wanted[id] == f <==> NamedFor(all, visible, id, f) {
      if id in wanted && wanted[id] == f {
        assert MentionsAt(cleaned[f], f, wanted);
      }
      if NamedFor(all, visible, id, f) {
        var i :| 0 <= i < |all| && all[i].field == f && RefersTo(all[i], id);
        assert f in cleaned && MentionsAt(cleaned[f], f, wanted);
      }
    }
  }
}
