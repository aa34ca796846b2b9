/**
 The difference between two snapshots of a form's definition, as it is shown to the people who edit it: empty exactly
 when they agree, and complete.
 */
module SnapshotDiff {
  import opened Lists
  import opened Options

  const PLAIN_KEYS := ["label", "type", "placeholder", "description", "is_required", "min_value", "max_value",
      "profile_field"]

  /** A question as a snapshot holds it. `None` is a null, and reads like an absent value. */
  datatype Question<V> = Question(
    id: Option<nat>, order: int, plain: map<string, Option<V>>, options: Option<seq<V>>, rows: Option<seq<V>>,
    rules: Option<map<string, Option<V>>>, condition: Option<map<string, V>>)

  datatype Snapshot<V> = Snapshot(settings: map<string, Option<V>>, questions: seq<Question<V>>)

  /** `text` is how a list entry is shown; `keys` are the settings that are compared. */
  datatype View<!V> = View(text: V -> string, keys: seq<string>)

  function Lookup<V>(m: map<string, Option<V>>, k: string): Option<V> {
    if k in m then m[k] else None
  }

  // ----- one question ------------------------------------------------------------------------------------------------

  datatype Change<V> =
    | Plain(key: string, before: Option<V>, after: Option<V>)
    | Entries(key: string, added: seq<string>, removed: seq<string>)
    | Reordered(key: string)
    | Rules(changed: set<string>)
    | Condition

  function Texts<V>(v: View<V>, list: seq<V>): seq<string> {
    seq(|list|, i requires 0 <= i < |list| => v.text(list[i]))
  }

  /** The entries of `a` that are not in `b`. */
  function Missing(a: seq<string>, b: seq<string>): seq<string> {
    if a == [] then [] else (if a[0] in b then [] else [a[0]]) + Missing(a[1..], b)
  }

  function PlainChanges<V(==)>(keys: seq<string>, before: map<string, Option<V>>, after: map<string,
          Option<V>>): seq<Change<V>> {
    if keys == [] then []
    else (if Lookup(before, keys[0]) == Lookup(after, keys[0]) then []
        else [Plain(keys[0], Lookup(before, keys[0]), Lookup(after, keys[0]))])
         + PlainChanges(keys[1..], before, after)
  }

  function ListChanges<V(==)>(v: View<V>, key: string, before: Option<seq<V>>, after: Option<seq<V>>): seq<Change<V>> {
    var (b, a) := (Texts(v, before.GetOr([])), Texts(v, after.GetOr([])));
    if Missing(a, b) != [] || Missing(b, a) != [] then [Entries(key, Missing(a, b), Missing(b, a))]
    else if before.GetOr([]) != after.GetOr([]) then [Reordered(key)]
    else []
  }

  function RulesChanged<V(==)>(before: map<string, Option<V>>, after: map<string, Option<V>>): set<string> {
    set k | k in before.Keys + after.Keys && Lookup(before, k) != Lookup(after, k)
  }

  function FieldChanges<V(==)>(v: View<V>, before: Question<V>, after: Question<V>): seq<Change<V>> {
    var rules := RulesChanged(before.rules.GetOr(map[]), after.rules.GetOr(map[]));
    PlainChanges(PLAIN_KEYS, before.plain, after.plain)
    + ListChanges(v, "options", before.options, after.options)
    + ListChanges(v, "rows", before.rows, after.rows)
    + (if rules == {} then [] else [Rules(rules)])
    + (if before.condition.GetOr(map[]) == after.condition.GetOr(map[]) then [] else [Condition])
  }

  /** The questions agree, order numbers aside, absent and empty being the same. */
  ghost predicate Agree<V>(before: Question<V>, after: Question<V>) {
    && (forall k :: k in PLAIN_KEYS ==> Lookup(before.plain, k) == Lookup(after.plain, k))
    && before.options.GetOr([]) == after.options.GetOr([]) && before.rows.GetOr([]) == after.rows.GetOr([])
    && (forall k :: Lookup(before.rules.GetOr(map[]), k) == Lookup(after.rules.GetOr(map[]), k))
    && before.condition.GetOr(map[]) == after.condition.GetOr(map[])
  }

  lemma {:induction false} MissingFromItself(a: seq<string>, b: seq<string>)
    requires forall i :: 0 <= i < |a| ==> a[i] in b
    ensures Missing(a, b) == []
  {
    if a == [] {
    } else {
      MissingFromItself(a[1..], b);
    }
  }

  lemma {:induction false} PlainChangesAre<V>(keys: seq<string>, before: map<string, Option<V>>, after: map<string,
          Option<V>>)
    ensures PlainChanges(keys, before, after) == [] <==> forall k :: k in keys ==> Lookup(before, k) == Lookup(after, k)
  {
    if keys == [] {
    } else {
      PlainChangesAre(keys[1..], before, after);
      assert forall k :: k in keys <==> k == keys[0] || k in keys[1..];
    }
  }

  lemma ListChangesAre<V>(v: View<V>, key: string, before: Option<seq<V>>, after: Option<seq<V>>)
    ensures ListChanges(v, key, before, after) == [] <==> before.GetOr([]) == after.GetOr([])
  {
    var (b, a) := (Texts(v, before.GetOr([])), Texts(v, after.GetOr([])));
    if before.GetOr([]) == after.GetOr([]) { MissingFromItself(a, b); }
  }

  /** A change is reported exactly when the questions disagree. */
  lemma ChangesAreDisagreements<V>(v: View<V>, before: Question<V>, after: Question<V>)
    ensures FieldChanges(v, before, after) == [] <==> Agree(before, after)
  {
    PlainChangesAre(PLAIN_KEYS, before.plain, after.plain);
    ListChangesAre(v, "options", before.options, after.options);
    ListChangesAre(v, "rows", before.rows, after.rows);
    var (b, a) := (before.rules.GetOr(map[]), after.rules.GetOr(map[]));
    assert RulesChanged(b, a) == {} <==> forall k :: Lookup(b, k) == Lookup(a, k) by {
      forall k | Lookup(b, k) != Lookup(a, k) ensures k in RulesChanged(b, a) {}
      forall k | k in RulesChanged(b, a) ensures Lookup(b, k) != Lookup(a, k) {}
    }
  }

  // ----- two snapshots -----------------------------------------------------------------------------------------------

  datatype Diff<V> = Diff(settings: seq<Change<V>>, added: seq<Question<V>>, removed: seq<Question<V>>,
      changed: seq<nat>, reordered: bool)

  function Ids<V>(qs: seq<Question<V>>): set<nat> {
    set i | 0 <= i < |qs| && qs[i].id.Some? :: qs[i].id.value
  }

  /** The settings that differ; one the older snapshot does not have was added later and does not count. */
  function SettingChanges<V(==)>(keys: seq<string>, before: map<string, Option<V>>, after: map<string,
          Option<V>>): seq<Change<V>> {
    if keys == [] then []
    else (if keys[0] !in before || before[keys[0]] == Lookup(after, keys[0]) then []
        else [Plain(keys[0], before[keys[0]], Lookup(after, keys[0]))])
         + SettingChanges(keys[1..], before, after)
  }

  /** The questions whose id is not among these, or that have none. */
  function Outside<V>(qs: seq<Question<V>>, ids: set<nat>): seq<Question<V>> {
    if qs == [] then []
    else
      var rest := Outside(qs[1..], ids);
      if qs[0].id.None? || qs[0].id.value !in ids then [qs[0]] + rest else rest
  }

  /** The ids among these, in the order of the questions. */
  function KeptIds<V>(qs: seq<Question<V>>, ids: set<nat>): seq<nat> {
    if qs == [] then []
    else
      var rest := KeptIds(qs[1..], ids);
      if qs[0].id.Some? && qs[0].id.value in ids then [qs[0].id.value] + rest else rest
  }

  /** The question with this id; of several, the last. */
  function ById<V>(qs: seq<Question<V>>, id: nat): Option<Question<V>> {
    if qs == [] then None
    else if qs[|qs| - 1].id == Some(id) then Some(qs[|qs| - 1])
    else ById(qs[..|qs| - 1], id)
  }

  predicate Altered<V(==)>(v: View<V>, before: seq<Question<V>>, q: Question<V>) {
    q.id.Some? && ById(before, q.id.value).Some? && FieldChanges(v, ById(before, q.id.value).value, q) != []
  }

  function ChangedIds<V(==)>(v: View<V>, before: seq<Question<V>>, after: seq<Question<V>>): seq<nat> {
    if after == [] then []
    else
      var rest := ChangedIds(v, before, after[1..]);
      if Altered(v, before, after[0]) then [after[0].id.value] + rest else rest
  }

  function DiffSnapshots<V(==)>(v: View<V>, before: Snapshot<V>, after: Snapshot<V>): Diff<V> {
    Diff(
      SettingChanges(v.keys, before.settings, after.settings),
      Outside(after.questions, Ids(before.questions)),
      Outside(before.questions, Ids(after.questions)),
      ChangedIds(v, before.questions, after.questions),
      KeptIds(before.questions, Ids(after.questions)) != KeptIds(after.questions, Ids(before.questions)))
  }

  predicate IsEmpty<V>(d: Diff<V>) {
    |d.settings| == 0 && |d.added| == 0 && |d.removed| == 0 && |d.changed| == 0 && !d.reordered
  }

  // ----- soundness and completeness ----------------------------------------------------------------------------------

  /** Every question has an id, and no two share one. */
  ghost predicate WithDistinctIds<V>(qs: seq<Question<V>>) {
    && (forall i :: 0 <= i < |qs| ==> qs[i].id.Some?)
    && (forall i, j :: 0 <= i < j < |qs| ==> qs[i].id != qs[j].id)
  }

  ghost predicate SettingsAgree<V>(v: View<V>, before: Snapshot<V>, after: Snapshot<V>) {
    forall k :: k in v.keys && k in before.settings ==> before.settings[k] == Lookup(after.settings, k)
  }

  /** The same questions in the same order, agreeing one by one. */
  ghost predicate QuestionsAgree<V>(before: seq<Question<V>>, after: seq<Question<V>>) {
    |before| == |after| && forall i :: 0 <= i < |before| ==> before[i].id == after[i].id && Agree(before[i], after[i])
  }

  lemma {:induction false} SettingChangesAre<V>(keys: seq<string>, before: map<string, Option<V>>, after: map<string,
          Option<V>>)
    ensures SettingChanges(keys, before, after) == [] <==>
        forall k :: k in keys && k in before ==> before[k] == Lookup(after, k)
  {
    if keys == [] {
    } else {
      SettingChangesAre(keys[1..], before, after);
      assert forall k :: k in keys <==> k == keys[0] || k in keys[1..];
    }
  }

  lemma {:induction false} OutsideNone<V>(qs: seq<Question<V>>, ids: set<nat>)
    ensures Outside(qs, ids) == [] <==> forall i :: 0 <= i < |qs| ==> qs[i].id.Some? && qs[i].id.value in ids
  {
    if qs == [] {
    } else {
      OutsideNone(qs[1..], ids);
      assert forall i :: 0 < i < |qs| ==> qs[i] == qs[1..][i - 1];
    }
  }

  function IdSeq<V>(qs: seq<Question<V>>): seq<nat>
    requires forall i :: 0 <= i < |qs| ==> qs[i].id.Some?
  {
    seq(|qs|, i requires 0 <= i < |qs| => qs[i].id.value)
  }

  lemma {:induction false} KeptAll<V>(qs: seq<Question<V>>, ids: set<nat>)
    requires forall i :: 0 <= i < |qs| ==> qs[i].id.Some? && qs[i].id.value in ids
    ensures KeptIds(qs, ids) == IdSeq(qs)
  {
    if qs == [] {
    } else {
      KeptAll(qs[1..], ids);
      assert IdSeq(qs) == [qs[0].id.value] + IdSeq(qs[1..]);
    }
  }

  lemma {:induction false} ByIdAt<V>(qs: seq<Question<V>>, i: nat)
    requires WithDistinctIds(qs) && i < |qs|
    ensures ById(qs, qs[i].id.value) == Some(qs[i])
  {
    if i == |qs| - 1 {
    } else {
      var before := qs[..|qs| - 1];
      assert WithDistinctIds(before) by { assert forall j :: 0 <= j < |before| ==> before[j] == qs[j]; }
      ByIdAt(before, i);
    }
  }

  lemma {:induction false} NothingChanged<V>(v: View<V>, before: seq<Question<V>>, after: seq<Question<V>>)
    ensures ChangedIds(v, before, after) == [] <==> forall i :: 0 <= i < |after| ==> !Altered(v, before, after[i])
  {
    if after == [] {
    } else {
      NothingChanged(v, before, after[1..]);
      assert forall i :: 0 < i < |after| ==> after[i] == after[1..][i - 1];
    }
  }

  lemma SameIdsUnlessReordered<V>(before: seq<Question<V>>, after: seq<Question<V>>)
    requires WithDistinctIds(before) && WithDistinctIds(after)
    ensures (Outside(after, Ids(before)) == [] && Outside(before, Ids(after)) == []
             && KeptIds(before, Ids(after)) == KeptIds(after, Ids(before)))
            <==> IdSeq(before) == IdSeq(after)
  {
    OutsideNone(after, Ids(before));
    OutsideNone(before, Ids(after));
    if IdSeq(before) == IdSeq(after) {
      forall i | 0 <= i < |before| ensures before[i].id == after[i].id { assert IdSeq(before)[i] == IdSeq(after)[i]; }
    }
    if (forall i :: 0 <= i < |before| ==> before[i].id.value in Ids(after))
        && (forall i :: 0 <= i < |after| ==> after[i].id.value in Ids(before)) {
      KeptAll(before, Ids(after));
      KeptAll(after, Ids(before));
    }
  }

  lemma UnchangedAgree<V>(v: View<V>, before: seq<Question<V>>, after: seq<Question<V>>)
    requires WithDistinctIds(before) && WithDistinctIds(after) && IdSeq(before) == IdSeq(after)
    ensures ChangedIds(v, before, after) == [] <==> QuestionsAgree(before, after)
  {
    NothingChanged(v, before, after);
    forall i | 0 <= i < |after|
        ensures before[i].id == after[i].id && (Altered(v, before, after[i]) <==> !Agree(before[i], after[i])) {
      assert IdSeq(before)[i] == IdSeq(after)[i];
      ByIdAt(before, i);
      ChangesAreDisagreements(v, before[i], after[i]);
    }
  }

  /** The main result: the difference is empty exactly when settings and questions agree. */
  lemma EmptyMeansSame<V>(v: View<V>, before: Snapshot<V>, after: Snapshot<V>)
    requires WithDistinctIds(before.questions) && WithDistinctIds(after.questions)
    ensures IsEmpty(DiffSnapshots(v, before, after)) <==>
        SettingsAgree(v, before, after) && QuestionsAgree(before.questions, after.questions)
  {
    SettingChangesAre(v.keys, before.settings, after.settings);
    SameIdsUnlessReordered(before.questions, after.questions);
    if IdSeq(before.questions) == IdSeq(after.questions) {
      UnchangedAgree(v, before.questions, after.questions);
    }
    assert QuestionsAgree(before.questions, after.questions) ==> IdSeq(before.questions) == IdSeq(after.questions);
  }

  lemma {:induction false} OutsideOrKept<V>(qs: seq<Question<V>>, ids: set<nat>, id: nat)
    ensures id in Ids(Outside(qs, ids)) <==> id in Ids(qs) && id !in ids
    ensures id in KeptIds(qs, ids) <==> id in Ids(qs) && id in ids
  {
    if qs == [] {
    } else {
      OutsideOrKept(qs[1..], ids, id);
      IdsOfRest(qs, id);
      if qs[0].id.None? || qs[0].id.value !in ids { IdsOfRest([qs[0]] + Outside(qs[1..], ids), id); }
    }
  }

  lemma IdsOfRest<V>(qs: seq<Question<V>>, id: nat)
    requires qs != []
    ensures id in Ids(qs) <==> qs[0].id == Some(id) || id in Ids(qs[1..])
  {
    if id in Ids(qs[1..]) {
      var i :| 0 <= i < |qs[1..]| && qs[1..][i].id == Some(id);
      assert qs[i + 1].id == Some(id);
    }
    if id in Ids(qs) && qs[0].id != Some(id) {
      var i :| 0 <= i < |qs| && qs[i].id == Some(id);
      assert qs[1..][i - 1].id == Some(id);
    }
  }

  /**
   Removed and kept questions are all those of the older snapshot, added and kept ones all those of the newer, and
   nothing is in two groups.
   */
  lemma GroupsPartition<V>(v: View<V>, before: Snapshot<V>, after: Snapshot<V>, id: nat)
    ensures var d := DiffSnapshots(v, before, after);
      var kept := KeptIds(before.questions, Ids(after.questions));
      && (id in Ids(before.questions) <==> id in Ids(d.removed) || id in kept)
      && (id in Ids(after.questions) <==> id in Ids(d.added) || id in kept)
      && !(id in Ids(d.removed) && id in kept) && !(id in Ids(d.added) && id in kept)
          && !(id in Ids(d.added) && id in Ids(d.removed))
  {
    OutsideOrKept(before.questions, Ids(after.questions), id);
    OutsideOrKept(after.questions, Ids(before.questions), id);
  }

  // ----- what is reported, entry by entry ----------------------------------------------------------------------------

  function IfNew(others: seq<string>): string -> Option<string> {
    (s: string) => if s in others then None else Some(s)
  }

  /** A value that reads differently, absent and null being the same. */
  function IfDiffers<V(==)>(before: map<string, Option<V>>, after: map<string, Option<V>>):
    string -> Option<Change<V>>
  {
    (k: string) =>
      var (b, a) := (if k in before then before[k] else None, if k in after then after[k] else None);
      if b == a then None else Some(Plain(k, b, a))
  }

  /** A setting the older snapshot has, when it reads differently. */
  function IfSettingDiffers<V(==)>(before: map<string, Option<V>>, after: map<string, Option<V>>):
    string -> Option<Change<V>>
  {
    (k: string) =>
      var a := if k in after then after[k] else None;
      if k !in before || before[k] == a then None else Some(Plain(k, before[k], a))
  }

  predicate HasId<V>(qs: seq<Question<V>>, id: nat) {
    exists i :: 0 <= i < |qs| && qs[i].id == Some(id)
  }

  function IfNotIn<V>(others: seq<Question<V>>): Question<V> -> Option<Question<V>> {
    (q: Question<V>) => if q.id.Some? && HasId(others, q.id.value) then None else Some(q)
  }

  function IdIfIn<V>(others: seq<Question<V>>): Question<V> -> Option<nat> {
    (q: Question<V>) => if q.id.Some? && HasId(others, q.id.value) then q.id else None
  }

  /** Of the questions with this id the one at i comes last. */
  ghost predicate LastWith<V>(qs: seq<Question<V>>, i: nat, id: nat) {
    i < |qs| && qs[i].id == Some(id) && forall j :: i < j < |qs| ==> qs[j].id != Some(id)
  }

  /** The question was there before, and was different. */
  ghost predicate WasDifferent<V>(before: seq<Question<V>>, q: Question<V>) {
    q.id.Some? && exists i: nat :: LastWith(before, i, q.id.value) && !Agree(before[i], q)
  }

  ghost function IdIfDifferent<V>(before: seq<Question<V>>): Question<V> -> Option<nat> {
    (q: Question<V>) => if WasDifferent(before, q) then q.id else None
  }

  lemma {:induction false} MissingIs(a: seq<string>, b: seq<string>)
    ensures Selected(a, Missing(a, b), IfNew(b))
  {
    if a == [] {
    } else {
      MissingIs(a[1..], b);
      SelectedCons(a[0], a[1..], Missing(a[1..], b), IfNew(b));
      assert [a[0]] + a[1..] == a;
    }
  }

  lemma {:induction false} PlainIs<V>(keys: seq<string>, before: map<string, Option<V>>, after: map<string, Option<V>>)
    ensures Selected(keys, PlainChanges(keys, before, after), IfDiffers(before, after))
  {
    if keys == [] {
    } else {
      PlainIs(keys[1..], before, after);
      SelectedCons(keys[0], keys[1..], PlainChanges(keys[1..], before, after), IfDiffers(before, after));
      assert [keys[0]] + keys[1..] == keys;
    }
  }

  lemma {:induction false} SettingsAre<V>(keys: seq<string>, before: map<string, Option<V>>,
                                          after: map<string, Option<V>>)
    ensures Selected(keys, SettingChanges(keys, before, after), IfSettingDiffers(before, after))
  {
    if keys == [] {
    } else {
      SettingsAre(keys[1..], before, after);
      SelectedCons(keys[0], keys[1..], SettingChanges(keys[1..], before, after), IfSettingDiffers(before, after));
      assert [keys[0]] + keys[1..] == keys;
    }
  }

  lemma {:induction false} OutsideIs<V>(qs: seq<Question<V>>, others: seq<Question<V>>)
    ensures Selected(qs, Outside(qs, Ids(others)), IfNotIn(others))
    ensures Selected(qs, KeptIds(qs, Ids(others)), IdIfIn(others))
  {
    if qs == [] {
    } else {
      OutsideIs(qs[1..], others);
      SelectedCons(qs[0], qs[1..], Outside(qs[1..], Ids(others)), IfNotIn(others));
      SelectedCons(qs[0], qs[1..], KeptIds(qs[1..], Ids(others)), IdIfIn(others));
      assert [qs[0]] + qs[1..] == qs;
      assert forall id :: id in Ids(others) <==> HasId(others, id);
    }
  }

  lemma {:induction false} ByIdIs<V>(qs: seq<Question<V>>, id: nat)
    ensures ById(qs, id).Some? ==> exists i: nat :: LastWith(qs, i, id) && ById(qs, id) == Some(qs[i])
    ensures forall i: nat :: LastWith(qs, i, id) ==> ById(qs, id) == Some(qs[i])
  {
    if qs == [] {
    } else {
      var n: nat := |qs| - 1;
      ByIdIs(qs[..n], id);
      if qs[n].id == Some(id) {
        assert LastWith(qs, n, id);
      } else {
        forall i: nat ensures LastWith(qs, i, id) <==> LastWith(qs[..n], i, id) {}
      }
    }
  }

  lemma AlteredIs<V>(v: View<V>, before: seq<Question<V>>, q: Question<V>)
    ensures Altered(v, before, q) <==> WasDifferent(before, q)
  {
    if q.id.Some? {
      ByIdIs(before, q.id.value);
      var was := ById(before, q.id.value);
      if was.Some? {
        ChangesAreDisagreements(v, was.value, q);
        var i: nat :| LastWith(before, i, q.id.value) && was == Some(before[i]);
      }
    }
  }

  lemma {:induction false} ChangedIs<V>(v: View<V>, before: seq<Question<V>>, after: seq<Question<V>>)
    ensures Selected(after, ChangedIds(v, before, after), IdIfDifferent(before))
  {
    if after == [] {
    } else {
      ChangedIs(v, before, after[1..]);
      AlteredIs(v, before, after[0]);
      SelectedCons(after[0], after[1..], ChangedIds(v, before, after[1..]), IdIfDifferent(before));
      assert [after[0]] + after[1..] == after;
    }
  }

  /** The entries that came and went, or that only the order changed. */
  ghost predicate ListReported<V>(v: View<V>, key: string, before: seq<V>, after: seq<V>, reported: seq<Change<V>>) {
    exists added, removed ::
      && Selected(Texts(v, after), added, IfNew(Texts(v, before)))
      && Selected(Texts(v, before), removed, IfNew(Texts(v, after)))
      && reported == if added != [] || removed != [] then [Entries(key, added, removed)]
                     else if before != after then [Reordered(key)] else []
  }

  lemma ListIsReported<V>(v: View<V>, key: string, before: Option<seq<V>>, after: Option<seq<V>>)
    ensures ListReported(v, key, before.GetOr([]), after.GetOr([]), ListChanges(v, key, before, after))
  {
    var (b, a) := (Texts(v, before.GetOr([])), Texts(v, after.GetOr([])));
    MissingIs(a, b);
    MissingIs(b, a);
  }

  /** Every part of a question that changed is reported, in this order. */
  ghost predicate Reported<V>(v: View<V>, before: Question<V>, after: Question<V>, plain: seq<Change<V>>,
                              options: seq<Change<V>>, rows: seq<Change<V>>, rules: set<string>,
                              changes: seq<Change<V>>) {
    && Selected(PLAIN_KEYS, plain, IfDiffers(before.plain, after.plain))
    && ListReported(v, "options", before.options.GetOr([]), after.options.GetOr([]), options)
    && ListReported(v, "rows", before.rows.GetOr([]), after.rows.GetOr([]), rows)
    && RulesReported(before.rules.GetOr(map[]), after.rules.GetOr(map[]), rules)
    && changes == plain + options + rows + (if rules == {} then [] else [Rules(rules)])
         + (if before.condition.GetOr(map[]) == after.condition.GetOr(map[]) then [] else [Condition])
  }

  ghost predicate RulesReported<V>(before: map<string, Option<V>>, after: map<string, Option<V>>, rules: set<string>) {
    forall k :: k in rules <==> (if k in before then before[k] else None) != (if k in after then after[k] else None)
  }

  lemma RulesAreReported<V>(before: map<string, Option<V>>, after: map<string, Option<V>>)
    ensures RulesReported(before, after, RulesChanged(before, after))
  {
  }

  lemma ChangesAreReported<V>(v: View<V>, before: Question<V>, after: Question<V>)
    ensures exists plain, options, rows, rules ::
        Reported(v, before, after, plain, options, rows, rules, FieldChanges(v, before, after))
  {
    PlainIs(PLAIN_KEYS, before.plain, after.plain);
    ListIsReported(v, "options", before.options, after.options);
    ListIsReported(v, "rows", before.rows, after.rows);
    RulesAreReported(before.rules.GetOr(map[]), after.rules.GetOr(map[]));
    assert Reported(v, before, after, PlainChanges(PLAIN_KEYS, before.plain, after.plain),
                    ListChanges(v, "options", before.options, after.options),
                    ListChanges(v, "rows", before.rows, after.rows),
                    RulesChanged(before.rules.GetOr(map[]), after.rules.GetOr(map[])), FieldChanges(v, before, after));
  }

  /** What the difference lists: every group exactly, in the order of the questions. */
  lemma DiffLists<V>(v: View<V>, before: Snapshot<V>, after: Snapshot<V>)
    ensures var d := DiffSnapshots(v, before, after);
      && Selected(v.keys, d.settings, IfSettingDiffers(before.settings, after.settings))
      && Selected(after.questions, d.added, IfNotIn(before.questions))
      && Selected(before.questions, d.removed, IfNotIn(after.questions))
      && Selected(after.questions, d.changed, IdIfDifferent(before.questions))
      && exists was, now ::
           && Selected(before.questions, was, IdIfIn(after.questions))
           && Selected(after.questions, now, IdIfIn(before.questions)) && (d.reordered <==> was != now)
  {
    SettingsAre(v.keys, before.settings, after.settings);
    OutsideIs(after.questions, before.questions);
    OutsideIs(before.questions, after.questions);
    ChangedIs(v, before.questions, after.questions);
  }
}
