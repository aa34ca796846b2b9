/**
 Choice questions whose options have a limited number of places: how places are counted, and what a check of every new
 answer keeps over any run.
 */
module OptionLimits {
  import opened Lists
  import opened Options

  /** An answer's items; an item may be missing. */
  type Items = seq<Option<string>>

  /** The answer one response has stored for the question. */
  datatype Stored = Stored(response: nat, items: Items)

  /** `key` is what option texts are compared by (trimmed, lower case); `caps` are the limits by key. */
  datatype Question = Question(key: string -> string, caps: map<string, int>)

  // ----- counting ----------------------------------------------------------------------------------------------------

  /** How often the items name the option. */
  function Times(q: Question, items: Items, option: string): nat {
    if items == [] then 0
    else
      var last := items[|items| - 1];
      Times(q, items[..|items| - 1], option) + if last.Some? && q.key(last.value) == option then 1 else 0
  }

  function Count(q: Question, rows: seq<Stored>, option: string): nat {
    if rows == [] then 0 else Count(q, rows[..|rows| - 1], option) + Times(q, rows[|rows| - 1].items, option)
  }

  /** How many responses chose the option. */
  function Choosers(q: Question, rows: seq<Stored>, option: string): nat {
    if rows == [] then 0
    else Choosers(q, rows[..|rows| - 1], option) + if Times(q, rows[|rows| - 1].items, option) > 0 then 1 else 0
  }

  function Others(rows: seq<Stored>, response: Option<nat>): seq<Stored> {
    if rows == [] then []
    else
      var (rest, last) := (Others(rows[..|rows| - 1], response), rows[|rows| - 1]);
      if Some(last.response) == response then rest else rest + [last]
  }

  /** What the check compares an item by; a missing one reads as the word for it. */
  function CheckedKey(q: Question, item: Option<string>): string {
    q.key(item.GetOr("None"))
  }

  predicate HasPlace(q: Question, rows: seq<Stored>, option: string) {
    option in q.caps ==> Count(q, rows, option) < q.caps[option]
  }

  /** The check on a new answer, or on the changed answer of a response. */
  predicate Passes(q: Question, rows: seq<Stored>, response: Option<nat>, items: Items) {
    forall i :: 0 <= i < |items| ==> HasPlace(q, Others(rows, response), CheckedKey(q, items[i]))
  }

  // ----- the counts as numbers of places and of responses ----------------------------------------------------------

  /** The item at one place of one row. */
  datatype Place = Place(row: nat, item: nat)

  ghost predicate NamesAt(q: Question, items: Items, i: nat, option: string) {
    i < |items| && items[i].Some? && q.key(items[i].value) == option
  }

  /** Where the option is named in the rows of other responses. */
  ghost function Places(q: Question, rows: seq<Stored>, response: Option<nat>, option: string): set<Place> {
    set r: nat, i: nat |
      && r < |rows| && i < |rows[r].items|
      && Some(rows[r].response) != response && NamesAt(q, rows[r].items, i, option) :: Place(r, i)
  }

  ghost function PlacesIn(q: Question, items: Items, option: string, r: nat): set<Place> {
    set i: nat | i < |items| && NamesAt(q, items, i, option) :: Place(r, i)
  }

  lemma {:induction false} TimesIs(q: Question, items: Items, option: string, r: nat)
    ensures Times(q, items, option) == |PlacesIn(q, items, option, r)|
  {
    if items == [] {
    } else {
      var n := |items| - 1;
      TimesIs(q, items[..n], option, r);
      assert PlacesIn(q, items, option, r)
          == PlacesIn(q, items[..n], option, r) + if NamesAt(q, items, n, option) then {Place(r, n)} else {};
    }
  }

  /** The count is the number of places, in other responses, that name the option. */
  lemma {:induction false} CountIs(q: Question, rows: seq<Stored>, response: Option<nat>, option: string)
    ensures Count(q, Others(rows, response), option) == |Places(q, rows, response, option)|
  {
    if rows == [] {
      assert Places(q, rows, response, option) == {};
    } else {
      var (n, last) := (|rows| - 1, rows[|rows| - 1]);
      CountIs(q, rows[..n], response, option);
      TimesIs(q, last.items, option, n);
      var rest := Others(rows[..n], response);
      assert (rest + [last])[..|rest|] == rest;
      PlacesSnoc(q, rows, response, option);
    }
  }

  lemma PlacesSnoc(q: Question, rows: seq<Stored>, response: Option<nat>, option: string)
    requires rows != []
    ensures var (n, last) := (|rows| - 1, rows[|rows| - 1]);
      |Places(q, rows, response, option)| == |Places(q, rows[..n], response, option)|
        + if Some(last.response) != response then |PlacesIn(q, last.items, option, n)| else 0
  {
    var (n, last) := (|rows| - 1, rows[|rows| - 1]);
    var (before, added) := (Places(q, rows[..n], response, option), PlacesIn(q, last.items, option, n));
    assert forall r: nat :: r < n ==> rows[..n][r] == rows[r];
    assert Places(q, rows, response, option) == before + if Some(last.response) != response then added else {};
    assert before !! added;
  }

  ghost predicate Chooses(q: Question, items: Items, option: string) {
    exists i: nat :: NamesAt(q, items, i, option)
  }

  /** The rows that name the option. */
  ghost function Choosing(q: Question, rows: seq<Stored>, option: string): set<nat> {
    set r: nat | r < |rows| && Chooses(q, rows[r].items, option)
  }

  /** How many responses chose the option is the number of rows that name it. */
  lemma {:induction false} ChoosersIs(q: Question, rows: seq<Stored>, option: string)
    ensures Choosers(q, rows, option) == |Choosing(q, rows, option)|
  {
    if rows == [] {
    } else {
      var n := |rows| - 1;
      ChoosersIs(q, rows[..n], option);
      TimesPositive(q, rows[n].items, option);
      ChoosingSnoc(q, rows, option);
    }
  }

  lemma ChoosingSnoc(q: Question, rows: seq<Stored>, option: string)
    requires rows != []
    ensures var n := |rows| - 1;
      |Choosing(q, rows, option)|
        == |Choosing(q, rows[..n], option)| + if Chooses(q, rows[n].items, option) then 1 else 0
  {
    var n: nat := |rows| - 1;
    assert forall r: nat :: r < n ==> rows[..n][r] == rows[r];
    assert Choosing(q, rows, option)
        == Choosing(q, rows[..n], option) + if Chooses(q, rows[n].items, option) then {n} else {};
  }

  lemma {:induction false} TimesPositive(q: Question, items: Items, option: string)
    ensures Times(q, items, option) > 0 <==> Chooses(q, items, option)
  {
    if items == [] {
    } else {
      var n := |items| - 1;
      TimesPositive(q, items[..n], option);
      forall i: nat ensures NamesAt(q, items, i, option)
          <==> NamesAt(q, items[..n], i, option) || (i == n && NamesAt(q, items, n, option)) {}
      if NamesAt(q, items, n, option) {
      } else if Chooses(q, items, option) {
        var i: nat :| NamesAt(q, items, i, option);
        assert NamesAt(q, items[..n], i, option);
      }
    }
  }

  /** The item, when its option is limited and all its places are taken by other responses. */
  ghost function IfFull(q: Question, rows: seq<Stored>, response: Option<nat>): Option<string> -> Option<Option<string>>
  {
    (item: Option<string>) =>
      var option := q.key(if item.Some? then item.value else "None");
      if option in q.caps && |Places(q, rows, response, option)| >= q.caps[option] then Some(item) else None
  }

  /** Adds the items of one answer to the counts. */
  method CountItems(q: Question, items: Items, before: map<string, nat>) returns (counts: map<string, nat>)
    ensures forall option :: Get(counts, option).GetOr(0) == Get(before, option).GetOr(0) + Times(q, items, option)
  {
    counts := before;
    for i := 0 to |items|
      invariant forall option ::
          Get(counts, option).GetOr(0) == Get(before, option).GetOr(0) + Times(q, items[..i], option)
    {
      assert items[..i + 1][..i] == items[..i];
      if items[i].Some? {
        var option := q.key(items[i].value);
        counts := counts[option := Get(counts, option).GetOr(0) + 1];
      }
    }
    assert items[..|items|] == items;
  }

  lemma CountSnoc(q: Question, rows: seq<Stored>, exclude: Option<nat>, n: nat, option: string)
    requires n < |rows|
    ensures Count(q, Others(rows[..n + 1], exclude), option) == Count(q, Others(rows[..n], exclude), option)
        + if Some(rows[n].response) == exclude then 0 else Times(q, rows[n].items, option)
  {
    var before := Others(rows[..n], exclude);
    assert rows[..n + 1][..n] == rows[..n];
    assert (before + [rows[n]])[..|before|] == before;
  }

  method OptionCounts(q: Question, rows: seq<Stored>, exclude: Option<nat>) returns (counts: map<string, nat>)
    ensures forall option :: Get(counts, option).GetOr(0) == Count(q, Others(rows, exclude), option)
  {
    counts := map[];
    for n := 0 to |rows|
      invariant forall option :: Get(counts, option).GetOr(0) == Count(q, Others(rows[..n], exclude), option)
    {
      forall option ensures Count(q, Others(rows[..n + 1], exclude), option)
          == Count(q, Others(rows[..n], exclude), option)
             + if Some(rows[n].response) == exclude then 0 else Times(q, rows[n].items, option) {
        CountSnoc(q, rows, exclude, n, option);
      }
      if Some(rows[n].response) != exclude {
        counts := CountItems(q, rows[n].items, counts);
      }
    }
    assert rows[..|rows|] == rows;
  }

  /** The item, when its option has no place. */
  function IfNoPlace(q: Question, rows: seq<Stored>, response: Option<nat>): Option<string> -> Option<Option<string>> {
    (item: Option<string>) => if HasPlace(q, Others(rows, response), CheckedKey(q, item)) then None else Some(item)
  }

  lemma FullMeans(q: Question, rows: seq<Stored>, response: Option<nat>, items: Items, full: seq<Option<string>>)
    requires Selected(items, full, IfNoPlace(q, rows, response))
    ensures Selected(items, full, IfFull(q, rows, response))
  {
    forall i | 0 <= i < |items|
      ensures IfNoPlace(q, rows, response)(items[i]) == IfFull(q, rows, response)(items[i]) {
      CountIs(q, rows, response, CheckedKey(q, items[i]));
    }
    SelectedAlike(items, full, IfNoPlace(q, rows, response), IfFull(q, rows, response));
  }

  method CheckOptionCapacity(q: Question, rows: seq<Stored>, response: Option<nat>, items: Items)
          returns (full: seq<Option<string>>)
    ensures full == [] <==> Passes(q, rows, response, items)
    ensures Selected(items, full, IfFull(q, rows, response))
    ensures forall item :: item in full ==> item in items && !HasPlace(q, Others(rows, response), CheckedKey(q, item))
  {
    var counts := OptionCounts(q, rows, response);
    full := [];
    for i := 0 to |items|
      invariant full == [] <==> forall j :: 0 <= j < i ==> HasPlace(q, Others(rows, response), CheckedKey(q, items[j]))
      invariant forall item :: item in full ==>
          item in items && !HasPlace(q, Others(rows, response), CheckedKey(q, item))
      invariant Selected(items[..i], full, IfNoPlace(q, rows, response))
    {
      var option := CheckedKey(q, items[i]);
      SelectedSnoc(items[..i], full, IfNoPlace(q, rows, response), items[i]);
      assert items[..i + 1] == items[..i] + [items[i]];
      if option in q.caps && Get(counts, option).GetOr(0) >= q.caps[option] {
        full := full + [items[i]];
      }
    }
    assert items[..|items|] == items;
    FullMeans(q, rows, response, items, full);
  }

  /**
   The places left for every limited option: a positive number exactly when a new answer choosing it alone would pass.
   */
  method Availability(q: Question, rows: seq<Stored>, options: seq<string>) returns (left: map<string, nat>)
    ensures forall option :: option in left <==> option in options && q.key(option) in q.caps
    ensures forall option :: option in left ==> (left[option] > 0 <==> Passes(q, rows, None, [Some(option)]))
    ensures forall option :: option in left && left[option] > 0 ==>
        Count(q, rows, q.key(option)) + left[option] == q.caps[q.key(option)]
    ensures forall option :: option in left ==>
      var taken := |Places(q, rows, None, q.key(option))|;
      left[option] == if q.caps[q.key(option)] < taken then 0 else q.caps[q.key(option)] - taken
  {
    var counts := OptionCounts(q, rows, None);
    OthersOfNone(rows);
    left := map[];
    for i := 0 to |options|
      invariant forall option :: option in left <==> option in options[..i] && q.key(option) in q.caps
      invariant forall option :: option in left ==>
                  left[option] == if q.caps[q.key(option)] < Count(q, rows, q.key(option)) then 0
                      else q.caps[q.key(option)] - Count(q, rows, q.key(option))
    {
      var option := options[i];
      if q.key(option) in q.caps {
        var room := q.caps[q.key(option)] - Get(counts, q.key(option)).GetOr(0);
        left := left[option := if room > 0 then room else 0];
      }
    }
    forall option ensures Count(q, rows, option) == |Places(q, rows, None, option)| { CountIs(q, rows, None, option); }
    forall option | option in left ensures left[option] > 0 <==> Passes(q, rows, None, [Some(option)]) {
      assert CheckedKey(q, [Some(option)][0]) == q.key(option);
      assert Passes(q, rows, None, [Some(option)]) <==> HasPlace(q, rows, q.key(option));
    }
  }

  lemma {:induction false} OthersOfNone(rows: seq<Stored>)
    ensures Others(rows, None) == rows
  {
    if rows == [] {
    } else {
      OthersOfNone(rows[..|rows| - 1]);
    }
  }

  // ----- over any run ------------------------------------------------------------------------------------------------

  /** A submission or an edit that has to pass the check, and a deleted response. */
  datatype Step = Answer(response: nat, items: Items) | Withdraw(response: nat)

  function Apply(q: Question, rows: seq<Stored>, step: Step): seq<Stored> {
    match step
    case Answer(r, items) =>
      if Passes(q, rows, Some(r), items) then Others(rows, Some(r)) + [Stored(r, items)] else rows
    case Withdraw(r) => Others(rows, Some(r))
  }

  function Run(q: Question, steps: seq<Step>): seq<Stored> {
    if steps == [] then [] else Apply(q, Run(q, steps[..|steps| - 1]), steps[|steps| - 1])
  }

  lemma {:induction false} FewerOthers(q: Question, rows: seq<Stored>, response: Option<nat>, option: string)
    ensures Choosers(q, Others(rows, response), option) <= Choosers(q, rows, option)
    ensures Count(q, Others(rows, response), option) <= Count(q, rows, option)
  {
    if rows == [] {
    } else {
      FewerOthers(q, rows[..|rows| - 1], response, option);
      var rest := Others(rows[..|rows| - 1], response);
      assert (rest + [rows[|rows| - 1]])[..|rest|] == rest;
    }
  }

  lemma {:induction false} ChoosersCounted(q: Question, rows: seq<Stored>, option: string)
    ensures Choosers(q, rows, option) <= Count(q, rows, option)
  {
    if rows == [] {
    } else {
      ChoosersCounted(q, rows[..|rows| - 1], option);
    }
  }

  lemma {:induction false} NamedSomewhere(q: Question, items: Items, option: string)
    ensures Times(q, items, option) > 0 ==> exists i ::
        0 <= i < |items| && items[i].Some? && q.key(items[i].value) == option
  {
    if items == [] {
    } else {
      NamedSomewhere(q, items[..|items| - 1], option);
    }
  }

  /**
   No limited option is ever chosen by more responses than its limit, whatever is submitted, changed and withdrawn.
   */
  lemma {:induction false} LimitsHold(q: Question, steps: seq<Step>, option: string)
    requires option in q.caps && q.caps[option] >= 0
    ensures Choosers(q, Run(q, steps), option) <= q.caps[option]
    ensures |Choosing(q, Run(q, steps), option)| <= q.caps[option]
  {
    ChoosersIs(q, Run(q, steps), option);
    if steps == [] {
    } else {
      var rows := Run(q, steps[..|steps| - 1]);
      var step := steps[|steps| - 1];
      LimitsHold(q, steps[..|steps| - 1], option);
      FewerOthers(q, rows, Some(step.response), option);
      if step.Answer? && Passes(q, rows, Some(step.response), step.items) {
        var rest := Others(rows, Some(step.response));
        assert (rest + [Stored(step.response, step.items)])[..|rest|] == rest;
        ChoosersCounted(q, rest, option);
        NamedSomewhere(q, step.items, option);
        if Times(q, step.items, option) > 0 {
          var i :| 0 <= i < |step.items| && step.items[i].Some? && q.key(step.items[i].value) == option;
          assert HasPlace(q, rest, CheckedKey(q, step.items[i]));
        }
      }
    }
  }

  /** The count agrees with the number of responses exactly when no answer repeats the option. */
  lemma {:induction false} CountIsChoosers(q: Question, rows: seq<Stored>, option: string)
    ensures Count(q, rows, option) == Choosers(q, rows, option) <==>
        forall i :: 0 <= i < |rows| ==> Times(q, rows[i].items, option) <= 1
  {
    if rows == [] {
    } else {
      CountIsChoosers(q, rows[..|rows| - 1], option);
      ChoosersCounted(q, rows[..|rows| - 1], option);
      assert forall i :: 0 <= i < |rows| - 1 ==> rows[..|rows| - 1][i] == rows[i];
    }
  }

  /** A repeated choice passes a check that looks at every item by itself, and then takes two places. */
  lemma RepeatTakesTwoPlaces(q: Question, option: string)
    requires q.key(option) in q.caps && q.caps[q.key(option)] == 1
    ensures var rows := Run(q, [Answer(1, [Some(option), Some(option)])]);
      Choosers(q, rows, q.key(option)) == 1 && Count(q, rows, q.key(option)) == 2
  {
    var items := [Some(option), Some(option)];
    var steps := [Answer(1, items)];
    assert steps[..|steps| - 1] == [] && Run(q, steps) == Apply(q, [], steps[0]);
    assert forall i :: 0 <= i < |items| ==> items[i] == Some(option);
    var rows := Run(q, steps);
    assert rows == [] + [Stored(1, items)] && rows[..|rows| - 1] == [];
    assert items[..|items| - 1] == [Some(option)] && [Some(option)][..0] == [];
    assert Times(q, [Some(option)], q.key(option)) == 1;
  }
}
