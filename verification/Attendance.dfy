/**
 A form's attendance sessions, regenerated from its settings without ever losing one that has scans, whatever settings
 and scans come in between.
 */
module Attendance {
  import opened Options

  type Day = int

  datatype Slot = Morning | Afternoon | Evening

  datatype Key = Key(day: nat, slot: Slot)

  datatype Moment = Moment(date: Day, hour: nat)

  datatype Session = Session(date: Day, opens: Moment, closes: Moment)

  datatype Config = Config(enabled: bool, start: Option<Day>, days: nat, perDay: nat)

  function Labels(perDay: nat): seq<Slot> {
    if perDay == 2 then [Morning, Afternoon] else if perDay == 3 then [Morning, Afternoon, Evening] else [Morning]
  }

  function SessionOn(date: Day, slot: Slot): Session {
    match slot
    case Morning => Session(date, Moment(date, 9), Moment(date, 12))
    case Afternoon => Session(date, Moment(date, 13), Moment(date, 16))
    case Evening => Session(date, Moment(date, 17), Moment(date, 20))
  }

  /** The settings call for a session at this day and slot. */
  predicate Wanted(c: Config, k: Key) {
    c.enabled && c.start.Some? && k.day < c.days && k.slot in Labels(c.perDay)
  }

  /** Exactly the sessions the settings call for, at the right times. */
  ghost predicate Matches(c: Config, desired: map<Key, Session>) {
    && (forall k :: k in desired <==> Wanted(c, k))
    && (forall k :: k in desired ==> desired[k] == SessionOn(c.start.value + k.day, k.slot))
  }

  /** The sessions that are wanted, and those of the present ones that were scanned. */
  function Generated(rows: map<Key, Session>, scanned: set<Key>, desired: map<Key, Session>): map<Key, Session> {
    map k | k in rows.Keys + desired.Keys && (k in desired || k in scanned) ::
        if k in desired then desired[k] else rows[k]
  }

  /** The settings have this day, and so many sessions a day that the slot is one of them: one if they say neither. */
  predicate CalledFor(c: Config, k: Key) {
    && c.enabled && c.start.Some? && k.day < c.days
    && (k.slot == Afternoon ==> c.perDay == 2 || c.perDay == 3) && (k.slot == Evening ==> c.perDay == 3)
  }

  /** The session is on its day: from 9 to 12, from 13 to 16 or from 17 to 20. */
  predicate OnTime(c: Config, k: Key, s: Session)
    requires c.start.Some?
  {
    var date := c.start.value + k.day;
    && s.date == date && s.opens.date == date && s.closes.date == date
    && s.opens.hour == (if k.slot == Morning then 9 else if k.slot == Afternoon then 13 else 17)
    && s.closes.hour == s.opens.hour + 3
  }

  lemma WantedMeans(c: Config, k: Key)
    ensures Wanted(c, k) <==> CalledFor(c, k)
    ensures c.start.Some? ==> OnTime(c, k, SessionOn(c.start.value + k.day, k.slot))
  {
  }

  class AttendanceBook {
    var rows: map<Key, Session>
    var scanned: set<Key>
    /** How many rows have been created, changed or deleted. */
    var writes: nat

    /** Scans are only ever recorded for sessions that exist. */
    predicate Valid()
      reads this
    {
      scanned <= rows.Keys
    }

    constructor ()
      ensures Valid() && rows == map[] && scanned == {} && writes == 0
    {
      rows, scanned, writes := map[], {}, 0;
    }

    method RecordScan(k: Key)
      requires Valid() && k in rows
      modifies this`scanned
      ensures Valid() && scanned == old(scanned) + {k}
    {
      scanned := scanned + {k};
    }

    static method BuildDesired(c: Config) returns (desired: map<Key, Session>)
      ensures Matches(c, desired)
    {
      desired := map[];
      var labels := if c.enabled && c.start.Some? then Labels(c.perDay) else [];
      var days := if c.enabled && c.start.Some? then c.days else 0;
      for day := 0 to days
        invariant forall k :: k in desired <==> k.day < day && k.slot in labels
        invariant forall k :: k in desired ==> desired[k] == SessionOn(c.start.value + k.day, k.slot)
      {
        for i := 0 to |labels|
          invariant forall k :: k in desired <==>
              (k.day < day && k.slot in labels) || (k.day == day && k.slot in labels[..i])
          invariant forall k :: k in desired ==> desired[k] == SessionOn(c.start.value + k.day, k.slot)
        {
          desired := desired[Key(day, labels[i]) := SessionOn(c.start.value + day, labels[i])];
        }
        assert labels[..|labels|] == labels;
      }
    }

    /** Deletes what is no longer wanted, except what has scans. */
    method DropUnwanted(desired: map<Key, Session>) returns (undeletable: set<Key>)
      modifies this`rows, this`writes
      ensures rows == map k | k in old(rows) && (k in desired || k in scanned) :: old(rows)[k]
      ensures undeletable == set k | k in old(rows) && k !in desired && k in scanned
      ensures writes >= old(writes) && (writes == old(writes) <==> rows == old(rows))
    {
      undeletable := {};
      var todo := rows.Keys;
      while todo != {}
        invariant todo <= rows.Keys
        invariant rows == map k | k in old(rows) && (k in desired || k in scanned || k in todo) :: old(rows)[k]
        invariant undeletable == set k | k in old(rows) && k !in desired && k in scanned && k !in todo
        invariant writes >= old(writes) && (writes == old(writes) <==> rows == old(rows))
        decreases todo
      {
        var k :| k in todo;
        if k !in desired {
          if k in scanned {
            undeletable := undeletable + {k};
          } else {
            rows, writes := rows - {k}, writes + 1;
          }
        }
        todo := todo - {k};
      }
    }

    /** Creates what is missing and corrects what differs. */
    method WriteDesired(desired: map<Key, Session>)
      modifies this`rows, this`writes
      ensures rows == old(rows) + desired
      ensures writes >= old(writes) && (writes == old(writes) <==> rows == old(rows))
    {
      var todo := desired.Keys;
      while todo != {}
        invariant todo <= desired.Keys
        invariant rows == old(rows) + (map k | k in desired && k !in todo :: desired[k])
        invariant writes >= old(writes) && (writes == old(writes) <==> rows == old(rows))
        decreases todo
      {
        var k :| k in todo;
        todo := todo - {k};
        if Get(rows, k) != Some(desired[k]) {
          rows, writes := rows[k := desired[k]], writes + 1;
          assert Get(old(rows), k) != Some(desired[k]);
        }
      }
      assert desired == map k | k in desired && k !in todo :: desired[k];
    }

    /**
     Makes the sessions match the settings. No session with scans goes, and nothing is written when nothing has to
     change.
     */
    method GenerateSessions(c: Config) returns (undeletable: set<Key>, ghost desired: map<Key, Session>)
      requires Valid()
      modifies this`rows, this`writes
      ensures Valid() && Matches(c, desired) && rows == Generated(old(rows), scanned, desired)
      ensures forall k :: k in rows <==> Wanted(c, k) || k in scanned
      ensures undeletable == set k | k in scanned && !Wanted(c, k)
      ensures forall k :: k in rows <==> CalledFor(c, k) || k in scanned
      ensures forall k :: k in rows ==>
          if CalledFor(c, k) then OnTime(c, k, rows[k]) else k in old(rows) && rows[k] == old(rows)[k]
      ensures undeletable == set k | k in scanned && !CalledFor(c, k)
      ensures writes == old(writes) <==> rows == old(rows)
    {
      forall k ensures Wanted(c, k) <==> CalledFor(c, k)
        ensures c.start.Some? ==> OnTime(c, k, SessionOn(c.start.value + k.day, k.slot)) {
        WantedMeans(c, k);
      }
      var wanted := BuildDesired(c);
      desired := wanted;
      undeletable := DropUnwanted(wanted);
      ghost var between := rows;
      WriteDesired(wanted);
      assert rows == Generated(old(rows), scanned, desired);
    }
  }

  // ----- convergence -------------------------------------------------------------------------------------------------

  datatype Book = Book(rows: map<Key, Session>, scanned: set<Key>)

  function DesiredKeys(c: Config): set<Key> {
    set day, slot | 0 <= day < c.days && slot in Labels(c.perDay) && c.enabled && c.start.Some? :: Key(day, slot)
  }

  function Desired(c: Config): map<Key, Session> {
    map k | k in DesiredKeys(c) && c.start.Some? :: SessionOn(c.start.value + k.day, k.slot)
  }

  lemma DesiredMatches(c: Config, desired: map<Key, Session>)
    ensures Matches(c, desired) <==> desired == Desired(c)
  {
    forall k ensures k in DesiredKeys(c) <==> Wanted(c, k) {
      if Wanted(c, k) { assert k == Key(k.day, k.slot); }
    }
  }

  datatype Step = Configure(config: Config) | Scan(key: Key)

  function Apply(b: Book, step: Step): Book {
    match step
    case Configure(c) => b.(rows := Generated(b.rows, b.scanned, Desired(c)))
    case Scan(k) => if k in b.rows then b.(scanned := b.scanned + {k}) else b
  }

  function Run(b: Book, steps: seq<Step>): Book {
    if steps == [] then b else Apply(Run(b, steps[..|steps| - 1]), steps[|steps| - 1])
  }

  /** The settings in force after the steps. */
  function Latest(c: Config, steps: seq<Step>): Config {
    if steps == [] then c
    else if steps[|steps| - 1].Configure? then steps[|steps| - 1].config else Latest(c, steps[..|steps| - 1])
  }

  ghost predicate Settled(b: Book, c: Config) {
    && b.scanned <= b.rows.Keys
    && (forall k :: k in b.rows <==> Wanted(c, k) || k in b.scanned)
    && (forall k :: Wanted(c, k) && k in b.rows ==> b.rows[k] == SessionOn(c.start.value + k.day, k.slot))
  }

  lemma GeneratingSettles(b: Book, c: Config)
    requires b.scanned <= b.rows.Keys
    ensures Settled(Apply(b, Configure(c)), c)
  {
    DesiredMatches(c, Desired(c));
  }

  lemma ScanningSettles(b: Book, c: Config, k: Key)
    requires Settled(b, c)
    ensures Settled(Apply(b, Scan(k)), c)
  {
  }

  /**
   After any run of changed settings and scans, the sessions are exactly those the latest settings call for and those
   with scans; no scan is lost.
   */
  lemma {:induction false} SessionsConverge(c: Config, b: Book, steps: seq<Step>)
    requires Settled(b, c)
    ensures Settled(Run(b, steps), Latest(c, steps)) && b.scanned <= Run(b, steps).scanned
  {
    if steps == [] {
    } else {
      var before := steps[..|steps| - 1];
      SessionsConverge(c, b, before);
      match steps[|steps| - 1] {
        case Configure(config) => GeneratingSettles(Run(b, before), config);
        case Scan(k) => ScanningSettles(Run(b, before), Latest(c, before), k);
      }
    }
  }

  /** Generating again from the same settings changes nothing, whatever was scanned in between. */
  lemma GeneratingTwice(b: Book, c: Config, scans: seq<Step>)
    requires Settled(b, c) && forall i :: 0 <= i < |scans| ==> scans[i].Scan?
    ensures Apply(Run(b, scans), Configure(c)) == Run(b, scans)
  {
    SessionsConverge(c, b, scans);
    LatestIsSame(c, scans);
    DesiredMatches(c, Desired(c));
    var t := Run(b, scans);
    assert Generated(t.rows, t.scanned, Desired(c)) == t.rows;
  }

  lemma {:induction false} LatestIsSame(c: Config, scans: seq<Step>)
    requires forall i :: 0 <= i < |scans| ==> scans[i].Scan?
    ensures Latest(c, scans) == c
  {
    if scans == [] {
    } else {
      LatestIsSame(c, scans[..|scans| - 1]);
    }
  }
}
