/** The seats of an event. */
module Seats {
  // The form closes itself when the last seat is taken; some of the ways a seat comes back reopen it.

  import opened Lists
  import opened Options
  import opened Schedule

  type UserId = nat
  type ResponseId = nat

  /** How often one person may answer, and whether a single answer may still be changed. */
  datatype Rules = Rules(multiple: bool, perUser: Option<nat>, editing: bool, editsUntil: Option<Time>)

  /** When people may cancel by themselves. */
  datatype Occasion = Occasion(start: Option<Time>, cutoff: nat, locked: bool)

  /** `responses` are the real (non-test) ones; anonymous ones belong to nobody. */
  datatype Registry = Registry(
    form: Timed, cap: Option<nat>, rules: Rules, occasion: Occasion, responses: map<ResponseId, Option<UserId>>,
        now: Time)

  function Of(s: Registry, user: UserId): set<ResponseId> {
    set r | r in s.responses && s.responses[r] == Some(user)
  }

  predicate IsFull(s: Registry) {
    s.cap.Some? && |s.responses| >= s.cap.value
  }

  /** The answers one person may have, if there is a limit at all. */
  function Allowance(rules: Rules): Option<nat> {
    if !rules.multiple then Some(1)
    else if rules.perUser.Some? && rules.perUser.value > 1 then rules.perUser
    else None
  }

  // ----- submitting --------------------------------------------------------------------------------------------------

  datatype Outcome = Created | Edited | NotOpen | Refused | EditsLocked | LimitReached | NoSeats

  predicate Opened(f: Timed, now: Time) {
    && f.status != Closed && f.status != Draft
    && !(f.status == Scheduled && f.openAt.Some? && now < f.openAt.value)
    && !(f.closeAt.Some? && f.closeAt.value < now)
  }

  predicate EditLocked(s: Registry) {
    !s.rules.editing || (s.rules.editsUntil.Some? && s.rules.editsUntil.value < s.now) || s.form.status == Closed
  }

  /** A submission: `allowed` stands for the checks on its sender, `valid` for those on its content. */
  datatype Submission = Submission(user: Option<UserId>, id: ResponseId, allowed: bool, valid: bool)

  function Verdict(s: Registry, sub: Submission): Outcome {
    var user := sub.user;
    if !Opened(s.form, s.now) then NotOpen
    else if !sub.allowed then Refused
    else if user.Some? && Of(s, user.value) != {} && !s.rules.multiple then
      if EditLocked(s) then EditsLocked else if sub.valid then Edited else Refused
    else if user.Some? && Of(s, user.value) != {} && Allowance(s.rules).Some?
        && |Of(s, user.value)| >= Allowance(s.rules).value then LimitReached
    else if IsFull(s) then NoSeats
    else if sub.valid then Created
    else Refused
  }

  function Looked(s: Registry): Registry {
    s.(form := Evaluate(s.form, s.now))
  }

  function Submit(s: Registry, sub: Submission): (Registry, Outcome) {
    var seen := Looked(s);
    var verdict := Verdict(seen, sub);
    if verdict != Created then (seen, verdict)
    else
      var after := seen.(responses := seen.responses[sub.id := sub.user]);
      (if IsFull(after) then after.(form := after.form.(status := Closed)) else after, Created)
  }

  /** No answers are taken: by the form's status, before it opens or after it closed. */
  predicate Shut(f: Timed, now: Time) {
    || f.status == Closed || f.status == Draft
    || (f.status == Scheduled && f.openAt.Some? && now < f.openAt.value)
    || (f.closeAt.Some? && f.closeAt.value < now)
    || (f.closeAt == Some(now) && (f.status == Scheduled || f.status == Published))
  }

  /** What an open form answers to a sender who may submit. */
  ghost predicate AnsweredByRules(s: Registry, sub: Submission, outcome: Outcome) {
    var mine := set r | r in s.responses && s.responses[r] == sub.user;
    var single := sub.user.Some? && mine != {} && !s.rules.multiple;
    var locked := !s.rules.editing || (s.rules.editsUntil.Some? && s.rules.editsUntil.value < s.now);
    var spent := sub.user.Some? && s.rules.multiple && s.rules.perUser.Some? && s.rules.perUser.value > 1
                 && |mine| >= s.rules.perUser.value;
    var full := s.cap.Some? && |s.responses| >= s.cap.value;
    && (outcome == EditsLocked <==> single && locked)
    && (outcome == Edited <==> single && !locked && sub.valid)
    && (outcome == LimitReached <==> spent)
    && (outcome == NoSeats <==> !single && !spent && full)
    && (outcome == Created <==> !single && !spent && !full && sub.valid)
    && outcome != NotOpen
  }

  /** A closed form was full before and has room now, and its time is not over. */
  ghost predicate HasReopened(s: Registry, t: Registry) {
    && s.form.status == Closed && !(s.form.closeAt.Some? && s.form.closeAt.value <= s.now)
    && s.cap.Some? && |s.responses| >= s.cap.value && !(t.cap.Some? && |t.responses| >= t.cap.value)
  }

  lemma OutcomeByRules(s: Registry, sub: Submission)
    ensures var (t, outcome) := Submit(s, sub);
      && (outcome == NotOpen <==> Shut(s.form, s.now))
      && (outcome != NotOpen && !sub.allowed ==> outcome == Refused)
      && (outcome != NotOpen && sub.allowed ==> AnsweredByRules(s, sub, outcome))
      && (sub.user.None? ==> outcome != EditsLocked && outcome != Edited && outcome != LimitReached)
      && (if outcome == Created && t.cap.Some? && |t.responses| >= t.cap.value
          then t.form == s.form.(status := Closed) else FollowsClock(s.form, t.form, s.now))
  {
    if sub.user.Some? {
      assert Of(Looked(s), sub.user.value) == set r | r in s.responses && s.responses[r] == sub.user;
    }
  }

  // ----- giving seats back -------------------------------------------------------------------------------------------

  function Reopened(s: Registry, wasFull: bool): Registry {
    if !wasFull || s.form.status != Closed || IsFull(s) || Reached(s.form.closeAt, s.now) then s
    else s.(form := s.form.(status := Published))
  }

  predicate Cancellable(o: Occasion, now: Time) {
    && !Reached(o.start, now) && !o.locked
    && !(o.start.Some? && o.start.value - o.cutoff <= now)
  }

  function Cancel(s: Registry, user: UserId, attended: bool): Registry {
    if Of(s, user) == {} || attended || !Cancellable(s.occasion, s.now) then s
    else Reopened(s.(responses := s.responses - Of(s, user)), IsFull(s))
  }

  /** A capacity of zero means no limit. */
  function SetCapacity(s: Registry, capacity: nat): Registry {
    Reopened(s.(cap := if capacity == 0 then None else Some(capacity)), IsFull(s))
  }

  /** Deleting a response directly, as its owner or an admin may, frees the seat and touches nothing else. */
  function DeleteResponse(s: Registry, r: ResponseId): Registry {
    s.(responses := s.responses - {r})
  }

  /** Saving the form writes status, times, cap and rules as they are given. */
  function SaveForm(s: Registry, form: Timed, cap: Option<nat>, rules: Rules): Registry {
    s.(form := form, cap := cap, rules := rules)
  }

  datatype Step =
    | Submits(sub: Submission)
    | Cancels(user: UserId, attended: bool)
    | Capacity(capacity: nat)
    | Deletes(id: ResponseId)
    | Saves(form: Timed, cap: Option<nat>, rules: Rules)
    | Poll
    | Wait(time: nat)

  function Apply(s: Registry, step: Step): Registry {
    match step
    case Submits(sub) => if sub.id in s.responses then s else Submit(s, sub).0
    case Cancels(user, attended) => Cancel(s, user, attended)
    case Capacity(capacity) => SetCapacity(s, capacity)
    case Deletes(r) => DeleteResponse(s, r)
    case Saves(form, cap, rules) => SaveForm(s, form, cap, rules)
    case Poll => Looked(s)
    case Wait(time) => s.(now := s.now + time)
  }

  function Run(s: Registry, steps: seq<Step>): Registry {
    if steps == [] then s else Apply(Run(s, steps[..|steps| - 1]), steps[|steps| - 1])
  }

  // ----- what every run keeps ----------------------------------------------------------------------------------------

  /** When the form is closed, it is full or its time is over. */
  predicate ClosedForAReason(s: Registry) {
    s.form.status == Closed ==> IsFull(s) || Reached(s.form.closeAt, s.now)
  }

  /** The form has been published. */
  predicate Running(s: Registry) {
    s.form.status == Published || s.form.status == Closed
  }

  ghost predicate WithinAllowance(s: Registry) {
    Allowance(s.rules).Some? ==> forall user :: |Of(s, user)| <= Allowance(s.rules).value
  }

  lemma OneMore(s: Registry, user: Option<UserId>, r: ResponseId, person: UserId)
    requires r !in s.responses
    ensures var t := s.(responses := s.responses[r := user]);
      |Of(t, person)| == |Of(s, person)| + (if user == Some(person) then 1 else 0) && |t.responses| == |s.responses| + 1
  {
    var t := s.(responses := s.responses[r := user]);
    assert Of(t, person) == if user == Some(person) then Of(s, person) + {r} else Of(s, person);
    assert t.responses.Keys == s.responses.Keys + {r};
  }

  /** A submission that is accepted takes the count to at most the cap; otherwise no seat is taken. */
  lemma SubmissionRespectsCap(s: Registry, sub: Submission)
    requires sub.id !in s.responses
    ensures var (t, outcome) := Submit(s, sub);
      && (outcome == Created ==> |t.responses| == |s.responses| + 1 && (t.cap.Some? ==> |t.responses| <= t.cap.value))
      && (outcome == Created && IsFull(t) ==> t.form.status == Closed)
      && (outcome != Created ==> t.responses == s.responses)
  {
    OneMore(Looked(s), sub.user, sub.id, 0);
  }

  lemma SubmissionRespectsAllowance(s: Registry, sub: Submission)
    requires sub.id !in s.responses && WithinAllowance(s)
    ensures WithinAllowance(Submit(s, sub).0)
  {
    var t := Submit(s, sub).0;
    forall person ensures Allowance(t.rules).Some? ==> |Of(t, person)| <= Allowance(t.rules).value {
      OneMore(Looked(s), sub.user, sub.id, person);
      assert Of(Looked(s), person) == Of(s, person);
      assert Of(t, person) == Of(Looked(s), person)
          || Of(t, person) == Of(Looked(s).(responses := s.responses[sub.id := sub.user]), person);
    }
  }

  lemma CancelRespectsAllowance(s: Registry, user: UserId, attended: bool)
    requires WithinAllowance(s)
    ensures WithinAllowance(Cancel(s, user, attended))
  {
    var t := Cancel(s, user, attended);
    forall person ensures |Of(t, person)| <= |Of(s, person)| {
      assert Of(t, person) <= Of(s, person);
      SubsetSize(Of(t, person), Of(s, person));
    }
  }

  lemma SameResponses(s: Registry, t: Registry)
    requires t.responses == s.responses && t.rules == s.rules && WithinAllowance(s)
    ensures WithinAllowance(t)
  {
    forall person ensures Of(t, person) == Of(s, person) {}
  }

  lemma DeletionRespectsAllowance(s: Registry, r: ResponseId)
    requires WithinAllowance(s)
    ensures WithinAllowance(DeleteResponse(s, r))
  {
    forall person ensures |Of(DeleteResponse(s, r), person)| <= |Of(s, person)| {
      SubsetSize(Of(DeleteResponse(s, r), person), Of(s, person));
    }
  }

  /** The step leaves a form closed that has room and whose time is not over. */
  predicate Strands(s: Registry, step: Step) {
    match step
    case Deletes(r) =>
      && r in s.responses && s.form.status == Closed
      && s.cap.Some? && |s.responses| == s.cap.value && !Reached(s.form.closeAt, s.now)
    case Saves(form, cap, _) =>
      form.status == Closed && (cap.Some? ==> |s.responses| < cap.value) && !Reached(form.closeAt, s.now)
    case _ => false
  }

  /** The step lowers the allowance below what somebody already has. */
  ghost predicate Overdraws(s: Registry, step: Step) {
    step.Saves? && Allowance(step.rules).Some? && exists user :: |Of(s, user)| > Allowance(step.rules).value
  }

  /**
   A step breaks the first invariant exactly when it strands seats: deleting the response that filled a closed form,
   or saving a closed form with room.
   */
  lemma StepKeepsReason(s: Registry, step: Step)
    requires ClosedForAReason(s)
    ensures ClosedForAReason(Apply(s, step)) <==> !Strands(s, step)
  {
    match step {
      case Submits(sub) => SubmissionKeepsReason(s, sub);
      case Deletes(r) => DeletionKeepsReason(s, r);
      case _ =>
    }
  }

  lemma SubmissionKeepsReason(s: Registry, sub: Submission)
    requires ClosedForAReason(s)
    ensures ClosedForAReason(Submit(s, sub).0)
  {
  }

  lemma DeletionKeepsReason(s: Registry, r: ResponseId)
    requires ClosedForAReason(s)
    ensures ClosedForAReason(DeleteResponse(s, r)) <==> !Strands(s, Deletes(r))
  {
    var t := DeleteResponse(s, r);
    if r in s.responses {
      assert s.responses.Keys == t.responses.Keys + {r};
    } else {
      assert t.responses == s.responses;
    }
  }

  /** And the second one exactly when it lowers the allowance below what somebody already has. */
  lemma StepKeepsAllowance(s: Registry, step: Step)
    requires WithinAllowance(s)
    ensures WithinAllowance(Apply(s, step)) <==> !Overdraws(s, step)
  {
    match step {
      case Submits(sub) =>
        if sub.id !in s.responses { SubmissionRespectsAllowance(s, sub); }
      case Cancels(user, attended) => CancelRespectsAllowance(s, user, attended);
      case Capacity(capacity) => SameResponses(s, SetCapacity(s, capacity));
      case Deletes(r) => DeletionRespectsAllowance(s, r);
      case Saves(form, cap, rules) =>
        assert forall person :: Of(SaveForm(s, form, cap, rules), person) == Of(s, person);
      case Poll => SameResponses(s, Looked(s));
      case Wait(time) => SameResponses(s, s.(now := s.now + time));
    }
  }

  ghost predicate Kept(s: Registry) {
    ClosedForAReason(s) && WithinAllowance(s)
  }

  lemma StepKept(s: Registry, step: Step)
    requires Kept(s)
    ensures Kept(Apply(s, step)) <==> !Strands(s, step) && !Overdraws(s, step)
  {
    StepKeepsReason(s, step);
    StepKeepsAllowance(s, step);
  }

  /** No step of the run strands seats or lowers an allowance too far. */
  ghost predicate Steady(s: Registry, steps: seq<Step>) {
    steps == [] ||
    (var (before, last) := (steps[..|steps| - 1], steps[|steps| - 1]);
     Steady(s, before) && !Strands(Run(s, before), last) && !Overdraws(Run(s, before), last))
  }

  /** Both invariants hold all through a run. */
  ghost predicate KeptThroughout(s: Registry, steps: seq<Step>) {
    Kept(Run(s, steps)) && (steps == [] || KeptThroughout(s, steps[..|steps| - 1]))
  }

  /**
   All through a run nobody exceeds their allowance and the form is only ever closed for a reason, exactly when no
   step of it strands seats or lowers an allowance too far; submissions, cancellations, capacity changes and polls
   never do.
   */
  lemma {:induction false} EveryRunKeeps(s: Registry, steps: seq<Step>)
    requires Kept(s)
    ensures KeptThroughout(s, steps) <==> Steady(s, steps)
  {
    if steps == [] {
    } else {
      var before := steps[..|steps| - 1];
      EveryRunKeeps(s, before);
      if KeptThroughout(s, before) { StepKept(Run(s, before), steps[|steps| - 1]); }
    }
  }

  /**
   In a published form a newcomer's valid submission goes through exactly when a seat is free and the closing time has
   not come; that is so precisely as long as the form is only closed for a reason.
   */
  lemma FreeSeatsCanBeTaken(s: Registry, newcomer: Option<UserId>, r: ResponseId)
    requires Running(s) && r !in s.responses && (newcomer.Some? ==> Of(s, newcomer.value) == {})
    ensures (Submit(s, Submission(newcomer, r, true, true)).1 == Created <==>
        !IsFull(s) && !Reached(s.form.closeAt, s.now))
            <==> ClosedForAReason(s)
  {
    if newcomer.Some? { assert Of(Looked(s), newcomer.value) == Of(s, newcomer.value); }
  }

  /** A save, if it is one, leaves the form published or closed. */
  predicate KeepsRunning(step: Step) {
    step.Saves? ==> step.form.status == Published || step.form.status == Closed
  }

  lemma StepStillRunning(s: Registry, step: Step)
    requires Running(s) && KeepsRunning(step)
    ensures Running(Apply(s, step))
  {
  }

  lemma {:induction false} StillRunning(s: Registry, steps: seq<Step>)
    requires Running(s) && forall i :: 0 <= i < |steps| ==> KeepsRunning(steps[i])
    ensures Running(Run(s, steps))
  {
    if steps == [] {
    } else {
      StillRunning(s, steps[..|steps| - 1]);
      StepStillRunning(Run(s, steps[..|steps| - 1]), steps[|steps| - 1]);
    }
  }

  /**
   The main result: after any steady run of a published form, free seats can be taken until the closing time, and only
   they.
   */
  lemma SeatsComeBack(s: Registry, steps: seq<Step>, newcomer: Option<UserId>, r: ResponseId)
    requires Kept(s) && Steady(s, steps) && Running(s)
    requires forall i :: 0 <= i < |steps| ==> KeepsRunning(steps[i])
    requires r !in Run(s, steps).responses && (newcomer.Some? ==> Of(Run(s, steps), newcomer.value) == {})
    ensures var t := Run(s, steps);
      Submit(t, Submission(newcomer, r, true, true)).1 == Created <==> !IsFull(t) && !Reached(t.form.closeAt, t.now)
  {
    EveryRunKeeps(s, steps);
    StillRunning(s, steps);
    FreeSeatsCanBeTaken(Run(s, steps), newcomer, r);
  }

  /** One seat, taken by a submission and given back by deleting the response: it can never be taken again. */
  lemma DeletionStrandsTheSeat(s: Registry, sub: Submission, newcomer: Submission)
    requires s.form == Timed(Published, None, None) && s.cap == Some(1) && s.responses == map[] && sub.allowed
        && sub.valid
    ensures var t := Run(s, [Submits(sub), Deletes(sub.id)]);
      && Kept(s) && t.responses == map[] && t.form.status == Closed && !ClosedForAReason(t)
      && Submit(t, newcomer) == (t, NotOpen)
  {
    RunTwo(s, Submits(sub), Deletes(sub.id));
    LastSeatCloses(s, sub);
    var taken := Submit(s, sub).0;
    assert DeleteResponse(taken, sub.id).responses == map[];
    assert forall user :: Of(s, user) == {};
  }

  lemma RunTwo(s: Registry, first: Step, second: Step)
    ensures Run(s, [first, second]) == Apply(Apply(s, first), second)
  {
    assert [first, second][..1] == [first] && [first][..0] == [];
    assert Run(s, [first]) == Apply(Run(s, []), first);
  }

  /** The first submission to a form with one seat takes it and closes the form. */
  lemma LastSeatCloses(s: Registry, sub: Submission)
    requires s.form == Timed(Published, None, None) && s.cap == Some(1) && s.responses == map[] && sub.allowed
        && sub.valid
    ensures Submit(s, sub).0 == s.(form := s.form.(status := Closed), responses := map[sub.id := sub.user])
  {
    if sub.user.Some? { assert Of(s, sub.user.value) == {}; }
    assert |map[sub.id := sub.user]| == 1;
  }

  /** Looking at the form again at the moment it reopened does not close it again. */
  lemma PollKeepsReopening(s: Registry, wasFull: bool)
    ensures var t := Reopened(s, wasFull); t != s ==> Looked(t) == t && t.form.status == Published
  {
  }

  // ----- forms closed on purpose -------------------------------------------------------------------------------------

  ghost predicate NeverFull(s: Registry, steps: seq<Step>) {
    forall n :: 0 <= n < |steps| ==> !IsFull(Run(s, steps[..n]))
  }

  /** A save, if it is one, leaves the form closed. */
  predicate KeepsClosed(step: Step) {
    step.Saves? ==> step.form.status == Closed
  }

  lemma StepStaysClosed(s: Registry, step: Step)
    requires s.form.status == Closed && !IsFull(s) && KeepsClosed(step)
    ensures Apply(s, step).form.status == Closed
  {
  }

  /** A form an organizer closed stays closed as long as it is never full and nobody saves it with another status ... */
  lemma {:induction false} StaysClosed(s: Registry, steps: seq<Step>)
    requires s.form.status == Closed && NeverFull(s, steps) && forall i :: 0 <= i < |steps| ==> KeepsClosed(steps[i])
    ensures Run(s, steps).form.status == Closed
  {
    if steps == [] {
    } else {
      var before := steps[..|steps| - 1];
      forall n | 0 <= n < |before| ensures !IsFull(Run(s, before[..n])) { assert before[..n] == steps[..n]; }
      StaysClosed(s, before);
      assert !IsFull(Run(s, steps[..|before|]));
      StepStaysClosed(Run(s, before), steps[|steps| - 1]);
    }
  }

  /** The step makes room in a full form whose time is not over; or it is a save that publishes. */
  predicate Republishes(s: Registry, step: Step) {
    match step
    case Cancels(user, attended) =>
      && IsFull(s) && !Reached(s.form.closeAt, s.now)
      && Of(s, user) != {} && !attended && Cancellable(s.occasion, s.now)
      && |s.responses| - |Of(s, user)| < s.cap.value
    case Capacity(capacity) =>
      IsFull(s) && !Reached(s.form.closeAt, s.now) && (capacity == 0 || |s.responses| < capacity)
    case Saves(form, _, _) => form.status == Published
    case _ => false
  }

  /** ... but any step that makes room in a full form in time undoes the closing, and nothing else does. */
  lemma ClosingUndone(s: Registry, step: Step)
    requires s.form.status == Closed
    ensures Apply(s, step).form.status == Published <==> Republishes(s, step)
  {
    if step.Cancels? { WithoutMine(s, step.user); }
  }

  lemma WithoutMine(s: Registry, user: UserId)
    ensures |s.responses - Of(s, user)| == |s.responses| - |Of(s, user)|
  {
    var (mine, rest) := (Of(s, user), (s.responses - Of(s, user)).Keys);
    assert s.responses.Keys == rest + mine && rest !! mine;
  }

  /**
   Lowering the capacity to the number of registrations and raising it again reopens a form that was closed on
   purpose.
   */
  lemma LoweringAndRaisingReopens(s: Registry, n: nat)
    requires s.form.status == Closed && s.form.closeAt.None? && n == |s.responses| > 0
        && (s.cap == None || n < s.cap.value)
    ensures !IsFull(s) && Run(s, [Capacity(n), Capacity(n + 1)]).form.status == Published
  {
    RunTwo(s, Capacity(n), Capacity(n + 1));
  }

  // ----- the same as code that updates the form in place -------------------------------------------------------------

  class SeatRegistry {
    var form: Timed
    var cap: Option<nat>
    var responses: map<ResponseId, Option<UserId>>
    var now: Time
    var rules: Rules
    const occasion: Occasion

    function View(): Registry
      reads this
    {
      Registry(form, cap, rules, occasion, responses, now)
    }

    ghost predicate Valid()
      reads this
    {
      Kept(View())
    }

    constructor (form: Timed, cap: Option<nat>, rules: Rules, occasion: Occasion, now: Time)
      requires form.status != Closed
      ensures Valid() && View() == Registry(form, cap, rules, occasion, map[], now)
    {
      this.form, this.cap, this.rules, this.occasion, this.now := form, cap, rules, occasion, now;
      responses := map[];
      new;
      assert forall user :: Of(View(), user) == {};
    }

    method EvaluateScheduleStatus()
      requires Valid()
      modifies this`form
      ensures Valid() && View() == Looked(old(View())) && FollowsClock(old(form), form, now)
    {
      StepKept(View(), Poll);
      if form.status == Scheduled {
        if Reached(form.closeAt, now) {
          form := form.(status := Closed);
        } else if Reached(form.openAt, now) {
          form := form.(status := Published);
        }
      } else if form.status == Published {
        if Reached(form.closeAt, now) {
          form := form.(status := Closed);
        }
      }
    }

    /**
     Stores a valid new answer, changes the sender's single one, or says why not; the last seat taken closes the form.
     */
    method CreateResponse(sub: Submission) returns (outcome: Outcome)
      requires Valid() && sub.id !in responses
      modifies this`form, this`responses
      ensures Valid() && (View(), outcome) == Submit(old(View()), sub)
      ensures outcome == Created ==> |responses| == |old(responses)| + 1 && (cap.Some? ==> |responses| <= cap.value)
      ensures outcome == NotOpen <==> Shut(old(form), now)
      ensures outcome != NotOpen && !sub.allowed ==> outcome == Refused
      ensures outcome != NotOpen && sub.allowed ==> AnsweredByRules(old(View()), sub, outcome)
      ensures sub.user.None? ==> outcome != EditsLocked && outcome != Edited && outcome != LimitReached
      ensures responses == if outcome == Created then old(responses)[sub.id := sub.user] else old(responses)
      ensures if outcome == Created && cap.Some? && |responses| >= cap.value then form == old(form).(status := Closed)
          else FollowsClock(old(form), form, now)
    {
      OutcomeByRules(View(), sub);
      SubmissionRespectsCap(View(), sub);
      StepKept(View(), Submits(sub));
      EvaluateScheduleStatus();
      if !Opened(form, now) {
        return NotOpen;
      }
      if !sub.allowed {
        return Refused;
      }
      if sub.user.Some? {
        var mine := Of(View(), sub.user.value);
        if mine != {} {
          if !rules.multiple {
            if EditLocked(View()) {
              return EditsLocked;
            }
            return if sub.valid then Edited else Refused;
          }
          var limit := Allowance(rules);
          if limit.Some? && |mine| >= limit.value {
            return LimitReached;
          }
        }
      }
      if cap.Some? && |responses| >= cap.value {
        return NoSeats;
      }
      if !sub.valid {
        return Refused;
      }
      responses := responses[sub.id := sub.user];
      if cap.Some? && |responses| >= cap.value && form.status != Closed {
        form := form.(status := Closed);
      }
      return Created;
    }

    /** Publishes again a form that was full, is closed, has room now and whose time is not over. */
    method ReopenIfRoom(wasFull: bool) returns (reopened: bool)
      modifies this`form
      ensures View() == Reopened(old(View()), wasFull)
      ensures reopened <==>
        && wasFull && old(form).status == Closed && !(cap.Some? && |responses| >= cap.value)
        && !(old(form).closeAt.Some? && old(form).closeAt.value <= now)
      ensures form == if reopened then old(form).(status := Published) else old(form)
    {
      if !wasFull || form.status != Closed || IsFull(View()) {
        return false;
      }
      if Reached(form.closeAt, now) {
        return false;
      }
      form := form.(status := Published);
      return true;
    }

    method DeleteEach(ids: set<ResponseId>)
      modifies this`responses
      ensures responses == old(responses) - ids
    {
      var todo := ids;
      while todo != {}
        invariant todo <= ids && responses == old(responses) - (ids - todo)
        decreases todo
      {
        var r :| r in todo;
        responses := responses - {r};
        todo := todo - {r};
      }
    }

    /** Deletes all of a person's registrations, one by one, and reopens the form if that made room. */
    method CancelRegistration(user: UserId, attended: bool) returns (done: bool)
      requires Valid()
      modifies this`form, this`responses
      ensures Valid() && View() == Cancel(old(View()), user, attended)
      ensures done <==>
        && (exists r :: r in old(responses) && old(responses)[r] == Some(user)) && !attended && !occasion.locked
        && (occasion.start.Some? ==> now < occasion.start.value - occasion.cutoff)
      ensures done ==> responses == map r | r in old(responses) && old(responses)[r] != Some(user) :: old(responses)[r]
      ensures done ==> form == if HasReopened(old(View()), View()) then old(form).(status := Published) else old(form)
      ensures !done ==> View() == old(View())
      ensures done <==> responses != old(responses)
      ensures done ==> Of(View(), user) == {}
    {
      StepKept(View(), Cancels(user, attended));
      var mine := Of(View(), user);
      assert forall r :: r in responses && responses[r] == Some(user) ==> r in mine;
      if mine == {} || attended || !Cancellable(occasion, now) {
        return false;
      }
      var wasFull := IsFull(View());
      DeleteEach(mine);
      assert responses == map r | r in old(responses) && old(responses)[r] != Some(user) :: old(responses)[r];
      ghost var r :| r in mine;
      assert r in old(responses) && r !in responses;
      var _ := ReopenIfRoom(wasFull);
      return true;
    }

    method ChangeCapacity(capacity: nat)
      requires Valid()
      modifies this`form, this`cap
      ensures Valid() && View() == SetCapacity(old(View()), capacity)
      ensures cap == if capacity > 0 then Some(capacity) else None
      ensures form == if HasReopened(old(View()), View()) then old(form).(status := Published) else old(form)
    {
      StepKept(View(), Capacity(capacity));
      var wasFull := IsFull(View());
      cap := if capacity == 0 then None else Some(capacity);
      var _ := ReopenIfRoom(wasFull);
    }

    /** Deletes one response directly. */
    method DestroyResponse(r: ResponseId)
      requires Valid()
      modifies this`responses
      ensures View() == DeleteResponse(old(View()), r) && responses == old(responses) - {r}
      ensures Valid() <==> !Strands(old(View()), Deletes(r))
    {
      StepKept(View(), Deletes(r));
      responses := responses - {r};
    }

    /** Saves status, times, cap and rules as they are given. */
    method UpdateForm(form: Timed, cap: Option<nat>, rules: Rules)
      requires Valid()
      modifies this`form, this`cap, this`rules
      ensures View() == SaveForm(old(View()), form, cap, rules)
      ensures this.form == form && this.cap == cap && this.rules == rules
      ensures Valid() <==>
          !Strands(old(View()), Saves(form, cap, rules)) && !Overdraws(old(View()), Saves(form, cap, rules))
    {
      StepKept(View(), Saves(form, cap, rules));
      this.form, this.cap, this.rules := form, cap, rules;
    }
  }
}
