// Waiting for the install medium to be verified, and the phase runner that lets
// nothing else happen before it was.
module MediaGate {
  import opened Wrappers

  // What systemd says about the verification unit at one poll.
  datatype Answer = Silence | Unit(load: string, active: string, sub: string, result: string, status: string)

  datatype Verdict =
    | Verified
    | NotPrepared
    | SystemdSilent
    | NotLoaded
    | NoVerdict
    | TooSlow
    | CheckFailed
    | DidNotRun
    | UnexpectedState
    | TimedOut

  // What the script finds on the medium before it starts polling.
  datatype Medium = Medium(sums: bool, imagePath: bool, covered: bool, timeout: Option<nat>, started: bool)

  // The unit succeeded: loaded, active, exited, success, status 0.
  predicate Succeeded(a: Answer) {
    && a.Unit? && a.load == "loaded" && a.active == "active"
    && a.sub == "exited" && a.result == "success" && a.status == "0"
  }

  // The verdict one answer leads to, if it ends the wait.
  function Decide(a: Answer, unanswered: nat, inactive: nat): Option<Verdict> {
    if a.Silence? then if unanswered + 1 >= 5 then Some(SystemdSilent) else None
    else if a.load != "loaded" then Some(NotLoaded)
    else if a.active == "active" then
      if a.sub == "exited" && a.result == "success" && a.status == "0" then Some(Verified) else Some(NoVerdict)
    else if a.active == "failed" then if a.result == "timeout" then Some(TooSlow) else Some(CheckFailed)
    else if a.active == "inactive" then if inactive + 1 >= 10 then Some(DidNotRun) else None
    else if a.active == "activating" || a.active == "deactivating" then None
    else Some(UnexpectedState)
  }

  function Unanswered(a: Answer, n: nat): nat {
    if a.Silence? then n + 1 else 0
  }

  function Inactive(a: Answer, n: nat): nat {
    if a.Unit? && a.active == "inactive" then n + 1 else n
  }

  // The clock when the script was entered and at each poll: starting the unit
  // takes any time, and every sleep moves the clock on by a second or more.
  datatype Clock = Clock(entry: int, poll: nat -> int)

  ghost predicate Ticks(clock: Clock) {
    && clock.entry <= clock.poll(0)
    && forall i: nat, j: nat :: i < j ==> clock.poll(i) + (j - i) <= clock.poll(j)
  }

  ghost function Poll(answers: nat -> Answer, clock: Clock, until: int, k: nat, unanswered: nat, inactive: nat): Verdict
    requires Ticks(clock)
    decreases until - clock.poll(k) + 1
  {
    if clock.poll(k) > until then TimedOut
    else match Decide(answers(k), unanswered, inactive)
      case Some(v) => v
      case None =>
        Poll(answers, clock, until, k + 1, Unanswered(answers(k), unanswered), Inactive(answers(k), inactive))
  }

  function Limit(m: Medium): Option<int> {
    if m.sums && m.imagePath && m.covered && m.timeout.Some? && 600 <= m.timeout.value < 100000000 && m.started
    then Some(m.timeout.value + 30) else None
  }

  ghost function Until(m: Medium, clock: Clock): int
    requires Limit(m).Some?
  {
    clock.entry + Limit(m).value
  }

  ghost function Waited(m: Medium, answers: nat -> Answer, clock: Clock): Verdict
    requires Ticks(clock)
  {
    match Limit(m)
    case None => NotPrepared
    case Some(_) => Poll(answers, clock, Until(m, clock), 0, 0, 0)
  }

  method WaitForMirror(m: Medium, answers: nat -> Answer, clock: Clock) returns (v: Verdict, polls: nat)
    requires Ticks(clock)
    ensures v == Waited(m, answers, clock)
    ensures Limit(m).Some? ==> polls <= Limit(m).value + 1
    ensures Limit(m).None? ==> polls == 0
  {
    polls := 0;
    var limit := Limit(m);
    if limit.None? {
      return NotPrepared, 0;
    }
    var started := clock.entry;
    var unanswered, inactive := 0, 0;
    var k := 0;
    while clock.poll(k) - started <= limit.value
      invariant polls == k && clock.poll(k) - started >= k
      invariant k <= limit.value + 1
      invariant Poll(answers, clock, started + limit.value, k, unanswered, inactive) == Waited(m, answers, clock)
      decreases started + limit.value - clock.poll(k) + 1
    {
      var answer := answers(k);
      polls := polls + 1;
      var verdict := Decide(answer, unanswered, inactive);
      if verdict.Some? {
        return verdict.value, polls;
      }
      unanswered, inactive := Unanswered(answer, unanswered), Inactive(answer, inactive);
      assert clock.poll(k) + 1 <= clock.poll(k + 1);
      k := k + 1;
    }
    return TimedOut, polls;
  }

  // ----- when the wait succeeds

  // The counters before poll k.
  function Before(answers: nat -> Answer, k: nat): (nat, nat) {
    if k == 0 then (0, 0)
    else
      var (u, i) := Before(answers, k - 1);
      (Unanswered(answers(k - 1), u), Inactive(answers(k - 1), i))
  }

  // How many of the first k answers were that the unit is inactive.
  function InactiveSeen(answers: nat -> Answer, k: nat): nat {
    if k == 0 then 0
    else InactiveSeen(answers, k - 1) + if answers(k - 1).Unit? && answers(k - 1).active == "inactive" then 1 else 0
  }

  // An answer that keeps the wait going: the unit is loaded and on its way, or it
  // is inactive and was so fewer than ten times with this one, or there is no
  // answer but was one among the last four.
  ghost predicate KeepsWaiting(answers: nat -> Answer, k: nat) {
    match answers(k)
    case Silence => k < 4 || exists j :: k - 4 <= j < k && !answers(j).Silence?
    case Unit(load, active, _, _, _) =>
      && load == "loaded"
      && (|| active == "activating" || active == "deactivating"
          || (active == "inactive" && InactiveSeen(answers, k + 1) < 10))
  }

  lemma {:induction false} CountersMean(answers: nat -> Answer, k: nat)
    ensures var (u, i) := Before(answers, k);
      && i == InactiveSeen(answers, k)
      && u <= k && (forall j :: k - u <= j < k ==> answers(j).Silence?)
      && (u < k ==> !answers(k - u - 1).Silence?)
    decreases k
  {
    if k > 0 { CountersMean(answers, k - 1); }
  }

  lemma SilenceIff(answers: nat -> Answer, k: nat)
    ensures Before(answers, k).0 < 4 <==> k < 4 || exists j :: k - 4 <= j < k && !answers(j).Silence?
  {
    CountersMean(answers, k);
    var u := Before(answers, k).0;
    if u < 4 && k >= 4 {
      var j := k - u - 1;
      assert k - 4 <= j < k && !answers(j).Silence?;
    }
  }

  lemma DecidesIff(answers: nat -> Answer, k: nat)
    ensures Decide(answers(k), Before(answers, k).0, Before(answers, k).1).None? <==> KeepsWaiting(answers, k)
  {
    if answers(k).Silence? {
      SilenceIff(answers, k);
    } else {
      CountersMean(answers, k);
      assert InactiveSeen(answers, k + 1) ==
        InactiveSeen(answers, k) + if answers(k).active == "inactive" then 1 else 0;
    }
  }

  // Poll k is in time and its answer keeps the wait going.
  ghost predicate GoesOn(answers: nat -> Answer, clock: Clock, until: int, k: nat) {
    clock.poll(k) <= until && KeepsWaiting(answers, k)
  }

  // What an answer that ends the wait says about the medium.
  ghost predicate EndsWith(a: Answer, v: Verdict) {
    match a
    case Silence => v == SystemdSilent
    case Unit(load, active, sub, result, status) =>
      && (load != "loaded" ==> v == NotLoaded)
      && (load == "loaded" && active == "active" ==> v == if Succeeded(a) then Verified else NoVerdict)
      && (load == "loaded" && active == "failed" ==> v == if result == "timeout" then TooSlow else CheckFailed)
      && (load == "loaded" && active == "inactive" ==> v == DidNotRun)
      && (load == "loaded" && active !in {"active", "failed", "inactive"} ==> v == UnexpectedState)
  }

  // n is where the wait that stands at poll k ends: by its answer, or by the clock.
  ghost predicate StopsAt(answers: nat -> Answer, clock: Clock, until: int, k: nat, n: nat) {
    && n >= k && (forall j :: k <= j < n ==> GoesOn(answers, clock, until, j))
    && !GoesOn(answers, clock, until, n)
  }

  // The wait ends with the verdict of the first answer that does not keep it
  // going, or because the time is up before there is one.
  lemma {:induction false} PollEnds(answers: nat -> Answer, clock: Clock, until: int, k: nat) returns (n: nat)
    requires Ticks(clock)
    ensures StopsAt(answers, clock, until, k, n)
    ensures var v := Poll(answers, clock, until, k, Before(answers, k).0, Before(answers, k).1);
      if clock.poll(n) > until then v == TimedOut else EndsWith(answers(n), v)
    decreases until - clock.poll(k) + 1
  {
    DecidesIff(answers, k);
    if GoesOn(answers, clock, until, k) {
      n := PollEnds(answers, clock, until, k + 1);
    } else {
      n := k;
    }
  }

  lemma {:induction false} PollVerifiedIff(answers: nat -> Answer, clock: Clock, until: int, k: nat)
    requires Ticks(clock)
    ensures Poll(answers, clock, until, k, Before(answers, k).0, Before(answers, k).1) == Verified <==>
      exists n :: SucceedsAt(answers, clock, until, k, n)
  {
    var m := PollEnds(answers, clock, until, k);
    if n :| SucceedsAt(answers, clock, until, k, n) {
      SuccessStops(answers, clock, until, n);
      OneStop(answers, clock, until, k, m, n);
    }
    if clock.poll(m) <= until && Succeeded(answers(m)) {
      assert SucceedsAt(answers, clock, until, k, m);
    }
  }

  // n is where the wait that stands at poll k succeeds.
  ghost predicate SucceedsAt(answers: nat -> Answer, clock: Clock, until: int, k: nat, n: nat) {
    && n >= k && clock.poll(n) <= until && Succeeded(answers(n))
    && forall j :: k <= j < n ==> GoesOn(answers, clock, until, j)
  }

  lemma SuccessStops(answers: nat -> Answer, clock: Clock, until: int, n: nat)
    requires Succeeded(answers(n))
    ensures !GoesOn(answers, clock, until, n)
  {
  }

  lemma OneStop(answers: nat -> Answer, clock: Clock, until: int, k: nat, m: nat, n: nat)
    requires StopsAt(answers, clock, until, k, m) && StopsAt(answers, clock, until, k, n)
    ensures m == n
  {
  }

  // The medium carries what is needed and the unit could be started: the wait
  // may take 30 seconds more than the limit on the medium, which is 600 or more.
  ghost predicate Allows(m: Medium, clock: Clock, until: int) {
    && m.sums && m.imagePath && m.covered && m.started
    && m.timeout.Some? && 600 <= m.timeout.value <= 99999999
    && until == clock.entry + m.timeout.value + 30
  }

  lemma LimitIff(m: Medium, clock: Clock, until: int)
    ensures Allows(m, clock, until) <==> Limit(m).Some? && Until(m, clock) == until
  {
  }

  // The script succeeds exactly when the medium is prepared and the unit is seen
  // to have succeeded in time, after nothing but answers that keep the wait going.
  lemma VerifiedIff(m: Medium, answers: nat -> Answer, clock: Clock)
    requires Ticks(clock)
    ensures Waited(m, answers, clock) == Verified <==>
      exists until, n :: Allows(m, clock, until) && SucceedsAt(answers, clock, until, 0, n)
  {
    if Limit(m).Some? {
      LimitIff(m, clock, Until(m, clock));
      PollVerifiedIff(answers, clock, Until(m, clock), 0);
    }
    if until, n :| Allows(m, clock, until) && SucceedsAt(answers, clock, until, 0, n) {
      LimitIff(m, clock, until);
    }
  }

  // And whatever it ends with is what the first other answer says, or that the
  // medium is not prepared, or that the time is up.
  lemma WaitedFor(m: Medium, answers: nat -> Answer, clock: Clock) returns (n: nat)
    requires Ticks(clock)
    ensures (forall until :: !Allows(m, clock, until)) ==> Waited(m, answers, clock) == NotPrepared
    ensures forall until :: Allows(m, clock, until) ==> StopsAt(answers, clock, until, 0, n)
    ensures forall until :: Allows(m, clock, until) ==>
              if clock.poll(n) > until then Waited(m, answers, clock) == TimedOut
              else EndsWith(answers(n), Waited(m, answers, clock))
  {
    n := 0;
    forall until { LimitIff(m, clock, until); }
    if Limit(m).Some? {
      assert Allows(m, clock, Until(m, clock));
      n := PollEnds(answers, clock, Until(m, clock), 0);
    }
  }

  // ----- the phase runner

  // Where something other than a failure of the phase itself ends the run: at
  // the writing of the state before the phase, in it, or at the writing after.
  datatype Point = BeforePhase | InPhase | AfterPhase

  // keyboard tells an interrupt from the keyboard from any other exception.
  datatype Outcome = Done | Raised(written: bool) | Broken(at: Point, keyboard: bool)

  // What is left to do after the last phase: the final state and timing files.
  datatype Tail = Finished | Failed(keyboard: bool)

  datatype Record = Record(name: string, ok: bool)

  datatype Exit = Completed | Halted | Interrupted | Escaped

  // What is recorded, how many phases were entered, and how it ended.
  datatype History = History(records: seq<Record>, entered: nat, exit: Exit)

  function ExitOf(keyboard: bool): Exit {
    if keyboard then Interrupted else Escaped
  }

  function RunFrom(phases: seq<string>, outcome: nat -> Outcome, tail: Tail, i: nat, records: seq<Record>): History
    requires i <= |phases|
    decreases |phases| - i
  {
    if i == |phases| then History(records, i, if tail.Finished? then Completed else ExitOf(tail.keyboard))
    else match outcome(i)
      case Done => RunFrom(phases, outcome, tail, i + 1, records + [Record(phases[i], true)])
      case Raised(written) => History(records + [Record(phases[i], false)], i + 1, if written then Halted else Escaped)
      case Broken(BeforePhase, keyboard) => History(records, i, ExitOf(keyboard))
      case Broken(InPhase, keyboard) => History(records, i + 1, ExitOf(keyboard))
      case Broken(AfterPhase, keyboard) => History(records + [Record(phases[i], true)], i + 1, ExitOf(keyboard))
  }

  // main's finally: which cleanups run.
  datatype Cleanup = Cleanup(targetWork: bool, protectedState: bool)

  class Orchestrator {
    var records: seq<Record>
    var entered: nat

    constructor ()
      ensures records == [] && entered == 0
    {
      records, entered := [], 0;
    }

    method Run(phases: seq<string>, outcome: nat -> Outcome, tail: Tail) returns (exit: Exit)
      requires records == [] && entered == 0
      modifies this
      ensures History(records, entered, exit) == RunFrom(phases, outcome, tail, 0, [])
    {
      for i := 0 to |phases|
        invariant entered == i
        invariant RunFrom(phases, outcome, tail, i, records) == RunFrom(phases, outcome, tail, 0, [])
      {
        var o := outcome(i);
        if o.Broken? && o.at.BeforePhase? {
          return ExitOf(o.keyboard);
        }
        entered := i + 1;
        if o.Broken? && o.at.InPhase? {
          return ExitOf(o.keyboard);
        }
        records := records + [Record(phases[i], !o.Raised?)];
        if o.Raised? {
          return if o.written then Halted else Escaped;
        }
        if o.Broken? {
          return ExitOf(o.keyboard);
        }
      }
      return if tail.Finished? then Completed else ExitOf(tail.keyboard);
    }

    // flagged tells whether the first phase got as far as noting the medium as
    // verified. An exception that main does not catch leaves no exit code.
    method InstallAll(phases: seq<string>, outcome: nat -> Outcome, tail: Tail, flagged: bool)
      returns (code: Option<int>, cleanup: Cleanup)
      requires records == [] && entered == 0
      modifies this
      ensures code == Some(0) <==> AllDone(outcome, |phases|) && tail.Finished?
      ensures var exit := RunFrom(phases, outcome, tail, 0, []).exit;
        && (code == Some(1) <==> exit.Halted?) && (code == Some(130) <==> exit.Interrupted?)
        && (code == None <==> exit.Escaped?)
      ensures cleanup.protectedState <==> !(AllDone(outcome, |phases|) && tail.Finished?)
      ensures cleanup.targetWork <==> flagged
      ensures var h := RunFrom(phases, outcome, tail, 0, []); records == h.records && entered == h.entered
    {
      HistoryShape(phases, outcome, tail, 0, []);
      var success := false;
      var exit := Run(phases, outcome, tail);
      match exit {
        case Completed =>
          success := true;
          code := Some(0);
        case Halted => code := Some(1);
        case Interrupted => code := Some(130);
        case Escaped => code := None;
      }
      cleanup := Cleanup(false, false);
      if flagged {
        cleanup := cleanup.(targetWork := true);
      }
      if !success {
        cleanup := cleanup.(protectedState := true);
      }
    }
  }

  ghost predicate AllDone(outcome: nat -> Outcome, n: nat) {
    forall j :: 0 <= j < n ==> outcome(j).Done?
  }

  // The phase itself ran to its end.
  predicate RanThrough(o: Outcome) {
    o.Done? || (o.Broken? && o.at.AfterPhase?)
  }

  predicate Reached(o: Outcome) {
    !(o.Broken? && o.at.BeforePhase?)
  }

  // The records are the phases in order, all fine except possibly the last, and
  // a phase is entered exactly when every earlier one was done and its state
  // could be written.
  lemma {:induction false} HistoryShape(phases: seq<string>, outcome: nat -> Outcome, tail: Tail,
                                        i: nat, records: seq<Record>)
    requires i <= |phases| && |records| == i
    requires forall k :: 0 <= k < i ==> outcome(k).Done? && records[k] == Record(phases[k], true)
    ensures var h := RunFrom(phases, outcome, tail, i, records);
      && h.entered <= |phases|
      && |h.records| <= h.entered <= |h.records| + 1
      && (forall k :: 0 <= k < |h.records| ==> h.records[k] == Record(phases[k], RanThrough(outcome(k))))
      && (forall k :: 0 <= k < |h.records| - 1 ==> h.records[k].ok)
      && (forall k :: 0 <= k < |phases| ==> (k < h.entered <==> AllDone(outcome, k) && Reached(outcome(k))))
      && (h.exit == Completed <==> AllDone(outcome, |phases|) && tail.Finished?)
    decreases |phases| - i
  {
    if i < |phases| && outcome(i).Done? {
      HistoryShape(phases, outcome, tail, i + 1, records + [Record(phases[i], true)]);
    }
  }

  // The first phase that is not done decides how the run ends.
  lemma {:induction false} FirstFailureDecides(phases: seq<string>, outcome: nat -> Outcome, tail: Tail,
                                               i: nat, records: seq<Record>, k: nat)
    requires i <= k < |phases| && !outcome(k).Done? && forall j :: i <= j < k ==> outcome(j).Done?
    ensures var exit := RunFrom(phases, outcome, tail, i, records).exit;
      match outcome(k)
      case Raised(written) => exit == if written then Halted else Escaped
      case Broken(_, keyboard) => exit == if keyboard then Interrupted else Escaped
      case Done => false
    decreases k - i
  {
    if i < k { FirstFailureDecides(phases, outcome, tail, i + 1, records + [Record(phases[i], true)], k); }
  }

  // ----- the install: the first phase is the verification

  // The first phase notes the medium as verified only after the wait said so,
  // and does not run through without.
  ghost predicate FirstIsVerification(verdict: Verdict, outcome: nat -> Outcome, flagged: bool) {
    && (flagged ==> verdict == Verified && Reached(outcome(0)))
    && (RanThrough(outcome(0)) ==> flagged)
  }

  ghost predicate VerifiedInTime(m: Medium, answers: nat -> Answer, clock: Clock) {
    exists until, n: nat :: Allows(m, clock, until) && clock.poll(n) <= until && Succeeded(answers(n))
  }

  // No phase after the first is entered, nothing is recorded as done and no
  // target work needs undoing, unless systemd reported the medium verified in
  // time; and whenever a later phase is entered its target work is undone.
  lemma NothingWithoutVerification(m: Medium, answers: nat -> Answer, clock: Clock,
                                   phases: seq<string>, outcome: nat -> Outcome, tail: Tail, flagged: bool)
    requires Ticks(clock) && phases != []
    requires FirstIsVerification(Waited(m, answers, clock), outcome, flagged)
    ensures var h := RunFrom(phases, outcome, tail, 0, []);
      && (h.entered > 1 || flagged || (exists r :: r in h.records && r.ok) ==> VerifiedInTime(m, answers, clock))
      && (h.entered > 1 || (exists r :: r in h.records && r.ok) ==> flagged)
  {
    HistoryShape(phases, outcome, tail, 0, []);
    VerifiedIff(m, answers, clock);
    var h := RunFrom(phases, outcome, tail, 0, []);
    if Waited(m, answers, clock) == Verified {
      var until, n :| Allows(m, clock, until) && SucceedsAt(answers, clock, until, 0, n);
      assert clock.poll(n) <= until && Succeeded(answers(n));
    }
    if h.entered > 1 {
      assert 1 < |phases| && AllDone(outcome, 1);
    }
    if r :| r in h.records && r.ok {
      var k :| 0 <= k < |h.records| && h.records[k] == r;
      assert k > 0 ==> h.records[0].ok;
    }
  }
}
