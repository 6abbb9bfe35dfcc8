/**
  The post-commit worker and the main thread that waits for it: two threads, an outcome channel,
  a done channel and one shared clock, in milliseconds. Every interleaving of their steps, of the
  passing of time and of the worker's death is a run of this machine.
 */
module HookDeadline {
  import opened Wrappers

  const POST_COMMIT_BUDGET: nat := 10_000
  const INDEX_RESERVE: nat := 1_000

  datatype RecordOutcome =
    | Inserted | Deduped | Empty | NotRecordedHistoryBudget | NotRecordedUnscored
    | NotRecordedDatabaseLocked | Silent

  datatype Warning = HistoryBudgetWarning | DatabaseLockedWarning | DeadlineWarning

  function WarningLine(o: RecordOutcome): Option<Warning> {
    match o
    case NotRecordedHistoryBudget => Some(HistoryBudgetWarning)
    case NotRecordedDatabaseLocked => Some(DatabaseLockedWarning)
    case _ => None
  }

  // ----- the machine -----

  datatype WorkerPc = Recording | Sending(outcome: RecordOutcome) | Checking | CatchingUp | Indexing | Finishing | Gone

  /** A wait is computed first (`Enter`) and begins afterwards (`Await`); time may pass in between. */
  datatype MainPc =
    | Spawning | ComputeOutcomeWait | EnterOutcomeWait(wait: nat) | AwaitOutcome(until: nat)
    | Reporting(outcome: RecordOutcome) | ComputeDoneWait | EnterDoneWait(wait: nat) | AwaitDone(until: nat)
    | Returned

  datatype State = State(
    start: nat, now: nat,
    busy: nat, blocked: nat,               // main's time so far, outside and inside its waits
    worker: WorkerPc, main: MainPc, spawned: bool,
    outcomeBox: Option<RecordOutcome>, doneBox: bool,
    sent: Option<RecordOutcome>, received: Option<RecordOutcome>,
    checkedAt: Option<nat>, warnings: seq<Warning>)
  {
    function Deadline(): nat { start + POST_COMMIT_BUDGET }

    /** `deadline.saturating_duration_since(now)` */
    function Remaining(): nat { if now < Deadline() then Deadline() - now else 0 }

    predicate Waiting() { main.AwaitOutcome? || main.AwaitDone? }

    /** The senders live in the worker: they are dropped when it ends or dies. */
    predicate Disconnected() { spawned && worker == Gone }
  }

  function Init(start: nat): State {
    State(start, start, 0, 0, Gone, Spawning, false, None, false, None, None, None, [])
  }

  datatype Event =
    | Tick(ms: nat)
    | MainMoves | MainTimesOut | SpawnFails
    | WorkerRecords(outcome: RecordOutcome) | WorkerMoves | WorkerDies

  predicate IsMainEvent(e: Event) { e.MainMoves? || e.MainTimesOut? || e.SpawnFails? }

  /** A blocked main thread is woken no later than its timeout, and a queued message is taken before a
      timeout is reported; once main returns the process is over. */
  predicate Enabled(s: State, e: Event) {
    && s.main != Returned
    && match e
       case Tick(ms) => 0 < ms && (s.Waiting() ==> s.now + ms <= s.main.until)
       case SpawnFails => s.main == Spawning
       case MainMoves =>
         && (s.main.AwaitOutcome? ==> s.outcomeBox.Some?)
         && (s.main.AwaitDone? ==> s.doneBox)
       case MainTimesOut =>
         || (s.main.AwaitOutcome? && s.outcomeBox.None? && (s.main.until <= s.now || s.Disconnected()))
         || (s.main.AwaitDone? && !s.doneBox && (s.main.until <= s.now || s.Disconnected()))
       case WorkerRecords(_) => s.worker == Recording
       case WorkerMoves => s.worker != Recording && s.worker != Gone
       case WorkerDies => s.worker != Gone
  }

  function MainStep(s: State): State
    requires s.main != Returned && Enabled(s, MainMoves)
  {
    match s.main
    case Spawning => s.(main := ComputeOutcomeWait, worker := Recording, spawned := true)
    case ComputeOutcomeWait => s.(main := EnterOutcomeWait(s.Remaining()))
    case EnterOutcomeWait(w) => s.(main := AwaitOutcome(s.now + w))
    case AwaitOutcome(_) =>
      s.(main := Reporting(s.outcomeBox.value), outcomeBox := None, received := s.outcomeBox)
    case Reporting(o) =>
      s.(main := ComputeDoneWait,
         warnings := s.warnings + (match WarningLine(o) case Some(w) => [w] case None => []))
    case ComputeDoneWait => s.(main := EnterDoneWait(s.Remaining()))
    case EnterDoneWait(w) => s.(main := AwaitDone(s.now + w))
    case AwaitDone(_) => s.(main := Returned, doneBox := false)
  }

  function WorkerStep(s: State): State
    requires Enabled(s, WorkerMoves)
  {
    match s.worker
    case Sending(o) => s.(worker := Checking, outcomeBox := Some(o), sent := Some(o))
    case Checking =>
      s.(checkedAt := Some(s.now), worker := if INDEX_RESERVE <= s.Remaining() then CatchingUp else Finishing)
    case CatchingUp => s.(worker := Indexing)
    case Indexing => s.(worker := Finishing)
    case Finishing => s.(worker := Gone, doneBox := true)
  }

  function Step(s: State, e: Event): State
    requires Enabled(s, e)
  {
    match e
    case Tick(ms) =>
      if s.Waiting() then s.(now := s.now + ms, blocked := s.blocked + ms)
      else s.(now := s.now + ms, busy := s.busy + ms)
    case SpawnFails => s.(main := Returned)
    case MainMoves => MainStep(s)
    case MainTimesOut =>
      if s.main.AwaitOutcome? then s.(main := Returned, warnings := s.warnings + [DeadlineWarning])
      else s.(main := Returned)
    case WorkerRecords(o) => s.(worker := Sending(o))
    case WorkerMoves => WorkerStep(s)
    case WorkerDies => s.(worker := Gone)
  }

  /** The events happen one after the other, each enabled in the state the previous ones left. */
  predicate IsRun(s: State, events: seq<Event>)
    decreases events
  {
    events == [] || (Enabled(s, events[0]) && IsRun(Step(s, events[0]), events[1..]))
  }

  function RunOf(s: State, events: seq<Event>): State
    requires IsRun(s, events)
    decreases events
  {
    if events == [] then s else RunOf(Step(s, events[0]), events[1..])
  }

  // ----- what every step keeps -----

  /** How much of the budget main's current or pending wait may still use. */
  function WaitAhead(s: State): int {
    match s.main
    case EnterOutcomeWait(w) => w
    case EnterDoneWait(w) => w
    case AwaitOutcome(until) => until - s.now
    case AwaitDone(until) => until - s.now
    case _ => 0
  }

  predicate Clocked(s: State) {
    && s.now == s.start + s.busy + s.blocked
    && 0 <= WaitAhead(s)
    && s.blocked + WaitAhead(s) <= POST_COMMIT_BUDGET
  }

  predicate Reported(s: State) {
    match s.main
    case ComputeDoneWait | EnterDoneWait(_) | AwaitDone(_) =>
      s.received.Some? && s.warnings == LineOf(s.received.value)
    case Reporting(o) => s.received == Some(o) && s.warnings == []
    case Returned =>
      if s.received.Some? then s.warnings == LineOf(s.received.value)
      else s.sent.None? && s.warnings == if s.spawned then [DeadlineWarning] else []
    case _ => s.received.None? && s.warnings == []
  }

  function LineOf(o: RecordOutcome): seq<Warning> {
    match WarningLine(o) case Some(w) => [w] case None => []
  }

  predicate WorkerOrdered(s: State) {
    && (s.main == Spawning ==> s.worker == Gone && !s.spawned && s.sent.None?)
    && (s.main != Spawning && s.main != Returned ==> s.spawned)
    && (s.worker.Recording? || s.worker.Sending? ==> s.sent.None?)
    && (s.worker.Checking? || s.worker.CatchingUp? || s.worker.Indexing? || s.worker.Finishing? ==> s.sent.Some?)
    && (s.worker.CatchingUp? || s.worker.Indexing? ==>
          s.checkedAt.Some? && s.checkedAt.value + INDEX_RESERVE <= s.Deadline())
    && (s.checkedAt.Some? ==> s.checkedAt.value <= s.now)
    && (s.outcomeBox.Some? ==> s.sent == s.outcomeBox && s.received.None?)
    && (s.sent.Some? && s.outcomeBox.None? ==> s.received.Some?)
    && (s.received.Some? ==> s.sent == s.received)
  }

  /** A wait lasts to the deadline at least, and main returns only once the worker is gone or the deadline is. */
  predicate Patient(s: State) {
    && (s.doneBox ==> s.worker == Gone)
    && match s.main
       case Spawning => !s.spawned && !s.doneBox && s.worker == Gone
       case EnterOutcomeWait(w) => s.Deadline() <= s.now + w
       case EnterDoneWait(w) => s.Deadline() <= s.now + w
       case AwaitOutcome(until) => s.Deadline() <= until
       case AwaitDone(until) => s.Deadline() <= until
       case Returned => !s.spawned || s.worker == Gone || s.Deadline() <= s.now
       case _ => true
  }

  lemma StepKeepsPatience(s: State, e: Event)
    requires Patient(s) && Enabled(s, e)
    ensures Patient(Step(s, e))
  {
  }

  lemma {:induction false} RunIsPatient(s: State, events: seq<Event>)
    requires Patient(s) && IsRun(s, events)
    ensures Patient(RunOf(s, events)) && RunOf(s, events).start == s.start
    decreases events
  {
    if events != [] {
      StepKeepsPatience(s, events[0]);
      RunIsPatient(Step(s, events[0]), events[1..]);
    }
  }

  predicate Inv(s: State) { Clocked(s) && Reported(s) && WorkerOrdered(s) }

  lemma StepKeepsClock(s: State, e: Event)
    requires Clocked(s) && Enabled(s, e)
    ensures Clocked(Step(s, e))
  {
  }

  lemma StepKeepsReport(s: State, e: Event)
    requires Reported(s) && WorkerOrdered(s) && Enabled(s, e)
    ensures Reported(Step(s, e))
  {
  }

  lemma StepKeepsWorkerOrder(s: State, e: Event)
    requires Reported(s) && WorkerOrdered(s) && Enabled(s, e)
    ensures WorkerOrdered(Step(s, e))
  {
    match e
    case WorkerMoves => assert s.worker != Recording;
    case _ =>
  }

  lemma {:induction false} RunKeepsInv(s: State, events: seq<Event>)
    requires Inv(s) && IsRun(s, events)
    ensures Inv(RunOf(s, events)) && RunOf(s, events).start == s.start
    decreases events
  {
    if events != [] {
      StepKeepsClock(s, events[0]);
      StepKeepsReport(s, events[0]);
      StepKeepsWorkerOrder(s, events[0]);
      RunKeepsInv(Step(s, events[0]), events[1..]);
    }
  }

  /** What the user reads about an outcome. */
  predicate IsReportOf(o: RecordOutcome, warnings: seq<Warning>) {
    && (o == NotRecordedHistoryBudget <==> warnings == [HistoryBudgetWarning])
    && (o == NotRecordedDatabaseLocked <==> warnings == [DatabaseLockedWarning])
    && (o == NotRecordedHistoryBudget || o == NotRecordedDatabaseLocked || warnings == [])
  }

  /**
    The deadline contract, for every run. Main's waits use at most ten seconds together, so all time past the
    deadline is time main spent outside its waits; it gives up waiting only at the deadline or when the worker
    is gone; it prints at most one warning; the deadline warning appears exactly when a spawned worker had
    sent nothing by the time the wait ended, and whatever was sent by then is what is reported; and the
    worker indexes only after sending its outcome, having found a second left.
   */
  lemma DeadlineContract(start: nat, events: seq<Event>)
    requires IsRun(Init(start), events)
    ensures var s := RunOf(Init(start), events);
      && s.blocked <= 10_000
      && s.now <= start + 10_000 + s.busy
      && |s.warnings| <= 1
      && (s.main == Returned ==>
            (DeadlineWarning in s.warnings <==> s.spawned && s.sent.None?))
      && (s.main == Returned && s.spawned ==> s.worker == Gone || start + 10_000 <= s.now)
      && (s.main == Returned ==> forall o :: s.sent == Some(o) ==> s.received == Some(o) && IsReportOf(o, s.warnings))
      && (s.worker == CatchingUp || s.worker == Indexing ==>
            s.sent.Some? && s.checkedAt.Some? && s.checkedAt.value <= s.now
            && s.checkedAt.value + 1_000 <= start + 10_000)
  {
    RunKeepsInv(Init(start), events);
    RunIsPatient(Init(start), events);
  }

  /** And a worker that still has that second does go on to catch up, index and report that it is done. */
  lemma WorkerGoesOn(s: State)
    requires s.main != Returned && s.worker == Checking
    ensures Enabled(s, WorkerMoves)
    ensures var t := Step(s, WorkerMoves);
      && t.worker == (if s.now + 1_000 <= s.start + 10_000 then CatchingUp else Finishing)
      && (t.worker == CatchingUp ==>
            IsRun(t, [WorkerMoves, WorkerMoves]) && Step(t, WorkerMoves).worker == Indexing
            && RunOf(t, [WorkerMoves, WorkerMoves]).worker == Finishing)
      && (t.worker == Finishing ==> Step(t, WorkerMoves).worker == Gone && Step(t, WorkerMoves).doneBox)
  {
    var t := Step(s, WorkerMoves);
    if t.worker == CatchingUp {
      var u := Step(t, WorkerMoves);
      assert [WorkerMoves, WorkerMoves][1..] == [WorkerMoves] && [WorkerMoves][1..] == [];
      assert IsRun(u, [WorkerMoves]) && RunOf(u, [WorkerMoves]) == Step(u, WorkerMoves) by {
        assert IsRun(Step(u, WorkerMoves), []);
      }
    }
  }

  // ----- main finishes -----

  /** Steps main still has to take. */
  function MainRank(m: MainPc): nat {
    match m
    case Spawning => 8
    case ComputeOutcomeWait => 7
    case EnterOutcomeWait(_) => 6
    case AwaitOutcome(_) => 5
    case Reporting(_) => 4
    case ComputeDoneWait => 3
    case EnterDoneWait(_) => 2
    case AwaitDone(_) => 1
    case Returned => 0
  }

  /** Main is never stuck: it can move, or it is inside a wait whose end lies at most the rest of
      the budget ahead. Every step of its own brings it closer to returning, no other step takes it back. */
  lemma MainProgress(s: State)
    requires Inv(s) && s.main != Returned
    ensures Enabled(s, MainMoves) || Enabled(s, MainTimesOut)
         || (s.Waiting() && s.now < s.main.until <= s.now + POST_COMMIT_BUDGET - s.blocked)
    ensures forall e | Enabled(s, e) ::
      if IsMainEvent(e) then MainRank(Step(s, e).main) < MainRank(s.main)
      else MainRank(Step(s, e).main) == MainRank(s.main)
  {
  }

  function MainEvents(events: seq<Event>): nat {
    if events == [] then 0
    else (if IsMainEvent(events[0]) then 1 else 0) + MainEvents(events[1..])
  }

  /** Hence no run holds more than eight steps of main. */
  lemma {:induction false} MainTakesAtMostEightSteps(s: State, events: seq<Event>)
    requires Inv(s) && IsRun(s, events)
    ensures MainEvents(events) + MainRank(RunOf(s, events).main) <= MainRank(s.main)
    decreases events
  {
    if events != [] {
      MainProgress(s);
      StepKeepsClock(s, events[0]);
      StepKeepsReport(s, events[0]);
      StepKeepsWorkerOrder(s, events[0]);
      MainTakesAtMostEightSteps(Step(s, events[0]), events[1..]);
    }
  }
}
