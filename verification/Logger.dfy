/** The logger's queue: any number of producers, one writing thread, and the destructor that stops it. */
module Logger {

  type Entry = string

  datatype Phase = Locked(e: Entry) | Queued | Notified

  /** Who holds the mutex: of a producer, how far it has come. */
  datatype Holder = Free | Writer | Destructor | Producer(id: nat, phase: Phase)

  /** Where the writing thread is; it holds the mutex from CheckExit to Swap. */
  datatype Thread = AtTop | CheckExit | CheckEmpty | GoToSleep | Asleep | Woken | Swap | Writing | Done

  datatype Shutdown = NotCalled | FlagSet | Locking | WokeAll | Waiting | Joined

  /** The shared fields, the three kinds of threads, what was written, and all entries ever put in the queue. */
  datatype State = State(
    mutex: Holder,
    queue: seq<Entry>,
    hasToShutdown: bool,
    thread: Thread,
    logs: seq<Entry>,
    written: seq<Entry>,
    destructor: Shutdown,
    enqueued: seq<Entry>)

  const START := State(Free, [], false, AtTop, [], [], NotCalled, [])

  datatype Step =
    | Lock(id: nat, e: Entry) | Push | Notify | Unlock
    | Run | SpuriousWakeup
    | SetFlag | LockToWake | WakeAll | UnlockAndWait | Join

  /** What wakeAll does to the writing thread. */
  function Wake(t: Thread): Thread {
    if t == Asleep then Woken else t
  }

  /** The writing thread can go on: it is awake, and has the mutex where it needs it. */
  predicate CanRun(s: State) {
    match s.thread
    case AtTop => s.mutex == Free
    case Woken => s.mutex == Free
    case Asleep => false
    case Done => false
    case _ => true
  }

  predicate Enabled(s: State, step: Step) {
    match step
    case Lock(_, _) => s.mutex == Free
    case Push => s.mutex.Producer? && s.mutex.phase.Locked?
    case Notify => s.mutex.Producer? && s.mutex.phase.Queued?
    case Unlock => s.mutex.Producer? && s.mutex.phase.Notified?
    case Run => CanRun(s)
    case SpuriousWakeup => s.thread == Asleep
    case SetFlag => s.destructor == NotCalled
    case LockToWake => s.destructor == FlagSet && s.mutex == Free
    case WakeAll => s.destructor == Locking
    case UnlockAndWait => s.destructor == WokeAll
    case Join => s.destructor == Waiting && s.thread == Done
  }

  /** One step of Logger::run. */
  function RunStep(s: State): State {
    match s.thread
    case AtTop => s.(mutex := Writer, thread := CheckExit)
    case CheckExit =>
      if s.hasToShutdown && s.queue == [] then s.(mutex := Free, thread := Done) else s.(thread := CheckEmpty)
    case CheckEmpty =>
      if !s.hasToShutdown && s.queue == [] then s.(thread := GoToSleep) else s.(thread := Swap)
    case GoToSleep => s.(mutex := Free, thread := Asleep)
    case Asleep => s
    case Woken => s.(mutex := Writer, thread := CheckEmpty)
    case Swap => s.(mutex := Free, thread := Writing, logs := s.queue, queue := [])
    case Writing =>
      if s.logs == [] then s.(thread := AtTop) else s.(written := s.written + [s.logs[0]], logs := s.logs[1..])
    case Done => s
  }

  function Next(s: State, step: Step): State
    requires Enabled(s, step)
  {
    match step
    case Lock(id, e) => s.(mutex := Producer(id, Locked(e)))
    case Push =>
      s.(queue := s.queue + [s.mutex.phase.e], enqueued := s.enqueued + [s.mutex.phase.e],
         mutex := Producer(s.mutex.id, Queued))
    case Notify => s.(thread := Wake(s.thread), mutex := Producer(s.mutex.id, Notified))
    case Unlock => s.(mutex := Free)
    case Run => RunStep(s)
    case SpuriousWakeup => s.(thread := Woken)
    case SetFlag => s.(hasToShutdown := true, destructor := FlagSet)
    case LockToWake => s.(mutex := Destructor, destructor := Locking)
    case WakeAll => s.(thread := Wake(s.thread), destructor := WokeAll)
    case UnlockAndWait => s.(mutex := Free, destructor := Waiting)
    case Join => s.(destructor := Joined)
  }

  predicate IsRun(states: seq<State>, steps: seq<Step>) {
    && |states| == |steps| + 1
    && states[0] == START
    && forall i :: 0 <= i < |steps| ==> Enabled(states[i], steps[i]) && states[i + 1] == Next(states[i], steps[i])
  }

  // ---- what every step keeps ----

  /** Every entry is written, or about to be, or queued: once, and in the order of the queue. */
  predicate NothingLost(s: State) {
    s.enqueued == s.written + s.logs + s.queue
  }

  /** The mutex is where the threads are. */
  predicate MutexKept(s: State) {
    && (s.mutex == Writer <==> s.thread in {CheckExit, CheckEmpty, GoToSleep, Swap})
    && (s.mutex == Destructor <==> s.destructor in {Locking, WokeAll})
    && (s.thread != Writing ==> s.logs == [])
  }

  predicate AfterWakeup(d: Shutdown) {
    d in {WokeAll, Waiting, Joined}
  }

  /** Nobody sleeps through a wake-up: not the destructor's, and not that of a queued entry. */
  predicate NoLostWakeup(s: State) {
    && (s.hasToShutdown <==> s.destructor != NotCalled)
    && (s.destructor in {Locking, WokeAll, Waiting, Joined} ==> s.thread != GoToSleep)
    && (AfterWakeup(s.destructor) ==> s.thread != Asleep)
    && (s.thread == GoToSleep ==> s.queue == [])
    && (s.thread == Asleep && s.queue != [] ==> s.mutex.Producer? && s.mutex.phase == Queued)
  }

  predicate Inv(s: State) {
    NothingLost(s) && MutexKept(s) && NoLostWakeup(s)
  }

  lemma StepLosesNothing(s: State, step: Step)
    requires Inv(s) && Enabled(s, step)
    ensures NothingLost(Next(s, step))
  {
    hide NoLostWakeup;
    if step == Run && s.thread == Writing && s.logs != [] {
      assert s.logs == [s.logs[0]] + s.logs[1..];
    }
  }

  lemma StepKeepsInv(s: State, step: Step)
    requires Inv(s) && Enabled(s, step)
    ensures Inv(Next(s, step))
  {
    StepLosesNothing(s, step);
    hide NothingLost;
  }

  /** In every state of every run: nothing is lost, repeated or reordered, and no wake-up is missed. */
  lemma {:induction false} EveryRun(states: seq<State>, steps: seq<Step>, i: nat)
    requires IsRun(states, steps) && i < |states|
    ensures Inv(states[i])
  {
    if i == 0 {
    } else {
      EveryRun(states, steps, i - 1);
      StepKeepsInv(states[i - 1], steps[i - 1]);
    }
  }

  /** The entries that producers came with, in the order in which they got the mutex. */
  function Brought(steps: seq<Step>): seq<Entry> {
    if steps == [] then []
    else
      var last := steps[|steps| - 1];
      Brought(steps[..|steps| - 1]) + if last.Lock? then [last.e] else []
  }

  /** The entry of a producer that has the mutex and has not queued it yet. */
  function Pending(s: State): seq<Entry> {
    if s.mutex.Producer? && s.mutex.phase.Locked? then [s.mutex.phase.e] else []
  }

  /** Every entry a producer came with is written, about to be, queued, or still in its hands: once, and in order. */
  lemma {:induction false} EveryEntryArrives(states: seq<State>, steps: seq<Step>, i: nat)
    requires IsRun(states, steps) && i <= |steps|
    ensures Brought(steps[..i]) == states[i].written + states[i].logs + states[i].queue + Pending(states[i])
  {
    EveryRun(states, steps, i);
    if i > 0 {
      EveryEntryArrives(states, steps, i - 1);
      EveryRun(states, steps, i - 1);
      assert steps[..i][..i - 1] == steps[..i - 1];
      EntryMoves(states[i - 1], steps[i - 1]);
    }
  }

  lemma EntryMoves(s: State, step: Step)
    requires Inv(s) && Enabled(s, step)
    ensures Next(s, step).enqueued + Pending(Next(s, step)) == s.enqueued + Pending(s) + if step.Lock? then [step.e] else []
  {
    hide NoLostWakeup, NothingLost;
  }

  /** The writing thread leaves its loop only after the shutdown, with every entry written. */
  lemma LeavesWithNothingPending(states: seq<State>, steps: seq<Step>, i: nat)
    requires IsRun(states, steps) && i < |steps|
    requires states[i].thread != Done && states[i + 1].thread == Done
    ensures states[i + 1].hasToShutdown && states[i + 1].written == states[i + 1].enqueued
  {
    EveryRun(states, steps, i);
  }

  /** After the destructor's wake-up the writing thread is never asleep. */
  lemma AwakeAfterShutdown(states: seq<State>, steps: seq<Step>, i: nat)
    requires IsRun(states, steps) && i < |states| && AfterWakeup(states[i].destructor)
    ensures states[i].thread != Asleep
  {
    EveryRun(states, steps, i);
  }

  // ---- the shutdown comes to an end ----

  /** The steps the writing thread still has to take, once it has to shut down. */
  function Remaining(s: State): nat {
    var q := |s.queue|;
    match s.thread
    case Done => 0
    case CheckExit => if q == 0 then 1 else q + 6
    case AtTop => if q == 0 then 2 else q + 7
    case Writing => |s.logs| + (if q == 0 then 3 else q + 8)
    case Swap => q + 4
    case CheckEmpty => q + 5
    case Woken => q + 6
    case Asleep => q + 7
    case GoToSleep => q + 8
  }

  /** Once the flag is set, each step of the writing thread brings it nearer to the end, and only a new entry farther. */
  lemma ShutdownAdvances(s: State, step: Step)
    requires Inv(s) && Enabled(s, step) && s.hasToShutdown
    ensures Next(s, step).hasToShutdown
    ensures step == Run ==> Remaining(Next(s, step)) < Remaining(s)
    ensures step != Run && step != Push ==> Remaining(Next(s, step)) <= Remaining(s)
  {
  }

  /** After the wake-up nothing blocks: the writing thread, or whoever holds the mutex, or the join, can go on. */
  lemma ShutdownNeverStuck(s: State)
    requires Inv(s) && AfterWakeup(s.destructor) && s.destructor != Joined
    ensures s.mutex == Free && s.thread != Done ==> Enabled(s, Run)
    ensures s.mutex == Writer ==> Enabled(s, Run)
    ensures s.mutex == Destructor ==> Enabled(s, UnlockAndWait)
    ensures s.mutex.Producer? ==> Enabled(s, Push) || Enabled(s, Notify) || Enabled(s, Unlock)
    ensures s.thread == Done && s.mutex == Free ==> Enabled(s, Join)
  {
  }

  /** So, without new entries, the writing thread takes no more than a fixed number of steps. */
  lemma {:induction false} ShutdownEnds(states: seq<State>, steps: seq<Step>, i: nat, j: nat)
    requires IsRun(states, steps) && i <= j < |states| && states[i].hasToShutdown
    requires forall k :: i <= k < j ==> steps[k] != Push
    ensures states[j].hasToShutdown && Runs(steps[i..j]) + Remaining(states[j]) <= Remaining(states[i])
  {
    hide Inv, Next, Enabled, Remaining;
    if i == j {
    } else {
      ShutdownEnds(states, steps, i, j - 1);
      EveryRun(states, steps, j - 1);
      ShutdownAdvances(states[j - 1], steps[j - 1]);
      assert steps[i..j] == steps[i..j - 1] + [steps[j - 1]];
    }
  }

  /** The steps of the writing thread among some. */
  function Runs(steps: seq<Step>): nat {
    if steps == [] then 0 else Runs(steps[..|steps| - 1]) + if steps[|steps| - 1] == Run then 1 else 0
  }
}
