/** The barrier on which threads meet: each calls `block` any number of times while one more thread calls
    `releaseThreads`. A mutex and a condition variable are shared by all calls; the steps of different threads
    interleave in any order. A sleeping thread wakes only when the condition variable is broadcast. */
module Barrier {
  import opened Wrappers

  /** Where a thread is in `block` or `releaseThreads`. From `Entered` to `Counted`, and at `Leaving`, it holds the
      mutex; `Asleep` it waits for a broadcast, and `Waking` for the mutex. */
  datatype Pc = Outside | Entered | Counted | Asleep | Waking | Leaving

  datatype Who = Blocker(i: nat) | Releaser

  /** A thread that has `left` calls of `block` yet to begin. */
  datatype Thread = Thread(pc: Pc, left: nat) {
    /** The broadcasts it has yet to see before all its calls can return. */
    function Needs(): nat {
      left + if pc.Entered? || pc.Counted? || pc.Asleep? then 1 else 0
    }
  }

  /** `num` is the argument of the call of `releaseThreads` in progress, `script` those of the calls to come. */
  datatype State = State(n: nat, waitFor: nat, mutex: Option<Who>, threads: seq<Thread>,
                         releaser: Pc, num: nat, script: seq<nat>)
  {
    function At(i: nat, pc: Pc): State
      requires i < |threads|
    {
      this.(threads := threads[i := Thread(pc, threads[i].left)])
    }

    /** The broadcasts the releaser has yet to bring about. */
    function Brings(): nat {
      |script| + if releaser.Entered? || releaser.Asleep? then 1 else 0
    }
  }

  function Woken(t: Thread): Thread {
    if t.pc.Asleep? then Thread(Waking, t.left) else t
  }

  function WakeAll(ts: seq<Thread>): (r: seq<Thread>)
    ensures |r| == |ts| && forall i | 0 <= i < |ts| :: r[i] == Woken(ts[i])
  {
    if ts == [] then [] else [Woken(ts[0])] + WakeAll(ts[1..])
  }

  /** Both counters are reset and every sleeper, the releaser too, is woken. */
  function Unblock(s: State): State {
    s.(n := 0, waitFor := 0, threads := WakeAll(s.threads),
       releaser := if s.releaser.Asleep? then Waking else s.releaser)
  }

  function StepBlocker(s: State, i: nat): Option<State>
    requires i < |s.threads|
  {
    var t := s.threads[i];
    match t.pc
    case Outside =>
      if t.left > 0 && s.mutex.None? then
        Some(s.(mutex := Some(Blocker(i)), threads := s.threads[i := Thread(Entered, t.left - 1)]))
      else None
    case Entered => Some(s.(n := s.n + 1).At(i, Counted))
    case Counted =>
      if s.waitFor > 0 && s.n == s.waitFor then Some(Unblock(s).At(i, Leaving))
      else Some(s.(mutex := None).At(i, Asleep))
    case Asleep => None
    case Waking => if s.mutex.None? then Some(s.(mutex := Some(Blocker(i))).At(i, Leaving)) else None
    case Leaving => Some(s.(mutex := None).At(i, Outside))
  }

  function StepReleaser(s: State): Option<State> {
    match s.releaser
    case Outside =>
      if s.script != [] && s.mutex.None? then
        Some(s.(mutex := Some(Releaser), releaser := Entered, num := s.script[0], script := s.script[1..]))
      else None
    case Entered =>
      if s.n >= s.num then Some(Unblock(s).(releaser := Leaving))
      else Some(s.(mutex := None, waitFor := s.num, releaser := Asleep))
    case Waking => if s.mutex.None? then Some(s.(mutex := Some(Releaser), releaser := Leaving)) else None
    case Leaving => Some(s.(mutex := None, releaser := Outside))
    case _ => None
  }

  /** The next step of one thread, if it can take one now. */
  function Step(s: State, who: Who): Option<State> {
    if who.Releaser? then StepReleaser(s)
    else if who.i < |s.threads| then StepBlocker(s, who.i)
    else None
  }

  /** The state after the threads in `schedule` have moved in that order, if each could. */
  function Run(s: State, schedule: seq<Who>): Option<State>
    decreases |schedule|
  {
    if schedule == [] then Some(s)
    else
      var next := Step(s, schedule[0]);
      if next.Some? then Run(next.value, schedule[1..]) else None
  }

  /** Nobody has called yet; each thread will call `block` `calls` times. */
  function Start(threads: nat, calls: nat, script: seq<nat>): State {
    State(0, 0, None, seq(threads, _ => Thread(Outside, calls)), Outside, 0, script)
  }

  ghost predicate CanReach(s: State, s': State) {
    exists schedule :: Run(s, schedule) == Some(s')
  }

  ghost predicate AllIdle(ts: seq<Thread>) {
    forall i | 0 <= i < |ts| :: ts[i].pc.Outside?
  }

  // ---------- Sums over threads ----------

  function Sum(f: Thread -> nat, ts: seq<Thread>): nat {
    if ts == [] then 0 else f(ts[0]) + Sum(f, ts[1..])
  }

  lemma {:induction false} SumUpdate(f: Thread -> nat, ts: seq<Thread>, i: nat, t: Thread)
    requires i < |ts|
    ensures Sum(f, ts[i := t]) + f(ts[i]) == Sum(f, ts) + f(t)
  {
    if i == 0 {
      assert ts[i := t][1..] == ts[1..];
    } else {
      assert ts[i := t][1..] == ts[1..][i - 1 := t];
      SumUpdate(f, ts[1..], i - 1, t);
    }
  }

  /** Threads that the counter `n` stands for. */
  function Tally(t: Thread): nat {
    if t.pc.Counted? || t.pc.Asleep? then 1 else 0
  }

  function Rank(pc: Pc): nat {
    match pc
    case Outside => 0
    case Leaving => 1
    case Waking => 2
    case Asleep => 3
    case Counted => 4
    case Entered => 5
  }

  /** A bound on the steps a thread has yet to take. */
  function Steps(t: Thread): nat {
    6 * t.left + Rank(t.pc)
  }

  lemma {:induction false} SumWakeAll(ts: seq<Thread>)
    ensures Sum(Steps, WakeAll(ts)) <= Sum(Steps, ts)
    ensures (forall i | 0 <= i < |ts| :: !ts[i].pc.Counted?) ==> Sum(Tally, WakeAll(ts)) == 0
  {
    if ts != [] {
      SumWakeAll(ts[1..]);
      assert WakeAll(ts)[1..] == WakeAll(ts[1..]);
      assert Steps(Woken(ts[0])) <= Steps(ts[0]);
    }
  }

  lemma {:induction false} TallyBound(ts: seq<Thread>)
    ensures Sum(Tally, ts) <= |ts|
    ensures Sum(Tally, ts) == |ts| <==> forall i | 0 <= i < |ts| :: Tally(ts[i]) == 1
  {
    if ts != [] {
      TallyBound(ts[1..]);
      assert Tally(ts[0]) <= 1;
      assert forall i | 0 < i < |ts| :: ts[i] == ts[1..][i - 1];
      assert forall i | 0 <= i < |ts[1..]| :: ts[1..][i] == ts[i + 1];
    }
  }

  lemma {:induction false} TallyNone(ts: seq<Thread>)
    ensures Sum(Tally, ts) == 0 <==> forall i | 0 <= i < |ts| :: Tally(ts[i]) == 0
  {
    if ts != [] {
      TallyNone(ts[1..]);
      assert forall i | 0 < i < |ts| :: ts[i] == ts[1..][i - 1];
      assert forall i | 0 <= i < |ts[1..]| :: ts[1..][i] == ts[i + 1];
    }
  }

  // ---------- Safety, for any number of threads and any calls ----------

  predicate Inside(pc: Pc) {
    pc.Entered? || pc.Counted? || pc.Leaving?
  }

  /** The mutex is held by whoever is between taking and giving it back, and by nobody else. */
  ghost predicate Exclusive(s: State) {
    && (forall i | 0 <= i < |s.threads| :: Inside(s.threads[i].pc) <==> s.mutex == Some(Blocker(i)))
    && (Inside(s.releaser) <==> s.mutex == Some(Releaser))
    && (s.mutex.Some? && s.mutex.value.Blocker? ==> s.mutex.value.i < |s.threads|)
    && s.releaser != Counted
  }

  /** The counters mean what they should. */
  ghost predicate Conserved(s: State) {
    && s.n == Sum(Tally, s.threads)
    && (s.releaser.Asleep? <==> s.waitFor > 0)
    && (s.releaser.Asleep? ==> s.waitFor == s.num)
    && (s.waitFor > 0 ==> s.n <= s.waitFor)
    && (s.waitFor > 0 && s.n == s.waitFor ==> exists i :: 0 <= i < |s.threads| && s.threads[i].pc.Counted?)
  }

  ghost predicate Safe(s: State) {
    Exclusive(s) && Conserved(s)
  }

  lemma BlockerExclusive(s: State, i: nat)
    requires Exclusive(s) && i < |s.threads| && StepBlocker(s, i).Some?
    ensures Exclusive(StepBlocker(s, i).value)
  {
    hide Sum;
  }

  lemma BlockerConserves(s: State, i: nat)
    requires Safe(s) && i < |s.threads| && StepBlocker(s, i).Some?
    ensures Conserved(StepBlocker(s, i).value)
  {
    var t' := StepBlocker(s, i).value.threads[i];
    SumUpdate(Tally, s.threads, i, t');
    var left := s.threads[i := Thread(Leaving, s.threads[i].left)];
    SumWakeAll(left);
    assert WakeAll(left) == WakeAll(s.threads)[i := Thread(Leaving, s.threads[i].left)];
  }

  lemma BlockerKeeps(s: State, i: nat)
    requires Safe(s) && i < |s.threads| && StepBlocker(s, i).Some?
    ensures Safe(StepBlocker(s, i).value)
  {
    hide Exclusive, Conserved, StepBlocker;
    BlockerExclusive(s, i);
    BlockerConserves(s, i);
  }

  lemma ReleaserKeeps(s: State)
    requires Safe(s) && StepReleaser(s).Some?
    ensures Safe(StepReleaser(s).value)
  {
    SumWakeAll(s.threads);
  }

  lemma {:induction false} SafeAlways(s: State, schedule: seq<Who>)
    requires Safe(s) && Run(s, schedule).Some?
    ensures Safe(Run(s, schedule).value)
    decreases |schedule|
  {
    if schedule != [] {
      if schedule[0].Releaser? {
        ReleaserKeeps(s);
      } else {
        BlockerKeeps(s, schedule[0].i);
      }
      SafeAlways(Step(s, schedule[0]).value, schedule[1..]);
    }
  }

  /** Nobody has called yet; any thread may have any number of calls before it, and the releaser any script. */
  ghost predicate Fresh(s: State) {
    s.n == 0 && s.waitFor == 0 && s.mutex.None? && s.releaser.Outside? && AllIdle(s.threads)
  }

  lemma FreshIsSafe(s: State)
    requires Fresh(s)
    ensures Safe(s)
  {
    TallyNone(s.threads);
  }

  function Sleepers(s: State): set<nat> {
    set i | 0 <= i < |s.threads| && s.threads[i].pc.Asleep?
  }

  lemma {:induction false} TallySleepers(ts: seq<Thread>)
    requires forall i | 0 <= i < |ts| :: !ts[i].pc.Counted?
    ensures Sum(Tally, ts) == |set i | 0 <= i < |ts| && ts[i].pc.Asleep?|
    decreases |ts|
  {
    if ts != [] {
      var last := |ts| - 1;
      var before := ts[..last];
      TallySleepers(before);
      SumLast(Tally, ts);
      var sleepers := set i | 0 <= i < |ts| && ts[i].pc.Asleep?;
      var others := set i | 0 <= i < last && before[i].pc.Asleep?;
      assert sleepers == others + if ts[last].pc.Asleep? then {last} else {};
    }
  }

  lemma {:induction false} SumLast(f: Thread -> nat, ts: seq<Thread>)
    requires ts != []
    ensures Sum(f, ts) == Sum(f, ts[..|ts| - 1]) + f(ts[|ts| - 1])
  {
    if |ts| > 1 {
      SumLast(f, ts[1..]);
      assert ts[1..][..|ts| - 2] == ts[..|ts| - 1][1..];
    }
  }

  /** In every state of every run: one thread at a time holds the mutex; while it is free, `n` is the number of
      threads asleep in `block` and short of `waitFor` if that is set; `waitFor` is set exactly while the releaser
      sleeps; and a thread that has just counted itself finds what `block` asserts. */
  lemma BarrierSafety(s0: State, s: State)
    requires Fresh(s0) && CanReach(s0, s)
    ensures forall i, j | 0 <= i < j < |s.threads| :: !(Inside(s.threads[i].pc) && Inside(s.threads[j].pc))
    ensures forall i | 0 <= i < |s.threads| :: !(Inside(s.threads[i].pc) && Inside(s.releaser))
    ensures s.mutex.None? ==> s.n == |Sleepers(s)| && (s.waitFor > 0 ==> s.n < s.waitFor)
    ensures s.releaser.Asleep? <==> s.waitFor > 0
    ensures forall i | 0 <= i < |s.threads| && s.threads[i].pc.Counted? :: s.waitFor == 0 || s.n <= s.waitFor
  {
    var schedule :| Run(s0, schedule) == Some(s);
    FreshIsSafe(s0);
    SafeAlways(s0, schedule);
    if s.mutex.None? {
      assert forall i | 0 <= i < |s.threads| :: !Inside(s.threads[i].pc);
      TallySleepers(s.threads);
    }
  }

  // ---------- Every run ends ----------

  function Measure(s: State): nat {
    Sum(Steps, s.threads) + 6 * |s.script| + Rank(s.releaser)
  }

  lemma BlockerDecreases(s: State, i: nat)
    requires i < |s.threads| && StepBlocker(s, i).Some?
    ensures Measure(StepBlocker(s, i).value) < Measure(s)
  {
    var s' := StepBlocker(s, i).value;
    if s.threads[i].pc.Counted? && s.waitFor > 0 && s.n == s.waitFor {
      SumWakeAll(s.threads);
      SumUpdate(Steps, WakeAll(s.threads), i, s'.threads[i]);
    } else {
      SumUpdate(Steps, s.threads, i, s'.threads[i]);
    }
  }

  lemma ReleaserDecreases(s: State)
    requires StepReleaser(s).Some?
    ensures Measure(StepReleaser(s).value) < Measure(s)
  {
    SumWakeAll(s.threads);
  }

  lemma StepDecreases(s: State, who: Who)
    requires Step(s, who).Some?
    ensures Measure(Step(s, who).value) < Measure(s)
  {
    hide StepBlocker, StepReleaser, Measure;
    if who.Blocker? {
      BlockerDecreases(s, who.i);
    } else {
      ReleaserDecreases(s);
    }
  }

  lemma {:induction false} RunBounded(s: State, schedule: seq<Who>)
    requires Run(s, schedule).Some?
    ensures |schedule| + Measure(Run(s, schedule).value) <= Measure(s)
    decreases |schedule|
  {
    if schedule != [] {
      StepDecreases(s, schedule[0]);
      RunBounded(Step(s, schedule[0]).value, schedule[1..]);
    }
  }

  /** Nobody can move. */
  ghost predicate Complete(s: State) {
    forall who :: Step(s, who).None?
  }

  ghost predicate AllReturned(s: State) {
    && (forall i | 0 <= i < |s.threads| :: s.threads[i] == Thread(Outside, 0))
    && s.releaser.Outside? && s.script == []
  }

  lemma {:induction false} RunAppend(s: State, schedule: seq<Who>, more: seq<Who>)
    requires Run(s, schedule).Some?
    ensures Run(s, schedule + more) == Run(Run(s, schedule).value, more)
    decreases |schedule|
  {
    if schedule == [] {
      assert schedule + more == more;
    } else {
      assert (schedule + more)[1..] == schedule[1..] + more;
      RunAppend(Step(s, schedule[0]).value, schedule[1..], more);
    }
  }

  /** From every state some run leads to one where nobody can move. */
  lemma {:induction false} RunsComplete(s: State) returns (schedule: seq<Who>)
    ensures Run(s, schedule).Some? && Complete(Run(s, schedule).value)
    decreases Measure(s)
  {
    if Complete(s) {
      schedule := [];
    } else {
      var who :| Step(s, who).Some?;
      StepDecreases(s, who);
      var rest := RunsComplete(Step(s, who).value);
      schedule := [who] + rest;
    }
  }

  // ---------- Rounds: every thread blocks once for each call of releaseThreads ----------

  /** Each release asks for all threads, and every thread needs exactly the broadcasts still to come. */
  ghost predicate InRounds(s: State) {
    && Safe(s)
    && (forall k | 0 <= k < |s.script| :: s.script[k] == |s.threads|)
    && (s.releaser.Entered? || s.releaser.Asleep? ==> s.num == |s.threads|)
    && (forall i | 0 <= i < |s.threads| :: s.threads[i].Needs() == s.Brings())
  }

  lemma BlockerInRounds(s: State, i: nat)
    requires InRounds(s) && i < |s.threads| && StepBlocker(s, i).Some?
    ensures InRounds(StepBlocker(s, i).value)
  {
    BlockerKeeps(s, i);
    TallyBound(s.threads);
  }

  lemma ReleaserInRounds(s: State)
    requires InRounds(s) && StepReleaser(s).Some?
    ensures InRounds(StepReleaser(s).value)
  {
    ReleaserKeeps(s);
    TallyBound(s.threads);
  }

  lemma {:induction false} AlwaysInRounds(s: State, schedule: seq<Who>)
    requires InRounds(s) && Run(s, schedule).Some?
    ensures InRounds(Run(s, schedule).value)
    decreases |schedule|
  {
    if schedule != [] {
      if schedule[0].Releaser? {
        ReleaserInRounds(s);
      } else {
        BlockerInRounds(s, schedule[0].i);
      }
      AlwaysInRounds(Step(s, schedule[0]).value, schedule[1..]);
    }
  }

  lemma HolderMoves(s: State)
    requires Safe(s)
    ensures s.mutex.Some? ==> Step(s, s.mutex.value).Some?
  {
  }

  /** No deadlock: somebody can move until everybody has returned. */
  lemma NoDeadlock(s: State)
    requires InRounds(s) && Complete(s)
    ensures AllReturned(s)
  {
    HolderMoves(s);
    assert s.mutex.None?;
    assert Step(s, Releaser).None?;
    assert forall i | 0 <= i < |s.threads| :: !Inside(s.threads[i].pc);
    forall i | 0 <= i < |s.threads|
      ensures s.threads[i] == Thread(Outside, 0) || s.threads[i].pc.Asleep?
    {
      assert Step(s, Blocker(i)).None?;
    }
    if s.releaser.Asleep? {
      TallyBound(s.threads);
    }
  }

  function Repeat(n: nat, times: nat): seq<nat> {
    seq(times, _ => n)
  }

  lemma StartInRounds(threads: nat, rounds: nat)
    ensures InRounds(Start(threads, rounds, Repeat(threads, rounds)))
  {
    FreshIsSafe(Start(threads, rounds, Repeat(threads, rounds)));
  }

  /** For any number of threads and rounds, whichever way the calls interleave, every run can be continued until
      everybody has returned, can end in no other way, and is bounded. */
  lemma BarrierLiveness(threads: nat, rounds: nat, schedule: seq<Who>, s: State)
    requires Run(Start(threads, rounds, Repeat(threads, rounds)), schedule) == Some(s)
    ensures Complete(s) <==> AllReturned(s)
    ensures exists more :: Run(s, more).Some? && AllReturned(Run(s, more).value)
    ensures |schedule| <= 6 * rounds * (threads + 1)
  {
    hide Start, InRounds, Complete, AllReturned, Measure, Repeat, Run;
    var s0 := Start(threads, rounds, Repeat(threads, rounds));
    StartInRounds(threads, rounds);
    AlwaysInRounds(s0, schedule);
    CompleteIsReturned(s);
    var more := RunsComplete(s);
    AlwaysInRounds(s, more);
    CompleteIsReturned(Run(s, more).value);
    RunBounded(s0, schedule);
    StartBound(threads, rounds);
  }

  lemma StartBound(threads: nat, rounds: nat)
    ensures Measure(Start(threads, rounds, Repeat(threads, rounds))) == 6 * rounds * (threads + 1)
  {
    StartMeasure(threads, rounds, Repeat(threads, rounds));
  }

  lemma CompleteIsReturned(s: State)
    requires InRounds(s)
    ensures Complete(s) <==> AllReturned(s)
  {
    if Complete(s) {
      NoDeadlock(s);
    }
  }

  lemma {:induction false} StartMeasure(threads: nat, rounds: nat, script: seq<nat>)
    ensures Measure(Start(threads, rounds, script)) == 6 * rounds * threads + 6 * |script|
  {
    if threads > 0 {
      StartMeasure(threads - 1, rounds, script);
      assert Start(threads, rounds, script).threads[1..] == Start(threads - 1, rounds, script).threads;
    }
  }

  /** In no round does a thread, or the releaser, get past the barrier before every thread has arrived: the calls in
      which `i`, or the releaser, got past it are no more than those in which `j` counted itself in. */
  lemma NobodyOvertakes(threads: nat, rounds: nat, s: State, i: nat, j: nat)
    requires CanReach(Start(threads, rounds, Repeat(threads, rounds)), s) && i < |s.threads| && j < |s.threads|
    ensures |s.threads| == threads
    ensures var t, u := s.threads[i], s.threads[j];
            var passed := rounds - t.left - if t.pc.Entered? || t.pc.Counted? || t.pc.Asleep? then 1 else 0;
            var released := rounds - |s.script| - if s.releaser.Entered? || s.releaser.Asleep? then 1 else 0;
            var arrived := rounds - u.left - if u.pc.Entered? then 1 else 0;
            passed <= arrived && released <= arrived
  {
    var s0 := Start(threads, rounds, Repeat(threads, rounds));
    var schedule :| Run(s0, schedule) == Some(s);
    StartInRounds(threads, rounds);
    AlwaysInRounds(s0, schedule);
    SameThreads(s0, schedule);
  }

  lemma {:induction false} SameThreads(s: State, schedule: seq<Who>)
    requires Run(s, schedule).Some?
    ensures |Run(s, schedule).value.threads| == |s.threads|
    decreases |schedule|
  {
    if schedule != [] {
      SameThreads(Step(s, schedule[0]).value, schedule[1..]);
    }
  }

  // ---------- Which release counts are enough ----------

  /** Some thread will never return: it needs a broadcast more than will come, or the releaser waits for more
      threads than there are. */
  ghost predicate Doomed(s: State) {
    || (exists i :: 0 <= i < |s.threads| && s.threads[i].Needs() > s.Brings())
    || (s.releaser.Asleep? && s.waitFor > |s.threads|)
  }

  /** The releaser waits for too few: when it is released, somebody will not have arrived. */
  ghost predicate Short(s: State) {
    && s.releaser.Asleep? && s.waitFor < |s.threads|
    && (forall i | 0 <= i < |s.threads| :: s.threads[i].Needs() == s.Brings())
  }

  lemma NeedsOutlast(s: State, who: Who, i: nat)
    requires Safe(s) && i < |s.threads| && s.threads[i].Needs() > s.Brings() && Step(s, who).Some?
    ensures var s' := Step(s, who).value; i < |s'.threads| && s'.threads[i].Needs() > s'.Brings()
  {
    hide Sum;
  }

  lemma TooFewStays(s: State, who: Who)
    requires Safe(s) && s.releaser.Asleep? && s.waitFor > |s.threads| && Step(s, who).Some?
    ensures Doomed(Step(s, who).value)
  {
    TallyBound(s.threads);
  }

  lemma ShortStays(s: State, who: Who)
    requires Safe(s) && Short(s) && Step(s, who).Some?
    ensures Doomed(Step(s, who).value) || Short(Step(s, who).value)
  {
    var s' := Step(s, who).value;
    TallyBound(s.threads);
    if !Short(s') {
      var i :| 0 <= i < |s.threads| && Tally(s.threads[i]) == 0;
      assert s'.threads[i].Needs() > s'.Brings();
    }
  }

  lemma DoomStays(s: State, who: Who)
    requires Safe(s) && (Doomed(s) || Short(s)) && Step(s, who).Some?
    ensures Doomed(Step(s, who).value) || Short(Step(s, who).value)
  {
    hide Safe, Step;
    if Short(s) {
      ShortStays(s, who);
    } else if s.releaser.Asleep? && s.waitFor > |s.threads| {
      TooFewStays(s, who);
    } else {
      var i :| 0 <= i < |s.threads| && s.threads[i].Needs() > s.Brings();
      NeedsOutlast(s, who, i);
    }
  }

  lemma {:induction false} DoomedRuns(s: State, schedule: seq<Who>)
    requires Safe(s) && (Doomed(s) || Short(s)) && Run(s, schedule).Some?
    ensures !AllReturned(Run(s, schedule).value)
    decreases |schedule|
  {
    if schedule != [] {
      DoomStays(s, schedule[0]);
      SafeAlways(s, schedule[..1]);
      assert Run(s, schedule[..1]) == Some(Step(s, schedule[0]).value) by {
        assert schedule[..1][1..] == [];
      }
      DoomedRuns(Step(s, schedule[0]).value, schedule[1..]);
    }
  }

  /** Whichever way the calls interleave, a run that cannot go on has returned from all of them. */
  ghost predicate Guaranteed(threads: nat, rounds: nat, script: seq<nat>) {
    forall schedule, s | Run(Start(threads, rounds, script), schedule) == Some(s) && Complete(s) :: AllReturned(s)
  }

  /** The start, with any leftover of an earlier call in `num`. */
  function StartWith(threads: nat, rounds: nat, script: seq<nat>, num: nat): State {
    Start(threads, rounds, script).(num := num)
  }

  lemma StartIsSafe(threads: nat, rounds: nat, script: seq<nat>, num: nat)
    ensures Safe(StartWith(threads, rounds, script, num))
  {
    FreshIsSafe(StartWith(threads, rounds, script, num));
  }

  /** If the releaser comes first and asks for another number than there are threads, somebody hangs. */
  lemma FirstReleaseDooms(threads: nat, rounds: nat, script: seq<nat>, num: nat) returns (schedule: seq<Who>)
    requires |script| == rounds >= 1 && script[0] != threads
    ensures var end := Run(StartWith(threads, rounds, script, num), schedule);
            end.Some? && Complete(end.value) && !AllReturned(end.value)
  {
    var s0 := StartWith(threads, rounds, script, num);
    StartIsSafe(threads, rounds, script, num);
    ReleaserKeeps(s0);
    var s1 := StepReleaser(s0).value;
    ReleaserKeeps(s1);
    var s2 := StepReleaser(s1).value;
    assert Doomed(s2) || Short(s2) by {
      if script[0] == 0 {
        assert s2.threads[0].Needs() > s2.Brings();
      }
    }
    var rest := RunsComplete(s2);
    DoomedRuns(s2, rest);
    schedule := [Releaser, Releaser] + rest;
    assert schedule[1..] == [Releaser] + rest && schedule[1..][1..] == rest;
    assert Run(s0, schedule) == Run(s2, rest);
  }

  // ---------- More calls to come do not disturb those being made ----------

  function MoreCalls(ts: seq<Thread>, calls: nat): (r: seq<Thread>)
    ensures |r| == |ts| && forall i | 0 <= i < |ts| :: r[i] == ts[i].(left := ts[i].left + calls)
  {
    seq(|ts|, i requires 0 <= i < |ts| => ts[i].(left := ts[i].left + calls))
  }

  /** The same state, with more calls to come for every thread and for the releaser. */
  function Plus(s: State, calls: nat, more: seq<nat>): State {
    s.(threads := MoreCalls(s.threads, calls), script := s.script + more)
  }

  lemma PlusWakes(ts: seq<Thread>, calls: nat)
    ensures WakeAll(MoreCalls(ts, calls)) == MoreCalls(WakeAll(ts), calls)
  {
  }

  lemma PlusAt(s: State, i: nat, t: Thread, calls: nat, more: seq<nat>)
    requires i < |s.threads|
    ensures Plus(s.(threads := s.threads[i := t]), calls, more)
            == Plus(s, calls, more).(threads := Plus(s, calls, more).threads[i := t.(left := t.left + calls)])
  {
    assert MoreCalls(s.threads[i := t], calls) == MoreCalls(s.threads, calls)[i := t.(left := t.left + calls)];
  }

  lemma PlusBlocker(s: State, i: nat, calls: nat, more: seq<nat>)
    requires i < |s.threads| && StepBlocker(s, i).Some?
    ensures StepBlocker(Plus(s, calls, more), i) == Some(Plus(StepBlocker(s, i).value, calls, more))
  {
    hide WakeAll, MoreCalls;
    var t := s.threads[i];
    var t' := StepBlocker(s, i).value.threads[i];
    PlusAt(s, i, t', calls, more);
    PlusWakes(s.threads, calls);
    if t.pc.Counted? {
      PlusAt(Unblock(s), i, Thread(Leaving, t.left), calls, more);
    }
  }

  lemma PlusReleaser(s: State, calls: nat, more: seq<nat>)
    requires StepReleaser(s).Some?
    ensures StepReleaser(Plus(s, calls, more)) == Some(Plus(StepReleaser(s).value, calls, more))
  {
    PlusWakes(s.threads, calls);
    if s.script != [] {
      assert (s.script + more)[1..] == s.script[1..] + more;
    }
  }

  lemma {:induction false} PlusRun(s: State, schedule: seq<Who>, calls: nat, more: seq<nat>)
    requires Run(s, schedule).Some?
    ensures Run(Plus(s, calls, more), schedule) == Some(Plus(Run(s, schedule).value, calls, more))
    decreases |schedule|
  {
    hide Plus, StepBlocker, StepReleaser;
    if schedule != [] {
      var who := schedule[0];
      if who.Releaser? {
        PlusReleaser(s, calls, more);
      } else {
        PlusBlocker(s, who.i, calls, more);
        SameSize(s, calls, more);
      }
      PlusRun(Step(s, who).value, schedule[1..], calls, more);
    }
  }

  lemma SameSize(s: State, calls: nat, more: seq<nat>)
    ensures |Plus(s, calls, more).threads| == |s.threads|
  {
  }

  /** A round in which the releaser asks for all threads can be run to its end. */
  lemma OneRound(threads: nat, num: nat) returns (schedule: seq<Who>, after: nat)
    ensures Run(StartWith(threads, 1, [threads], num), schedule) == Some(StartWith(threads, 0, [], after))
  {
    var s0 := StartWith(threads, 1, [threads], num);
    StartIsSafe(threads, 1, [threads], num);
    schedule := RunsComplete(s0);
    AlwaysInRounds(s0, schedule);
    SameThreads(s0, schedule);
    var s := Run(s0, schedule).value;
    NoDeadlock(s);
    HolderMoves(s);
    after := s.num;
    TallyNone(s.threads);
    assert s.threads == Start(threads, 0, []).threads;
  }

  /** If any release asks for another number than there are threads, some interleaving leaves somebody waiting. */
  lemma {:induction false} WrongReleaseDooms(threads: nat, rounds: nat, script: seq<nat>, num: nat)
    returns (schedule: seq<Who>)
    requires |script| == rounds && exists k :: 0 <= k < rounds && script[k] != threads
    ensures var end := Run(StartWith(threads, rounds, script, num), schedule);
            end.Some? && Complete(end.value) && !AllReturned(end.value)
    decreases rounds
  {
    hide Run, Start, StartWith, Complete, AllReturned;
    if script[0] != threads {
      schedule := FirstReleaseDooms(threads, rounds, script, num);
    } else {
      var first, after := PastFirstRound(threads, rounds, script, num);
      var k :| 0 <= k < rounds && script[k] != threads;
      assert script[1..][k - 1] != threads;
      var rest := WrongReleaseDooms(threads, rounds - 1, script[1..], after);
      RunAppend(StartWith(threads, rounds, script, num), first, rest);
      schedule := first + rest;
    }
  }

  lemma PastFirstRound(threads: nat, rounds: nat, script: seq<nat>, num: nat) returns (schedule: seq<Who>, after: nat)
    requires |script| == rounds >= 1 && script[0] == threads
    ensures Run(StartWith(threads, rounds, script, num), schedule)
        == Some(StartWith(threads, rounds - 1, script[1..], after))
  {
    hide Run, Start, StartWith, Plus;
    schedule, after := OneRound(threads, num);
    PlusStart(threads, 1, [threads], num, rounds - 1, script[1..]);
    PlusStart(threads, 0, [], after, rounds - 1, script[1..]);
    assert [threads] + script[1..] == script && [] + script[1..] == script[1..];
    PlusRun(StartWith(threads, 1, [threads], num), schedule, rounds - 1, script[1..]);
  }

  lemma PlusStart(threads: nat, rounds: nat, script: seq<nat>, num: nat, calls: nat, more: seq<nat>)
    ensures Plus(StartWith(threads, rounds, script, num), calls, more)
        == StartWith(threads, rounds + calls, script + more, num)
  {
  }

  /** All interleavings return everybody exactly if every release asks for exactly the number of threads. */
  lemma ExactRelease(threads: nat, script: seq<nat>)
    ensures Guaranteed(threads, |script|, script) <==> forall k | 0 <= k < |script| :: script[k] == threads
  {
    var rounds := |script|;
    if forall k | 0 <= k < rounds :: script[k] == threads {
      assert script == Repeat(threads, rounds);
      forall schedule, s | Run(Start(threads, rounds, script), schedule) == Some(s) && Complete(s)
        ensures AllReturned(s)
      {
        BarrierLiveness(threads, rounds, schedule, s);
      }
    } else {
      var schedule := WrongReleaseDooms(threads, rounds, script, 0);
      assert StartWith(threads, rounds, script, 0) == Start(threads, rounds, script);
    }
  }

  // ---------- The class ----------

  /** The shared counters, and the parts of its methods that run with the mutex held. */
  class WaitForThreads {
    var n: nat
    var waitFor: nat

    ghost predicate Represents(s: State)
      reads this
    {
      n == s.n && waitFor == s.waitFor
    }

    constructor ()
      ensures n == 0 && waitFor == 0
    {
      n, waitFor := 0, 0;
    }

    /** The counters are reset and everybody who sleeps is woken, the releaser too. */
    method UnblockThreads(ghost s: State)
      requires Represents(s)
      modifies this
      ensures n == 0 && waitFor == 0 && Represents(Unblock(s))
      ensures forall j | 0 <= j < |s.threads| ::
                Unblock(s).threads[j].pc == if s.threads[j].pc.Asleep? then Waking else s.threads[j].pc
      ensures Unblock(s).releaser == if s.releaser.Asleep? then Waking else s.releaser
    {
      n := 0;
      waitFor := 0;
    }

    /** `block` from locking the mutex until it waits or leaves: two steps of the protocol. In a reachable state
        what it asserts holds. */
    method BlockSection(ghost s: State, i: nat) returns (broadcast: bool)
      requires Safe(s) && Represents(s) && i < |s.threads| && s.threads[i].pc.Entered?
      modifies this
      ensures var s' := Step(Step(s, Blocker(i)).value, Blocker(i)).value;
              && Represents(s')
              && s'.threads[i].pc == (if broadcast then Leaving else Asleep)
              && (broadcast ==> n == 0 && waitFor == 0 && !s'.releaser.Asleep?)
              && (broadcast ==> forall j | 0 <= j < |s'.threads| :: !s'.threads[j].pc.Asleep?)
    {
      BlockerKeeps(s, i);
      n := n + 1;
      assert waitFor == 0 || n <= waitFor;
      if waitFor > 0 && n == waitFor {
        UnblockThreads(Step(s, Blocker(i)).value);
        broadcast := true;
      } else {
        broadcast := false;
      }
    }

    /** `releaseThreads` from locking the mutex until it waits or leaves. */
    method ReleaseSection(ghost s: State, num: nat) returns (broadcast: bool)
      requires Represents(s) && s.releaser.Entered? && s.num == num
      modifies this
      ensures var s' := Step(s, Releaser).value;
              && Represents(s')
              && s'.releaser == (if broadcast then Leaving else Asleep)
              && (broadcast ==> n == 0 && waitFor == 0 && !s'.releaser.Asleep?)
              && (broadcast ==> forall j | 0 <= j < |s'.threads| :: !s'.threads[j].pc.Asleep?)
    {
      if n >= num {
        UnblockThreads(s);
        broadcast := true;
      } else {
        waitFor := num;
        broadcast := false;
      }
    }
  }
}
