/// The handshake between a thread that enters blocking operations and the
/// threads that want it to stop, as interleaved atomic steps on a word of
/// flags.  With flags that are not atomic the source takes a lock around
/// several of these steps, which only removes interleavings.
module BlockingOp {

  /** The 32-bit word suspend_flags, bit by bit; every access of the source is to one bit. */
  type Flags = f: seq<bool> | |f| == 32 witness seq(32, _ => false)

  const TERMINATE := 0
  const BLOCKING := 4

  predicate IsSet(flags: Flags, bit: nat)
    requires bit < 32
  {
    flags[bit]
  }

  function Set(flags: Flags, bit: nat): Flags
    requires bit < 32
  {
    flags[bit := true]
  }

  function Clr(flags: Flags, bit: nat): Flags
    requires bit < 32
  {
    flags[bit := false]
  }

  /** Where the worker is: outside; behind begin's assertion; behind its SET; behind a test that saw
      TERMINATE; inside the operation; behind end's assertion. */
  datatype Worker = Outside | Entering | Announced | Refused | Inside | Leaving

  /** Where an interrupter is: not yet called; behind its SET or back at the loop test; behind a test
      that saw BLOCKING, about to wake the worker up; returned. */
  datatype Interrupter = Idle | Testing | Waking | Returned

  datatype State = State(flags: Flags, worker: Worker, interrupters: seq<Interrupter>)

  predicate Init(s: State) {
    && !IsSet(s.flags, BLOCKING) && s.worker == Outside
    && (forall k | 0 <= k < |s.interrupters| :: s.interrupters[k] == Idle)
  }

  /** The atomic steps of begin and end.  An assertion that fails has no step. */
  predicate WorkerStep(s: State, s': State) {
    && s'.interrupters == s.interrupters
    && match s.worker
       case Outside => !IsSet(s.flags, BLOCKING) && s' == s.(worker := Entering)
       case Entering => s' == s.(worker := Announced, flags := Set(s.flags, BLOCKING))
       case Announced => s' == s.(worker := if IsSet(s.flags, TERMINATE) then Refused else Inside)
       case Refused => s' == s.(worker := Outside, flags := Clr(s.flags, BLOCKING))
       case Inside => IsSet(s.flags, BLOCKING) && s' == s.(worker := Leaving)
       case Leaving => s' == s.(worker := Outside, flags := Clr(s.flags, BLOCKING))
  }

  /** The atomic steps of one interrupter; a thread that has returned may call again. */
  predicate InterrupterStep(s: State, s': State, k: nat)
    requires k < |s.interrupters|
  {
    match s.interrupters[k]
    case Idle => s' == s.(flags := Set(s.flags, TERMINATE), interrupters := s.interrupters[k := Testing])
    case Testing => s' == s.(interrupters :=
                              s.interrupters[k := if IsSet(s.flags, BLOCKING) then Waking else Returned])
    case Waking => s' == s.(interrupters := s.interrupters[k := Testing])
    case Returned => s' == s.(flags := Set(s.flags, TERMINATE), interrupters := s.interrupters[k := Testing])
  }

  /** The rest of the runtime may set TERMINATE itself and changes the other flags as it likes. */
  predicate OutsideStep(s: State, s': State) {
    && s' == s.(flags := s'.flags)
    && (IsSet(s.flags, TERMINATE) ==> IsSet(s'.flags, TERMINATE))
    && (IsSet(s'.flags, BLOCKING) <==> IsSet(s.flags, BLOCKING))
  }

  predicate Next(s: State, s': State) {
    || WorkerStep(s, s')
    || (exists k: nat | k < |s.interrupters| :: InterrupterStep(s, s', k))
    || OutsideStep(s, s')
  }

  /** An interleaving of the threads from a start in which nobody has begun. */
  ghost predicate IsRun(run: seq<State>) {
    && |run| > 0 && Init(run[0])
    && forall i | 0 <= i < |run| - 1 :: Next(run[i], run[i + 1])
  }

  /** BLOCKING is set exactly while the worker stands between its SET and its CLR, TERMINATE is set
      once somebody has interrupted, and while somebody has returned nobody is inside. */
  predicate Inv(s: State) {
    && (IsSet(s.flags, BLOCKING) <==> s.worker in {Announced, Refused, Inside, Leaving})
    && (s.worker == Refused ==> IsSet(s.flags, TERMINATE))
    && forall k | 0 <= k < |s.interrupters| ::
         && (s.interrupters[k] != Idle ==> IsSet(s.flags, TERMINATE))
         && (s.interrupters[k] == Returned ==> s.worker !in {Inside, Leaving})
  }

  /** Every step keeps the invariant, never clears TERMINATE, and lets no begin succeed once it is set. */
  lemma StepKeepsInv(s: State, s': State)
    requires Inv(s) && Next(s, s')
    ensures Inv(s') && |s'.interrupters| == |s.interrupters|
    ensures IsSet(s.flags, TERMINATE) ==> IsSet(s'.flags, TERMINATE)
    ensures IsSet(s.flags, TERMINATE) && s'.worker == Inside ==> s.worker == Inside
  {
  }

  lemma {:induction false} RunKeepsInv(run: seq<State>, i: nat)
    requires IsRun(run) && i < |run|
    ensures Inv(run[i])
  {
    if i > 0 {
      RunKeepsInv(run, i - 1);
      StepKeepsInv(run[i - 1], run[i]);
    }
  }

  /** Neither assertion of the source can fail in any interleaving. */
  lemma AssertionsHold(run: seq<State>, i: nat)
    requires IsRun(run) && i < |run|
    ensures run[i].worker == Outside ==> !IsSet(run[i].flags, BLOCKING)
    ensures run[i].worker == Inside ==> IsSet(run[i].flags, BLOCKING)
  {
    RunKeepsInv(run, i);
  }

  /** Once TERMINATE is set it stays set, and the worker is inside only if it has been there all along. */
  lemma {:induction false} NoBeginSucceeds(run: seq<State>, i: nat, j: nat)
    requires IsRun(run) && i <= j < |run| && IsSet(run[i].flags, TERMINATE)
    ensures IsSet(run[j].flags, TERMINATE)
    ensures run[j].worker == Inside ==> forall m | i <= m <= j :: run[m].worker == Inside
    decreases j
  {
    if i < j {
      NoBeginSucceeds(run, i, j - 1);
      RunKeepsInv(run, j - 1);
      StepKeepsInv(run[j - 1], run[j]);
    }
  }

  /** When an interrupter returns, the worker is not inside a blocking operation and never will be. */
  lemma ReturnedMeansNeverInside(run: seq<State>, i: nat, j: nat, k: nat)
    requires IsRun(run) && i <= j < |run| && k < |run[i].interrupters|
    requires run[i].interrupters[k] == Returned
    ensures run[j].worker != Inside
  {
    RunKeepsInv(run, i);
    NoBeginSucceeds(run, i, j);
  }

  /** No wakeup is lost: while the worker is inside, every interrupter that has started is still in
      its loop, and its next test goes on to another wakeup. */
  lemma InterruptersKeepWaking(run: seq<State>, i: nat, k: nat)
    requires IsRun(run) && i < |run| && k < |run[i].interrupters|
    requires run[i].worker == Inside && run[i].interrupters[k] != Idle
    ensures run[i].interrupters[k] in {Testing, Waking} && IsSet(run[i].flags, BLOCKING)
  {
    RunKeepsInv(run, i);
  }

  /** The threads of the handshake leave the other flags alone. */
  lemma HandshakeKeepsOthers(s: State, s': State)
    requires WorkerStep(s, s') || (exists k: nat | k < |s.interrupters| :: InterrupterStep(s, s', k))
    ensures forall bit | 0 <= bit < 32 && bit != TERMINATE && bit != BLOCKING :: s'.flags[bit] == s.flags[bit]
  {
  }

  /** What begin makes of the flags when no other thread steps in between, and whether it succeeds. */
  function Begun(flags: Flags): (bool, Flags) {
    if IsSet(flags, TERMINATE) then (false, flags) else (true, Set(flags, BLOCKING))
  }

  lemma ClrUndoesSet(flags: Flags, bit: nat)
    requires bit < 32 && !IsSet(flags, bit)
    ensures Clr(Set(flags, bit), bit) == flags
  {
  }

  /** The outcome of an interrupter whose successive tests find these flags: one wakeup for each test
      that finds BLOCKING set, and the return at the first that finds it clear. */
  predicate Interruption(tests: seq<Flags>, wakeups: nat, returned: bool) {
    && wakeups <= |tests| && (forall i | 0 <= i < wakeups :: IsSet(tests[i], BLOCKING))
    && returned == (wakeups < |tests|)
    && (returned ==> !IsSet(tests[wakeups], BLOCKING))
  }

  /** The flags decide it. */
  lemma OneOutcome(tests: seq<Flags>, wakeups: nat, returned: bool, wakeups': nat, returned': bool)
    requires Interruption(tests, wakeups, returned) && Interruption(tests, wakeups', returned')
    ensures wakeups == wakeups' && returned == returned'
  {
    hide IsSet;
  }

  /** The calls themselves. */
  class ExecEnv {
    var flags: Flags

    constructor (initial: Flags)
      ensures flags == initial
    {
      flags := initial;
    }

    /** Under the lock. */
    method BeginBlockingOp() returns (ok: bool)
      requires !IsSet(flags, BLOCKING)
      modifies this
      ensures (ok, flags) == Begun(old(flags))
    {
      flags := Set(flags, BLOCKING);
      if IsSet(flags, TERMINATE) {
        ClrUndoesSet(old(flags), BLOCKING);
        flags := Clr(flags, BLOCKING);
        return false;
      }
      return true;
    }

    /** Under the lock. */
    method EndBlockingOp()
      requires IsSet(flags, BLOCKING)
      modifies this
      ensures flags == Clr(old(flags), BLOCKING)
    {
      flags := Clr(flags, BLOCKING);
    }

    /** The lock is given up between two tests: `seen` are the flags as the other threads leave them
        for the tests after the first.  The thread returns at the first test that finds BLOCKING clear;
        with none it is still waiting when `seen` is used up. */
    method InterruptBlockingOp(seen: seq<Flags>) returns (wakeups: nat, returned: bool)
      modifies this
      ensures var tests := [Set(old(flags), TERMINATE)] + seen;
              Interruption(tests, wakeups, returned) && (returned ==> flags == tests[wakeups])
    {
      flags := Set(flags, TERMINATE);
      ghost var tests := [flags] + seen;
      wakeups := 0;
      while IsSet(flags, BLOCKING)
        invariant wakeups < |tests| && flags == tests[wakeups]
        invariant forall i | 0 <= i < wakeups :: IsSet(tests[i], BLOCKING)
        decreases |tests| - wakeups
      {
        wakeups := wakeups + 1;
        if wakeups > |seen| {
          return wakeups, false;
        }
        flags := seen[wakeups - 1];
      }
      returned := true;
    }
  }

  /** `steps` are successive steps of the worker alone. */
  predicate WorkerSteps(steps: seq<State>) {
    |steps| > 0 && forall i | 0 <= i < |steps| - 1 :: WorkerStep(steps[i], steps[i + 1])
  }

  /** A begin that runs on its own takes the worker's atomic steps to the outcome of BeginBlockingOp. */
  lemma BeginIsWorkerSteps(s: State) returns (steps: seq<State>)
    requires s.worker == Outside && !IsSet(s.flags, BLOCKING)
    ensures WorkerSteps(steps) && steps[0] == s
    ensures var end := steps[|steps| - 1];
            (end.worker == Inside, end.flags) == Begun(s.flags) && end.worker in {Inside, Outside}
  {
    var s1 := s.(worker := Entering);
    var s2 := s1.(worker := Announced, flags := Set(s.flags, BLOCKING));
    if IsSet(s.flags, TERMINATE) {
      var s3 := s2.(worker := Refused);
      ClrUndoesSet(s.flags, BLOCKING);
      steps := [s, s1, s2, s3, s3.(worker := Outside, flags := Clr(s3.flags, BLOCKING))];
    } else {
      steps := [s, s1, s2, s2.(worker := Inside)];
    }
  }

  /** And an end that runs on its own, to the outcome of EndBlockingOp. */
  lemma EndIsWorkerSteps(s: State) returns (steps: seq<State>)
    requires s.worker == Inside && IsSet(s.flags, BLOCKING)
    ensures WorkerSteps(steps) && steps[0] == s
    ensures var end := steps[|steps| - 1]; end.worker == Outside && end.flags == Clr(s.flags, BLOCKING)
  {
    steps := [s, s.(worker := Leaving), s.(worker := Outside, flags := Clr(s.flags, BLOCKING))];
  }

  // One interrupter in a run

  /** Every step is one of interrupter k, or leaves it where it is. */
  lemma OthersLeave(s: State, s': State, k: nat)
    requires Next(s, s') && k < |s.interrupters|
    ensures |s'.interrupters| == |s.interrupters|
    ensures s'.interrupters[k] == s.interrupters[k] || InterrupterStep(s, s', k)
  {
  }

  /** Where interrupter k is in state i; it is always somewhere, for no thread comes or goes. */
  function At(run: seq<State>, k: nat, i: nat): Interrupter
    requires i < |run| && k < |run[i].interrupters|
  {
    run[i].interrupters[k]
  }

  lemma {:induction false} SameThreads(run: seq<State>, i: nat)
    requires IsRun(run) && i < |run|
    ensures |run[i].interrupters| == |run[0].interrupters|
    decreases i
  {
    hide Next;
    if i > 0 {
      SameThreads(run, i - 1);
      assert Next(run[i - 1], run[i]);
      RunKeepsInv(run, i - 1);
      StepKeepsInv(run[i - 1], run[i]);
    }
  }

  ghost predicate HasThread(run: seq<State>, k: nat) {
    IsRun(run) && forall m | 0 <= m < |run| :: k < |run[m].interrupters|
  }

  lemma ThreadsStay(run: seq<State>, k: nat)
    requires IsRun(run) && k < |run[0].interrupters|
    ensures HasThread(run, k)
  {
    forall m | 0 <= m < |run|
      ensures k < |run[m].interrupters|
    {
      SameThreads(run, m);
    }
  }

  /** The flags that the tests of interrupter k find between states i and j. */
  function Tests(run: seq<State>, k: nat, i: nat, j: nat): seq<Flags>
    requires i <= j < |run| && forall m | 0 <= m < |run| :: k < |run[m].interrupters|
  {
    if i == j then []
    else
      Tests(run, k, i, j - 1)
      + (if At(run, k, j - 1) == Testing && At(run, k, j) != Testing then [run[j - 1].flags] else [])
  }

  /** How often it goes on to wake the worker up. */
  function Wakeups(run: seq<State>, k: nat, i: nat, j: nat): nat
    requires i <= j < |run| && forall m | 0 <= m < |run| :: k < |run[m].interrupters|
  {
    if i == j then 0
    else Wakeups(run, k, i, j - 1) + (if At(run, k, j - 1) != Waking && At(run, k, j) == Waking then 1 else 0)
  }

  /** Interrupter k has made its SET before state i and does not call again up to state j. */
  predicate OneCall(run: seq<State>, k: nat, i: nat, j: nat)
    requires i <= j < |run| && forall m | 0 <= m < |run| :: k < |run[m].interrupters|
  {
    At(run, k, i) == Testing && forall m | i <= m < j && At(run, k, m) == Returned :: At(run, k, m + 1) == Returned
  }

  /** In every interleaving a call, from its SET on, has the outcome InterruptBlockingOp promises for
      the flags its tests find, and they all find TERMINATE set. */
  lemma {:induction false} CallIsInterruption(run: seq<State>, k: nat, i: nat, j: nat)
    requires HasThread(run, k) && i <= j < |run| && OneCall(run, k, i, j)
    ensures Interruption(Tests(run, k, i, j), Wakeups(run, k, i, j), At(run, k, j) == Returned)
    ensures At(run, k, j) != Idle
    ensures forall t <- Tests(run, k, i, j) :: IsSet(t, TERMINATE)
    decreases j
  {
    hide Next, InterrupterStep, Inv, IsSet;
    if i < j {
      assert OneCall(run, k, i, j - 1);
      CallIsInterruption(run, k, i, j - 1);
      assert Next(run[j - 1], run[j]);
      RunKeepsInv(run, j - 1);
      OthersLeave(run[j - 1], run[j], k);
      if At(run, k, j) != At(run, k, j - 1) {
        CallStep(run[j - 1], run[j], k);
      }
      OneMoreTest(Tests(run, k, i, j - 1), Wakeups(run, k, i, j - 1), run[j - 1].flags);
    }
  }

  /** The step of an interrupter that is in the loop. */
  lemma CallStep(s: State, s': State, k: nat)
    requires Inv(s) && k < |s.interrupters| && InterrupterStep(s, s', k) && s.interrupters[k] !in {Idle, Returned}
    ensures IsSet(s.flags, TERMINATE)
    ensures s'.interrupters[k] == if s.interrupters[k] == Waking then Testing
                                  else if IsSet(s.flags, BLOCKING) then Waking else Returned
  {
  }

  /** An interrupter that is still waiting tests once more. */
  lemma OneMoreTest(tests: seq<Flags>, wakeups: nat, flags: Flags)
    ensures Interruption(tests, wakeups, false) ==>
              if IsSet(flags, BLOCKING) then Interruption(tests + [flags], wakeups + 1, false)
              else Interruption(tests + [flags], wakeups, true)
  {
    hide IsSet;
  }

  // Progress

  /** How many steps interrupter k takes between states i and j. */
  function OwnSteps(run: seq<State>, k: nat, i: nat, j: nat): nat
    requires i <= j < |run| && forall m | 0 <= m < |run| :: k < |run[m].interrupters|
  {
    if i == j then 0 else OwnSteps(run, k, i, j - 1) + (if At(run, k, j - 1) != At(run, k, j) then 1 else 0)
  }

  /** While the worker stays outside, every interrupter returns within two steps of its own, whatever
      the other threads do. */
  lemma InterrupterReturns(run: seq<State>, k: nat, i: nat, j: nat)
    requires HasThread(run, k) && i <= j < |run| && forall m | i <= m <= j :: run[m].worker == Outside
    requires OwnSteps(run, k, i, j) >= 2
    ensures exists m | i <= m <= j :: At(run, k, m) == Returned
  {
    hide IsRun, OwnSteps;
    if forall m | i <= m <= j :: At(run, k, m) != Returned {
      StepsLeft(run, k, i, j);
    }
  }

  lemma {:induction false} StepsLeft(run: seq<State>, k: nat, i: nat, j: nat)
    requires HasThread(run, k) && i <= j < |run| && forall m | i <= m <= j :: run[m].worker == Outside
    requires forall m | i <= m <= j :: At(run, k, m) != Returned
    ensures OwnSteps(run, k, i, j) + (if At(run, k, j) == Testing then 0 else 1)
         <= if At(run, k, i) == Testing then 0 else 1
    decreases j
  {
    hide Next, InterrupterStep, Inv, IsSet;
    if i < j {
      StepsLeft(run, k, i, j - 1);
      assert Next(run[j - 1], run[j]);
      RunKeepsInv(run, j - 1);
      OthersLeave(run[j - 1], run[j], k);
      if At(run, k, j) != At(run, k, j - 1) {
        StepOutside(run[j - 1], run[j], k);
      }
    }
  }

  lemma StepOutside(s: State, s': State, k: nat)
    requires Inv(s) && s.worker == Outside && k < |s.interrupters| && InterrupterStep(s, s', k)
    ensures s'.interrupters[k] == if s.interrupters[k] == Testing then Returned else Testing
  {
  }
}
