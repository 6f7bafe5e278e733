/** Generations that never overlap pass both guards of module ServiceGuards; their numbers are
    signed in increasing order as well. */
module ServiceExclusive {
  import opened Wrappers
  import opened Codec
  import opened Store
  import opened Crl
  import opened Service
  import opened ServiceInvariants
  import opened ServiceTheorems
  import opened ServiceGuards

  // ----------------------------------------------------------------- the invariant

  ghost predicate OneGeneration(s: State) {
    forall t, u :: t in s.threads && u in s.threads && s.threads[t].InGeneration() && s.threads[u].InGeneration() ==>
      t == u
  }

  predicate AheadOk(s: State, pc: Pc) {
    pc.HasList() && s.acceptor.Some? ==> s.acceptor.value.version <= pc.crl.version
  }

  /** A list waiting to be installed is not older than the installed one. */
  ghost predicate Ahead(s: State) {
    forall t :: t in s.threads ==> AheadOk(s, s.threads[t])
  }

  predicate Above(numbers: seq<nat>, n: nat) {
    numbers != [] ==> numbers[|numbers| - 1] < n
  }

  /** The counter file holds a number no smaller than the last number signed. */
  predicate CounterBounds(s: State) {
    s.signed != [] ==> Reached(s.counter, s.signed[|s.signed| - 1])
  }

  predicate NumberOk(s: State, pc: Pc) {
    && (pc.Numbering? ==> NextNumber(s.counter) == Ok(pc.next))
    && (pc.Numbered? ==> CounterValue(s.counter) == Some(pc.number) && Above(s.signed, pc.number))
    && (pc.Listed? ==> CounterValue(s.counter) == Some(pc.crl.number) && Above(s.signed, pc.crl.number))
  }

  ghost predicate Numbered(s: State) {
    && Increasing(s.signed) && CounterBounds(s)
    && (forall t :: t in s.threads ==> NumberOk(s, s.threads[t]))
  }

  ghost predicate ExclusiveInv(s: State) {
    Inv(s) && OneGeneration(s) && Ahead(s) && Numbered(s)
  }

  lemma InitialExclusiveInv(file: Records, counter: Option<string>)
    ensures ExclusiveInv(Initial(file, counter))
  {
  }

  // ------------------------------------------------------------------ preservation

  lemma StepKeepsOneGeneration(s: State, step: Step, s': State)
    requires OneGeneration(s) && Next(s, step) == Some(s') && Exclusive(s, step)
    ensures OneGeneration(s')
  {
    if !step.Crash? {
      StepTouchesOneThread(s, step, s');
      StepProgress(s, step, s');
    }
  }

  lemma InstallKeepsAhead(s: State, t: Tid, ok: bool)
    requires OneGeneration(s) && Ahead(s) && At(s, t) && s.threads[t].Filed?
    ensures Ahead(AfterInstall(s, t, ok))
  {
    var s' := AfterInstall(s, t, ok);
    forall u | u in s'.threads ensures AheadOk(s', s'.threads[u]) {
      if u != t {
        assert AheadOk(s, s.threads[u]);
        assert s.threads[t].InGeneration() && !s.threads[u].InGeneration();
      }
    }
  }

  /** A fresh listing is ahead of the acceptor. */
  lemma OtherStepKeepsAhead(s: State, step: Step, s': State)
    requires Inv(s) && Ahead(s) && Next(s, step) == Some(s') && !step.Install? && !step.Crash?
    ensures Ahead(s')
  {
    OnlyInstallationChangesTheAcceptor(s, step, s');
    StepTouchesOneThread(s, step, s');
    StepProgress(s, step, s');
    forall u | u in s'.threads ensures AheadOk(s', s'.threads[u]) {
      if u in s.threads {
        assert AheadOk(s, s.threads[u]);
      }
    }
  }

  lemma StepKeepsAhead(s: State, step: Step, s': State)
    requires Inv(s) && OneGeneration(s) && Ahead(s) && Next(s, step) == Some(s')
    ensures Ahead(s')
  {
    match step
    case Install(t, ok) => InstallKeepsAhead(s, t, ok);
    case Crash =>
    case _ => OtherStepKeepsAhead(s, step, s');
  }

  /** Steps that touch neither the counter nor the log of numbers. */
  lemma OtherStepKeepsNumbers(s: State, step: Step, s': State)
    requires Numbered(s) && Next(s, step) == Some(s') && !step.WriteCounter? && !step.SignList?
    ensures Numbered(s')
  {
    CounterAndLogUntouched(s, step, s');
    if !step.Crash? {
      StepTouchesOneThread(s, step, s');
      StepProgress(s, step, s');
      if step.t in s.threads {
        assert NumberOk(s, s.threads[step.t]);
      }
      forall t | t in s'.threads ensures NumberOk(s', s'.threads[t]) {
        if t != step.t {
          assert NumberOk(s, s.threads[t]);
        }
      }
    }
  }

  lemma WriteCounterKeepsNumbers(s: State, t: Tid, ok: bool)
    requires OneGeneration(s) && Numbered(s) && At(s, t) && s.threads[t].Numbering?
    ensures Numbered(AfterWriteCounter(s, t, ok))
  {
    assert NumberOk(s, s.threads[t]);
    NextNumberIsOneMore(s.counter);
    var s' := AfterWriteCounter(s, t, ok);
    forall u | u in s'.threads ensures NumberOk(s', s'.threads[u]) {
      if u != t {
        assert NumberOk(s, s.threads[u]);
        assert s.threads[t].InGeneration() && !s.threads[u].InGeneration();
      }
    }
  }

  lemma SignListKeepsNumbers(s: State, t: Tid, ok: bool)
    requires OneGeneration(s) && Numbered(s) && At(s, t) && s.threads[t].Listed?
    ensures Numbered(AfterSignList(s, t, ok))
  {
    assert NumberOk(s, s.threads[t]);
    var s' := AfterSignList(s, t, ok);
    assert s'.signed != s.signed ==> s'.signed[..|s'.signed| - 1] == s.signed;
    forall u | u in s'.threads ensures NumberOk(s', s'.threads[u]) {
      if u != t {
        assert NumberOk(s, s.threads[u]);
        assert s.threads[t].InGeneration() && !s.threads[u].InGeneration();
      }
    }
  }

  lemma StepKeepsNumbers(s: State, step: Step, s': State)
    requires OneGeneration(s) && Numbered(s) && Next(s, step) == Some(s')
    ensures Numbered(s')
  {
    match step
    case WriteCounter(t, ok) => WriteCounterKeepsNumbers(s, t, ok);
    case SignList(t, ok) => SignListKeepsNumbers(s, t, ok);
    case _ => OtherStepKeepsNumbers(s, step, s');
  }

  lemma StepKeepsExclusiveInv(s: State, step: Step, s': State)
    requires ExclusiveInv(s) && Next(s, step) == Some(s') && Exclusive(s, step)
    ensures ExclusiveInv(s')
  {
    StepKeepsInv(s, step, s');
    StepKeepsOneGeneration(s, step, s');
    StepKeepsAhead(s, step, s');
    StepKeepsNumbers(s, step, s');
  }

  lemma {:induction false} ExclusiveInvHolds(s: State, steps: seq<Step>, s': State)
    requires ExclusiveInv(s) && ExclusiveRun(s, steps) && Run(s, steps) == Some(s')
    ensures ExclusiveInv(s') && ForwardRun(s, steps) && CurrentRun(s, steps)
    decreases |steps|
  {
    if steps == [] {
    } else {
      var step, mid := steps[0], Next(s, steps[0]).value;
      StepKeepsExclusiveInv(s, step, mid);
      assert !step.Crash? && step.t in s.threads ==> AheadOk(s, s.threads[step.t]) && NumberOk(s, s.threads[step.t]);
      ExclusiveInvHolds(mid, steps[1..], s');
    }
  }

  // ------------------------------------------------------------------ the promises

  /** Without overlapping generations no installation goes back and every counter write is
      current: all that module ServiceGuards promises holds, in any run with any crashes. */
  lemma ExclusiveRunsPassTheGuards(file: Records, counter: Option<string>, steps: seq<Step>, s: State)
    requires ExclusiveRun(Initial(file, counter), steps) && Run(Initial(file, counter), steps) == Some(s)
    ensures ForwardRun(Initial(file, counter), steps) && CurrentRun(Initial(file, counter), steps)
  {
    InitialExclusiveInv(file, counter);
    ExclusiveInvHolds(Initial(file, counter), steps, s);
  }

  /** The numbers signed strictly increase across restarts, crashes and failed signings, and
      the counter file is never behind any of them (section 5.2.3 of RFC 5280). */
  lemma ListNumbersStrictlyIncrease(file: Records, counter: Option<string>, steps: seq<Step>, s: State)
    requires ExclusiveRun(Initial(file, counter), steps) && Run(Initial(file, counter), steps) == Some(s)
    ensures Increasing(s.signed)
    ensures forall n :: n in s.signed ==> Reached(s.counter, n)
  {
    InitialExclusiveInv(file, counter);
    ExclusiveInvHolds(Initial(file, counter), steps, s);
  }

  /** Whatever text stands for the largest u64, no generation gets a number from it: the thread
      ends and nothing else changes. From no other text is a number refused as exhausted. */
  lemma ExhaustedCounterStopsGeneration(s: State, t: Tid, ok: bool)
    requires At(s, t) && s.threads[t].Refreshing?
    ensures NextNumber(s.counter) == Err(CounterExhausted) <==>
              CounterValue(s.counter) == Some(18_446_744_073_709_551_615)
    ensures CounterValue(s.counter) == Some(18_446_744_073_709_551_615) ==>
              Next(s, ReadCounter(t, ok)) == Some(s.(threads := s.threads - {t}))
  {
  }
}
