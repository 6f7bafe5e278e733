/** What every step of the service keeps, for all interleavings and crashes. */
module ServiceInvariants {
  import opened Wrappers
  import opened Codec
  import opened Store
  import opened Crl
  import opened Service

  // -------------------------------------------------------------- the invariant

  /** Memory has always been changed by one store operation at a time, each on an id it
      applies to. */
  ghost predicate Lineage(s: State) {
    && |s.history| == |s.applied| + 1
    && forall i {:trigger s.applied[i]} :: 0 <= i < |s.applied| ==>
         s.history[i + 1] == Apply(s.history[i], s.applied[i]) && Persists(s.history[i], s.applied[i])
  }

  /** The store file is a complete memory version, and holds every committed change. */
  ghost predicate Durable(s: State) {
    && s.disk.version < |s.history| && s.disk.records == s.history[s.disk.version]
    && forall v :: v in s.committed ==> 1 <= v <= s.disk.version
  }

  /** A writer excludes readers; only running threads hold guards. */
  predicate Guards(s: State) {
    && (s.writer.Some? ==> s.readers == {} && s.writer.value in s.threads)
    && s.readers <= s.threads.Keys
  }

  predicate ListedFrom(s: State, crl: RevocationState) {
    crl.version < |s.history| && crl.serials == RevokedSerials(s.history[crl.version])
  }

  /** The acceptor was listed from some version of the store; 200 answers are for committed
      revocations. */
  ghost predicate Accepting(s: State) {
    && (s.acceptor.Some? ==> ListedFrom(s, s.acceptor.value))
    && (s.up ==> s.acceptor.Some?)
    && s.answered <= s.committed
    && (forall v :: v in s.answered ==> 1 <= v <= |s.applied| && s.applied[v - 1].Revoke?)
  }

  /** Version `v` is the change `op` made. */
  predicate Made(s: State, op: StoreOp, v: nat) {
    1 <= v <= |s.applied| && s.applied[v - 1] == op
  }

  /** The thread is where its guards say it is. */
  predicate GuardOk(s: State, t: Tid, pc: Pc) {
    (pc.HoldWrite? <==> s.writer == Some(t)) && (pc.HoldsReadGuard() <==> t in s.readers)
  }

  function MemoryNow(s: State): Versioned
    requires s.history != []
  {
    Versioned(s.Memory(), s.Current())
  }

  /** The temporary file holds the present memory, or has been renamed over the store. */
  predicate MemoryStaged(s: State)
    requires s.history != []
  {
    s.temporary == Some(MemoryNow(s)) || (s.temporary == None && s.disk == MemoryNow(s))
  }

  /** What a thread that changed memory knows about memory and the files. */
  predicate PersistingOk(s: State, pc: Pc)
    requires s.history != []
  {
    && (pc.WantRead? || pc.HoldsReadGuard() ==> Made(s, pc.op, pc.version))
    && (pc.Serialised? ==> pc.text == MemoryNow(s))
    && (pc.Staged? ==> MemoryStaged(s))
    && (pc.Closing? && pc.ok ==> pc.version <= s.disk.version)
  }

  /** A revocation being answered is committed. */
  predicate JobOk(s: State, job: Job) {
    job.Answering? ==> job.op.Revoke? && Made(s, job.op, job.version) && job.version in s.committed
  }

  predicate RefreshingOk(s: State, pc: Pc) {
    && (pc.Refreshing? || pc.InGeneration() || pc.Installed? ==> JobOk(s, pc.job))
    && (pc.Installed? ==> pc.job.Answering?)
    && (pc.HasList() ==> ListedFrom(s, pc.crl) && (pc.job.Answering? ==> pc.job.version <= pc.crl.version))
  }

  predicate ThreadOk(s: State, t: Tid, pc: Pc)
    requires s.history != []
  {
    GuardOk(s, t, pc) && PersistingOk(s, pc) && RefreshingOk(s, pc)
  }

  ghost predicate Threads(s: State)
    requires s.history != []
  {
    forall t :: t in s.threads ==> ThreadOk(s, t, s.threads[t])
  }

  ghost predicate Inv(s: State) {
    Lineage(s) && Durable(s) && Guards(s) && Accepting(s) && Threads(s)
  }

  lemma InitialInv(file: Records, counter: Option<string>)
    ensures Inv(Initial(file, counter))
  {
  }

  // ------------------------------------------------------- what others' steps leave

  /** Nothing of the past is rewritten: history and the store file only move forward. */
  predicate Extends(s: State, s': State) {
    && s.history <= s'.history && s.applied <= s'.applied
    && s.disk.version <= s'.disk.version && s.committed <= s'.committed
  }

  lemma RefreshingFrame(s: State, s': State, pc: Pc)
    requires Extends(s, s') && RefreshingOk(s, pc)
    ensures RefreshingOk(s', pc)
  {
  }

  lemma PersistingFrame(s: State, s': State, pc: Pc)
    requires s.history != [] && Extends(s, s') && PersistingOk(s, pc)
    requires pc.HoldsReadGuard() ==> s'.history == s.history
    requires (s'.temporary == s.temporary && s'.disk == s.disk) || MemoryStaged(s')
    ensures s'.history != [] && PersistingOk(s', pc)
  {
  }

  /** A step of thread `t` that leaves the others' guards alone, moves history only while
      nobody reads, and keeps the staged file right, keeps the invariant if thread `t` is
      left in order. */
  lemma OwnStepKeepsInv(s: State, s': State, t: Tid)
    requires Inv(s) && Lineage(s') && Durable(s') && Guards(s') && Accepting(s') && Extends(s, s')
    requires s'.threads - {t} == s.threads - {t}
    requires forall u :: u != t ==>
               (s'.writer == Some(u) <==> s.writer == Some(u)) && (u in s'.readers <==> u in s.readers)
    requires s'.history == s.history || s.readers <= {t}
    requires (s'.temporary == s.temporary && s'.disk == s.disk) || MemoryStaged(s')
    requires t in s'.threads ==> ThreadOk(s', t, s'.threads[t])
    ensures Inv(s')
  {
    forall u | u in s'.threads ensures ThreadOk(s', u, s'.threads[u]) {
      if u != t {
        assert u in s'.threads - {t};
        assert s'.threads[u] == (s'.threads - {t})[u] == (s.threads - {t})[u] == s.threads[u];
        assert ThreadOk(s, u, s.threads[u]);
        RefreshingFrame(s, s', s.threads[u]);
        PersistingFrame(s, s', s.threads[u]);
      }
    }
  }

  // --------------------------------------------------- preservation, step by step

  /** Everything but the counter, the list file and the log of numbers is the same. */
  predicate SameShared(s: State, s': State) {
    && s'.writer == s.writer && s'.readers == s.readers && s'.history == s.history && s'.applied == s.applied
    && s'.temporary == s.temporary && s'.disk == s.disk && s'.acceptor == s.acceptor && s'.up == s.up
    && s'.committed == s.committed && s'.answered == s.answered
  }

  /** A thread moves on without touching anything the invariant speaks of. */
  lemma QuietMoveKeepsInv(s: State, s': State, t: Tid, pc: Pc)
    requires Inv(s) && SameShared(s, s') && s'.threads == s.threads[t := pc]
    requires GuardOk(s, t, pc) && PersistingOk(s, pc) && RefreshingOk(s, pc)
    ensures Inv(s')
  {
    assert s'.threads - {t} == s.threads - {t};
    OwnStepKeepsInv(s, s', t);
  }

  /** A thread outside every guard ends. */
  lemma QuietEndKeepsInv(s: State, s': State, t: Tid)
    requires Inv(s) && SameShared(s, s') && s'.threads == s.threads - {t}
    requires t in s.threads && !s.threads[t].HoldWrite? && !s.threads[t].HoldsReadGuard()
    ensures Inv(s')
  {
    assert ThreadOk(s, t, s.threads[t]);
    assert s'.threads - {t} == s.threads - {t};
    OwnStepKeepsInv(s, s', t);
  }

  lemma AcquireWriteKeepsInv(s: State, t: Tid)
    requires Inv(s) && At(s, t) && s.threads[t].WantWrite? && s.writer.None? && s.readers == {}
    ensures Inv(s.Move(t, HoldWrite(s.threads[t].op)).(writer := Some(t)))
  {
    var s' := s.Move(t, HoldWrite(s.threads[t].op)).(writer := Some(t));
    assert s'.threads - {t} == s.threads - {t};
    OwnStepKeepsInv(s, s', t);
  }

  lemma MutationKeepsLineage(s: State, t: Tid)
    requires Inv(s) && At(s, t) && s.threads[t].HoldWrite?
    ensures Lineage(AfterMutate(s, t)) && Extends(s, AfterMutate(s, t)) && Durable(AfterMutate(s, t))
  {
  }

  lemma MutateKeepsInv(s: State, t: Tid)
    requires Inv(s) && At(s, t) && s.threads[t].HoldWrite?
    ensures Inv(AfterMutate(s, t))
  {
    assert ThreadOk(s, t, s.threads[t]);
    var s' := AfterMutate(s, t);
    MutationKeepsLineage(s, t);
    assert s'.threads - {t} == s.threads - {t};
    OwnStepKeepsInv(s, s', t);
  }

  lemma AcquireReadKeepsInv(s: State, t: Tid)
    requires Inv(s) && At(s, t) && s.threads[t].WantRead? && s.writer.None?
    ensures Inv(s.Move(t, HoldRead(s.threads[t].op, s.threads[t].version)).(readers := s.readers + {t}))
  {
    assert ThreadOk(s, t, s.threads[t]);
    var s' := s.Move(t, HoldRead(s.threads[t].op, s.threads[t].version)).(readers := s.readers + {t});
    assert s'.threads - {t} == s.threads - {t};
    OwnStepKeepsInv(s, s', t);
  }

  lemma WriteTemporaryKeepsInv(s: State, t: Tid)
    requires Inv(s) && At(s, t) && s.threads[t].Serialised?
    ensures Inv(AfterWriteTemporary(s, t, true))
  {
    assert ThreadOk(s, t, s.threads[t]);
    var s' := AfterWriteTemporary(s, t, true);
    assert s'.threads - {t} == s.threads - {t};
    OwnStepKeepsInv(s, s', t);
  }

  lemma RenameKeepsInv(s: State, t: Tid)
    requires Inv(s) && At(s, t) && s.threads[t].Staged? && s.temporary.Some?
    ensures Inv(AfterRename(s, t, true))
  {
    assert ThreadOk(s, t, s.threads[t]);
    var s' := AfterRename(s, t, true);
    assert s'.threads - {t} == s.threads - {t};
    OwnStepKeepsInv(s, s', t);
  }

  lemma ReleaseExtends(s: State, t: Tid)
    requires Inv(s) && At(s, t) && s.threads[t].Closing?
    ensures var s' := AfterRelease(s, t);
      && Lineage(s') && Durable(s') && Guards(s') && Accepting(s') && Extends(s, s')
      && s'.threads - {t} == s.threads - {t}
  {
    assert ThreadOk(s, t, s.threads[t]);
  }

  lemma ReleaseKeepsInv(s: State, t: Tid)
    requires Inv(s) && At(s, t) && s.threads[t].Closing?
    ensures Inv(AfterRelease(s, t))
  {
    assert ThreadOk(s, t, s.threads[t]);
    var s' := AfterRelease(s, t);
    ReleaseExtends(s, t);
    OwnStepKeepsInv(s, s', t);
  }

  lemma InstallKeepsInv(s: State, t: Tid)
    requires Inv(s) && At(s, t) && s.threads[t].Filed?
    ensures Inv(AfterInstall(s, t, true))
  {
    assert ThreadOk(s, t, s.threads[t]);
    var s' := AfterInstall(s, t, true);
    assert s'.threads - {t} == s.threads - {t};
    OwnStepKeepsInv(s, s', t);
  }

  lemma RespondKeepsInv(s: State, t: Tid)
    requires Inv(s) && At(s, t) && s.threads[t].Installed?
    ensures Inv(AfterRespond(s, t))
  {
    assert ThreadOk(s, t, s.threads[t]);
    var s' := AfterRespond(s, t);
    assert s'.threads - {t} == s.threads - {t};
    OwnStepKeepsInv(s, s', t);
  }

  lemma CrashKeepsInv(s: State)
    requires Inv(s)
    ensures Inv(AfterCrash(s))
  {
  }

  lemma CallKeepsInv(s: State, t: Tid, op: StoreOp)
    requires Inv(s) && t !in s.threads
    ensures Inv(s.Move(t, WantWrite(op)))
  {
    assert t !in s.readers && s.writer != Some(t);
    QuietMoveKeepsInv(s, s.Move(t, WantWrite(op)), t, WantWrite(op));
  }

  /** A store call under its read guard fails. */
  lemma FailureKeepsInv(s: State, t: Tid)
    requires Inv(s) && At(s, t) && s.threads[t].HoldsReadGuard()
    ensures Inv(s.Move(t, Closing(s.threads[t].op, s.threads[t].version, false)))
  {
    assert ThreadOk(s, t, s.threads[t]);
    var failed := Closing(s.threads[t].op, s.threads[t].version, false);
    QuietMoveKeepsInv(s, s.Move(t, failed), t, failed);
  }

  lemma SerialiseKeepsInv(s: State, t: Tid)
    requires Inv(s) && At(s, t) && s.threads[t].HoldRead?
    ensures Inv(AfterSerialise(s, t, true))
  {
    assert ThreadOk(s, t, s.threads[t]);
    var s' := AfterSerialise(s, t, true);
    QuietMoveKeepsInv(s, s', t, s'.threads[t]);
  }

  /** A generation goes on, or fails, before it reaches the store or the acceptor. */
  lemma QuietMoveInGeneration(s: State, s': State, t: Tid)
    requires Inv(s) && SameShared(s, s') && At(s, t)
    requires s.threads[t].Refreshing? || s.threads[t].InGeneration()
    requires s'.threads == s.threads - {t} ||
             (exists pc :: s'.threads == s.threads[t := pc] && pc.InGeneration()
                && pc.job == s.threads[t].job
                && (pc.HasList() ==> s.threads[t].HasList() && pc.crl == s.threads[t].crl))
    ensures Inv(s')
  {
    assert ThreadOk(s, t, s.threads[t]);
    if s'.threads == s.threads - {t} {
      QuietEndKeepsInv(s, s', t);
    } else {
      QuietMoveKeepsInv(s, s', t, s'.threads[t]);
    }
  }

  lemma CounterStepKeepsInv(s: State, t: Tid, ok: bool)
    requires Inv(s) && At(s, t)
    ensures s.threads[t].Refreshing? ==> Inv(AfterReadCounter(s, t, ok))
    ensures s.threads[t].Numbering? ==> Inv(AfterWriteCounter(s, t, ok))
  {
    if s.threads[t].Refreshing? {
      QuietMoveInGeneration(s, AfterReadCounter(s, t, ok), t);
    }
    if s.threads[t].Numbering? {
      QuietMoveInGeneration(s, AfterWriteCounter(s, t, ok), t);
    }
  }

  lemma SigningStepKeepsInv(s: State, t: Tid, ok: bool)
    requires Inv(s) && At(s, t)
    ensures s.threads[t].Listed? ==> Inv(AfterSignList(s, t, ok))
    ensures s.threads[t].Signed? ==> Inv(AfterFileList(s, t, ok))
    ensures s.threads[t].Filed? && !ok ==> Inv(AfterInstall(s, t, ok))
  {
    if s.threads[t].Listed? {
      QuietMoveInGeneration(s, AfterSignList(s, t, ok), t);
    }
    if s.threads[t].Signed? {
      QuietMoveInGeneration(s, AfterFileList(s, t, ok), t);
    }
    if s.threads[t].Filed? && !ok {
      QuietMoveInGeneration(s, AfterInstall(s, t, ok), t);
    }
  }

  lemma ListStoreKeepsInv(s: State, t: Tid)
    requires Inv(s) && At(s, t) && s.threads[t].Numbered?
    ensures Inv(AfterListStore(s, t))
  {
    assert ThreadOk(s, t, s.threads[t]);
    var s' := AfterListStore(s, t);
    QuietMoveKeepsInv(s, s', t, s'.threads[t]);
  }

  predicate StoreStep(step: Step) {
    || step.Call? || step.AcquireWrite? || step.Mutate? || step.AcquireRead? || step.Serialise?
    || step.WriteTemporary? || step.Rename? || step.Release?
  }

  lemma StoreStepKeepsInv(s: State, step: Step, s': State)
    requires Inv(s) && Next(s, step) == Some(s') && StoreStep(step)
    ensures Inv(s')
  {
    match step
    case Call(t, op) => CallKeepsInv(s, t, op);
    case AcquireWrite(t) => AcquireWriteKeepsInv(s, t);
    case Mutate(t) => MutateKeepsInv(s, t);
    case AcquireRead(t) => AcquireReadKeepsInv(s, t);
    case Serialise(t, ok) => if ok { SerialiseKeepsInv(s, t); } else { FailureKeepsInv(s, t); }
    case WriteTemporary(t, ok) =>
      if ok { WriteTemporaryKeepsInv(s, t); } else { FailureKeepsInv(s, t); }
    case Rename(t, ok) =>
      if ok && s.temporary.Some? { RenameKeepsInv(s, t); } else { FailureKeepsInv(s, t); }
    case Release(t) => ReleaseKeepsInv(s, t);
  }

  lemma StepKeepsInv(s: State, step: Step, s': State)
    requires Inv(s) && Next(s, step) == Some(s')
    ensures Inv(s')
  {
    match step
    case ReadCounter(t, ok) => CounterStepKeepsInv(s, t, ok);
    case WriteCounter(t, ok) => CounterStepKeepsInv(s, t, ok);
    case ListStore(t) => ListStoreKeepsInv(s, t);
    case SignList(t, ok) => SigningStepKeepsInv(s, t, ok);
    case FileList(t, ok) => SigningStepKeepsInv(s, t, ok);
    case Install(t, ok) => if ok { InstallKeepsInv(s, t); } else { SigningStepKeepsInv(s, t, ok); }
    case Respond(t) => RespondKeepsInv(s, t);
    case Boot(t) =>
      assert s.readers == {} && s.writer == None;
      QuietMoveKeepsInv(s, s', t, Refreshing(Startup));
    case Crash => CrashKeepsInv(s);
    case _ => StoreStepKeepsInv(s, step, s');
  }

  lemma {:induction false} InvHoldsOverEveryRun(s: State, steps: seq<Step>, s': State)
    requires Inv(s) && Run(s, steps) == Some(s')
    ensures Inv(s')
    decreases |steps|
  {
    if steps == [] {
    } else {
      StepKeepsInv(s, steps[0], Next(s, steps[0]).value);
      InvHoldsOverEveryRun(Next(s, steps[0]).value, steps[1..], s');
    }
  }
}
