/** The running service as a transition system: request threads, the store's
    reader-writer lock, memory, files, the CRL counter and the TLS acceptor. Every step is
    one atomic action, and a crash may come between any two. */
module Service {
  import opened Wrappers
  import opened Codec
  import opened Store
  import opened Crl

  type Tid = nat

  /** Store contents together with their position in the history of memory. */
  datatype Versioned = Versioned(records: Records, version: nat)

  /** A revocation list: its number, the store version it was listed from, its serials. */
  datatype RevocationState = RevocationState(number: nat, version: nat, serials: set<string>)

  /** Why the acceptor is being refreshed. */
  datatype Job = Startup | Answering(op: StoreOp, version: nat)

  /** Where a thread stands. `version` is the memory version its own change produced. */
  datatype Pc =
    | WantWrite(op: StoreOp)                                   // before the write guard
    | HoldWrite(op: StoreOp)                                   // under the write guard
    | WantRead(op: StoreOp, version: nat)                      // changed memory, about to persist
    | HoldRead(op: StoreOp, version: nat)                      // under the read guard
    | Serialised(op: StoreOp, version: nat, text: Versioned)   // text built from memory
    | Staged(op: StoreOp, version: nat)                        // temporary file written
    | Closing(op: StoreOp, version: nat, ok: bool)             // result known, guard still held
    | Refreshing(job: Job)                                     // generation about to start
    | Numbering(job: Job, next: nat)                           // counter file read
    | Numbered(job: Job, number: nat)                          // counter file written
    | Listed(job: Job, crl: RevocationState)                   // store listed
    | Signed(job: Job, crl: RevocationState)                   // list signed
    | Filed(job: Job, crl: RevocationState)                    // list written to its file
    | Installed(job: Job)                                      // acceptor replaced
  {
    predicate HoldsReadGuard() {
      HoldRead? || Serialised? || Staged? || Closing?
    }

    /** Between reading the counter and replacing the acceptor. */
    predicate InGeneration() {
      Numbering? || Numbered? || HasList()
    }

    predicate HasList() {
      Listed? || Signed? || Filed?
    }
  }

  datatype State = State(
    up: bool,                             // requests are served
    threads: map<Tid, Pc>,
    writer: Option<Tid>,
    readers: set<Tid>,
    history: seq<Records>,                // every memory version, the current one last
    applied: seq<StoreOp>,                // applied[i] took history[i] to history[i + 1]
    temporary: Option<Versioned>,
    disk: Versioned,
    counter: Option<string>,
    crlFile: Option<RevocationState>,
    acceptor: Option<RevocationState>,
    committed: set<nat>,                  // versions whose call returned Ok after persisting
    absent: set<(Uuid, nat)>,             // ids answered as unknown, and the version that told so
    answered: set<nat>,                   // versions of revocations answered 200
    signed: seq<nat>)                     // every list number ever signed
  {
    function Current(): nat
      requires history != []
    {
      |history| - 1
    }

    function Memory(): Records
      requires history != []
    {
      history[|history| - 1]
    }

    function Move(t: Tid, pc: Pc): State {
      this.(threads := threads[t := pc])
    }

    function Finish(t: Tid): State {
      this.(threads := threads - {t})
    }
  }

  /** Steps. `ok` is false where the library or the file system fails. */
  datatype Step =
    | Call(t: Tid, op: StoreOp)
    | AcquireWrite(t: Tid)
    | Mutate(t: Tid)
    | AcquireRead(t: Tid)
    | Serialise(t: Tid, ok: bool)
    | WriteTemporary(t: Tid, ok: bool)
    | Rename(t: Tid, ok: bool)
    | Release(t: Tid)
    | ReadCounter(t: Tid, ok: bool)
    | WriteCounter(t: Tid, ok: bool)
    | ListStore(t: Tid)
    | SignList(t: Tid, ok: bool)
    | FileList(t: Tid, ok: bool)
    | Install(t: Tid, ok: bool)
    | Respond(t: Tid)
    | Boot(t: Tid)
    | Crash

  predicate At(s: State, t: Tid) {
    t in s.threads && s.history != []
  }

  /** One step, or None when it is not enabled. */
  function Next(s: State, step: Step): Option<State> {
    match step
    case Call(t, op) =>
      if s.up && t !in s.threads then Some(s.Move(t, WantWrite(op))) else None
    case AcquireWrite(t) =>
      if At(s, t) && s.threads[t].WantWrite? && s.writer.None? && s.readers == {}
      then Some(s.Move(t, HoldWrite(s.threads[t].op)).(writer := Some(t))) else None
    case Mutate(t) =>
      if At(s, t) && s.threads[t].HoldWrite? then Some(AfterMutate(s, t)) else None
    case AcquireRead(t) =>
      if At(s, t) && s.threads[t].WantRead? && s.writer.None?
      then Some(s.Move(t, HoldRead(s.threads[t].op, s.threads[t].version)).(readers := s.readers + {t})) else None
    case Serialise(t, ok) =>
      if At(s, t) && s.threads[t].HoldRead? then Some(AfterSerialise(s, t, ok)) else None
    case WriteTemporary(t, ok) =>
      if At(s, t) && s.threads[t].Serialised? then Some(AfterWriteTemporary(s, t, ok)) else None
    case Rename(t, ok) =>
      if At(s, t) && s.threads[t].Staged? then Some(AfterRename(s, t, ok)) else None
    case Release(t) =>
      if At(s, t) && s.threads[t].Closing? then Some(AfterRelease(s, t)) else None
    case ReadCounter(t, ok) =>
      if At(s, t) && s.threads[t].Refreshing? then Some(AfterReadCounter(s, t, ok)) else None
    case WriteCounter(t, ok) =>
      if At(s, t) && s.threads[t].Numbering? then Some(AfterWriteCounter(s, t, ok)) else None
    case ListStore(t) =>
      if At(s, t) && s.threads[t].Numbered? && s.writer.None? then Some(AfterListStore(s, t)) else None
    case SignList(t, ok) =>
      if At(s, t) && s.threads[t].Listed? then Some(AfterSignList(s, t, ok)) else None
    case FileList(t, ok) =>
      if At(s, t) && s.threads[t].Signed? then Some(AfterFileList(s, t, ok)) else None
    case Install(t, ok) =>
      if At(s, t) && s.threads[t].Filed? then Some(AfterInstall(s, t, ok)) else None
    case Respond(t) =>
      if At(s, t) && s.threads[t].Installed? then Some(AfterRespond(s, t)) else None
    case Boot(t) =>
      if !s.up && s.threads == map[] then Some(s.Move(t, Refreshing(Startup))) else None
    case Crash =>
      if s.disk.version < |s.history| && s.disk.version <= |s.applied| then Some(AfterCrash(s)) else None
  }

  /** The change is made and the write guard dropped. Revoking or removing an unknown id ends
      here: the call returns Ok(None) without persisting. */
  function AfterMutate(s: State, t: Tid): State
    requires At(s, t) && s.threads[t].HoldWrite?
  {
    var op := s.threads[t].op;
    if Persists(s.Memory(), op) then
      s.Move(t, WantRead(op, |s.history|)).(
        history := s.history + [Apply(s.Memory(), op)], applied := s.applied + [op], writer := None)
    else s.Finish(t).(writer := None, absent := s.absent + {(op.Target(), s.Current())})
  }

  function AfterSerialise(s: State, t: Tid, ok: bool): State
    requires At(s, t) && s.threads[t].HoldRead?
  {
    var pc := s.threads[t];
    if ok then s.Move(t, Serialised(pc.op, pc.version, Versioned(s.Memory(), s.Current())))
    else s.Move(t, Closing(pc.op, pc.version, false))
  }

  function AfterWriteTemporary(s: State, t: Tid, ok: bool): State
    requires At(s, t) && s.threads[t].Serialised?
  {
    var pc := s.threads[t];
    if ok then s.Move(t, Staged(pc.op, pc.version)).(temporary := Some(pc.text))
    else s.Move(t, Closing(pc.op, pc.version, false))
  }

  /** Fails as well when an overlapping call has renamed the temporary file already. */
  function AfterRename(s: State, t: Tid, ok: bool): State
    requires At(s, t) && s.threads[t].Staged?
  {
    var pc := s.threads[t];
    if ok && s.temporary.Some?
    then s.Move(t, Closing(pc.op, pc.version, true)).(disk := s.temporary.value, temporary := None)
    else s.Move(t, Closing(pc.op, pc.version, false))
  }

  /** The read guard is dropped and the store call returns; a successful revocation goes
      on to refresh the acceptor. */
  function AfterRelease(s: State, t: Tid): State
    requires At(s, t) && s.threads[t].Closing?
  {
    var pc := s.threads[t];
    var released := s.(readers := s.readers - {t},
                       committed := if pc.ok then s.committed + {pc.version} else s.committed);
    if pc.ok && pc.op.Revoke? then released.Move(t, Refreshing(Answering(pc.op, pc.version)))
    else released.Finish(t)
  }

  function AfterReadCounter(s: State, t: Tid, ok: bool): State
    requires At(s, t) && s.threads[t].Refreshing?
  {
    match NextNumber(s.counter)
    case Ok(n) => if ok then s.Move(t, Numbering(s.threads[t].job, n)) else s.Finish(t)
    case Err(_) => s.Finish(t)
  }

  function AfterWriteCounter(s: State, t: Tid, ok: bool): State
    requires At(s, t) && s.threads[t].Numbering?
  {
    var pc := s.threads[t];
    if ok then s.Move(t, Numbered(pc.job, pc.next)).(counter := Some(PrintDecimal(pc.next))) else s.Finish(t)
  }

  function AfterListStore(s: State, t: Tid): State
    requires At(s, t) && s.threads[t].Numbered?
  {
    var pc := s.threads[t];
    s.Move(t, Listed(pc.job, RevocationState(pc.number, s.Current(), RevokedSerials(s.Memory()))))
  }

  predicate AllDecode(serials: set<string>) {
    forall serial :: serial in serials ==> HexToBytes(serial).Some?
  }

  function AfterSignList(s: State, t: Tid, ok: bool): State
    requires At(s, t) && s.threads[t].Listed?
  {
    var pc := s.threads[t];
    if ok && AllDecode(pc.crl.serials)
    then s.Move(t, Signed(pc.job, pc.crl)).(signed := s.signed + [pc.crl.number])
    else s.Finish(t)
  }

  function AfterFileList(s: State, t: Tid, ok: bool): State
    requires At(s, t) && s.threads[t].Signed?
  {
    var pc := s.threads[t];
    if ok then s.Move(t, Filed(pc.job, pc.crl)).(crlFile := Some(pc.crl)) else s.Finish(t)
  }

  /** At start-up the first acceptor opens the service; later ones replace it. */
  function AfterInstall(s: State, t: Tid, ok: bool): State
    requires At(s, t) && s.threads[t].Filed?
  {
    var pc := s.threads[t];
    if !ok then s.Finish(t)
    else if pc.job.Startup? then s.Finish(t).(acceptor := Some(pc.crl), up := true)
    else s.Move(t, Installed(pc.job)).(acceptor := Some(pc.crl))
  }

  function AfterRespond(s: State, t: Tid): State
    requires At(s, t) && s.threads[t].Installed?
  {
    var job := s.threads[t].job;
    if job.Answering? then s.Finish(t).(answered := s.answered + {job.version}) else s.Finish(t)
  }

  /** Threads, locks, memory and the acceptor are gone; files stay. The store is reopened
      from its file, so later versions count on from the version on disk, and what was
      said of lost versions is forgotten. */
  function AfterCrash(s: State): State
    requires s.disk.version < |s.history| && s.disk.version <= |s.applied|
  {
    s.(up := false, threads := map[], writer := None, readers := {},
       history := s.history[..s.disk.version + 1], applied := s.applied[..s.disk.version], acceptor := None,
       absent := set p | p in s.absent && p.1 <= s.disk.version)
  }

  /** Before the first start: some store file, some counter file, nothing running. */
  function Initial(file: Records, counter: Option<string>): State {
    State(false, map[], None, {}, [file], [], None, Versioned(file, 0), counter, None, None, {}, {}, {}, [])
  }

  function Run(s: State, steps: seq<Step>): Option<State>
    decreases |steps|
  {
    if steps == [] then Some(s)
    else
      match Next(s, steps[0])
      case None => None
      case Some(s') => Run(s', steps[1..])
  }

  /** No two generations overlap. */
  predicate Exclusive(s: State, step: Step) {
    step.ReadCounter? ==> forall t :: t in s.threads ==> !s.threads[t].InGeneration()
  }

  predicate ExclusiveRun(s: State, steps: seq<Step>)
    decreases |steps|
  {
    steps == [] ||
    (Exclusive(s, steps[0]) && Next(s, steps[0]).Some? && ExclusiveRun(Next(s, steps[0]).value, steps[1..]))
  }
}
