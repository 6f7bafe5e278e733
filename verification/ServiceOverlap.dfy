/** What goes right when a call runs undisturbed, and what is lost when calls overlap:
    runs that show the limits of the promises in ServiceTheorems and ServiceGuards, where the
    conditions are stated exactly. Each lemma returns the run it speaks of. */
module ServiceOverlap {
  import opened Wrappers
  import opened Codec
  import opened Store
  import opened Crl
  import opened Service
  import opened ServiceInvariants

  lemma {:induction false} RunConcat(s: State, first: seq<Step>, mid: State, second: seq<Step>, last: State)
    requires Run(s, first) == Some(mid) && Run(mid, second) == Some(last)
    ensures Run(s, first + second) == Some(last)
    decreases |first|
  {
    if first == [] {
      assert first + second == second;
    } else {
      assert (first + second)[1..] == first[1..] + second;
      RunConcat(Next(s, first[0]).value, first[1..], mid, second, last);
    }
  }

  lemma RunOne(s: State, a: Step, s1: State) returns (steps: seq<Step>)
    requires Next(s, a) == Some(s1)
    ensures Run(s, steps) == Some(s1)
  {
    steps := [a];
    assert steps[1..] == [];
  }

  lemma RunTwo(s: State, a: Step, s1: State, b: Step, s2: State) returns (steps: seq<Step>)
    requires Next(s, a) == Some(s1) && Next(s1, b) == Some(s2)
    ensures Run(s, steps) == Some(s2)
  {
    var first := RunOne(s, a, s1);
    var second := RunOne(s1, b, s2);
    RunConcat(s, first, s1, second, s2);
    steps := first + second;
  }

  lemma RunThree(s: State, a: Step, s1: State, b: Step, s2: State, c: Step, s3: State) returns (steps: seq<Step>)
    requires Next(s, a) == Some(s1) && Next(s1, b) == Some(s2) && Next(s2, c) == Some(s3)
    ensures Run(s, steps) == Some(s3)
  {
    var first := RunTwo(s, a, s1, b, s2);
    var second := RunOne(s2, c, s3);
    RunConcat(s, first, s2, second, s3);
    steps := first + second;
  }

  // ---------------------------------------------------------- undisturbed execution

  /** Nobody holds a guard. */
  predicate Unguarded(s: State) {
    s.history != [] && s.writer.None? && s.readers == {}
  }

  /** After a call has changed memory. */
  function Changed(s: State, t: Tid, op: StoreOp): State
    requires s.history != []
  {
    s.(threads := s.threads[t := WantRead(op, |s.history|)],
       history := s.history + [Apply(s.Memory(), op)], applied := s.applied + [op])
  }

  lemma ChangeRuns(s: State, t: Tid, op: StoreOp) returns (steps: seq<Step>)
    requires s.up && Unguarded(s) && t !in s.threads && Persists(s.Memory(), op)
    ensures Run(s, steps) == Some(Changed(s, t, op))
  {
    var s1 := s.Move(t, WantWrite(op));
    var s2 := s1.Move(t, HoldWrite(op)).(writer := Some(t));
    var s3 := Changed(s, t, op);
    assert AfterMutate(s2, t).threads == s3.threads;
    steps := RunThree(s, Call(t, op), s1, AcquireWrite(t), s2, Mutate(t), s3);
  }

  /** After the temporary file is written. */
  function StagedBy(s: State, t: Tid): State
    requires At(s, t) && s.threads[t].WantRead?
  {
    var pc := s.threads[t];
    s.(threads := s.threads[t := Staged(pc.op, pc.version)], readers := s.readers + {t},
       temporary := Some(MemoryNow(s)))
  }

  lemma StagingRuns(s: State, t: Tid) returns (steps: seq<Step>)
    requires s.writer.None? && At(s, t) && s.threads[t].WantRead?
    ensures Run(s, steps) == Some(StagedBy(s, t))
  {
    var pc := s.threads[t];
    var s1 := s.Move(t, HoldRead(pc.op, pc.version)).(readers := s.readers + {t});
    var s2 := s1.Move(t, Serialised(pc.op, pc.version, MemoryNow(s)));
    var s3 := StagedBy(s, t);
    assert AfterSerialise(s1, t, true) == s2;
    assert AfterWriteTemporary(s2, t, true).threads == s3.threads;
    steps := RunThree(s, AcquireRead(t), s1, Serialise(t, true), s2, WriteTemporary(t, true), s3);
  }

  /** After the store call has returned Ok. */
  function PersistedBy(s: State, t: Tid): State
    requires At(s, t) && s.threads[t].WantRead?
  {
    var pc := s.threads[t];
    var written := s.(temporary := None, disk := MemoryNow(s), committed := s.committed + {pc.version});
    if pc.op.Revoke? then written.Move(t, Refreshing(Answering(pc.op, pc.version))) else written.Finish(t)
  }

  lemma PersistRuns(s: State, t: Tid) returns (steps: seq<Step>)
    requires Unguarded(s) && At(s, t) && s.threads[t].WantRead?
    ensures Run(s, steps) == Some(PersistedBy(s, t))
  {
    var staging := StagingRuns(s, t);
    var pc := s.threads[t];
    var s3 := StagedBy(s, t);
    var s4 := s3.Move(t, Closing(pc.op, pc.version, true)).(disk := MemoryNow(s), temporary := None);
    assert AfterRename(s3, t, true) == s4;
    assert AfterRelease(s4, t).threads == PersistedBy(s, t).threads;
    assert AfterRelease(s4, t).readers == {};
    var renaming := RunTwo(s3, Rename(t, true), s4, Release(t), PersistedBy(s, t));
    RunConcat(s, staging, s3, renaming, PersistedBy(s, t));
    steps := staging + renaming;
  }

  function RevokingBy(s: State, t: Tid, op: StoreOp): State
    requires s.history != []
  {
    PersistedBy(Changed(s, t, op), t)
  }

  lemma RevokingRuns(s: State, t: Tid, op: StoreOp) returns (steps: seq<Step>)
    requires s.up && Unguarded(s) && t !in s.threads && Persists(s.Memory(), op)
    ensures Run(s, steps) == Some(RevokingBy(s, t, op))
  {
    var change := ChangeRuns(s, t, op);
    var persist := PersistRuns(Changed(s, t, op), t);
    RunConcat(s, change, Changed(s, t, op), persist, RevokingBy(s, t, op));
    steps := change + persist;
  }

  /** After the store has been listed as number `n`. */
  function ListedBy(s: State, t: Tid, n: nat): State
    requires At(s, t) && s.threads[t].Refreshing?
  {
    s.(threads := s.threads[t := Listed(s.threads[t].job, RevocationState(n, s.Current(), RevokedSerials(s.Memory())))],
       counter := Some(PrintDecimal(n)))
  }

  lemma ListRuns(s: State, t: Tid, n: nat) returns (steps: seq<Step>)
    requires s.writer.None? && At(s, t) && s.threads[t].Refreshing? && NextNumber(s.counter) == Ok(n)
    ensures Run(s, steps) == Some(ListedBy(s, t, n))
  {
    var job := s.threads[t].job;
    var s1 := s.Move(t, Numbering(job, n));
    var s2 := s1.Move(t, Pc.Numbered(job, n)).(counter := Some(PrintDecimal(n)));
    assert AfterListStore(s2, t).threads == ListedBy(s, t, n).threads;
    steps := RunThree(s, ReadCounter(t, true), s1, WriteCounter(t, true), s2, ListStore(t), ListedBy(s, t, n));
  }

  /** After a listed revocation is signed, filed and installed. */
  function PublishedBy(s: State, t: Tid): State
    requires At(s, t) && s.threads[t].Listed?
  {
    var pc := s.threads[t];
    s.(threads := s.threads[t := Installed(pc.job)], signed := s.signed + [pc.crl.number],
       crlFile := Some(pc.crl), acceptor := Some(pc.crl))
  }

  lemma PublishRuns(s: State, t: Tid) returns (steps: seq<Step>)
    requires At(s, t) && s.threads[t].Listed? && s.threads[t].job.Answering? && AllDecode(s.threads[t].crl.serials)
    ensures Run(s, steps) == Some(PublishedBy(s, t))
  {
    var pc := s.threads[t];
    var s1 := s.Move(t, Signed(pc.job, pc.crl)).(signed := s.signed + [pc.crl.number]);
    var s2 := s1.Move(t, Filed(pc.job, pc.crl)).(crlFile := Some(pc.crl));
    assert AfterInstall(s2, t, true).threads == PublishedBy(s, t).threads;
    steps := RunThree(s, SignList(t, true), s1, FileList(t, true), s2, Install(t, true), PublishedBy(s, t));
  }

  /** After a revocation has been answered. */
  function RefreshedBy(s: State, t: Tid, n: nat): State
    requires At(s, t) && s.threads[t].Refreshing? && s.threads[t].job.Answering?
  {
    var crl := RevocationState(n, s.Current(), RevokedSerials(s.Memory()));
    s.(threads := s.threads - {t}, counter := Some(PrintDecimal(n)), signed := s.signed + [n],
       crlFile := Some(crl), acceptor := Some(crl), answered := s.answered + {s.threads[t].job.version})
  }

  lemma RefreshRuns(s: State, t: Tid, n: nat) returns (steps: seq<Step>)
    requires s.writer.None? && At(s, t) && s.threads[t].Refreshing? && s.threads[t].job.Answering?
    requires NextNumber(s.counter) == Ok(n) && AllDecode(RevokedSerials(s.Memory()))
    ensures Run(s, steps) == Some(RefreshedBy(s, t, n))
  {
    var s3, s4 := ListedBy(s, t, n), PublishedBy(ListedBy(s, t, n), t);
    var list := ListRuns(s, t, n);
    var publish := PublishRuns(s3, t);
    RunConcat(s, list, s3, publish, s4);
    assert AfterRespond(s4, t).threads == s.threads - {t};
    var respond := RunOne(s4, Respond(t), RefreshedBy(s, t, n));
    RunConcat(s, list + publish, s4, respond, RefreshedBy(s, t, n));
    steps := list + publish + respond;
  }

  /** Where an answered revocation leaves the service: the change is in memory and on disk,
      and the acceptor's list is the present store's. */
  function AnsweredBy(s: State, op: StoreOp, n: nat): State
    requires s.history != []
  {
    var after, version := Apply(s.Memory(), op), |s.history|;
    var crl := RevocationState(n, version, RevokedSerials(after));
    s.(history := s.history + [after], applied := s.applied + [op],
       temporary := None, disk := Versioned(after, version),
       committed := s.committed + {version}, answered := s.answered + {version},
       counter := Some(PrintDecimal(n)), signed := s.signed + [n], crlFile := Some(crl), acceptor := Some(crl))
  }

  /** A revocation that is not disturbed and meets no failure is answered 200. */
  lemma UndisturbedRevocationIsAnswered(s: State, t: Tid, op: StoreOp, n: nat) returns (steps: seq<Step>)
    requires s.up && Unguarded(s) && t !in s.threads && op.Revoke? && Persists(s.Memory(), op)
    requires NextNumber(s.counter) == Ok(n) && AllDecode(RevokedSerials(Apply(s.Memory(), op)))
    ensures Run(s, steps) == Some(AnsweredBy(s, op, n))
  {
    var revoke := RevokingRuns(s, t, op);
    var s2 := RevokingBy(s, t, op);
    assert s2.Memory() == Apply(s.Memory(), op) && s2.counter == s.counter;
    var refresh := RefreshRuns(s2, t, n);
    RunConcat(s, revoke, s2, refresh, RefreshedBy(s2, t, n));
    assert RefreshedBy(s2, t, n).threads == s.threads;
    steps := revoke + refresh;
  }

  lemma StartUpPublishes(s: State, t: Tid, crl: RevocationState) returns (steps: seq<Step>)
    requires s.history != [] && s.threads == map[t := Listed(Startup, crl)] && AllDecode(crl.serials)
    ensures Run(s, steps) == Some(s.(threads := map[], up := true, signed := s.signed + [crl.number],
                                     crlFile := Some(crl), acceptor := Some(crl)))
  {
    var s1 := s.Move(t, Signed(Startup, crl)).(signed := s.signed + [crl.number]);
    var s2 := s1.Move(t, Filed(Startup, crl)).(crlFile := Some(crl));
    var s3 := s2.Finish(t).(up := true, acceptor := Some(crl));
    assert s3.threads == map[];
    steps := RunThree(s, SignList(t, true), s1, FileList(t, true), s2, Install(t, true), s3);
  }

  /** With a readable counter and decodable serials the service comes up on any store file;
      so the lemmas that start from a serving state speak of reachable states. */
  lemma StartUpServes(file: Records, counter: Option<string>, n: nat) returns (steps: seq<Step>, s: State)
    requires NextNumber(counter) == Ok(n) && AllDecode(RevokedSerials(file))
    ensures Run(Initial(file, counter), steps) == Some(s)
    ensures s.up && Unguarded(s) && s.threads == map[] && s.Memory() == file
    ensures s.acceptor == Some(RevocationState(n, 0, RevokedSerials(file))) && s.signed == [n]
  {
    var t: Tid := 0;
    var s0 := Initial(file, counter);
    var s1 := s0.Move(t, Refreshing(Startup));
    var booting := RunOne(s0, Boot(t), s1);
    var listing := ListRuns(s1, t, n);
    var s2 := ListedBy(s1, t, n);
    RunConcat(s0, booting, s1, listing, s2);
    var crl := RevocationState(n, 0, RevokedSerials(file));
    assert s2 == s0.(threads := map[t := Listed(Startup, crl)], counter := Some(PrintDecimal(n)));
    var publishing := StartUpPublishes(s2, t, crl);
    s := s2.(threads := map[], up := true, signed := s2.signed + [n], crlFile := Some(crl), acceptor := Some(crl));
    RunConcat(s0, booting + listing, s2, publishing, s);
    steps := booting + listing + publishing;
  }

  // ---------------------------------------------------------------- overlapping calls

  lemma BothPersist(s: State, t: Tid, u: Tid) returns (steps: seq<Step>, s': State)
    requires t != u && Unguarded(s) && At(s, t) && At(s, u) && s.threads[t].WantRead? && s.threads[u].WantRead?
    requires !s.threads[t].op.Revoke? && !s.threads[u].op.Revoke?
    ensures Run(s, steps) == Some(s')
    ensures s'.disk == MemoryNow(s) && s'.history == s.history && s'.threads == s.threads - {t, u}
    ensures s'.committed == s.committed + {s.threads[t].version}
  {
    var s1, s2 := StagedBy(s, t), StagedBy(StagedBy(s, t), u);
    var first := StagingRuns(s, t);
    var second := StagingRuns(s1, u);
    RunConcat(s, first, s1, second, s2);
    var renaming, s4 := BothRename(s, s2, t, u);
    RunConcat(s, first + second, s2, renaming, s4);
    var releasing, s6 := BothRelease(s, s4, t, u);
    RunConcat(s, first + second + renaming, s4, releasing, s6);
    steps, s' := first + second + renaming + releasing, s6;
  }

  /** A store call can return an error although its change is on disk: two calls can overlap
      so that the second finds its temporary file renamed away and is not committed, while
      the store file is the present memory with both changes. */
  lemma FailedCallMayBeOnDisk(s: State, t: Tid, a: StoreOp, u: Tid, b: StoreOp) returns (steps: seq<Step>, s': State)
    requires s.up && Unguarded(s) && t != u && t !in s.threads && u !in s.threads
    requires !a.Revoke? && !b.Revoke? && Persists(s.Memory(), a) && Persists(Apply(s.Memory(), a), b)
    ensures Run(s, steps) == Some(s') && s'.threads == s.threads
    ensures s'.disk == Versioned(Apply(Apply(s.Memory(), a), b), |s.history| + 1)
    ensures s'.committed == s.committed + {|s.history|}
  {
    var s1, s2 := Changed(s, t, a), Changed(Changed(s, t, a), u, b);
    var first := ChangeRuns(s, t, a);
    var second := ChangeRuns(s1, u, b);
    RunConcat(s, first, s1, second, s2);
    var persisting, s3 := BothPersist(s2, t, u);
    RunConcat(s, first + second, s2, persisting, s3);
    steps, s' := first + second + persisting, s3;
  }

  /** A call that changed memory and cannot serialise it ends with an error. */
  lemma FailingRuns(s: State, t: Tid) returns (steps: seq<Step>)
    requires Unguarded(s) && At(s, t) && s.threads[t].WantRead?
    ensures Run(s, steps) == Some(s.Finish(t))
  {
    var pc := s.threads[t];
    var s1 := s.Move(t, HoldRead(pc.op, pc.version)).(readers := {t});
    var s2 := s1.Move(t, Closing(pc.op, pc.version, false));
    assert s.readers + {t} == {t} && {t} - {t} == s.readers;
    assert AfterRelease(s2, t).threads == s.Finish(t).threads;
    steps := RunThree(s, AcquireRead(t), s1, Serialise(t, false), s2, Release(t), s.Finish(t));
  }

  /** A second way there: another call persists both changes, and only then does the first call
      fail, before it has written anything itself. No temporary file goes missing. */
  lemma FailedSerialisationMayBeOnDisk(s: State, t: Tid, a: StoreOp, u: Tid, b: StoreOp)
    returns (steps: seq<Step>, s': State)
    requires s.up && Unguarded(s) && t != u && t !in s.threads && u !in s.threads
    requires !b.Revoke? && Persists(s.Memory(), a) && Persists(Apply(s.Memory(), a), b)
    ensures Run(s, steps) == Some(s') && s'.threads == s.threads
    ensures s'.disk == Versioned(Apply(Apply(s.Memory(), a), b), |s.history| + 1)
    ensures s'.committed == s.committed + {|s.history| + 1}
  {
    var s1, s2 := Changed(s, t, a), Changed(Changed(s, t, a), u, b);
    var first := ChangeRuns(s, t, a);
    var second := ChangeRuns(s1, u, b);
    RunConcat(s, first, s1, second, s2);
    var persisting := PersistRuns(s2, u);
    var s3 := PersistedBy(s2, u);
    RunConcat(s, first + second, s2, persisting, s3);
    var failing := FailingRuns(s3, t);
    s' := s3.Finish(t);
    RunConcat(s, first + second + persisting, s3, failing, s');
    assert s'.threads == s.threads;
    steps := first + second + persisting + failing;
  }

  lemma UnknownRuns(s: State, t: Tid, op: StoreOp) returns (steps: seq<Step>)
    requires s.up && Unguarded(s) && t !in s.threads && !Persists(s.Memory(), op)
    ensures Run(s, steps) == Some(s.(absent := s.absent + {(op.Target(), s.Current())}))
  {
    var s1 := s.Move(t, WantWrite(op));
    var s2 := s1.Move(t, HoldWrite(op)).(writer := Some(t));
    var s3 := s.(absent := s.absent + {(op.Target(), s.Current())});
    assert AfterMutate(s2, t).threads == s3.threads;
    steps := RunThree(s, Call(t, op), s1, AcquireWrite(t), s2, Mutate(t), s3);
  }

  /** Not every Ok is durable. A removal whose write fails has taken the record out of memory,
      so removing it again returns Ok(None) and writes nothing: the record is still on
      disk, and a restart brings it back. */
  lemma RemovedRecordComesBack(s: State, t: Tid, id: Uuid) returns (steps: seq<Step>, s': State)
    requires Inv(s) && s.up && Unguarded(s) && t !in s.threads && id in s.Memory() && s.disk == MemoryNow(s)
    ensures Run(s, steps) == Some(s') && (id, |s.history|) in s'.absent
    ensures s'.history == s.history + [s.Memory() - {id}] && s'.disk == s.disk
    ensures s'.disk.version <= |s'.applied| && AfterCrash(s').Memory() == s.Memory()
  {
    var op := StoreOp.Remove(id);
    var s1 := Changed(s, t, op);
    var changing := ChangeRuns(s, t, op);
    var failing := FailingRuns(s1, t);
    var s2 := s1.Finish(t);
    RunConcat(s, changing, s1, failing, s2);
    assert s2.Memory() == Apply(s.Memory(), op);
    var asking := UnknownRuns(s2, t, op);
    s' := s2.(absent := s2.absent + {(id, s2.Current())});
    RunConcat(s, changing + failing, s2, asking, s');
    steps := changing + failing + asking;
  }

  function BothRenamed(s: State, t: Tid, u: Tid): State
    requires t != u && At(s, t) && At(s, u) && s.threads[t].WantRead? && s.threads[u].WantRead?
  {
    var pt, pu := s.threads[t], s.threads[u];
    s.(threads := s.threads[t := Closing(pt.op, pt.version, true)][u := Closing(pu.op, pu.version, false)],
       readers := {t, u}, temporary := None, disk := MemoryNow(s))
  }

  lemma BothRename(s: State, s2: State, t: Tid, u: Tid) returns (steps: seq<Step>, s4: State)
    requires t != u && Unguarded(s) && At(s, t) && At(s, u) && s.threads[t].WantRead? && s.threads[u].WantRead?
    requires s2 == StagedBy(StagedBy(s, t), u)
    ensures s4 == BothRenamed(s, t, u) && Run(s2, steps) == Some(s4)
  {
    var pt := s.threads[t];
    var s3 := s2.(threads := s2.threads[t := Closing(pt.op, pt.version, true)],
                  temporary := None, disk := MemoryNow(s));
    s4 := BothRenamed(s, t, u);
    assert AfterRename(s2, t, true) == s3;
    assert AfterRename(s3, u, true).threads == s4.threads;
    assert s2.readers == {t, u};
    steps := RunTwo(s2, Rename(t, true), s3, Rename(u, true), s4);
  }

  lemma BothRelease(s: State, s4: State, t: Tid, u: Tid) returns (steps: seq<Step>, s6: State)
    requires t != u && At(s, t) && At(s, u) && s.threads[t].WantRead? && s.threads[u].WantRead?
    requires !s.threads[t].op.Revoke? && !s.threads[u].op.Revoke? && s4 == BothRenamed(s, t, u)
    ensures s6 == s4.(threads := s.threads - {t, u}, readers := {}, committed := s.committed + {s.threads[t].version})
    ensures Run(s4, steps) == Some(s6)
  {
    var s5 := AfterRelease(s4, t);
    s6 := s4.(threads := s.threads - {t, u}, readers := {}, committed := s.committed + {s.threads[t].version});
    assert AfterRelease(s5, u).threads == s6.threads;
    assert AfterRelease(s5, u).readers == s6.readers;
    steps := RunTwo(s4, Release(t), s5, Release(u), s6);
  }

  // ------------------------------------------------------------ overlapping generations

  lemma RevokingOnlyAddsSerials(records: Records, op: StoreOp)
    requires op.Revoke?
    ensures RevokedSerials(records) <= RevokedSerials(Apply(records, op))
  {
    forall serial | serial in RevokedSerials(records) ensures serial in RevokedSerials(Apply(records, op)) {
      var id :| id in records && records[id].revoked && records[id].serialNumber == serial;
      assert Apply(records, op)[id] == records[id];
    }
  }

  lemma RevokedAndListedRuns(s: State, t: Tid, op: StoreOp, n: nat) returns (steps: seq<Step>)
    requires s.up && Unguarded(s) && t !in s.threads && op.Revoke? && Persists(s.Memory(), op)
    requires NextNumber(s.counter) == Ok(n)
    ensures Run(s, steps) == Some(ListedBy(RevokingBy(s, t, op), t, n))
  {
    var revoking := RevokingRuns(s, t, op);
    var listing := ListRuns(RevokingBy(s, t, op), t, n);
    RunConcat(s, revoking, RevokingBy(s, t, op), listing, ListedBy(RevokingBy(s, t, op), t, n));
    steps := revoking + listing;
  }

  /** One thread has its list; a second revocation is answered; the first list is installed. */
  lemma OvertakenRuns(s: State, t: Tid, u: Tid, b: StoreOp, n: nat) returns (steps: seq<Step>)
    requires s.up && Unguarded(s) && u !in s.threads && b.Revoke? && Persists(s.Memory(), b)
    requires NextNumber(s.counter) == Ok(n) && AllDecode(RevokedSerials(Apply(s.Memory(), b)))
    requires At(s, t) && s.threads[t].Listed? && s.threads[t].job.Answering? && AllDecode(s.threads[t].crl.serials)
    ensures Run(s, steps) == Some(PublishedBy(AnsweredBy(s, b, n), t))
  {
    var answering := UndisturbedRevocationIsAnswered(s, u, b, n);
    var publishing := PublishRuns(AnsweredBy(s, b, n), t);
    RunConcat(s, answering, AnsweredBy(s, b, n), publishing, PublishedBy(AnsweredBy(s, b, n), t));
    steps := answering + publishing;
  }

  /** When generations overlap, an answered revocation can be missing from the acceptor. One
      generation lists the store, a second revocation is made, listed, installed and
      answered 200, and only then does the first install its older list: the second serial
      is not rejected any more, and the numbers are signed out of order. */
  lemma OverlapLosesAnsweredRevocation(s: State, t: Tid, a: StoreOp, u: Tid, b: StoreOp, n: nat)
    returns (steps: seq<Step>, s': State)
    requires s.up && Unguarded(s) && t != u && t !in s.threads && u !in s.threads
    requires a.Revoke? && b.Revoke? && a.id in s.Memory() && b.id in s.Memory()
    requires NextNumber(s.counter) == Ok(n) && n < U64_MAX
    requires AllDecode(RevokedSerials(Apply(Apply(s.Memory(), a), b)))
    requires s.Memory()[b.id].serialNumber !in RevokedSerials(Apply(s.Memory(), a))
    ensures Run(s, steps) == Some(s') && s'.up
    ensures s'.applied == s.applied + [a, b] && |s.history| + 1 in s'.answered
    ensures s'.acceptor.Some? && s'.acceptor.value.version < |s.history| + 1
    ensures s.Memory()[b.id].serialNumber !in s'.acceptor.value.serials
    ensures s'.signed == s.signed + [n + 1, n]
  {
    var first := RevokedAndListedRuns(s, t, a, n);
    var s1 := ListedBy(RevokingBy(s, t, a), t, n);
    assert s1.Memory() == Apply(s.Memory(), a) && s1.applied == s.applied + [a];
    NextNumberCountsOn(n);
    RevokingOnlyAddsSerials(Apply(s.Memory(), a), b);
    var second := OvertakenRuns(s1, t, u, b, n + 1);
    s' := PublishedBy(AnsweredBy(s1, b, n + 1), t);
    RunConcat(s, first, s1, second, s');
    steps := first + second;
  }

  /** Both threads moved on, each with its own job. */
  function Both(s: State, t: Tid, pt: Pc, u: Tid, pu: Pc): State {
    s.(threads := s.threads[t := pt][u := pu])
  }

  lemma TwinsNumber(s: State, t: Tid, u: Tid, n: nat) returns (steps: seq<Step>, s': State)
    requires t != u && At(s, t) && At(s, u) && s.threads[t].Refreshing? && s.threads[u].Refreshing?
    requires NextNumber(s.counter) == Ok(n)
    ensures var jt, ju := s.threads[t].job, s.threads[u].job;
            s' == Both(s, t, Pc.Numbered(jt, n), u, Pc.Numbered(ju, n)).(counter := Some(PrintDecimal(n)))
    ensures Run(s, steps) == Some(s')
  {
    var jt, ju := s.threads[t].job, s.threads[u].job;
    var read := Both(s, t, Numbering(jt, n), u, Numbering(ju, n));
    var reading := RunTwo(s, ReadCounter(t, true), s.Move(t, Numbering(jt, n)), ReadCounter(u, true), read);
    s' := Both(s, t, Pc.Numbered(jt, n), u, Pc.Numbered(ju, n)).(counter := Some(PrintDecimal(n)));
    var between := AfterWriteCounter(read, t, true);
    assert AfterWriteCounter(between, u, true).threads == s'.threads;
    var writing := RunTwo(read, WriteCounter(t, true), between, WriteCounter(u, true), s');
    RunConcat(s, reading, read, writing, s');
    steps := reading + writing;
  }

  lemma TwinsSign(s: State, t: Tid, u: Tid, n: nat) returns (steps: seq<Step>, s': State)
    requires t != u && At(s, t) && At(s, u) && s.writer.None? && AllDecode(RevokedSerials(s.Memory()))
    requires s.threads[t].Numbered? && s.threads[u].Numbered? && s.threads[t].number == s.threads[u].number == n
    ensures Run(s, steps) == Some(s') && s'.signed == s.signed + [n, n]
  {
    var crl := RevocationState(n, s.Current(), RevokedSerials(s.Memory()));
    var s1 := s.Move(t, Listed(s.threads[t].job, crl));
    var s2 := Both(s, t, Listed(s.threads[t].job, crl), u, Listed(s.threads[u].job, crl));
    var listing := RunTwo(s, ListStore(t), s1, ListStore(u), s2);
    var s3 := s2.Move(t, Signed(s.threads[t].job, crl)).(signed := s.signed + [n]);
    s' := s3.Move(u, Signed(s.threads[u].job, crl)).(signed := s.signed + [n] + [n]);
    var signing := RunTwo(s2, SignList(t, true), s3, SignList(u, true), s');
    RunConcat(s, listing, s2, signing, s');
    steps := listing + signing;
  }

  /** When generations overlap, the same number can be signed twice: both read the counter
      before either writes it. */
  lemma OverlapRepeatsANumber(s: State, t: Tid, a: StoreOp, u: Tid, b: StoreOp, n: nat)
    returns (steps: seq<Step>, s': State)
    requires s.up && Unguarded(s) && t != u && t !in s.threads && u !in s.threads
    requires a.Revoke? && b.Revoke? && a.id in s.Memory() && b.id in s.Memory()
    requires NextNumber(s.counter) == Ok(n) && AllDecode(RevokedSerials(Apply(Apply(s.Memory(), a), b)))
    ensures Run(s, steps) == Some(s') && s'.signed == s.signed + [n, n]
  {
    var s1, s2 := RevokingBy(s, t, a), RevokingBy(RevokingBy(s, t, a), u, b);
    var first := RevokingRuns(s, t, a);
    assert s1.Memory() == Apply(s.Memory(), a);
    var second := RevokingRuns(s1, u, b);
    RunConcat(s, first, s1, second, s2);
    assert s2.Memory() == Apply(Apply(s.Memory(), a), b);
    var numbering, s3 := TwinsNumber(s2, t, u, n);
    var signing, s4 := TwinsSign(s3, t, u, n);
    RunConcat(s, first + second, s2, numbering, s3);
    RunConcat(s, first + second + numbering, s3, signing, s4);
    steps, s' := first + second + numbering + signing, s4;
  }
}
