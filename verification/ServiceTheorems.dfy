/** What the service promises over every interleaving of calls, generations and crashes. */
module ServiceTheorems {
  import opened Wrappers
  import opened Codec
  import opened Store
  import opened Crl
  import opened Service
  import opened ServiceInvariants
  import Inventory

  // ----------------------------------------------------------------- single steps

  /** When a step has to wait: writers for everybody, readers and listings for writers, callers
      until the service is up, and a start until nothing runs. */
  lemma StepsWaitExactly(s: State, t: Tid, op: StoreOp)
    requires s.history != []
    ensures Next(s, Call(t, op)).Some? <==> s.up && t !in s.threads
    ensures Next(s, Boot(t)).Some? <==> !s.up && s.threads == map[]
    ensures t in s.threads && s.threads[t].WantWrite? ==>
              (Next(s, AcquireWrite(t)).Some? <==> s.writer.None? && s.readers == {})
    ensures t in s.threads && s.threads[t].WantRead? ==> (Next(s, AcquireRead(t)).Some? <==> s.writer.None?)
    ensures t in s.threads && s.threads[t].Numbered? ==> (Next(s, ListStore(t)).Some? <==> s.writer.None?)
  {
  }

  /** A failing store step leaves all files and memory as they were; what remains is to drop the
      read guard, and the call ends. */
  lemma StoreFailuresExactly(s: State, t: Tid)
    requires At(s, t)
    ensures var pc := s.threads[t];
      && (pc.HoldRead? ==>
            Next(s, Serialise(t, false)) == Some(s.(threads := s.threads[t := Closing(pc.op, pc.version, false)])))
      && (pc.Serialised? ==>
            Next(s, WriteTemporary(t, false)) == Some(s.(threads := s.threads[t := Closing(pc.op, pc.version, false)])))
      && (pc.Staged? ==> forall ok :: !ok || s.temporary.None? ==>
            Next(s, Rename(t, ok)) == Some(s.(threads := s.threads[t := Closing(pc.op, pc.version, false)])))
      && (pc.Closing? && !pc.ok ==>
            Next(s, Release(t)) == Some(s.(threads := s.threads - {t}, readers := s.readers - {t})))
  {
  }

  /** A generation that fails ends there and then, and leaves everything else as it was: it also
      fails without a next number, and over a serial that does not decode. */
  lemma GenerationFailuresExactly(s: State, t: Tid, ok: bool)
    requires At(s, t)
    ensures var pc, ended := s.threads[t], Some(s.(threads := s.threads - {t}));
      && (pc.Refreshing? && (!ok || NextNumber(s.counter).Err?) ==> Next(s, ReadCounter(t, ok)) == ended)
      && (pc.Numbering? && !ok ==> Next(s, WriteCounter(t, ok)) == ended)
      && (pc.Listed? && (!ok || exists serial :: serial in pc.crl.serials && HexToBytes(serial).None?) ==>
            Next(s, SignList(t, ok)) == ended)
      && (pc.Signed? && !ok ==> Next(s, FileList(t, ok)) == ended)
      && (pc.Filed? && !ok ==> Next(s, Install(t, ok)) == ended)
  {
  }

  /** A crash loses what is not in a file, and the store comes back as its file has it. */
  lemma CrashExactly(s: State)
    requires Inv(s)
    ensures var s' := AfterCrash(s);
      && Next(s, Crash) == Some(s') && !s'.up && s'.threads == map[]
      && s'.writer == None && s'.readers == {} && s'.acceptor == None
      && s'.history == s.history[..s.disk.version + 1] && s'.Memory() == s.disk.records
      && s'.applied == s.applied[..s.disk.version]
      && s'.disk == s.disk && s'.temporary == s.temporary && s'.counter == s.counter && s'.crlFile == s.crlFile
      && s'.committed == s.committed && s'.answered == s.answered && s'.signed == s.signed
  {
  }

  // ------------------------------------------------------------------ durability

  /** What is on disk stays on disk: the store file's version never decreases, the history up
      to it is never rewritten, and committed calls stay committed. */
  ghost predicate KeepsDisk(s: State, s': State)
    requires s.disk.version < |s.history| && s.disk.version <= |s.applied|
  {
    && s.disk.version <= s'.disk.version && s.committed <= s'.committed && s.answered <= s'.answered
    && s.history[..s.disk.version + 1] <= s'.history
    && s.applied[..s.disk.version] <= s'.applied
  }

  lemma ExtendsKeepsDisk(s: State, s': State)
    requires Inv(s) && Extends(s, s') && s.answered <= s'.answered
    ensures KeepsDisk(s, s')
  {
  }

  lemma StoreStepKeepsDisk(s: State, step: Step, s': State)
    requires Inv(s) && Next(s, step) == Some(s') && StoreStep(step)
    ensures KeepsDisk(s, s')
  {
    if step.t in s.threads {
      assert ThreadOk(s, step.t, s.threads[step.t]);
    }
    ExtendsKeepsDisk(s, s');
  }

  lemma StepKeepsDisk(s: State, step: Step, s': State)
    requires Inv(s) && Next(s, step) == Some(s')
    ensures KeepsDisk(s, s')
  {
    if StoreStep(step) {
      StoreStepKeepsDisk(s, step, s');
    } else if !step.Crash? {
      ExtendsKeepsDisk(s, s');
    }
  }

  lemma KeepsDiskComposes(s: State, mid: State, s': State)
    requires s.disk.version < |s.history| && s.disk.version <= |s.applied| && Inv(mid)
    requires KeepsDisk(s, mid) && KeepsDisk(mid, s')
    ensures KeepsDisk(s, s')
  {
    assert s.history[..s.disk.version + 1] <= mid.history[..mid.disk.version + 1];
    assert s.applied[..s.disk.version] <= mid.applied[..mid.disk.version];
  }

  /** From any reachable state on, over any further run with crashes: the store file is at all
      times one complete version of memory, its version never decreases, and every call
      that persisted and returned Ok is at or below it, with the operation it made. */
  lemma {:induction false} CommittedCallsSurvive(s: State, steps: seq<Step>, s': State)
    requires Inv(s) && Run(s, steps) == Some(s')
    ensures Inv(s') && KeepsDisk(s, s')
    ensures s'.disk.records == s'.history[s'.disk.version]
    ensures forall v :: v in s.committed ==>
              v in s'.committed && 1 <= v <= s'.disk.version && s'.applied[v - 1] == s.applied[v - 1]
    decreases |steps|
  {
    if steps == [] {
    } else {
      var mid := Next(s, steps[0]).value;
      StepKeepsInv(s, steps[0], mid);
      StepKeepsDisk(s, steps[0], mid);
      CommittedCallsSurvive(mid, steps[1..], s');
      KeepsDiskComposes(s, mid, s');
      forall v | v in s.committed
        ensures v in s'.committed && 1 <= v <= s'.disk.version && s'.applied[v - 1] == s.applied[v - 1]
      {
        assert s.applied[..s.disk.version][v - 1] == s'.applied[v - 1];
      }
    }
  }

  /** The operation drops or replaces the record with this id. */
  predicate Discards(op: StoreOp, id: Uuid) {
    !op.Revoke? && op.Target() == id
  }

  /** The two records describe the same certificate, revoked or not. */
  predicate SameCertificate(r: CertificateRecord, q: CertificateRecord) {
    r == q.(revoked := r.revoked, revokedAt := r.revokedAt, revocationReason := r.revocationReason)
  }

  /** What a call that persisted and returned Ok has achieved in the given store contents. */
  predicate EffectHolds(records: Records, op: StoreOp) {
    match op
    case Insert(record) => record.id in records && SameCertificate(records[record.id], record)
    case Revoke(id, _, _) => id in records && records[id].revoked
    case Remove(id) => id !in records
  }

  lemma {:induction false} EffectStays(s: State, v: nat, w: nat)
    requires Lineage(s) && 1 <= v <= w <= |s.applied|
    requires forall i :: v <= i < w ==> !Discards(s.applied[i], s.applied[v - 1].Target())
    ensures EffectHolds(s.history[w], s.applied[v - 1])
    decreases w - v
  {
    if w == v {
      assert Persists(s.history[v - 1], s.applied[v - 1]);
    } else {
      EffectStays(s, v, w - 1);
      assert !Discards(s.applied[w - 1], s.applied[v - 1].Target());
      assert s.history[w - 1 + 1] == Apply(s.history[w - 1], s.applied[w - 1]);
    }
  }

  /** A call that persisted and returned Ok (with Some record, for a revocation or removal)
      has its effect in the store file at every later time, and in memory after any restart,
      unless a later call removed or replaced the same record: an inserted record is there, a
      revoked one is revoked, a removed one is absent. */
  lemma CommittedEffectIsOnDisk(file: Records, counter: Option<string>, steps: seq<Step>, s: State, v: nat)
    requires Run(Initial(file, counter), steps) == Some(s) && v in s.committed
    ensures 1 <= v <= s.disk.version <= |s.applied| && s.disk.version < |s.history|
    ensures AfterCrash(s).Memory() == s.disk.records
    ensures (forall i :: v <= i < s.disk.version ==> !Discards(s.applied[i], s.applied[v - 1].Target())) ==>
              EffectHolds(s.disk.records, s.applied[v - 1])
  {
    InitialInv(file, counter);
    InvHoldsOverEveryRun(Initial(file, counter), steps, s);
    if forall i :: v <= i < s.disk.version ==> !Discards(s.applied[i], s.applied[v - 1].Target()) {
      EffectStays(s, v, s.disk.version);
    }
  }

  // ------------------------------------------------------- answers about unknown ids

  /** Ids answered as unknown were not in memory at that version. */
  ghost predicate AbsentOk(s: State) {
    forall p :: p in s.absent ==> p.1 < |s.history| && p.0 !in s.history[p.1]
  }

  lemma AbsentUntouched(s: State, step: Step, s': State)
    requires Next(s, step) == Some(s') && !step.Mutate? && !step.Crash?
    ensures s'.absent == s.absent && s'.history == s.history
  {
  }

  lemma StepKeepsAbsentOk(s: State, step: Step, s': State)
    requires Inv(s) && AbsentOk(s) && Next(s, step) == Some(s')
    ensures AbsentOk(s')
  {
    if step.Mutate? {
      var op := s.threads[step.t].op;
      assert s'.history == s.history || s'.history == s.history + [Apply(s.Memory(), op)];
    } else if !step.Crash? {
      AbsentUntouched(s, step, s');
    }
  }

  lemma {:induction false} AbsentOkHolds(s: State, steps: seq<Step>, s': State)
    requires Inv(s) && AbsentOk(s) && Run(s, steps) == Some(s')
    ensures Inv(s') && AbsentOk(s')
    decreases |steps|
  {
    if steps == [] {
    } else {
      StepKeepsInv(s, steps[0], Next(s, steps[0]).value);
      StepKeepsAbsentOk(s, steps[0], Next(s, steps[0]).value);
      AbsentOkHolds(Next(s, steps[0]).value, steps[1..], s');
    }
  }

  lemma {:induction false} PresenceStays(s: State, v: nat, w: nat, id: Uuid)
    requires Lineage(s) && v <= w <= |s.applied|
    requires forall i :: v <= i < w ==> !Discards(s.applied[i], id)
    ensures id in s.history[v] <==> id in s.history[w]
    decreases w - v
  {
    if w > v {
      PresenceStays(s, v, w - 1, id);
      assert !Discards(s.applied[w - 1], id);
      assert s.history[w - 1 + 1] == Apply(s.history[w - 1], s.applied[w - 1]);
    }
  }

  /** Change `i` is the first since version `v` to touch the existence of the record, and it
      found the record there: a removal, or an insertion over it. */
  predicate FirstToDrop(s: State, v: nat, i: nat, id: Uuid)
    requires i < |s.applied| && i < |s.history|
  {
    && v <= i && Discards(s.applied[i], id) && id in s.history[i]
    && forall j :: v <= j < i ==> !Discards(s.applied[j], id)
  }

  lemma {:induction false} DroppedSince(s: State, v: nat, w: nat, id: Uuid) returns (i: nat)
    requires Lineage(s) && v <= w <= |s.applied| && id in s.history[v] && id !in s.history[w]
    ensures i < w && FirstToDrop(s, v, i, id)
    decreases w - v
  {
    if j :| v <= j < w && Discards(s.applied[j], id) && forall k :: v <= k < j ==> !Discards(s.applied[k], id) {
      PresenceStays(s, v, j, id);
      i := j;
    } else {
      NoneDiscards(s, v, w, id);
      PresenceStays(s, v, w, id);
    }
  }

  /** Without a first one there is none. */
  lemma {:induction false} NoneDiscards(s: State, v: nat, w: nat, id: Uuid)
    requires v <= w <= |s.applied|
    requires forall j :: v <= j < w && Discards(s.applied[j], id) ==>
               exists k :: v <= k < j && Discards(s.applied[k], id)
    ensures forall j :: v <= j < w ==> !Discards(s.applied[j], id)
    decreases w - v
  {
    if w > v {
      NoneDiscards(s, v, w - 1, id);
    }
  }

  /** Revoking or removing an id that memory does not hold returns Ok(None) without persisting.
      As long as nobody inserts that id again it is not in memory; it is not on disk
      either, so that a restart does not bring it back, exactly unless the first change of
      the record that is not on disk yet removed or replaced it. */
  lemma AbsentAnswerIsDurableExactly(file: Records, counter: Option<string>, steps: seq<Step>, s: State,
                                     id: Uuid, v: nat)
    requires Run(Initial(file, counter), steps) == Some(s) && (id, v) in s.absent
    requires forall i :: v <= i < |s.applied| ==> !Discards(s.applied[i], id)
    ensures s.disk.version < |s.history| == |s.applied| + 1 && AfterCrash(s).Memory() == s.disk.records
    ensures id !in s.Memory()
    ensures id in s.disk.records <==>
            exists i :: s.disk.version <= i < |s.applied| && FirstToDrop(s, s.disk.version, i, id)
  {
    InitialInv(file, counter);
    AbsentOkHolds(Initial(file, counter), steps, s);
    assert (id, v) in s.absent && v < |s.history| && id !in s.history[v];
    PresenceStays(s, v, |s.applied|, id);
    var d := s.disk.version;
    if id in s.disk.records {
      var i := DroppedSince(s, d, |s.applied|, id);
    }
    if i :| d <= i < |s.applied| && FirstToDrop(s, d, i, id) {
      PresenceStays(s, d, i, id);
    }
  }

  // --------------------------------------------------- when a change reaches the disk

  predicate CrashFree(steps: seq<Step>) {
    forall i :: 0 <= i < |steps| ==> !steps[i].Crash?
  }

  /** A rename that moves the temporary file over the store file. */
  predicate Publishes(s: State, step: Step) {
    step.Rename? && step.ok && At(s, step.t) && s.threads[step.t].Staged? && s.temporary.Some?
  }

  predicate SomeStepPublishes(s: State, steps: seq<Step>)
    decreases |steps|
  {
    steps != [] &&
    (Publishes(s, steps[0]) || (Next(s, steps[0]).Some? && SomeStepPublishes(Next(s, steps[0]).value, steps[1..])))
  }

  lemma OnlyRenamesTouchTheDisk(s: State, step: Step, s': State)
    requires Next(s, step) == Some(s') && !step.Crash? && !Publishes(s, step)
    ensures s'.disk == s.disk
  {
  }

  lemma PublishedIsMemory(s: State, t: Tid, s': State)
    requires Inv(s) && Publishes(s, Rename(t, true)) && Next(s, Rename(t, true)) == Some(s')
    ensures s'.disk == MemoryNow(s) && s'.applied == s.applied
  {
    assert ThreadOk(s, t, s.threads[t]);
  }

  lemma AppliedOnlyGrows(s: State, step: Step, s': State)
    requires Next(s, step) == Some(s') && !step.Crash?
    ensures |s.applied| <= |s'.applied|
  {
  }

  /** Whatever a call returns, its change is on disk exactly when some rename of any thread
      took effect since the change: a rename publishes the whole of present memory, its own
      call's changes and every other call's. So a call that returns an error, at whichever
      step of its own, leaves its change on disk exactly when another call published it. */
  lemma {:induction false} ChangeReachesDiskExactly(s: State, steps: seq<Step>, s': State, v: nat)
    requires Inv(s) && Run(s, steps) == Some(s') && CrashFree(steps)
    requires s.disk.version < v <= |s.applied|
    ensures v <= s'.disk.version <==> SomeStepPublishes(s, steps)
    decreases |steps|
  {
    if steps == [] {
    } else {
      var mid := Next(s, steps[0]).value;
      StepKeepsInv(s, steps[0], mid);
      if Publishes(s, steps[0]) {
        PublishedIsMemory(s, steps[0].t, mid);
        CommittedCallsSurvive(mid, steps[1..], s');
      } else {
        OnlyRenamesTouchTheDisk(s, steps[0], mid);
        AppliedOnlyGrows(s, steps[0], mid);
        ChangeReachesDiskExactly(mid, steps[1..], s', v);
      }
    }
  }

  // ------------------------------------------------------------------ revocations

  /** The first revocation of a record fixes the time and reason its list entry carries;
      revoking again changes neither. */
  lemma {:induction false} FirstRevocationStands(s: State, v: nat, w: nat, now: Time)
    requires Lineage(s) && 1 <= v <= w <= |s.applied| && s.applied[v - 1].Revoke?
    requires s.applied[v - 1].id in s.history[v - 1] ==> !s.history[v - 1][s.applied[v - 1].id].revoked
    requires forall i :: v <= i < w ==> !Discards(s.applied[i], s.applied[v - 1].id)
    ensures var op := s.applied[v - 1];
      && op.id in s.history[w] && op.id in s.history[v - 1]
      && s.history[w][op.id].revoked
      && EntryFor(s.history[w][op.id], now)
         == CrlEntry(s.history[v - 1][op.id].serialNumber, ParseReason(op.reason), op.at)
    decreases w - v
  {
    assert Persists(s.history[v - 1], s.applied[v - 1]);
    if w == v {
      assert s.history[v - 1 + 1] == Apply(s.history[v - 1], s.applied[v - 1]);
    } else {
      FirstRevocationStands(s, v, w - 1, now);
      assert !Discards(s.applied[w - 1], s.applied[v - 1].id);
      assert s.history[w - 1 + 1] == Apply(s.history[w - 1], s.applied[w - 1]);
    }
  }

  /** Revoking does not change which serial a record has. */
  lemma {:induction false} SerialStays(s: State, v: nat, w: nat, id: Uuid)
    requires Lineage(s) && v <= w <= |s.applied| && id in s.history[v]
    requires forall i :: v <= i < w ==> !Discards(s.applied[i], id)
    ensures id in s.history[w] && s.history[w][id].serialNumber == s.history[v][id].serialNumber
    decreases w - v
  {
    if w > v {
      SerialStays(s, v, w - 1, id);
      assert !Discards(s.applied[w - 1], id);
      assert s.history[w - 1 + 1] == Apply(s.history[w - 1], s.applied[w - 1]);
    }
  }

  /** A rename that finds the temporary file gone fails, although the call's change is on
      disk already: an overlapping call has renamed the same snapshot. */
  lemma MissingTemporaryMeansWritten(file: Records, counter: Option<string>, steps: seq<Step>, s: State, t: Tid)
    requires Run(Initial(file, counter), steps) == Some(s)
    requires t in s.threads && s.threads[t].Staged? && s.temporary.None?
    ensures Next(s, Rename(t, true)).Some?
    ensures var s' := Next(s, Rename(t, true)).value;
      && s'.threads[t] == Closing(s.threads[t].op, s.threads[t].version, false)
      && s'.disk == s.disk && s.threads[t].version <= s.disk.version
      && s.disk.records == s.Memory()
  {
    InitialInv(file, counter);
    InvHoldsOverEveryRun(Initial(file, counter), steps, s);
    assert ThreadOk(s, t, s.threads[t]);
  }

  // ------------------------------------------------------------------ the acceptor

  /** No record is removed or replaced. */
  ghost predicate OnlyGrows(s: State) {
    forall i {:trigger s.applied[i]} :: 0 <= i < |s.applied| && i < |s.history| ==>
      s.applied[i].Revoke? || (s.applied[i].Insert? && s.applied[i].record.id !in s.history[i])
  }

  lemma {:induction false} RevokedSerialsGrow(s: State, v: nat, w: nat)
    requires Lineage(s) && OnlyGrows(s) && v <= w <= |s.applied|
    ensures RevokedSerials(s.history[v]) <= RevokedSerials(s.history[w])
    decreases w - v
  {
    if v < w {
      RevokedSerialsGrow(s, v, w - 1);
      var before, op := s.history[w - 1], s.applied[w - 1];
      assert s.history[w - 1 + 1] == Apply(before, op);
      forall serial | serial in RevokedSerials(before) ensures serial in RevokedSerials(s.history[w]) {
        var id :| id in before && before[id].revoked && before[id].serialNumber == serial;
        assert id in s.history[w] && s.history[w][id] == before[id];
      }
    }
  }

  /** In every reachable state the acceptor rejects exactly the serials that were revoked
      in the version its list was made from; while records are only added and revoked, that
      is a subset of what is revoked now and includes everything revoked up to that version. */
  lemma AcceptorReflectsTheStore(file: Records, counter: Option<string>, steps: seq<Step>, s: State)
    requires Run(Initial(file, counter), steps) == Some(s) && s.acceptor.Some?
    ensures var crl := s.acceptor.value;
      && Lineage(s) && crl.version < |s.history| && crl.serials == RevokedSerials(s.history[crl.version])
      && (OnlyGrows(s) ==>
            && crl.serials <= RevokedSerials(s.Memory())
            && forall v :: 0 <= v <= crl.version ==> RevokedSerials(s.history[v]) <= crl.serials)
  {
    InitialInv(file, counter);
    InvHoldsOverEveryRun(Initial(file, counter), steps, s);
    var crl := s.acceptor.value;
    if OnlyGrows(s) {
      RevokedSerialsGrow(s, crl.version, |s.applied|);
      forall v | 0 <= v <= crl.version ensures RevokedSerials(s.history[v]) <= crl.serials {
        RevokedSerialsGrow(s, v, crl.version);
      }
    }
  }

  /** Version `v` is where this serial becomes revoked. */
  predicate BecomesRevoked(s: State, v: nat, serial: string) {
    && 1 <= v <= |s.applied| && v < |s.history| && s.applied[v - 1].Revoke?
    && s.applied[v - 1].id in s.history[v] && s.history[v][s.applied[v - 1].id].serialNumber == serial
    && serial !in RevokedSerials(s.history[v - 1])
  }

  /** Whether a revocation is in force, over every interleaving: while records are only added
      and revoked, the acceptor rejects the serial exactly when its list was made from the
      version that revoked it or a later one. So an answered revocation is lost exactly
      when the list installed last was taken before the change. */
  lemma RevocationIsListedExactly(file: Records, counter: Option<string>, steps: seq<Step>, s: State,
                                  v: nat, serial: string)
    requires Run(Initial(file, counter), steps) == Some(s) && s.acceptor.Some? && OnlyGrows(s)
    requires BecomesRevoked(s, v, serial)
    ensures serial in s.acceptor.value.serials <==> v <= s.acceptor.value.version
  {
    InitialInv(file, counter);
    InvHoldsOverEveryRun(Initial(file, counter), steps, s);
    var w := s.acceptor.value.version;
    if v <= w {
      EffectStays(s, v, v);
      assert serial in RevokedSerials(s.history[v]);
      RevokedSerialsGrow(s, v, w);
    } else {
      RevokedSerialsGrow(s, w, v - 1);
    }
  }

  /** The listing and signing steps are what module Crl builds: for any iteration order the
      list has exactly these serials, and it can be signed exactly when the step can. */
  lemma ListingMatchesGeneration(records: Records, order: seq<Uuid>, list: RevocationList, now: Time, serial: string)
    requires Inventory.Lists(order, records.Keys) && list.entries == EntriesOf(ListRecords(records, order), now)
    ensures list.ContainsSerial(serial) <==> serial in RevokedSerials(records)
    ensures Decodable(list.entries) <==> AllDecode(RevokedSerials(records))
  {
    ListAgreesWithStore(records, order, list, now, serial);
    ListIsSignableExactly(records, order, now);
    forall other ensures other in RevokedSerials(records) <==> IsRevokedSerial(records, other) {
      RevokedSerialsAreQueried(records, other);
    }
  }

  /** A generation that fails at any point, and every step other than a successful
      installation or a crash, leaves the acceptor as it was. */
  lemma OnlyInstallationChangesTheAcceptor(s: State, step: Step, s': State)
    requires Next(s, step) == Some(s') && !step.Crash?
    ensures s'.acceptor == s.acceptor
         || (step.Install? && step.ok && s.threads[step.t].Filed? && s'.acceptor == Some(s.threads[step.t].crl))
  {
  }
}
