/** What holds over every run of inventory operations: the two indexes, renewal, and
    which lifecycle states can be reached. */
module InventoryRuns {
  import opened Wrappers
  import opened Lifecycle
  import opened Inventory

  // ------------------------------------------------------------ index agreement

  ghost predicate Keyed(inv: Snapshot) {
    forall id :: id in inv.certificates ==> inv.certificates[id].id == id
  }

  /** The serial index is the inverse of the certificates' serial numbers. */
  ghost predicate SerialsExact(inv: Snapshot) {
    && (forall s :: s in inv.serialIndex ==>
          inv.serialIndex[s] in inv.certificates && inv.certificates[inv.serialIndex[s]].serialNumber == s)
    && (forall id :: id in inv.certificates ==>
          && inv.certificates[id].serialNumber in inv.serialIndex
          && inv.serialIndex[inv.certificates[id].serialNumber] == id)
  }

  ghost predicate FingerprintsSound(inv: Snapshot) {
    forall f :: f in inv.fingerprintIndex ==>
      && inv.fingerprintIndex[f] in inv.certificates
      && inv.certificates[inv.fingerprintIndex[f]].fingerprint == Some(f)
  }

  ghost predicate Indexed(inv: Snapshot) {
    Keyed(inv) && SerialsExact(inv) && FingerprintsSound(inv)
  }

  /** Whether the fingerprint index leads to this certificate. */
  predicate FingerprintIndexed(inv: Snapshot, id: Uuid)
    requires id in inv.certificates
  {
    var f := inv.certificates[id].fingerprint;
    f.Some? && f.value in inv.fingerprintIndex && inv.fingerprintIndex[f.value] == id
  }

  ghost predicate FingerprintsComplete(inv: Snapshot) {
    forall id :: id in inv.certificates && inv.certificates[id].fingerprint.Some? ==> FingerprintIndexed(inv, id)
  }

  // ---------------------------------------------------------------------- runs

  datatype Op =
    | Register(m: Metadata)
    | RegisterRenewal(previousId: Uuid, replacement: Metadata, stamp: Time)
    | Remove(id: Uuid)
    | Change(id: Uuid, next: CertificateState, stamp: Time)
    | Evaluate(order: seq<Uuid>, clock: seq<Tick>)
    | Edit(id: Uuid, edited: Metadata)  // a caller writing through `get_mut`

  function Step(inv: Snapshot, op: Op): Snapshot {
    match op
    case Register(m) => AfterRegister(inv, m).1
    case RegisterRenewal(previousId, replacement, stamp) =>
      AfterRegisterRenewal(inv, previousId, replacement, stamp).1
    case Remove(id) => AfterRemove(inv, id).1
    case Change(id, next, stamp) => AfterChange(inv, id, next, stamp).1
    case Evaluate(order, clock) =>
      if |order| == |clock| then inv.(certificates := Sweep(inv.certificates, order, clock, 0).1) else inv
    case Edit(id, edited) =>
      if id in inv.certificates then inv.(certificates := inv.certificates[id := edited]) else inv
  }

  /** An edit that leaves the indexed fields of an indexed certificate alone. */
  predicate KeepsKeys(inv: Snapshot, id: Uuid, edited: Metadata) {
    id in inv.certificates ==>
      && edited.id == id
      && edited.serialNumber == inv.certificates[id].serialNumber
      && (FingerprintIndexed(inv, id) ==> edited.fingerprint == inv.certificates[id].fingerprint)
  }

  function Run(inv: Snapshot, ops: seq<Op>): Snapshot
    decreases |ops|
  {
    if ops == [] then inv else Run(Step(inv, ops[0]), ops[1..])
  }

  predicate EditsKeepKeys(inv: Snapshot, ops: seq<Op>)
    decreases |ops|
  {
    ops == [] ||
    ((ops[0].Edit? ==> KeepsKeys(inv, ops[0].id, ops[0].edited)) && EditsKeepKeys(Step(inv, ops[0]), ops[1..]))
  }

  // ---------------------------------------------------------- one step at a time

  predicate OnlyStateMoved(before: Metadata, after: Metadata) {
    after == before.(state := after.state, updatedAt := after.updatedAt)
  }

  ghost predicate OnlyStatesMoved(before: Certificates, after: Certificates) {
    after.Keys == before.Keys && forall id :: id in before ==> OnlyStateMoved(before[id], after[id])
  }

  lemma EvaluationMovesOnlyState(m: Metadata, tick: Tick)
    ensures OnlyStateMoved(m, AfterEvaluate(m, tick).1)
  {
  }

  lemma MovesCompose(before: Certificates, id: Uuid, m: Metadata, after: Certificates)
    requires id in before && OnlyStateMoved(before[id], m) && OnlyStatesMoved(before[id := m], after)
    ensures OnlyStatesMoved(before, after)
  {
    forall k | k in before ensures OnlyStateMoved(before[k], after[k]) {
      assert OnlyStateMoved(before[id := m][k], after[k]);
    }
  }

  /** A sweep rewrites states and timestamps and nothing else. */
  lemma {:induction false} SweepKeepsRecords(certificates: Certificates, order: seq<Uuid>, clock: seq<Tick>,
                                             changed: nat)
    requires |order| == |clock|
    ensures OnlyStatesMoved(certificates, Sweep(certificates, order, clock, changed).1)
    decreases |order|
  {
    if order == [] || order[0] !in certificates {
    } else {
      var (r, after) := AfterEvaluate(certificates[order[0]], clock[0]);
      EvaluationMovesOnlyState(certificates[order[0]], clock[0]);
      if r.Ok? {
        var c := if certificates[order[0]].state != after.state then changed + 1 else changed;
        SweepKeepsRecords(certificates[order[0] := after], order[1..], clock[1..], c);
        MovesCompose(certificates, order[0], after, Sweep(certificates, order, clock, changed).1);
      }
    }
  }

  lemma RegisterKeepsIndexes(inv: Snapshot, m: Metadata)
    requires Indexed(inv)
    ensures Indexed(AfterRegister(inv, m).1)
  {
  }

  lemma RemoveKeepsIndexes(inv: Snapshot, id: Uuid)
    requires Indexed(inv)
    ensures Indexed(AfterRemove(inv, id).1)
  {
  }

  /** Replacing the stored values without touching indexed fields. */
  lemma RewriteKeepsIndexes(inv: Snapshot, certificates: Certificates)
    requires Indexed(inv) && certificates.Keys == inv.certificates.Keys
    requires forall id :: id in certificates ==>
               && certificates[id].id == inv.certificates[id].id
               && certificates[id].serialNumber == inv.certificates[id].serialNumber
               && (FingerprintIndexed(inv, id) ==> certificates[id].fingerprint == inv.certificates[id].fingerprint)
    ensures Indexed(inv.(certificates := certificates))
  {
    var after := inv.(certificates := certificates);
    forall s | s in after.serialIndex
      ensures after.serialIndex[s] in certificates && certificates[after.serialIndex[s]].serialNumber == s
    {
    }
    forall f | f in after.fingerprintIndex
      ensures after.fingerprintIndex[f] in certificates
      ensures certificates[after.fingerprintIndex[f]].fingerprint == Some(f)
    {
      assert FingerprintIndexed(inv, inv.fingerprintIndex[f]);
    }
  }

  lemma RegisterRenewalKeepsIndexes(inv: Snapshot, previousId: Uuid, replacement: Metadata, stamp: Time)
    requires Indexed(inv)
    ensures Indexed(AfterRegisterRenewal(inv, previousId, replacement, stamp).1)
  {
    if previousId in inv.certificates {
      var (r, previous) := AfterTransition(inv.certificates[previousId], Renewed, stamp);
      if r.Ok? {
        RewriteKeepsIndexes(inv, inv.certificates[previousId := previous]);
        RegisterKeepsIndexes(inv.(certificates := inv.certificates[previousId := previous]),
                             Successor(previous, replacement));
      }
    }
  }

  lemma StepKeepsIndexes(inv: Snapshot, op: Op)
    requires Indexed(inv) && (op.Edit? ==> KeepsKeys(inv, op.id, op.edited))
    ensures Indexed(Step(inv, op))
  {
    match op
    case Register(m) => RegisterKeepsIndexes(inv, m);
    case RegisterRenewal(previousId, replacement, stamp) =>
      RegisterRenewalKeepsIndexes(inv, previousId, replacement, stamp);
    case Remove(id) => RemoveKeepsIndexes(inv, id);
    case Change(id, next, stamp) =>
      if id in inv.certificates {
        RewriteKeepsIndexes(inv, inv.certificates[id := AfterTransition(inv.certificates[id], next, stamp).1]);
      }
    case Evaluate(order, clock) =>
      if |order| == |clock| {
        SweepKeepsRecords(inv.certificates, order, clock, 0);
        RewriteKeepsIndexes(inv, Sweep(inv.certificates, order, clock, 0).1);
      }
    case Edit(id, edited) =>
      if id in inv.certificates {
        RewriteKeepsIndexes(inv, inv.certificates[id := edited]);
      }
  }

  // ------------------------------------------------------ what each operation does

  function BySerial(inv: Snapshot, serial: string): Result<Metadata, InventoryError> {
    Lookup(inv.serialIndex, inv.certificates, serial)
  }

  function ByFingerprint(inv: Snapshot, fingerprint: string): Result<Metadata, InventoryError> {
    Lookup(inv.fingerprintIndex, inv.certificates, fingerprint)
  }

  predicate SerialInUse(inv: Snapshot, serial: string) {
    exists id :: id in inv.certificates && inv.certificates[id].serialNumber == serial
  }

  /** Registering stores the certificate unless its id or serial is taken; it is then found by
      id, serial and fingerprint, and every other lookup gives what it gave. */
  lemma RegisterExactly(inv: Snapshot, m: Metadata, serial: string, fingerprint: string)
    requires Indexed(inv)
    ensures var (r, after) := AfterRegister(inv, m);
      if m.id in inv.certificates then (r, after) == (Err(AlreadyExists(m.id)), inv)
      else if SerialInUse(inv, m.serialNumber) then (r, after) == (Err(DuplicateSerial(m.serialNumber)), inv)
      else
        && r == Ok(m.id) && after.certificates == inv.certificates[m.id := m]
        && BySerial(after, serial) == (if serial == m.serialNumber then Ok(m) else BySerial(inv, serial))
        && ByFingerprint(after, fingerprint)
           == (if m.fingerprint == Some(fingerprint) then Ok(m) else ByFingerprint(inv, fingerprint))
  {
    assert m.serialNumber in inv.serialIndex <==> SerialInUse(inv, m.serialNumber);
  }

  /** Removing hands out the certificate and drops it: it is not found any more by id, serial or
      fingerprint (nor is another one with the same fingerprint, by it), and every other
      lookup gives what it gave. */
  lemma RemoveExactly(inv: Snapshot, id: Uuid, serial: string, fingerprint: string)
    requires Indexed(inv)
    ensures var (r, after) := AfterRemove(inv, id);
      if id !in inv.certificates then (r, after) == (Err(NotFound(id)), inv)
      else
        var m := inv.certificates[id];
        && r == Ok(m) && after.certificates == inv.certificates - {id}
        && BySerial(after, serial) == (if serial == m.serialNumber then Err(NotFound(0)) else BySerial(inv, serial))
        && ByFingerprint(after, fingerprint)
           == (if m.fingerprint == Some(fingerprint) then Err(NotFound(0)) else ByFingerprint(inv, fingerprint))
  {
  }

  /** Revoking takes any certificate that has not expired to Revoked and touches nothing else. */
  lemma RevokeExactly(inv: Snapshot, id: Uuid, stamp: Time)
    ensures AfterChange(inv, id, Revoked, stamp) ==
      if id !in inv.certificates then (Err(NotFound(id)), inv)
      else
        var m := inv.certificates[id];
        if m.state == Expired then (Err(InventoryError.Lifecycle(TerminalState(Expired))), inv)
        else if m.state == Revoked then (Ok(()), inv)
        else (Ok(()), inv.(certificates := inv.certificates[id := m.(state := Revoked, updatedAt := stamp)]))
  {
    if id in inv.certificates {
      assert inv.certificates[id := inv.certificates[id]] == inv.certificates;
    }
  }

  /** Marking as renewed is granted from RenewalPending alone, apart from saying so again. */
  lemma MarkRenewedExactly(inv: Snapshot, id: Uuid, stamp: Time)
    ensures AfterChange(inv, id, Renewed, stamp) ==
      if id !in inv.certificates then (Err(NotFound(id)), inv)
      else
        var m := inv.certificates[id];
        match m.state
        case Renewed => (Ok(()), inv)
        case RenewalPending =>
          (Ok(()), inv.(certificates := inv.certificates[id := m.(state := Renewed, updatedAt := stamp)]))
        case Active => (Err(InventoryError.Lifecycle(InvalidTransition(Active, Renewed))), inv)
        case Expiring => (Err(InventoryError.Lifecycle(InvalidTransition(Expiring, Renewed))), inv)
        case Revoked => (Err(InventoryError.Lifecycle(TerminalState(Revoked))), inv)
        case Expired => (Err(InventoryError.Lifecycle(TerminalState(Expired))), inv)
  {
    if id in inv.certificates {
      assert inv.certificates[id := inv.certificates[id]] == inv.certificates;
    }
  }

  // ----------------------------------------------------------- over every run

  lemma {:induction false} IndexesHoldOverEveryRun(inv: Snapshot, ops: seq<Op>)
    requires Indexed(inv) && EditsKeepKeys(inv, ops)
    ensures Indexed(Run(inv, ops))
    decreases |ops|
  {
    if ops == [] {
    } else {
      StepKeepsIndexes(inv, ops[0]);
      IndexesHoldOverEveryRun(Step(inv, ops[0]), ops[1..]);
    }
  }

  /** `get_mut` does not re-index, so an edit breaks the indexes exactly when it touches an
      indexed field. */
  lemma EditKeepsIndexesExactly(inv: Snapshot, id: Uuid, edited: Metadata)
    requires Indexed(inv)
    ensures Indexed(Step(inv, Edit(id, edited))) <==> KeepsKeys(inv, id, edited)
  {
    if KeepsKeys(inv, id, edited) {
      StepKeepsIndexes(inv, Edit(id, edited));
    } else {
      var after := Step(inv, Edit(id, edited));
      var m := inv.certificates[id];
      assert after.certificates[id] == edited && inv.serialIndex[m.serialNumber] == id;
    }
  }

  /** From the empty inventory, looking a serial up gives what a scan of all certificates
      gives: the one certificate with that serial, or NotFound when there is none. */
  lemma FindBySerialIsAScan(ops: seq<Op>, serial: string)
    requires EditsKeepKeys(EMPTY, ops)
    ensures var inv := Run(EMPTY, ops);
            var found := Lookup(inv.serialIndex, inv.certificates, serial);
      && (forall id :: id in inv.certificates && inv.certificates[id].serialNumber == serial ==>
            found == Ok(inv.certificates[id]))
      && (found.Ok? ==> found.value.id in inv.certificates && inv.certificates[found.value.id] == found.value
                        && found.value.serialNumber == serial)
      && (found.Err? ==> found.error == NotFound(NIL_UUID))
  {
    IndexesHoldOverEveryRun(EMPTY, ops);
  }

  /** A fingerprint lookup never misleads, whatever fingerprints were registered. */
  lemma FindByFingerprintIsSound(ops: seq<Op>, fingerprint: string)
    requires EditsKeepKeys(EMPTY, ops)
    ensures var inv := Run(EMPTY, ops);
            var found := Lookup(inv.fingerprintIndex, inv.certificates, fingerprint);
      && (found.Ok? ==> found.value.id in inv.certificates && inv.certificates[found.value.id] == found.value
                        && found.value.fingerprint == Some(fingerprint))
      && (found.Err? ==> found.error == NotFound(NIL_UUID))
  {
    IndexesHoldOverEveryRun(EMPTY, ops);
  }

  // ----------------------------------------------- completeness by fingerprint

  predicate FreshFingerprint(inv: Snapshot, m: Metadata) {
    m.fingerprint.Some? ==> m.fingerprint.value !in inv.fingerprintIndex
  }

  /** Registration never checks for a duplicate fingerprint. It keeps every certificate findable
      exactly when the fingerprint was not indexed before, or the id or serial is taken, so
      that nothing is registered. */
  lemma RegisterKeepsCompletenessExactly(inv: Snapshot, m: Metadata)
    requires Indexed(inv) && FingerprintsComplete(inv)
    ensures var (r, after) := AfterRegister(inv, m);
            FingerprintsComplete(after) <==>
              m.id in inv.certificates || SerialInUse(inv, m.serialNumber) || FreshFingerprint(inv, m)
  {
    assert m.serialNumber in inv.serialIndex <==> SerialInUse(inv, m.serialNumber);
    var (r, after) := AfterRegister(inv, m);
    if r.Ok? && !FreshFingerprint(inv, m) {
      var holder := inv.fingerprintIndex[m.fingerprint.value];
      assert holder in after.certificates && !FingerprintIndexed(after, holder);
    }
  }

  /** The step registers no fingerprint that is already indexed, and edits none. */
  predicate StaysDistinct(inv: Snapshot, op: Op) {
    && (op.Register? ==> FreshFingerprint(inv, op.m))
    && (op.RegisterRenewal? ==> FreshFingerprint(inv, op.replacement))
    && (op.Edit? && op.id in inv.certificates ==> op.edited.fingerprint == inv.certificates[op.id].fingerprint)
  }

  predicate FingerprintsStayDistinct(inv: Snapshot, ops: seq<Op>)
    decreases |ops|
  {
    ops == [] || (StaysDistinct(inv, ops[0]) && FingerprintsStayDistinct(Step(inv, ops[0]), ops[1..]))
  }

  lemma RemoveKeepsCompleteness(inv: Snapshot, id: Uuid)
    requires Indexed(inv) && FingerprintsComplete(inv)
    ensures FingerprintsComplete(AfterRemove(inv, id).1)
  {
    var after := AfterRemove(inv, id).1;
    forall k | k in after.certificates && after.certificates[k].fingerprint.Some?
      ensures FingerprintIndexed(after, k)
    {
      assert FingerprintIndexed(inv, k);
      assert id in inv.certificates && inv.certificates[id].fingerprint.Some? ==> FingerprintIndexed(inv, id);
    }
  }

  lemma RewriteKeepsCompleteness(inv: Snapshot, certificates: Certificates)
    requires FingerprintsComplete(inv) && certificates.Keys == inv.certificates.Keys
    requires forall id :: id in certificates ==> certificates[id].fingerprint == inv.certificates[id].fingerprint
    ensures FingerprintsComplete(inv.(certificates := certificates))
  {
    var after := inv.(certificates := certificates);
    forall k | k in after.certificates && after.certificates[k].fingerprint.Some?
      ensures FingerprintIndexed(after, k)
    {
      assert FingerprintIndexed(inv, k);
    }
  }

  lemma RegisterRenewalKeepsCompleteness(inv: Snapshot, previousId: Uuid, replacement: Metadata, stamp: Time)
    requires Indexed(inv) && FingerprintsComplete(inv) && FreshFingerprint(inv, replacement)
    ensures FingerprintsComplete(AfterRegisterRenewal(inv, previousId, replacement, stamp).1)
  {
    if previousId in inv.certificates {
      var (r, previous) := AfterTransition(inv.certificates[previousId], Renewed, stamp);
      if r.Ok? {
        var between := inv.(certificates := inv.certificates[previousId := previous]);
        RewriteKeepsIndexes(inv, between.certificates);
        RewriteKeepsCompleteness(inv, between.certificates);
        RegisterKeepsCompletenessExactly(between, Successor(previous, replacement));
      }
    }
  }

  lemma StepKeepsCompleteness(inv: Snapshot, op: Op)
    requires Indexed(inv) && FingerprintsComplete(inv) && StaysDistinct(inv, op)
    ensures FingerprintsComplete(Step(inv, op))
  {
    match op
    case Register(m) => RegisterKeepsCompletenessExactly(inv, m);
    case RegisterRenewal(previousId, replacement, stamp) =>
      RegisterRenewalKeepsCompleteness(inv, previousId, replacement, stamp);
    case Remove(id) => RemoveKeepsCompleteness(inv, id);
    case Change(id, next, stamp) => RewriteKeepsCompleteness(inv, Step(inv, op).certificates);
    case Evaluate(order, clock) =>
      if |order| == |clock| {
        SweepKeepsRecords(inv.certificates, order, clock, 0);
      }
      RewriteKeepsCompleteness(inv, Step(inv, op).certificates);
    case Edit(id, edited) => RewriteKeepsCompleteness(inv, Step(inv, op).certificates);
  }

  /** With distinct fingerprints the fingerprint index is complete over every run. */
  lemma {:induction false} FingerprintsFindableOverEveryRun(inv: Snapshot, ops: seq<Op>)
    requires Indexed(inv) && FingerprintsComplete(inv)
    requires EditsKeepKeys(inv, ops) && FingerprintsStayDistinct(inv, ops)
    ensures Indexed(Run(inv, ops)) && FingerprintsComplete(Run(inv, ops))
    decreases |ops|
  {
    if ops == [] {
    } else {
      StepKeepsIndexes(inv, ops[0]);
      StepKeepsCompleteness(inv, ops[0]);
      FingerprintsFindableOverEveryRun(Step(inv, ops[0]), ops[1..]);
    }
  }

  // ------------------------------------------------------------------- renewal

  /** A renewal is accepted exactly when the predecessor is RenewalPending (or Renewed
      already) and neither the replacement's id nor its serial is taken. */
  lemma RegisterRenewalAcceptedExactly(inv: Snapshot, previousId: Uuid, replacement: Metadata, stamp: Time)
    requires Indexed(inv)
    ensures AfterRegisterRenewal(inv, previousId, replacement, stamp).0.Ok? <==>
            && previousId in inv.certificates
            && inv.certificates[previousId].state in {RenewalPending, Renewed}
            && replacement.id !in inv.certificates
            && !SerialInUse(inv, replacement.serialNumber)
  {
    assert replacement.serialNumber in inv.serialIndex <==> SerialInUse(inv, replacement.serialNumber);
  }

  /** An accepted renewal: the predecessor is Renewed, the replacement is Active and carries
      the predecessor's associations, everything else is as it was. */
  lemma AcceptedRenewal(inv: Snapshot, previousId: Uuid, replacement: Metadata, stamp: Time)
    requires Indexed(inv) && AfterRegisterRenewal(inv, previousId, replacement, stamp).0.Ok?
    ensures var (r, after) := AfterRegisterRenewal(inv, previousId, replacement, stamp);
      && r.value == replacement.id && replacement.id != previousId
      && after.certificates.Keys == inv.certificates.Keys + {replacement.id}
      && |after.certificates| == |inv.certificates| + 1
      && var previous, successor := after.certificates[previousId], after.certificates[replacement.id];
      && previous == inv.certificates[previousId].(state := Renewed, updatedAt := previous.updatedAt)
      && previous.updatedAt == (if inv.certificates[previousId].state == RenewalPending then stamp
                                else inv.certificates[previousId].updatedAt)
      && successor == replacement.(state := Active, workloadId := previous.workloadId,
                                   deviceId := previous.deviceId, serviceId := previous.serviceId,
                                   tags := previous.tags)
      && (forall id :: id in inv.certificates && id != previousId ==>
            after.certificates[id] == inv.certificates[id])
      && Indexed(after)
  {
    RegisterRenewalKeepsIndexes(inv, previousId, replacement, stamp);
    RegisterRenewalAcceptedExactly(inv, previousId, replacement, stamp);
    AcceptedRenewalAddsOne(inv, previousId, replacement, stamp);
  }

  lemma AcceptedRenewalAddsOne(inv: Snapshot, previousId: Uuid, replacement: Metadata, stamp: Time)
    requires AfterRegisterRenewal(inv, previousId, replacement, stamp).0.Ok?
    ensures var after := AfterRegisterRenewal(inv, previousId, replacement, stamp).1;
      && after.certificates.Keys == inv.certificates.Keys + {replacement.id}
      && |after.certificates| == |inv.certificates| + 1
  {
    var after := AfterRegisterRenewal(inv, previousId, replacement, stamp).1;
    assert after.certificates.Keys == inv.certificates.Keys + {replacement.id};
    assert |after.certificates| == |after.certificates.Keys| && |inv.certificates| == |inv.certificates.Keys|;
  }

  /** A refused renewal. The predecessor is changed before the replacement is accepted, so a
      refusal changes something exactly when the predecessor was RenewalPending: a
      duplicate id or serial then still leaves it Renewed. One that was Renewed already is
      as it was. */
  lemma RefusedRenewal(inv: Snapshot, previousId: Uuid, replacement: Metadata, stamp: Time)
    requires Indexed(inv) && AfterRegisterRenewal(inv, previousId, replacement, stamp).0.Err?
    ensures var (r, after) := AfterRegisterRenewal(inv, previousId, replacement, stamp);
      && (r.error.NotFound? || r.error.Lifecycle? ==> after == inv)
      && (r.error.AlreadyExists? || r.error.DuplicateSerial? ==>
            && previousId in inv.certificates && previousId in after.certificates
            && var previous := after.certificates[previousId];
            && previous == inv.certificates[previousId].(state := Renewed, updatedAt := previous.updatedAt)
            && after == inv.(certificates := inv.certificates[previousId := previous]))
      && (after != inv <==> previousId in inv.certificates && inv.certificates[previousId].state == RenewalPending)
      && Indexed(after)
  {
    RegisterRenewalKeepsIndexes(inv, previousId, replacement, stamp);
    if previousId in inv.certificates {
      assert inv.certificates[previousId := inv.certificates[previousId]] == inv.certificates;
    }
  }

  const WEB_SERVER := CertificateIdentity(Some("web"), ["web.example"], [], false, true)

  /** A certificate waiting for its renewal. */
  const PENDING := Metadata(1, "0a", "ca", "web", WEB_SERVER, RenewalPending, 0, 1_000_000_000, None, 0, 0,
                            DEFAULT_RENEWAL_WINDOW_SECONDS, None, None, None, [])

  /** Renewing it under its own serial number is refused, and leaves it Renewed. */
  lemma RefusedRenewalIsNotAtomic(stamp: Time)
    ensures var inv := Snapshot(map[1 := PENDING], map["0a" := 1], map[]);
      && Indexed(inv)
      && AfterRegisterRenewal(inv, 1, PENDING.(id := 2), stamp)
         == (Err(DuplicateSerial("0a")),
             inv.(certificates := map[1 := PENDING.(state := Renewed, updatedAt := stamp)]))
  {
    var inv := Snapshot(map[1 := PENDING], map["0a" := 1], map[]);
    assert inv.certificates[1 := PENDING.(state := Renewed, updatedAt := stamp)]
        == map[1 := PENDING.(state := Renewed, updatedAt := stamp)];
  }

  // --------------------------------------------------------- reachable states

  predicate Plain(m: Metadata) {
    m.state != RenewalPending && m.state != Renewed
  }

  ghost predicate AllPlain(certificates: Certificates) {
    forall id :: id in certificates ==> Plain(certificates[id])
  }

  /** The inventory's own methods: revoke and mark_renewed are the only transitions they
      ask for, and new certificates start Active. */
  predicate OwnMethod(op: Op) {
    && !op.Edit?
    && (op.Change? ==> op.next == Revoked || op.next == Renewed)
    && (op.Register? ==> op.m.state == Active)
  }

  lemma {:induction false} SweepKeepsPlain(certificates: Certificates, order: seq<Uuid>, clock: seq<Tick>, changed: nat)
    requires |order| == |clock| && AllPlain(certificates)
    ensures AllPlain(Sweep(certificates, order, clock, changed).1)
    decreases |order|
  {
    if order != [] && order[0] in certificates {
      var before := certificates[order[0]];
      var (r, after) := AfterEvaluate(before, clock[0]);
      EvaluationTable(before, clock[0]);
      var next := certificates[order[0] := after];
      assert Plain(before) && Plain(after);
      assert AllPlain(next);
      if r.Ok? {
        SweepKeepsPlain(next, order[1..], clock[1..], if before.state != after.state then changed + 1 else changed);
      }
    }
  }

  lemma RenewalRefusedWhenPlain(inv: Snapshot, previousId: Uuid, replacement: Metadata, stamp: Time)
    requires AllPlain(inv.certificates)
    ensures AfterRegisterRenewal(inv, previousId, replacement, stamp).0.Err?
    ensures AfterRegisterRenewal(inv, previousId, replacement, stamp).1 == inv
  {
    if previousId in inv.certificates {
      assert Plain(inv.certificates[previousId]);
    }
  }

  lemma StepKeepsPlain(inv: Snapshot, op: Op)
    requires AllPlain(inv.certificates) && OwnMethod(op)
    ensures AllPlain(Step(inv, op).certificates)
  {
    match op
    case Register(m) =>
    case RegisterRenewal(previousId, replacement, stamp) =>
      RenewalRefusedWhenPlain(inv, previousId, replacement, stamp);
    case Remove(id) =>
    case Change(id, next, stamp) =>
      if id in inv.certificates {
        assert Plain(inv.certificates[id]) && Plain(AfterTransition(inv.certificates[id], next, stamp).1);
      }
    case Evaluate(order, clock) =>
      if |order| == |clock| {
        SweepKeepsPlain(inv.certificates, order, clock, 0);
      }
  }

  /** Driven by its own methods alone, the inventory never has a certificate in
      RenewalPending or Renewed, so no renewal is ever accepted. */
  lemma {:induction false} NoRenewalWithoutOutsideEdit(inv: Snapshot, ops: seq<Op>)
    requires AllPlain(inv.certificates) && forall i :: 0 <= i < |ops| ==> OwnMethod(ops[i])
    ensures AllPlain(Run(inv, ops).certificates)
    ensures forall previousId, replacement, stamp ::
              AfterRegisterRenewal(Run(inv, ops), previousId, replacement, stamp).0.Err?
    decreases |ops|
  {
    if ops == [] {
      forall previousId, replacement, stamp
        ensures AfterRegisterRenewal(inv, previousId, replacement, stamp).0.Err?
      {
        RenewalRefusedWhenPlain(inv, previousId, replacement, stamp);
      }
    } else {
      StepKeepsPlain(inv, ops[0]);
      NoRenewalWithoutOutsideEdit(Step(inv, ops[0]), ops[1..]);
    }
  }
}
