/** The certificate inventory: certificates by id, with a serial-number index and a
    fingerprint index kept beside them. */
module Inventory {
  import opened Wrappers
  import opened Lifecycle

  datatype InventoryError =
    | AlreadyExists(id: Uuid)
    | NotFound(missing: Uuid)
    | DuplicateSerial(serial: string)
    | Lifecycle(cause: LifecycleError)

  type Certificates = map<Uuid, Metadata>

  /** The value of an inventory at one moment. */
  datatype Snapshot = Snapshot(
    certificates: Certificates,
    serialIndex: map<string, Uuid>,
    fingerprintIndex: map<string, Uuid>)

  const EMPTY := Snapshot(map[], map[], map[])

  // ------------------------------------------- what each operation leads to

  function AfterRegister(inv: Snapshot, m: Metadata): (Result<Uuid, InventoryError>, Snapshot) {
    if m.id in inv.certificates then (Err(AlreadyExists(m.id)), inv)
    else if m.serialNumber in inv.serialIndex then (Err(DuplicateSerial(m.serialNumber)), inv)
    else
      (Ok(m.id),
       Snapshot(
         inv.certificates[m.id := m],
         inv.serialIndex[m.serialNumber := m.id],
         if m.fingerprint.Some? then inv.fingerprintIndex[m.fingerprint.value := m.id] else inv.fingerprintIndex))
  }

  /** The replacement as it is registered: Active, with the predecessor's associations. */
  function Successor(previous: Metadata, replacement: Metadata): Metadata {
    replacement.(
      state := Active,
      workloadId := previous.workloadId,
      deviceId := previous.deviceId,
      serviceId := previous.serviceId,
      tags := previous.tags)
  }

  function AfterRegisterRenewal(inv: Snapshot, previousId: Uuid, replacement: Metadata, stamp: Time)
    : (Result<Uuid, InventoryError>, Snapshot)
  {
    if previousId !in inv.certificates then (Err(NotFound(previousId)), inv)
    else
      match AfterTransition(inv.certificates[previousId], Renewed, stamp)
      case (Err(e), _) => (Err(Lifecycle(e)), inv)
      case (Ok(_), previous) =>
        AfterRegister(inv.(certificates := inv.certificates[previousId := previous]),
                      Successor(previous, replacement))
  }

  function AfterRemove(inv: Snapshot, id: Uuid): (Result<Metadata, InventoryError>, Snapshot) {
    if id !in inv.certificates then (Err(NotFound(id)), inv)
    else
      var m := inv.certificates[id];
      (Ok(m),
       Snapshot(
         inv.certificates - {id},
         inv.serialIndex - {m.serialNumber},
         if m.fingerprint.Some? then inv.fingerprintIndex - {m.fingerprint.value} else inv.fingerprintIndex))
  }

  /** `revoke` and `mark_renewed` are both one transition of one certificate. */
  function AfterChange(inv: Snapshot, id: Uuid, next: CertificateState, stamp: Time)
    : (Result<(), InventoryError>, Snapshot)
  {
    if id !in inv.certificates then (Err(NotFound(id)), inv)
    else
      match AfterTransition(inv.certificates[id], next, stamp)
      case (Err(e), _) => (Err(Lifecycle(e)), inv)
      case (Ok(_), m) => (Ok(()), inv.(certificates := inv.certificates[id := m]))
  }

  function Lookup(index: map<string, Uuid>, certificates: Certificates, key: string)
    : Result<Metadata, InventoryError>
  {
    if key !in index then Err(NotFound(NIL_UUID))
    else if index[key] !in certificates then Err(NotFound(index[key]))
    else Ok(certificates[index[key]])
  }

  // -------------------------------------------------------- lifecycle sweep

  /** An order in which a hash map may yield its keys. */
  predicate Lists(order: seq<Uuid>, keys: set<Uuid>) {
    NoRepeats(order) && keys == Elements(order)
  }

  predicate NoRepeats(order: seq<Uuid>)
    decreases |order|
  {
    order == [] || (order[0] !in order[1..] && NoRepeats(order[1..]))
  }

  function Elements(order: seq<Uuid>): set<Uuid> {
    set id | id in order
  }

  /** A sweep over the certificates in the given order, one clock tick for each. The first
      failure ends it and what was already evaluated stays. */
  function Sweep(certificates: Certificates, order: seq<Uuid>, clock: seq<Tick>, changed: nat)
    : (Result<nat, InventoryError>, Certificates)
    requires |order| == |clock|
    decreases |order|
  {
    if order == [] then (Ok(changed), certificates)
    else if order[0] !in certificates then (Err(NotFound(order[0])), certificates)
    else
      var before := certificates[order[0]];
      match AfterEvaluate(before, clock[0])
      case (Err(e), after) => (Err(Lifecycle(e)), certificates[order[0] := after])
      case (Ok(_), after) =>
        Sweep(certificates[order[0] := after], order[1..], clock[1..],
              if before.state != after.state then changed + 1 else changed)
  }

  /** One turn of the sweep, seen from position `i` of the listing. */
  lemma SweepStep(certificates: Certificates, order: seq<Uuid>, clock: seq<Tick>, i: nat, changed: nat)
    requires |order| == |clock| && i < |order| && order[i] in certificates
    ensures var before := certificates[order[i]];
            Sweep(certificates, order[i..], clock[i..], changed) ==
            match AfterEvaluate(before, clock[i])
            case (Err(e), after) => (Err(Lifecycle(e)), certificates[order[i] := after])
            case (Ok(_), after) =>
              Sweep(certificates[order[i] := after], order[i + 1..], clock[i + 1..],
                    if before.state != after.state then changed + 1 else changed)
  {
    assert order[i..][1..] == order[i + 1..] && clock[i..][1..] == clock[i + 1..];
  }

  // ----------------------------------------------------------------- counting

  ghost function InState(certificates: Certificates, ids: set<Uuid>, state: CertificateState): set<Uuid> {
    set id | id in ids && id in certificates && certificates[id].state == state
  }

  datatype InventoryStateCounts = InventoryStateCounts(
    active: nat, expiring: nat, renewalPending: nat, renewed: nat, revoked: nat, expired: nat)
  {
    function Total(): nat {
      active + expiring + renewalPending + renewed + revoked + expired
    }

    function Of(state: CertificateState): nat {
      match state
      case Active => active
      case Expiring => expiring
      case RenewalPending => renewalPending
      case Renewed => renewed
      case Revoked => revoked
      case Expired => expired
    }

    ghost predicate CountsIn(certificates: Certificates, ids: set<Uuid>) {
      forall state :: Of(state) == |InState(certificates, ids, state)|
    }
  }

  /** Adding one id adds it to the set of its own state and to no other. */
  lemma InStateGrows(certificates: Certificates, ids: set<Uuid>, id: Uuid, state: CertificateState)
    requires id !in ids && id in certificates
    ensures |InState(certificates, ids + {id}, state)|
         == |InState(certificates, ids, state)| + (if certificates[id].state == state then 1 else 0)
  {
    var before := InState(certificates, ids, state);
    var after := InState(certificates, ids + {id}, state);
    if certificates[id].state == state {
      assert after == before + {id};
    } else {
      assert after == before;
    }
  }

  function Counted(counts: InventoryStateCounts, state: CertificateState): InventoryStateCounts {
    match state
    case Active => counts.(active := counts.active + 1)
    case Expiring => counts.(expiring := counts.expiring + 1)
    case RenewalPending => counts.(renewalPending := counts.renewalPending + 1)
    case Renewed => counts.(renewed := counts.renewed + 1)
    case Revoked => counts.(revoked := counts.revoked + 1)
    case Expired => counts.(expired := counts.expired + 1)
  }

  lemma CountOneMore(certificates: Certificates, ids: set<Uuid>, id: Uuid, counts: InventoryStateCounts)
    requires id !in ids && id in certificates && counts.CountsIn(certificates, ids)
    ensures Counted(counts, certificates[id].state).CountsIn(certificates, ids + {id})
    ensures Counted(counts, certificates[id].state).Total() == counts.Total() + 1
  {
    forall state
      ensures Counted(counts, certificates[id].state).Of(state) == |InState(certificates, ids + {id}, state)|
    {
      InStateGrows(certificates, ids, id, state);
      assert counts.Of(state) == |InState(certificates, ids, state)|;
    }
  }

  const ZERO_COUNTS := InventoryStateCounts(0, 0, 0, 0, 0, 0)

  function Tally(certificates: Certificates, order: seq<Uuid>, counts: InventoryStateCounts): InventoryStateCounts
    requires forall id :: id in order ==> id in certificates
    decreases |order|
  {
    if order == [] then counts
    else Tally(certificates, order[1..], Counted(counts, certificates[order[0]].state))
  }

  /** Counting along a listing gives, for each state, the number of certificates in it; the
      six counts add up to the number of certificates counted. */
  lemma {:induction false} TallyCounts(certificates: Certificates, order: seq<Uuid>, counts: InventoryStateCounts,
                                       counted: set<Uuid>, all: set<Uuid>)
    requires forall id :: id in order ==> id in certificates
    requires NoRepeats(order) && (forall id :: id in order ==> id !in counted)
    requires all == counted + Elements(order)
    requires counts.CountsIn(certificates, counted) && counts.Total() == |counted|
    ensures Tally(certificates, order, counts).CountsIn(certificates, all)
    ensures Tally(certificates, order, counts).Total() == |all|
    decreases |order|
  {
    if order == [] {
      assert all == counted;
    } else {
      var id := order[0];
      CountOneMore(certificates, counted, id, counts);
      assert order == [id] + order[1..];
      assert all == counted + {id} + Elements(order[1..]);
      TallyCounts(certificates, order[1..], Counted(counts, certificates[id].state), counted + {id}, all);
    }
  }

  /** Each count is the number of certificates in its own state. */
  lemma EachCountIsItsState(counts: InventoryStateCounts, certificates: Certificates, ids: set<Uuid>)
    requires counts.CountsIn(certificates, ids)
    ensures counts.active == |InState(certificates, ids, Active)|
    ensures counts.expiring == |InState(certificates, ids, Expiring)|
    ensures counts.renewalPending == |InState(certificates, ids, RenewalPending)|
    ensures counts.renewed == |InState(certificates, ids, Renewed)|
    ensures counts.revoked == |InState(certificates, ids, Revoked)|
    ensures counts.expired == |InState(certificates, ids, Expired)|
  {
    assert forall state :: counts.Of(state) == |InState(certificates, ids, state)|;
  }

  // -------------------------------------------------------------- the class

  class CertificateInventory {
    var certificates: map<Uuid, CertificateMetadata>
    var serialIndex: map<string, Uuid>
    var fingerprintIndex: map<string, Uuid>

    /** The map owns its records, so no record is stored under two ids. */
    ghost predicate Owned()
      reads this
    {
      forall a, b :: a in certificates && b in certificates && a != b ==> certificates[a] != certificates[b]
    }

    function Values(): Certificates
      reads this, certificates.Values
    {
      map id | id in certificates :: certificates[id].View()
    }

    function View(): Snapshot
      reads this, certificates.Values
    {
      Snapshot(Values(), serialIndex, fingerprintIndex)
    }

    /** Writing through one record changes one entry of the map's value. */
    twostate lemma OneRecordChanged(id: Uuid)
      requires old(Owned()) && certificates == old(certificates) && id in certificates
      requires forall c :: c in certificates.Values && c != certificates[id] ==> c.View() == old(c.View())
      ensures Values() == old(Values())[id := certificates[id].View()]
    {
    }

    constructor ()
      ensures Owned() && View() == EMPTY
    {
      certificates, serialIndex, fingerprintIndex := map[], map[], map[];
    }

    /** The replacement takes over the predecessor's associations and becomes Active. */
    static method Inherit(previous: CertificateMetadata, replacement: CertificateMetadata)
      requires previous != replacement
      modifies replacement
      ensures replacement.View() == Successor(previous.View(), old(replacement.View()))
    {
      replacement.state := Active;
      replacement.workloadId := previous.workloadId;
      replacement.deviceId := previous.deviceId;
      replacement.serviceId := previous.serviceId;
      replacement.tags := previous.tags;
    }

    method Register(certificate: CertificateMetadata) returns (r: Result<Uuid, InventoryError>)
      requires Owned() && certificate !in certificates.Values
      modifies this
      ensures Owned()
      ensures certificates ==
              if r.Ok? then old(certificates)[old(certificate.id) := certificate] else old(certificates)
      ensures r == AfterRegister(old(View()), certificate.View()).0
      ensures View() == AfterRegister(old(View()), certificate.View()).1
    {
      var id := certificate.id;
      var serial := certificate.serialNumber;
      var fingerprint := certificate.fingerprint;
      if id in certificates {
        return Err(AlreadyExists(id));
      }
      if serial in serialIndex {
        return Err(DuplicateSerial(serial));
      }
      serialIndex := serialIndex[serial := id];
      if fingerprint.Some? {
        fingerprintIndex := fingerprintIndex[fingerprint.value := id];
      }
      certificates := certificates[id := certificate];
      assert Values() == old(Values())[id := certificate.View()];
      return Ok(id);
    }

    method GetMut(id: Uuid) returns (r: Result<CertificateMetadata, InventoryError>)
      ensures r == if id in certificates then Ok(certificates[id]) else Err(NotFound(id))
    {
      if id in certificates {
        return Ok(certificates[id]);
      }
      return Err(NotFound(id));
    }

    method RegisterRenewal(previousId: Uuid, replacement: CertificateMetadata, stamp: Time)
      returns (r: Result<Uuid, InventoryError>)
      requires Owned() && replacement !in certificates.Values
      modifies this, certificates.Values, replacement
      ensures Owned()
      ensures r == AfterRegisterRenewal(old(View()), previousId, old(replacement.View()), stamp).0
      ensures View() == AfterRegisterRenewal(old(View()), previousId, old(replacement.View()), stamp).1
    {
      var changed := Change(previousId, Renewed, stamp);
      if changed.Err? {
        return Err(changed.error);
      }
      label transitioned:
      Inherit(certificates[previousId], replacement);
      assert Values() == old@transitioned(Values());
      r := Register(replacement);
    }

    method Remove(id: Uuid) returns (r: Result<CertificateMetadata, InventoryError>)
      requires Owned()
      modifies this
      ensures Owned()
      ensures r.Ok? ==> id in old(certificates) && r.value == old(certificates)[id]
      ensures certificates == old(certificates) - {id}
      ensures View() == AfterRemove(old(View()), id).1
      ensures r.Ok? ==> Ok(r.value.View()) == AfterRemove(old(View()), id).0
      ensures r.Err? ==> Err(r.error) == AfterRemove(old(View()), id).0
    {
      if id !in certificates {
        return Err(NotFound(id));
      }
      var certificate := certificates[id];
      certificates := certificates - {id};
      serialIndex := serialIndex - {certificate.serialNumber};
      if certificate.fingerprint.Some? {
        fingerprintIndex := fingerprintIndex - {certificate.fingerprint.value};
      }
      assert Values() == old(Values()) - {id};
      return Ok(certificate);
    }

    method Change(id: Uuid, next: CertificateState, stamp: Time) returns (r: Result<(), InventoryError>)
      requires Owned()
      modifies certificates.Values
      ensures Owned()
      ensures r == AfterChange(old(View()), id, next, stamp).0
      ensures View() == AfterChange(old(View()), id, next, stamp).1
    {
      var found := GetMut(id);
      if found.Err? {
        return Err(found.error);
      }
      var t := Transition(found.value, next, stamp);
      OneRecordChanged(id);
      if t.Err? {
        assert Values() == old(Values());
        return Err(InventoryError.Lifecycle(t.error));
      }
      return Ok(());
    }

    method Revoke(id: Uuid, stamp: Time) returns (r: Result<(), InventoryError>)
      requires Owned()
      modifies certificates.Values
      ensures Owned()
      ensures r == AfterChange(old(View()), id, Revoked, stamp).0
      ensures View() == AfterChange(old(View()), id, Revoked, stamp).1
    {
      r := Change(id, Revoked, stamp);
    }

    method MarkRenewed(id: Uuid, stamp: Time) returns (r: Result<(), InventoryError>)
      requires Owned()
      modifies certificates.Values
      ensures Owned()
      ensures r == AfterChange(old(View()), id, Renewed, stamp).0
      ensures View() == AfterChange(old(View()), id, Renewed, stamp).1
    {
      r := Change(id, Renewed, stamp);
    }

    method FindBySerial(serial: string) returns (r: Result<CertificateMetadata, InventoryError>)
      ensures r.Ok? ==> r.value in certificates.Values
      ensures r.Ok? ==> Ok(r.value.View()) == Lookup(serialIndex, Values(), serial)
      ensures r.Err? ==> Err(r.error) == Lookup(serialIndex, Values(), serial)
    {
      if serial !in serialIndex {
        return Err(NotFound(NIL_UUID));
      }
      r := GetMut(serialIndex[serial]);
    }

    method FindByFingerprint(fingerprint: string) returns (r: Result<CertificateMetadata, InventoryError>)
      ensures r.Ok? ==> r.value in certificates.Values
      ensures r.Ok? ==> Ok(r.value.View()) == Lookup(fingerprintIndex, Values(), fingerprint)
      ensures r.Err? ==> Err(r.error) == Lookup(fingerprintIndex, Values(), fingerprint)
    {
      if fingerprint !in fingerprintIndex {
        return Err(NotFound(NIL_UUID));
      }
      r := GetMut(fingerprintIndex[fingerprint]);
    }

    method EvaluateOne(id: Uuid, tick: Tick) returns (r: Result<CertificateState, LifecycleError>, changed: bool)
      requires Owned() && id in certificates
      modifies certificates.Values
      ensures Owned()
      ensures var (outcome, after) := AfterEvaluate(old(Values())[id], tick);
              && r == outcome && Values() == old(Values())[id := after]
              && changed == (old(Values())[id].state != after.state)
    {
      var certificate := certificates[id];
      var before := certificate.state;
      r := Evaluate(certificate, tick);
      OneRecordChanged(id);
      changed := before != certificate.state;
    }

    /** `order` is the order in which the hash map happens to yield its keys. */
    method EvaluateLifecycle(order: seq<Uuid>, clock: seq<Tick>) returns (r: Result<nat, InventoryError>)
      requires Owned() && Lists(order, certificates.Keys) && |clock| == |order|
      modifies certificates.Values
      ensures Owned()
      ensures (r, Values()) == Sweep(old(Values()), order, clock, 0)
    {
      var changed := 0;
      var i := 0;
      while i < |order|
        invariant i <= |order|
        invariant Sweep(Values(), order[i..], clock[i..], changed) == Sweep(old(Values()), order, clock, 0)
      {
        SweepStep(Values(), order, clock, i, changed);
        assert order[i] in Values();
        var evaluated, moved := EvaluateOne(order[i], clock[i]);
        if evaluated.Err? {
          return Err(InventoryError.Lifecycle(evaluated.error));
        }
        if moved {
          changed := changed + 1;
        }
        i := i + 1;
      }
      return Ok(changed);
    }

    method StateCounts(order: seq<Uuid>) returns (counts: InventoryStateCounts)
      requires Lists(order, certificates.Keys)
      ensures counts.CountsIn(Values(), certificates.Keys)
      ensures counts.Total() == |certificates|
    {
      counts := ZERO_COUNTS;
      var i := 0;
      while i < |order|
        invariant i <= |order|
        invariant Tally(Values(), order[i..], counts) == Tally(Values(), order, ZERO_COUNTS)
      {
        assert order[i] in order && order[i..][1..] == order[i + 1..];
        counts := Counted(counts, certificates[order[i]].state);
        i := i + 1;
      }
      TallyCounts(Values(), order, ZERO_COUNTS, {}, certificates.Keys);
    }
  }
}
