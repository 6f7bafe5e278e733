/** Renewal: which certificates are queued, what a work item carries, and how a
    replacement is requested and registered. */
module Renewal {
  import opened Wrappers
  import opened Codec
  import opened Lifecycle
  import opened Validity
  import opened Inventory
  import InventoryRuns
  import opened Issuer

  datatype RenewalAction = NoAction | Renew | Revoke

  const U32_MAX: nat := 0xFFFF_FFFF

  function RenewalActionOf(m: Metadata, now: Time): RenewalAction {
    match m.state
    case Active => if RenewalDue(m, now) then Renew else NoAction
    case Expiring => Renew
    case RenewalPending => Renew
    case Expired => Revoke
    case Revoked => Revoke
    case Renewed => NoAction
  }

  // ------------------------------------------------------------------ work items

  datatype WorkItem = WorkItem(
    certificateId: Uuid,
    action: RenewalAction,
    attempts: nat,
    queuedAt: Time,
    identity: CertificateIdentity)

  /** The instants at which a candidate is turned into a work item. */
  datatype Reading = Reading(at: Time, queuedAt: Time)

  function NewWorkItem(m: Metadata, reading: Reading): Option<WorkItem> {
    var action := RenewalActionOf(m, reading.at);
    if action == NoAction then None
    else Some(WorkItem(m.id, action, 0, reading.queuedAt, m.identity))
  }

  /** The queue: certificates are filtered by `renewal_due` when candidates are taken
      (instant `due[k]`) and again by `renewal_action` when items are made. */
  function RenewalQueue(certificates: Certificates, order: seq<Uuid>, due: seq<Time>, readings: seq<Reading>)
    : seq<WorkItem>
    requires |order| == |due| == |readings| && forall id :: id in order ==> id in certificates
    decreases |order|
  {
    if order == [] then []
    else
      var m := certificates[order[0]];
      var rest := RenewalQueue(certificates, order[1..], due[1..], readings[1..]);
      if !RenewalDue(m, due[0]) then rest
      else
        match NewWorkItem(m, readings[0])
        case None => rest
        case Some(item) => [item] + rest
  }

  /** The ids of the certificates that were due when candidates were taken. */
  function DueIds(certificates: Certificates, order: seq<Uuid>, due: seq<Time>): seq<Uuid>
    requires |order| == |due| && forall id :: id in order ==> id in certificates
    decreases |order|
  {
    if order == [] then []
    else
      var rest := DueIds(certificates, order[1..], due[1..]);
      if RenewalDue(certificates[order[0]], due[0]) then [order[0]] + rest else rest
  }

  /** Due, spelled out: Active or Expiring, with the renewal window open. */
  predicate Approaching(m: Metadata, now: Time) {
    && (m.state == Active || m.state == Expiring)
    && (if m.renewalWindowSeconds >= 0
        then m.notAfter - now < (m.renewalWindowSeconds + 1) * 1_000_000_000
        else m.notAfter - now <= m.renewalWindowSeconds * 1_000_000_000)
  }

  lemma DueIsApproaching(m: Metadata, now: Time)
    ensures RenewalDue(m, now) <==> Approaching(m, now)
  {
    RenewalDueExactly(m, now);
  }

  /** What was due when candidates were taken passes the second filter. */
  lemma DueMakesAnItem(m: Metadata, due: Time, reading: Reading)
    requires RenewalDue(m, due) && due <= reading.at
    ensures NewWorkItem(m, reading) == Some(WorkItem(m.id, Renew, 0, reading.queuedAt, m.identity))
  {
    RenewalDueIsMonotone(m, due, reading.at);
  }

  /** For each position of the listing, whether its certificate was due. */
  function DueFlags(certificates: Certificates, order: seq<Uuid>, due: seq<Time>): seq<bool>
    requires |order| == |due| && forall id :: id in order ==> id in certificates
  {
    seq(|order|, k requires 0 <= k < |order| => Approaching(certificates[order[k]], due[k]))
  }

  /** The flagged positions, in order. */
  function Flagged(flags: seq<bool>): (at: seq<nat>)
    ensures forall i :: 0 <= i < |at| ==> at[i] < |flags| && flags[at[i]]
    ensures forall i, j :: 0 <= i < j < |at| ==> at[i] < at[j]
    ensures forall k :: 0 <= k < |flags| && flags[k] ==> k in at
  {
    if flags == [] then []
    else
      var n := |flags| - 1;
      var before := Flagged(flags[..n]);
      if flags[n] then before + [n] else before
  }

  /** A first attempt at renewing the certificate listed at this position. */
  function ItemAt(certificates: Certificates, order: seq<Uuid>, readings: seq<Reading>, k: nat): WorkItem
    requires k < |order| == |readings| && order[k] in certificates
  {
    WorkItem(order[k], Renew, 0, readings[k].queuedAt, certificates[order[k]].identity)
  }

  /** What one more certificate at the end of the listing adds. */
  lemma {:induction false} QueueOfExtension(certificates: Certificates, order: seq<Uuid>, due: seq<Time>,
                                            readings: seq<Reading>, id: Uuid, t: Time, reading: Reading)
    requires |order| == |due| == |readings| && id in certificates && forall k :: k in order ==> k in certificates
    ensures var m := certificates[id];
      && RenewalQueue(certificates, order + [id], due + [t], readings + [reading])
         == RenewalQueue(certificates, order, due, readings)
            + (if RenewalDue(m, t) && NewWorkItem(m, reading).Some? then [NewWorkItem(m, reading).value] else [])
      && DueIds(certificates, order + [id], due + [t])
         == DueIds(certificates, order, due) + (if RenewalDue(m, t) then [id] else [])
    decreases |order|
  {
    var all, dues, times := order + [id], due + [t], readings + [reading];
    if order == [] {
      assert all[1..] == [] && dues[1..] == [] && times[1..] == [];
    } else {
      assert all[1..] == order[1..] + [id] && dues[1..] == due[1..] + [t] && times[1..] == readings[1..] + [reading];
      QueueOfExtension(certificates, order[1..], due[1..], readings[1..], id, t, reading);
    }
  }

  lemma QueueStep(certificates: Certificates, order: seq<Uuid>, due: seq<Time>, readings: seq<Reading>)
    requires |order| == |due| == |readings| > 0 && forall id :: id in order ==> id in certificates
    requires certificates[order[|order| - 1]].id == order[|order| - 1]
    requires due[|order| - 1] <= readings[|order| - 1].at
    ensures var n := |order| - 1;
            var flag := Approaching(certificates[order[n]], due[n]);
      && RenewalQueue(certificates, order, due, readings)
         == RenewalQueue(certificates, order[..n], due[..n], readings[..n])
            + (if flag then [ItemAt(certificates, order, readings, n)] else [])
      && DueIds(certificates, order, due)
         == DueIds(certificates, order[..n], due[..n]) + (if flag then [order[n]] else [])
  {
    var n := |order| - 1;
    var id, m := order[n], certificates[order[n]];
    QueueOfExtension(certificates, order[..n], due[..n], readings[..n], id, due[n], readings[n]);
    assert order[..n] + [id] == order && due[..n] + [due[n]] == due && readings[..n] + [readings[n]] == readings;
    DueIsApproaching(m, due[n]);
    if RenewalDue(m, due[n]) {
      DueMakesAnItem(m, due[n], readings[n]);
    }
  }

  lemma FlagsStep(certificates: Certificates, order: seq<Uuid>, due: seq<Time>)
    requires |order| == |due| > 0 && forall id :: id in order ==> id in certificates
    ensures var n := |order| - 1;
            Flagged(DueFlags(certificates, order, due))
            == Flagged(DueFlags(certificates, order[..n], due[..n]))
               + (if Approaching(certificates[order[n]], due[n]) then [n] else [])
  {
    var n := |order| - 1;
    assert DueFlags(certificates, order, due)[..n] == DueFlags(certificates, order[..n], due[..n]);
  }

  /** The items and the ids for these positions. */
  predicate ForPositions(certificates: Certificates, order: seq<Uuid>, readings: seq<Reading>, at: seq<nat>,
                         queue: seq<WorkItem>, ids: seq<Uuid>)
    requires |order| == |readings| && forall id :: id in order ==> id in certificates
  {
    && |queue| == |ids| == |at|
    && forall i :: 0 <= i < |at| ==>
         && at[i] < |order| && ids[i] == order[at[i]]
         && queue[i] == ItemAt(certificates, order, readings, at[i])
  }

  lemma PositionsExtend(certificates: Certificates, order: seq<Uuid>, readings: seq<Reading>, at: seq<nat>,
                        queue: seq<WorkItem>, ids: seq<Uuid>, n: nat)
    requires n < |order| == |readings| && forall id :: id in order ==> id in certificates
    requires ForPositions(certificates, order[..n], readings[..n], at, queue, ids)
    ensures ForPositions(certificates, order, readings, at, queue, ids)
  {
    forall i | 0 <= i < |at| ensures queue[i] == ItemAt(certificates, order, readings, at[i]) {
      assert order[..n][at[i]] == order[at[i]] && readings[..n][at[i]] == readings[at[i]];
    }
  }

  /** Under a clock that never runs backwards the queue has exactly one item for each
      certificate that was due, in listing order, always a first attempt at Renew with that
      certificate's identity, dated when it was queued: the second filter drops nothing and
      Revoke never appears. */
  lemma {:induction false} QueueHoldsExactlyTheDue(certificates: Certificates, order: seq<Uuid>, due: seq<Time>,
                                                   readings: seq<Reading>)
    requires |order| == |due| == |readings| && forall id :: id in order ==> id in certificates
    requires forall id :: id in certificates ==> certificates[id].id == id
    requires forall k :: 0 <= k < |order| ==> due[k] <= readings[k].at
    ensures ForPositions(certificates, order, readings, Flagged(DueFlags(certificates, order, due)),
                         RenewalQueue(certificates, order, due, readings), DueIds(certificates, order, due))
    decreases |order|
  {
    if order == [] {
    } else {
      var n := |order| - 1;
      QueueHoldsExactlyTheDue(certificates, order[..n], due[..n], readings[..n]);
      PositionsExtend(certificates, order, readings, Flagged(DueFlags(certificates, order[..n], due[..n])),
                      RenewalQueue(certificates, order[..n], due[..n], readings[..n]),
                      DueIds(certificates, order[..n], due[..n]), n);
      QueueStep(certificates, order, due, readings);
      FlagsStep(certificates, order, due);
    }
  }

  /** What the filter makes of each state. */
  lemma RenewalActionTable(m: Metadata, now: Time)
    ensures RenewalActionOf(m, now) ==
      match m.state
      case Active => if Approaching(m, now) then Renew else NoAction
      case Expiring => Renew
      case RenewalPending => Renew
      case Renewed => NoAction
      case Revoked => RenewalAction.Revoke
      case Expired => RenewalAction.Revoke
  {
    RenewalDueExactly(m, now);
  }

  /** A listing without repetition gives each certificate at most one item. */
  lemma {:induction false} DueIdsAreDistinct(certificates: Certificates, order: seq<Uuid>, due: seq<Time>)
    requires |order| == |due| && (forall id :: id in order ==> id in certificates) && NoRepeats(order)
    ensures NoRepeats(DueIds(certificates, order, due))
    ensures forall id :: id in DueIds(certificates, order, due) <==>
              exists k :: 0 <= k < |order| && order[k] == id && Approaching(certificates[id], due[k])
    decreases |order|
  {
    if order == [] {
    } else {
      var ids, rest := DueIds(certificates, order, due), DueIds(certificates, order[1..], due[1..]);
      DueIdsAreDistinct(certificates, order[1..], due[1..]);
      assert ids != rest ==> ids[1..] == rest;
      forall id | id in rest
        ensures exists k :: 0 <= k < |order| && order[k] == id && Approaching(certificates[id], due[k])
      {
        var k :| 0 <= k < |order[1..]| && order[1..][k] == id && Approaching(certificates[id], due[1..][k]);
        assert order[k + 1] == id;
      }
      RenewalDueExactly(certificates[order[0]], due[0]);
      forall k | 0 < k < |order| && Approaching(certificates[order[k]], due[k])
        ensures order[k] in rest
      {
        assert order[1..][k - 1] == order[k] && due[1..][k - 1] == due[k];
      }
    }
  }

  // ----------------------------------------------------------- replacement requests

  /** The request rebuilt from a certificate's identity. */
  function RequestOf(identity: CertificateIdentity): CertificateRequest {
    CertificateRequest(
      if identity.commonName.Some? then identity.commonName.value else "",
      identity.dnsNames, identity.ipAddresses, identity.clientAuth, identity.serverAuth)
  }

  /** A replacement issued for a work item identifies the same party: names, addresses,
      usages and, unless it was blank, the common name. */
  lemma ReplacementKeepsIdentity(ca: Authority, identity: CertificateIdentity, validity: CertificateValidity,
                                 crypto: Crypto)
    requires IssuedCertificate(ca, RequestOf(identity), validity, crypto).Ok?
    ensures var params := IssuedCertificate(ca, RequestOf(identity), validity, crypto).value.contents.params;
      && DnsNamesOf(params.sans) == identity.dnsNames
      && IpAddressesOf(params.sans) == identity.ipAddresses
      && (ServerAuth in params.extendedKeyUsages <==> identity.serverAuth)
      && (ClientAuth in params.extendedKeyUsages <==> identity.clientAuth)
      && (identity.commonName.Some? && !BlankName(identity.commonName.value) ==>
            params.subject.commonName == identity.commonName)
      && (identity.commonName.None? ==> params.subject.commonName == None)
  {
    IssuedCertificateTellsItsRequest(ca, RequestOf(identity), validity, crypto);
  }

  class RenewalWorkItem {
    var certificateId: Uuid
    var action: RenewalAction
    var attempts: nat
    var queuedAt: Time
    var identity: CertificateIdentity

    function View(): WorkItem
      reads this
    {
      WorkItem(certificateId, action, attempts, queuedAt, identity)
    }

    constructor (item: WorkItem)
      ensures View() == item
    {
      certificateId, action, attempts := item.certificateId, item.action, item.attempts;
      queuedAt, identity := item.queuedAt, item.identity;
    }

    /** The counter saturates at the largest u32. */
    method MarkAttempt()
      requires attempts <= U32_MAX
      modifies this
      ensures View() == old(View()).(
                          attempts := if old(attempts) == 4_294_967_295 then 4_294_967_295 else old(attempts) + 1)
    {
      if attempts < U32_MAX {
        attempts := attempts + 1;
      }
    }

    method BuildRequest() returns (request: CertificateRequest)
      ensures request == RequestOf(identity)
    {
      request := NewRequest(if identity.commonName.Some? then identity.commonName.value else "");
      var i := 0;
      while i < |identity.dnsNames|
        invariant i <= |identity.dnsNames|
        invariant request == NewRequest(request.commonName).(dnsNames := identity.dnsNames[..i])
        invariant request.commonName == RequestOf(identity).commonName
      {
        request := request.WithDnsName(identity.dnsNames[i]);
        i := i + 1;
      }
      var j := 0;
      while j < |identity.ipAddresses|
        invariant j <= |identity.ipAddresses|
        invariant request == NewRequest(request.commonName).(
                    dnsNames := identity.dnsNames, ipAddresses := identity.ipAddresses[..j])
        invariant request.commonName == RequestOf(identity).commonName
      {
        request := request.WithIpAddress(identity.ipAddresses[j]);
        j := j + 1;
      }
      assert identity.ipAddresses[..j] == identity.ipAddresses;
      request := request.(clientAuth := identity.clientAuth);
      request := request.(serverAuth := identity.serverAuth);
    }
  }

  // ------------------------------------------------------------------- execution

  /** The attempt is counted before the issuer is asked, whatever the issuer answers. */
  method IssueReplacement(ca: Authority, item: RenewalWorkItem, validity: CertificateValidity, crypto: Crypto)
    returns (r: Result<Certificate, IssuanceError>)
    requires item.attempts <= U32_MAX
    modifies item
    ensures item.View() == old(item.View()).(attempts := item.attempts)
    ensures old(item.action) != Renew ==>
              && r == Err(Policy("renewal work item does not require certificate renewal"))
              && item.attempts == old(item.attempts)
    ensures old(item.action) == Renew ==>
              && r == IssuedCertificate(ca, RequestOf(old(item.identity)), validity, crypto)
              && item.attempts == (if old(item.attempts) == 4_294_967_295 then 4_294_967_295
                                   else old(item.attempts) + 1)
  {
    if item.action != Renew {
      return Err(Policy("renewal work item does not require certificate renewal"));
    }
    item.MarkAttempt();
    var request := item.BuildRequest();
    r := IssueCertificate(ca, request, validity, crypto);
  }

  /** How the executor reports an inventory error. */
  function AsLifecycleError(error: InventoryError): LifecycleError {
    match error
    case Lifecycle(cause) => cause
    case _ => InvalidTransition(Active, Renewed)
  }

  method RenewIntoInventory(inventory: CertificateInventory, replacement: CertificateMetadata, item: RenewalWorkItem,
                            stamp: Time)
    returns (r: Result<Uuid, LifecycleError>)
    requires inventory.Owned() && replacement !in inventory.certificates.Values
    modifies inventory, inventory.certificates.Values, replacement
    ensures inventory.Owned()
    ensures item.action != Renew ==>
              r == Err(InvalidTransition(Active, Active)) && inventory.View() == old(inventory.View())
    ensures item.action == Renew ==>
              var (registered, after) := AfterRegisterRenewal(old(inventory.View()), item.certificateId,
                                                              old(replacement.View()), stamp);
              && inventory.View() == after
              && r == (match registered
                       case Ok(id) => Ok(id)
                       case Err(Lifecycle(cause)) => Err(cause)
                       case Err(_) => Err(InvalidTransition(Active, Renewed)))
  {
    if item.action != Renew {
      return Err(InvalidTransition(Active, Active));
    }
    var registered := inventory.RegisterRenewal(item.certificateId, replacement, stamp);
    match registered {
      case Ok(id) => return Ok(id);
      case Err(e) => return Err(AsLifecycleError(e));
    }
  }

  /** What the queue promises and what registration accepts do not meet: an item queued from
      an Active or Expiring certificate is refused, because nothing has moved its
      certificate to RenewalPending. */
  lemma QueuedRenewalIsRefused(inv: Snapshot, item: WorkItem, replacement: Metadata, stamp: Time)
    requires InventoryRuns.Indexed(inv) && item.certificateId in inv.certificates
    requires inv.certificates[item.certificateId].state in {Active, Expiring}
    ensures AfterRegisterRenewal(inv, item.certificateId, replacement, stamp)
         == (Err(InventoryError.Lifecycle(
               InvalidTransition(inv.certificates[item.certificateId].state, Renewed))), inv)
  {
  }
}
