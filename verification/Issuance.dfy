/** The issuance service: authorization, service policy, core policy, certificate, store
    record and audit event, with every way out of the pipeline. */
module Issuance {
  import opened Wrappers
  import opened Codec
  import opened Lifecycle
  import opened Validity
  import opened Issuer
  import Store
  import Crl

  // --------------------------------------------------------------------- audit

  datatype AuditEventType = CertificateIssued | AuthorizationDenied | PolicyDenied

  datatype AuditOutcome = Success | Denied | Failure

  datatype AuditEvent = AuditEvent(
    id: Uuid,
    timestamp: Time,
    eventType: AuditEventType,
    outcome: AuditOutcome,
    principalId: Uuid,
    principalName: string,
    commonName: Option<string>,
    reason: Option<string>)

  class AuditStore {
    var events: seq<AuditEvent>

    constructor ()
      ensures events == []
    {
      events := [];
    }

    method Record(event: AuditEvent)
      modifies this
      ensures events == old(events) + [event]
    {
      events := events + [event];
    }
  }

  // ------------------------------------------------------------------- requests

  datatype AuthenticatedPrincipal = AuthenticatedPrincipal(id: Uuid, name: string, roles: seq<string>)

  const ISSUE_ROLE := "certificate:issue"

  datatype IssuancePolicy = IssuancePolicy(
    maxDnsNames: nat,
    maxIpAddresses: nat,
    maxCommonNameLength: nat,
    requireServerAuth: bool,
    requireClientAuth: bool)

  const DEFAULT_POLICY := IssuancePolicy(100, 100, 253, false, false)

  datatype IssueCertificateRequest = IssueCertificateRequest(
    commonName: string,
    dnsNames: seq<string>,
    ipAddresses: seq<string>,
    clientAuth: bool,
    serverAuth: bool)

  /** The service policy: Ok, or why the request is refused. */
  function CheckPolicy(policy: IssuancePolicy, request: IssueCertificateRequest): Result<(), string> {
    if IsBlank(request.commonName) then Err("common name cannot be empty")
    else if ByteLength(request.commonName) > policy.maxCommonNameLength then Err("common name exceeds policy limit")
    else if |request.dnsNames| > policy.maxDnsNames then Err("too many DNS names")
    else if |request.ipAddresses| > policy.maxIpAddresses then Err("too many IP addresses")
    else if request.dnsNames == [] && request.ipAddresses == [] then
      Err("certificate must contain at least one SAN identity")
    else if !request.clientAuth && !request.serverAuth then Err("at least one extended key usage is required")
    else if policy.requireServerAuth && !request.serverAuth then Err("server authentication is required by policy")
    else if policy.requireClientAuth && !request.clientAuth then Err("client authentication is required by policy")
    else Ok(())
  }

  /** The limits of the service policy, in the order in which they are reported. */
  predicate KeepsLimit(policy: IssuancePolicy, request: IssueCertificateRequest, k: nat) {
    match k
    case 0 => !BlankName(request.commonName)
    case 1 => ByteLength(request.commonName) <= policy.maxCommonNameLength
    case 2 => |request.dnsNames| <= policy.maxDnsNames
    case 3 => |request.ipAddresses| <= policy.maxIpAddresses
    case 4 => request.dnsNames != [] || request.ipAddresses != []
    case 5 => request.clientAuth || request.serverAuth
    case 6 => policy.requireServerAuth ==> request.serverAuth
    case 7 => policy.requireClientAuth ==> request.clientAuth
    case _ => true
  }

  const LIMIT_MESSAGES: seq<string> := [
    "common name cannot be empty",
    "common name exceeds policy limit",
    "too many DNS names",
    "too many IP addresses",
    "certificate must contain at least one SAN identity",
    "at least one extended key usage is required",
    "server authentication is required by policy",
    "client authentication is required by policy"]

  /** A request is let through exactly when it keeps every limit; otherwise the first one it does
      not keep is reported. */
  lemma ServicePolicyExactly(policy: IssuancePolicy, request: IssueCertificateRequest)
    ensures CheckPolicy(policy, request).Ok? <==> forall k :: 0 <= k < 8 ==> KeepsLimit(policy, request, k)
    ensures CheckPolicy(policy, request).Err? ==>
      exists k :: 0 <= k < 8 && !KeepsLimit(policy, request, k)
        && CheckPolicy(policy, request).error == LIMIT_MESSAGES[k]
        && forall j :: 0 <= j < k ==> KeepsLimit(policy, request, j)
  {
    BlankExactly(request.commonName);
    var k := if !KeepsLimit(policy, request, 0) then 0 else if !KeepsLimit(policy, request, 1) then 1
             else if !KeepsLimit(policy, request, 2) then 2 else if !KeepsLimit(policy, request, 3) then 3
             else if !KeepsLimit(policy, request, 4) then 4 else if !KeepsLimit(policy, request, 5) then 5
             else if !KeepsLimit(policy, request, 6) then 6 else 7;
    assert CheckPolicy(policy, request).Err? ==>
      !KeepsLimit(policy, request, k) && CheckPolicy(policy, request).error == LIMIT_MESSAGES[k];
  }

  /** Addresses are parsed in request order; the first that fails is reported. */
  function ParseAddresses(parse: string -> Option<IpAddr>, texts: seq<string>): Result<seq<IpAddr>, string> {
    if texts == [] then Ok([])
    else
      match ParseAddresses(parse, texts[..|texts| - 1])
      case Err(text) => Err(text)
      case Ok(addresses) =>
        match parse(texts[|texts| - 1])
        case None => Err(texts[|texts| - 1])
        case Some(address) => Ok(addresses + [address])
  }

  function CoreRequest(request: IssueCertificateRequest, addresses: seq<IpAddr>): CertificateRequest {
    CertificateRequest(request.commonName, request.dnsNames, addresses, request.clientAuth, request.serverAuth)
  }

  // ---------------------------------------------------------------- policy refinement

  lemma {:induction false} ParsedAddressesMatchTexts(parse: string -> Option<IpAddr>, texts: seq<string>)
    ensures ParseAddresses(parse, texts).Ok? <==> forall i :: 0 <= i < |texts| ==> parse(texts[i]).Some?
    ensures ParseAddresses(parse, texts).Ok? ==>
              && |ParseAddresses(parse, texts).value| == |texts|
              && forall i :: 0 <= i < |texts| ==> parse(texts[i]) == Some(ParseAddresses(parse, texts).value[i])
  {
    if texts != [] {
      ParsedAddressesMatchTexts(parse, texts[..|texts| - 1]);
    }
  }

  /** The limits under which the service policy can only be stricter than the core policy. A
      policy that allows no common name, or no subject alternative name, refuses everything. */
  predicate WithinCoreLimits(policy: IssuancePolicy) {
    || policy.maxCommonNameLength == 0
    || (policy.maxDnsNames == 0 && policy.maxIpAddresses == 0)
    || (policy.maxCommonNameLength <= 253 && policy.maxDnsNames <= 100 && policy.maxIpAddresses <= 100)
  }

  /** Every request the policy lets through, once its addresses parse, passes the core. */
  ghost predicate Refines(policy: IssuancePolicy, parse: string -> Option<IpAddr>) {
    forall request :: CheckPolicy(policy, request).Ok? && ParseAddresses(parse, request.ipAddresses).Ok? ==>
      ValidateRequest(CoreRequest(request, ParseAddresses(parse, request.ipAddresses).value)).Ok?
  }

  lemma {:induction false} ByteLengthOfAscii(n: nat)
    ensures ByteLength(seq(n, _ => 'a')) == n
  {
    var s := seq(n, _ => 'a');
    if n > 0 {
      assert s[1..] == seq(n - 1, _ => 'a');
      ByteLengthOfAscii(n - 1);
    }
  }

  lemma AsciiIsNotBlank(n: nat)
    requires n > 0
    ensures !IsBlank(seq(n, _ => 'a'))
  {
    TrimKeepsSolidText(seq(n, _ => 'a'));
  }

  lemma CounterexampleToRefinement(policy: IssuancePolicy, parse: string -> Option<IpAddr>,
                                   request: IssueCertificateRequest)
    requires CheckPolicy(policy, request).Ok?
    requires forall i :: 0 <= i < |request.ipAddresses| ==> parse(request.ipAddresses[i]).Some?
    requires ByteLength(request.commonName) > MAX_COMMON_NAME
             || |request.dnsNames| > MAX_DNS_NAMES || |request.ipAddresses| > MAX_IP_ADDRESSES
    ensures !Refines(policy, parse)
  {
    ParsedAddressesMatchTexts(parse, request.ipAddresses);
    var addresses := ParseAddresses(parse, request.ipAddresses).value;
    assert ValidateRequest(CoreRequest(request, addresses)).Err?;
  }

  lemma WideLimitsLetTooMuchThrough(policy: IssuancePolicy, parse: string -> Option<IpAddr>, address: string)
    requires !WithinCoreLimits(policy) && parse(address).Some?
    ensures !Refines(policy, parse)
  {
    var long, short := seq(MAX_COMMON_NAME + 1, _ => 'a'), seq(1, _ => 'a');
    ByteLengthOfAscii(MAX_COMMON_NAME + 1);
    AsciiIsNotBlank(MAX_COMMON_NAME + 1);
    ByteLengthOfAscii(1);
    AsciiIsNotBlank(1);
    var request :=
      if policy.maxCommonNameLength > MAX_COMMON_NAME && policy.maxDnsNames > 0 then
        IssueCertificateRequest(long, ["a"], [], true, true)
      else if policy.maxCommonNameLength > MAX_COMMON_NAME then
        IssueCertificateRequest(long, [], [address], true, true)
      else if policy.maxDnsNames > MAX_DNS_NAMES then
        IssueCertificateRequest(short, seq(MAX_DNS_NAMES + 1, _ => "a"), [], true, true)
      else
        IssueCertificateRequest(short, [], seq(MAX_IP_ADDRESSES + 1, _ => address), true, true);
    CounterexampleToRefinement(policy, parse, request);
  }

  /** The service policy refines the core policy exactly when its limits stay within the
      core's; the default policy does. */
  lemma PolicyRefinesCoreExactly(policy: IssuancePolicy, parse: string -> Option<IpAddr>, address: string)
    requires parse(address).Some?
    ensures Refines(policy, parse) <==> WithinCoreLimits(policy)
    ensures WithinCoreLimits(DEFAULT_POLICY)
  {
    if WithinCoreLimits(policy) {
      forall request | CheckPolicy(policy, request).Ok? && ParseAddresses(parse, request.ipAddresses).Ok?
        ensures ValidateRequest(CoreRequest(request, ParseAddresses(parse, request.ipAddresses).value)).Ok?
      {
        ByteLengthAtLeastLength(request.commonName);
        ParsedAddressesMatchTexts(parse, request.ipAddresses);
      }
    } else {
      WideLimitsLetTooMuchThrough(policy, parse, address);
    }
  }

  /** The default service policy is the core policy for requests that have a common name and some
      subject alternative name. */
  lemma DefaultPolicyExactly(request: IssueCertificateRequest, addresses: seq<IpAddr>)
    requires |addresses| == |request.ipAddresses|
    ensures CheckPolicy(DEFAULT_POLICY, request).Ok? <==>
              && ValidateRequest(CoreRequest(request, addresses)).Ok?
              && !BlankName(request.commonName) && (request.dnsNames != [] || request.ipAddresses != [])
  {
    BlankExactly(request.commonName);
  }

  // ------------------------------------------------------------------- the pipeline

  /** Why an issued certificate is not in the store. */
  datatype StoreFailure = DoesNotReparse | NotPersisted(cause: Store.StoreError)

  datatype IssuanceServiceError =
    | CertificateStoreFailure(failure: StoreFailure)
    | Unauthorized
    | InvalidRequest(message: string)
    | IssuerRefused(cause: IssuanceError)

  datatype IssueCertificateResponse =
    IssueCertificateResponse(certificate: Certificate, request: IssueCertificateRequest)

  const ISSUER_NAME := "Daemon PKI Intermediate CA"

  /** What one call meets outside the service: address parsing, the library, whether the new
      certificate parses, the fresh record and event ids, the clock, and where persisting fails. */
  datatype Surroundings = Surroundings(
    parse: string -> Option<IpAddr>,
    validity: CertificateValidity,
    crypto: Crypto,
    reparses: bool,
    freshId: Uuid,
    issuedAt: Time,
    fault: Store.PersistFault,
    eventId: Uuid,
    eventAt: Time)

  function EventFor(kind: AuditEventType, outcome: AuditOutcome, principal: AuthenticatedPrincipal,
                    request: IssueCertificateRequest, around: Surroundings, reason: Option<string>): AuditEvent
  {
    AuditEvent(around.eventId, around.eventAt, kind, outcome, principal.id, principal.name,
               if request.commonName == "" then None else Some(request.commonName), reason)
  }

  function Describe(e: IssuanceError): string {
    match e
    case CertificateFailure(detail) => "certificate generation failed: " + detail
    case Policy(message) => "certificate request rejected: " + message
  }

  function RecordFor(request: IssueCertificateRequest, certificate: Certificate, around: Surroundings)
    : Store.CertificateRecord
  {
    Store.CertificateRecord(
      around.freshId, StoredSerial(certificate.contents.serial), request.commonName, request.dnsNames,
      request.ipAddresses, request.clientAuth, request.serverAuth, ISSUER_NAME, around.issuedAt,
      Some(certificate.contents.params.validity.notAfter), false, None, None)
  }

  /** The record of an issued certificate: under the fresh id, with its serial number and end
      date, everything the request asked for, and not revoked. */
  lemma RecordExactly(request: IssueCertificateRequest, leaf: Certificate, around: Surroundings)
    ensures var record := RecordFor(request, leaf, around);
      && record.id == around.freshId && record.issuedAt == around.issuedAt
      && record.serialNumber == HexPrint(ToBytesBe(leaf.contents.serial))
      && record.notAfter == Some(leaf.contents.params.validity.notAfter)
      && record.issuer == "Daemon PKI Intermediate CA" && record.commonName == request.commonName
      && record.dnsNames == request.dnsNames && record.ipAddresses == request.ipAddresses
      && record.clientAuth == request.clientAuth && record.serverAuth == request.serverAuth
      && !record.revoked && record.revokedAt == None && record.revocationReason == None
  {
  }

  /** Where a call leaves the pipeline. */
  datatype Exit =
    | Refused(event: AuditEvent, error: IssuanceServiceError)  // audited, nothing stored
    | Unparsable                                               // not audited, nothing stored
    | Unstored(record: Store.CertificateRecord,                // not audited, in memory only
               cause: Store.StoreError)
    | Issued(record: Store.CertificateRecord, response: IssueCertificateResponse, event: AuditEvent)

  function Decide(policy: IssuancePolicy, principal: AuthenticatedPrincipal, ca: Authority,
                  request: IssueCertificateRequest, around: Surroundings): Exit
  {
    if ISSUE_ROLE !in principal.roles then
      Refused(EventFor(AuthorizationDenied, Denied, principal, request, around,
                       Some("caller is not authorized to issue certificates")), Unauthorized)
    else
      match CheckPolicy(policy, request)
      case Err(message) =>
        Refused(EventFor(PolicyDenied, Denied, principal, request, around,
                         Some("certificate request is invalid: " + message)), InvalidRequest(message))
      case Ok(_) =>
      match ParseAddresses(around.parse, request.ipAddresses)
      case Err(text) =>
        Refused(EventFor(PolicyDenied, Denied, principal, request, around, Some("invalid IP address: " + text)),
                InvalidRequest("invalid IP address: " + text))
      case Ok(addresses) =>
      match IssuedCertificate(ca, CoreRequest(request, addresses), around.validity, around.crypto)
      case Err(e) =>
        Refused(EventFor(CertificateIssued, Failure, principal, request, around, Some(Describe(e))), IssuerRefused(e))
      case Ok(certificate) =>
        if !around.reparses then Unparsable
        else if !around.fault.NoFault? then Unstored(RecordFor(request, certificate, around), around.fault.Error())
        else Issued(RecordFor(request, certificate, around), IssueCertificateResponse(certificate, request),
                    EventFor(CertificateIssued, Success, principal, request, around, None))
  }

  function ResultOf(exit: Exit): Result<IssueCertificateResponse, IssuanceServiceError> {
    match exit
    case Refused(_, error) => Err(error)
    case Unparsable => Err(CertificateStoreFailure(DoesNotReparse))
    case Unstored(_, cause) => Err(CertificateStoreFailure(NotPersisted(cause)))
    case Issued(_, response, _) => Ok(response)
  }

  /** The audit log and the store in memory. */
  datatype Books = Books(events: seq<AuditEvent>, records: Store.Records)

  function Booked(books: Books, exit: Exit): Books {
    match exit
    case Refused(event, _) => books.(events := books.events + [event])
    case Unparsable => books
    case Unstored(record, _) => books.(records := books.records[record.id := record])
    case Issued(record, _, event) => Books(books.events + [event], books.records[record.id := record])
  }

  class IssuanceService {
    const policy: IssuancePolicy
    const audit: AuditStore
    const store: Store.CertificateStore

    constructor (policy: IssuancePolicy, audit: AuditStore, store: Store.CertificateStore)
      ensures this.policy == policy && this.audit == audit && this.store == store
    {
      this.policy, this.audit, this.store := policy, audit, store;
    }

    function View(): Books
      reads audit, store
    {
      Books(audit.events, store.records)
    }

    /** Builds the core request; `None` after reporting an address that does not parse. */
    method BuildRequest(principal: AuthenticatedPrincipal, request: IssueCertificateRequest, around: Surroundings)
      returns (r: Result<CertificateRequest, IssuanceServiceError>)
      modifies audit
      ensures match ParseAddresses(around.parse, request.ipAddresses)
        case Ok(addresses) => r == Ok(CoreRequest(request, addresses)) && audit.events == old(audit.events)
        case Err(text) =>
          var reason := "invalid IP address: " + text;
          && r == Err(InvalidRequest(reason))
          && audit.events == old(audit.events)
               + [EventFor(PolicyDenied, Denied, principal, request, around, Some(reason))]
    {
      var built := NewRequest(request.commonName);
      var i := 0;
      while i < |request.dnsNames|
        invariant i <= |request.dnsNames|
        invariant built == NewRequest(request.commonName).(dnsNames := request.dnsNames[..i])
      {
        built := built.WithDnsName(request.dnsNames[i]);
        i := i + 1;
      }
      assert request.dnsNames[..i] == request.dnsNames;
      var j := 0;
      while j < |request.ipAddresses|
        invariant j <= |request.ipAddresses|
        invariant ParseAddresses(around.parse, request.ipAddresses[..j]) == Ok(built.ipAddresses)
        invariant built == NewRequest(request.commonName).(
                             dnsNames := request.dnsNames, ipAddresses := built.ipAddresses)
        invariant audit.events == old(audit.events)
      {
        assert request.ipAddresses[..j + 1][..j] == request.ipAddresses[..j];
        var parsed := around.parse(request.ipAddresses[j]);
        if parsed.None? {
          FirstFailureIsReported(around.parse, request.ipAddresses, j);
          var reason := "invalid IP address: " + request.ipAddresses[j];
          audit.Record(EventFor(PolicyDenied, Denied, principal, request, around, Some(reason)));
          return Err(InvalidRequest(reason));
        }
        built := built.WithIpAddress(parsed.value);
        j := j + 1;
      }
      assert request.ipAddresses[..j] == request.ipAddresses;
      built := built.(clientAuth := request.clientAuth);
      built := built.(serverAuth := request.serverAuth);
      return Ok(built);
    }

    method Issue(principal: AuthenticatedPrincipal, ca: Authority, request: IssueCertificateRequest,
                 around: Surroundings)
      returns (r: Result<IssueCertificateResponse, IssuanceServiceError>)
      modifies audit, store
      ensures r == ResultOf(Decide(policy, principal, ca, request, around))
      ensures View() == Booked(old(View()), Decide(policy, principal, ca, request, around))
      ensures store.disk == if r.Ok? then Some(store.records) else old(store.disk)
    {
      if ISSUE_ROLE !in principal.roles {
        audit.Record(EventFor(AuthorizationDenied, Denied, principal, request, around,
                              Some("caller is not authorized to issue certificates")));
        return Err(Unauthorized);
      }
      var checked := CheckPolicy(policy, request);
      if checked.Err? {
        audit.Record(EventFor(PolicyDenied, Denied, principal, request, around,
                              Some("certificate request is invalid: " + checked.error)));
        return Err(InvalidRequest(checked.error));
      }
      var built := BuildRequest(principal, request, around);
      if built.Err? {
        return Err(built.error);
      }
      var issued := IssueCertificate(ca, built.value, around.validity, around.crypto);
      if issued.Err? {
        audit.Record(EventFor(CertificateIssued, Failure, principal, request, around, Some(Describe(issued.error))));
        return Err(IssuerRefused(issued.error));
      }
      if !around.reparses {
        return Err(CertificateStoreFailure(DoesNotReparse));
      }
      var stored := store.Insert(RecordFor(request, issued.value, around), around.fault);
      if stored.Err? {
        return Err(CertificateStoreFailure(NotPersisted(stored.error)));
      }
      audit.Record(EventFor(CertificateIssued, Success, principal, request, around, None));
      return Ok(IssueCertificateResponse(issued.value, request));
    }
  }

  lemma {:induction false} FirstFailureIsReported(parse: string -> Option<IpAddr>, texts: seq<string>, j: nat)
    requires j < |texts| && ParseAddresses(parse, texts[..j]).Ok? && parse(texts[j]).None?
    ensures ParseAddresses(parse, texts) == Err(texts[j])
    decreases |texts|
  {
    if j == |texts| - 1 {
    } else {
      assert texts[..|texts| - 1][..j] == texts[..j];
      FirstFailureIsReported(parse, texts[..|texts| - 1], j);
    }
  }

  // -------------------------------------------------------------- over a run of calls

  datatype Request = Request(
    principal: AuthenticatedPrincipal, ca: Authority, request: IssueCertificateRequest, around: Surroundings)

  function ExitOf(policy: IssuancePolicy, call: Request): Exit {
    Decide(policy, call.principal, call.ca, call.request, call.around)
  }

  function RunCalls(policy: IssuancePolicy, books: Books, calls: seq<Request>): Books {
    if calls == [] then books
    else Booked(RunCalls(policy, books, calls[..|calls| - 1]), ExitOf(policy, calls[|calls| - 1]))
  }

  /** Record ids are fresh: not in the store, and no two calls get the same one. */
  predicate FreshIds(records: Store.Records, calls: seq<Request>) {
    calls == [] ||
    (var last := calls[|calls| - 1].around.freshId;
     && last !in records
     && (forall i :: 0 <= i < |calls| - 1 ==> calls[i].around.freshId != last)
     && FreshIds(records, calls[..|calls| - 1]))
  }

  /** How many calls were answered Ok, refused, lost without an audit event, and stored in
      memory although answered with an error. */
  datatype Account = Account(ok: nat, refused: nat, unparsable: nat, unstored: nat)

  function Accounted(policy: IssuancePolicy, calls: seq<Request>): Account {
    if calls == [] then Account(0, 0, 0, 0)
    else
      var before := Accounted(policy, calls[..|calls| - 1]);
      match ExitOf(policy, calls[|calls| - 1])
      case Refused(_, _) => before.(refused := before.refused + 1)
      case Unparsable => before.(unparsable := before.unparsable + 1)
      case Unstored(_, _) => before.(unstored := before.unstored + 1)
      case Issued(_, _, _) => before.(ok := before.ok + 1)
  }

  function Successes(events: seq<AuditEvent>): nat {
    if events == [] then 0
    else Successes(events[..|events| - 1]) + (if events[|events| - 1].outcome == Success then 1 else 0)
  }

  lemma SuccessesOfExtension(events: seq<AuditEvent>, event: AuditEvent)
    ensures Successes(events + [event]) == Successes(events) + (if event.outcome == Success then 1 else 0)
  {
    assert (events + [event])[..|events|] == events;
  }

  lemma {:induction false} StoredIdsAreOldOrIssued(policy: IssuancePolicy, books: Books, calls: seq<Request>, id: Uuid)
    requires id !in books.records && forall i :: 0 <= i < |calls| ==> calls[i].around.freshId != id
    ensures id !in RunCalls(policy, books, calls).records
  {
    if calls != [] {
      StoredIdsAreOldOrIssued(policy, books, calls[..|calls| - 1], id);
    }
  }

  lemma ExitOfACall(policy: IssuancePolicy, call: Request)
    ensures var exit := ExitOf(policy, call);
      && (exit.Refused? ==> exit.event.outcome != Success)
      && (exit.Issued? ==> exit.event.outcome == Success)
      && (exit.Unstored? || exit.Issued? ==> exit.record.id == call.around.freshId)
  {
  }

  /** What booking one exit adds. */
  lemma BookedAdds(books: Books, exit: Exit)
    requires exit.Refused? ==> exit.event.outcome != Success
    requires exit.Issued? ==> exit.event.outcome == Success
    requires exit.Unstored? || exit.Issued? ==> exit.record.id !in books.records
    ensures var after := Booked(books, exit);
      && books.events <= after.events
      && |after.events| == |books.events| + (if exit.Refused? || exit.Issued? then 1 else 0)
      && Successes(after.events) == Successes(books.events) + (if exit.Issued? then 1 else 0)
      && |after.records| == |books.records| + (if exit.Unstored? || exit.Issued? then 1 else 0)
  {
    if exit.Refused? || exit.Issued? {
      SuccessesOfExtension(books.events, exit.event);
    }
  }

  /** Audit conservation over every run of calls: the log only grows, every call leaves
      exactly one event except those lost after signing, Success events are exactly the Ok
      answers, and the store grows by the Ok answers plus the calls that failed to persist. */
  lemma {:induction false} AuditConservation(policy: IssuancePolicy, books: Books, calls: seq<Request>)
    requires FreshIds(books.records, calls)
    ensures var after, account := RunCalls(policy, books, calls), Accounted(policy, calls);
      && books.events <= after.events
      && account.ok + account.refused + account.unparsable + account.unstored == |calls|
      && |after.events| == |books.events| + |calls| - account.unparsable - account.unstored
      && Successes(after.events) == Successes(books.events) + account.ok
      && |after.records| == |books.records| + account.ok + account.unstored
  {
    if calls == [] {
    } else {
      var init, last := calls[..|calls| - 1], calls[|calls| - 1];
      AuditConservation(policy, books, init);
      StoredIdsAreOldOrIssued(policy, books, init, last.around.freshId);
      ExitOfACall(policy, last);
      BookedAdds(RunCalls(policy, books, init), ExitOf(policy, last));
    }
  }

  /** The event of a call tells its result: Success for Ok, Denied for a caller or request the
      service refused, Failure for one the issuer refused. */
  lemma EventTellsResult(policy: IssuancePolicy, call: Request)
    ensures var exit := ExitOf(policy, call);
      match ResultOf(exit)
      case Ok(response) =>
        exit.Issued? && exit.event.eventType == CertificateIssued && exit.event.outcome == Success
        && response.request == call.request
      case Err(CertificateStoreFailure(failure)) => if failure.DoesNotReparse? then exit.Unparsable? else exit.Unstored?
      case Err(Unauthorized) =>
        exit.Refused? && exit.event.eventType == AuthorizationDenied && exit.event.outcome == Denied
      case Err(InvalidRequest(_)) =>
        exit.Refused? && exit.event.eventType == PolicyDenied && exit.event.outcome == Denied
      case Err(IssuerRefused(_)) =>
        exit.Refused? && exit.event.eventType == CertificateIssued && exit.event.outcome == Failure
  {
  }

  /** The caller has the role, the request keeps the service policy, and its addresses parse. */
  predicate Allowed(policy: IssuancePolicy, call: Request) {
    && (exists i :: 0 <= i < |call.principal.roles| && call.principal.roles[i] == "certificate:issue")
    && CheckPolicy(policy, call.request).Ok?
    && ParseAddresses(call.around.parse, call.request.ipAddresses).Ok?
  }

  /** What the issuer answers to the request as it was made. */
  function Answer(call: Request): Result<Certificate, IssuanceError>
    requires ParseAddresses(call.around.parse, call.request.ipAddresses).Ok?
  {
    var request := call.request;
    IssuedCertificate(call.ca,
      CertificateRequest(request.commonName, request.dnsNames,
                         ParseAddresses(call.around.parse, request.ipAddresses).value,
                         request.clientAuth, request.serverAuth),
      call.around.validity, call.around.crypto)
  }

  /** Which calls are refused before the issuer is asked, and with which error. */
  lemma RefusedExactly(policy: IssuancePolicy, call: Request)
    ensures var exit, request := ExitOf(policy, call), call.request;
            var authorized := "certificate:issue" in call.principal.roles;
            var parsed := ParseAddresses(call.around.parse, request.ipAddresses);
      && (ResultOf(exit) == Err(Unauthorized) <==> !authorized)
      && (authorized && CheckPolicy(policy, request).Err? ==>
            ResultOf(exit) == Err(InvalidRequest(CheckPolicy(policy, request).error)))
      && (authorized && CheckPolicy(policy, request).Ok? && parsed.Err? ==>
            ResultOf(exit) == Err(InvalidRequest("invalid IP address: " + parsed.error)))
      && (!Allowed(policy, call) ==> exit.Refused?)
  {
  }

  /** Where an allowed call leaves the pipeline: refused by the issuer, lost because the
      certificate does not parse again, kept in memory only, or stored and answered. */
  lemma ExitExactly(policy: IssuancePolicy, call: Request)
    requires Allowed(policy, call)
    ensures ExitOf(policy, call).Refused? <==> Answer(call).Err?
    ensures Answer(call).Err? ==> ResultOf(ExitOf(policy, call)) == Err(IssuerRefused(Answer(call).error))
    ensures Answer(call).Ok? ==>
      var record := RecordFor(call.request, Answer(call).value, call.around);
      match ExitOf(policy, call)
      case Unparsable => !call.around.reparses
      case Unstored(written, cause) =>
        && call.around.reparses && !call.around.fault.NoFault? && written == record
        && cause == (if call.around.fault.WhileSerializing? then Store.Serialization else Store.Io)
      case Issued(written, response, _) =>
        && call.around.reparses && call.around.fault.NoFault? && written == record
        && response == IssueCertificateResponse(Answer(call).value, call.request)
      case Refused(_, _) => false
  {
  }

  /** Every audit event is this call's: a fresh id and the time, the caller's id and name, the
      common name asked for. */
  lemma EventNamesTheCall(policy: IssuancePolicy, call: Request)
    ensures var exit, request := ExitOf(policy, call), call.request;
      exit.Refused? || exit.Issued? ==>
        && exit.event.id == call.around.eventId && exit.event.timestamp == call.around.eventAt
        && exit.event.principalId == call.principal.id && exit.event.principalName == call.principal.name
        && exit.event.commonName == (if |request.commonName| == 0 then None else Some(request.commonName))
  {
  }

  /** The reason an error is audited with. */
  function ReasonFor(policy: IssuancePolicy, call: Request, error: IssuanceServiceError): string {
    match error
    case Unauthorized => "caller is not authorized to issue certificates"
    case InvalidRequest(message) =>
      if CheckPolicy(policy, call.request).Err? then "certificate request is invalid: " + message else message
    case IssuerRefused(Policy(message)) => "certificate request rejected: " + message
    case IssuerRefused(CertificateFailure(detail)) => "certificate generation failed: " + detail
    case CertificateStoreFailure(_) => ""
  }

  /** An audit event has a reason exactly when the call did not succeed, and the reason is the
      cause. */
  lemma EventNamesTheCause(policy: IssuancePolicy, call: Request)
    ensures var exit := ExitOf(policy, call);
      && (exit.Issued? ==> exit.event.reason == None)
      && (exit.Refused? ==> exit.event.reason == Some(ReasonFor(policy, call, exit.error)))
  {
  }

  /** What an exit leaves in the books: its event at the end of the log, its record under its own
      id, and everything else as it was. */
  lemma BookedExactly(books: Books, exit: Exit)
    ensures Booked(books, exit).events
         == (if exit.Refused? || exit.Issued? then books.events + [exit.event] else books.events)
    ensures Booked(books, exit).records
         == (if exit.Unstored? || exit.Issued? then books.records[exit.record.id := exit.record] else books.records)
  {
  }

  /** Whatever issuance writes, the revocation list can decode: serials in the store stay
      printed serial numbers. */
  lemma {:induction false} IssuanceKeepsSerialsDecodable(policy: IssuancePolicy, books: Books, calls: seq<Request>)
    requires Crl.AllIssuedHere(books.records)
    ensures Crl.AllIssuedHere(RunCalls(policy, books, calls).records)
  {
    if calls == [] {
    } else {
      IssuanceKeepsSerialsDecodable(policy, books, calls[..|calls| - 1]);
    }
  }

  /** What an Ok answer means: an authorized caller, a request within both policies, and a
      certificate that carries exactly the names, addresses and usages asked for, stored
      under the serial number it carries. */
  lemma OkAnswerMeansIssuedAsAsked(policy: IssuancePolicy, call: Request)
    requires ResultOf(ExitOf(policy, call)).Ok?
    ensures var exit, request := ExitOf(policy, call), call.request;
            var leaf := exit.response.certificate;
      && ISSUE_ROLE in call.principal.roles && CheckPolicy(policy, request).Ok?
      && leaf.VerifiesWith(call.ca.key) && !leaf.CarriesCa()
      && DnsNamesOf(leaf.contents.params.sans) == request.dnsNames
      && |IpAddressesOf(leaf.contents.params.sans)| == |request.ipAddresses|
      && (forall i :: 0 <= i < |request.ipAddresses| ==>
            call.around.parse(request.ipAddresses[i]) == Some(IpAddressesOf(leaf.contents.params.sans)[i]))
      && (ServerAuth in leaf.contents.params.extendedKeyUsages <==> request.serverAuth)
      && (ClientAuth in leaf.contents.params.extendedKeyUsages <==> request.clientAuth)
      && (policy.requireServerAuth ==> ServerAuth in leaf.contents.params.extendedKeyUsages)
      && (policy.requireClientAuth ==> ClientAuth in leaf.contents.params.extendedKeyUsages)
      && exit.record.id == call.around.freshId && !exit.record.revoked
      && HexToBytes(exit.record.serialNumber).Some?
      && Value(HexToBytes(exit.record.serialNumber).value) == leaf.contents.serial
  {
    var addresses := ParseAddresses(call.around.parse, call.request.ipAddresses).value;
    ParsedAddressesMatchTexts(call.around.parse, call.request.ipAddresses);
    var core := CoreRequest(call.request, addresses);
    IssuedCertificateTellsItsRequest(call.ca, core, call.around.validity, call.around.crypto);
    StoredSerialRoundTrip(ExitOf(policy, call).response.certificate.contents.serial);
  }
}
