/** The decisions of the HTTP interface: who may do what, which identifier a path names,
    and the sequence revoke, refresh, answer. */
module Http {
  import opened Wrappers
  import opened Codec
  import opened Issuer
  import opened Issuance
  import Store
  import Crl
  import Inventory

  /** Fingerprints allowed to issue certificates and to operate the store. */
  type AuthorizationPolicy = seq<string>

  predicate CanIssueCertificates(policy: AuthorizationPolicy, fingerprint: string) {
    fingerprint in policy
  }

  function RolesFor(policy: AuthorizationPolicy, fingerprint: string): seq<string> {
    if CanIssueCertificates(policy, fingerprint)
    then [ISSUE_ROLE, "certificate:read", "certificate:revoke"] else []
  }

  /** An allow-listed fingerprint gets the three roles of an operator, and any other none. */
  lemma RolesExactly(policy: AuthorizationPolicy, fingerprint: string)
    ensures CanIssueCertificates(policy, fingerprint) <==> exists i :: 0 <= i < |policy| && policy[i] == fingerprint
    ensures RolesFor(policy, fingerprint)
         == if fingerprint in policy then ["certificate:issue", "certificate:read", "certificate:revoke"] else []
  {
  }

  datatype MtlsIdentity = MtlsIdentity(id: Uuid, name: string, serialNumber: string, fingerprint: string)

  // ------------------------------------------------------------------------ paths

  const CERTIFICATES := "/v1/certificates/"
  const REVOKE := "/revoke"

  function StripPrefix(s: string, prefix: string): Option<string> {
    if prefix <= s then Some(s[|prefix|..]) else None
  }

  function StripSuffix(s: string, suffix: string): Option<string> {
    if |suffix| <= |s| && s[|s| - |suffix|..] == suffix then Some(s[..|s| - |suffix|]) else None
  }

  function IdFromRevokePath(path: string, parse: string -> Option<Uuid>): Option<Uuid> {
    match StripPrefix(path, CERTIFICATES)
    case None => None
    case Some(rest) =>
      match StripSuffix(rest, REVOKE)
      case None => None
      case Some(text) => if text == [] || '/' in text then None else parse(text)
  }

  lemma StripsExactly(path: string, prefix: string, text: string, suffix: string)
    ensures StripPrefix(path, prefix).Some? && StripSuffix(StripPrefix(path, prefix).value, suffix) == Some(text)
       <==> path == prefix + text + suffix
  {
    if path == prefix + text + suffix {
      assert path == prefix + (text + suffix);
      assert path[|prefix|..] == text + suffix;
      assert (text + suffix)[..|text|] == text && (text + suffix)[|text|..] == suffix;
    }
    if StripPrefix(path, prefix).Some? {
      assert path == prefix + path[|prefix|..];
      if StripSuffix(path[|prefix|..], suffix) == Some(text) {
        assert path[|prefix|..] == text + suffix;
      }
    }
  }

  /** A path names an identifier exactly when it is the prefix, a nonempty text without a
      slash that parses to it, and the suffix. */
  lemma RevokePathNamesExactly(path: string, parse: string -> Option<Uuid>, id: Uuid)
    ensures IdFromRevokePath(path, parse) == Some(id) <==>
      exists text :: path == CERTIFICATES + text + REVOKE && text != [] && '/' !in text && parse(text) == Some(id)
  {
    forall text {
      StripsExactly(path, CERTIFICATES, text, REVOKE);
    }
    if IdFromRevokePath(path, parse) == Some(id) {
      var text := StripSuffix(StripPrefix(path, CERTIFICATES).value, REVOKE).value;
      assert path == CERTIFICATES + text + REVOKE;
    }
  }

  datatype Route = Health | Issue | ListAll | GetOne | RevokeOne | NoEndpoint

  const ISSUE_PATH := "/v1/certificates/issue"

  function Dispatch(verb: string, path: string): Route {
    if verb == "GET" && path == "/health" then Health
    else if verb == "POST" && path == ISSUE_PATH then Issue
    else if verb == "GET" && path == "/v1/certificates" then ListAll
    else if verb == "GET" && CERTIFICATES <= path then GetOne
    else if verb == "POST" && StripSuffix(path, REVOKE).Some? && CERTIFICATES <= path then RevokeOne
    else NoEndpoint
  }

  /** Which request goes where. */
  lemma DispatchExactly(verb: string, path: string)
    ensures Dispatch(verb, path) == Health <==> verb == "GET" && path == "/health"
    ensures Dispatch(verb, path) == Issue <==> verb == "POST" && path == "/v1/certificates/issue"
    ensures Dispatch(verb, path) == ListAll <==> verb == "GET" && path == "/v1/certificates"
    ensures Dispatch(verb, path) == GetOne <==> verb == "GET" && "/v1/certificates/" <= path
    ensures Dispatch(verb, path) == RevokeOne <==>
              verb == "POST" && "/v1/certificates/" <= path && |path| >= 7 && path[|path| - 7..] == "/revoke"
  {
    assert "/health"[1] == 'h' && "/v1/certificates/"[1] == 'v' && "/v1/certificates"[1] == 'v';
    assert |"/v1/certificates"| == 16 && |"/v1/certificates/"| == 17 && |ISSUE_PATH| == 22;
    assert |"GET"| == 3 && |"POST"| == 4;
    assert ISSUE_PATH[21] == 'e' && ISSUE_PATH[20] == 'u' && ISSUE_PATH[15..] == "s/issue";
    assert "s/issue"[0] == 's' && REVOKE[0] == '/';
  }

  lemma RevokePathsEndInRevoke(path: string, parse: string -> Option<Uuid>)
    requires IdFromRevokePath(path, parse).Some?
    ensures CERTIFICATES <= path && StripSuffix(path, REVOKE).Some?
    ensures |path| >= 3 && path[|path| - 3] == 'o'
  {
    var rest := path[|CERTIFICATES|..];
    var text := StripSuffix(rest, REVOKE).value;
    assert path == CERTIFICATES + rest && rest == text + REVOKE;
    assert path[|path| - |REVOKE|..] == REVOKE;
    assert path[|path| - 3] == REVOKE[4] == 'o';
  }

  /** Every path that names an identifier to revoke reaches the revocation handler, and only
      by POST. */
  lemma RevokePathsAreRouted(verb: string, path: string, parse: string -> Option<Uuid>)
    requires IdFromRevokePath(path, parse).Some?
    ensures Dispatch(verb, path) ==
            if verb == "POST" then RevokeOne else if verb == "GET" then GetOne else NoEndpoint
  {
    RevokePathsEndInRevoke(path, parse);
    assert ISSUE_PATH[|ISSUE_PATH| - 3] == 's';
    assert "/health"[|"/health"| - 3] == 'l';
    assert "/v1/certificates"[|"/v1/certificates"| - 3] == 't';
  }

  // --------------------------------------------------------------------- handlers

  /** What revoking and refreshing meet outside the service. */
  datatype RevokeSurroundings = RevokeSurroundings(
    parse: string -> Option<Uuid>,
    bodyParses: bool,
    at: Time,
    now: Time,
    generatedAt: Time,
    persist: Store.PersistFault,
    order: seq<Uuid>,
    generate: Crl.GenerateFault,
    configFails: bool)

  const DEFAULT_REASON := "revoked by operator"

  /** The reason a revocation is recorded with. */
  function GivenReason(reason: Option<string>): (text: string)
    ensures text == if reason.None? then "revoked by operator" else reason.value
  {
    if reason.Some? then reason.value else DEFAULT_REASON
  }

  /** Nothing stands in the way of a new list: there is a next number, every revoked serial
      decodes, and no file, library or configuration step fails. */
  ghost predicate Refreshes(records: Store.Records, counterFile: Option<string>, around: RevokeSurroundings) {
    && Crl.NextNumber(counterFile).Ok? && Crl.AllRevokedDecode(records) && !around.configFails
    && (around.generate.NoFault? || (around.generate.ReadingCounter? && counterFile.None?))
  }

  class HttpApi {
    const issuance: IssuanceService
    const authority: Authority
    const acceptor: Crl.TlsAcceptorManager
    const policy: AuthorizationPolicy

    constructor (issuance: IssuanceService, authority: Authority, acceptor: Crl.TlsAcceptorManager,
                 policy: AuthorizationPolicy)
      ensures this.issuance == issuance && this.authority == authority
      ensures this.acceptor == acceptor && this.policy == policy
    {
      this.issuance, this.authority, this.acceptor, this.policy := issuance, authority, acceptor, policy;
    }

    /** A caller whose fingerprint is not allowed gets 403, changes no record and leaves an
        AuthorizationDenied event; 201 is answered exactly for certificates that are stored. */
    method HandleIssue(request: Option<IssueCertificateRequest>, identity: MtlsIdentity, around: Surroundings)
      returns (status: nat)
      modifies issuance.audit, issuance.store
      ensures request.None? ==>
                && status == 400 && issuance.View() == old(issuance.View())
                && issuance.store.disk == old(issuance.store.disk)
      ensures request.Some? ==>
                var roles := RolesFor(policy, identity.fingerprint);
                var exit := Decide(issuance.policy, AuthenticatedPrincipal(identity.id, identity.name, roles),
                                   authority, request.value, around);
                && status == (if !CanIssueCertificates(policy, identity.fingerprint) then 403
                              else if exit.Issued? then 201 else 400)
                && issuance.View() == Booked(old(issuance.View()), exit)
      ensures status == 403 ==>
                && issuance.store.records == old(issuance.store.records)
                && |issuance.audit.events| == |old(issuance.audit.events)| + 1
                && issuance.audit.events[|old(issuance.audit.events)|].eventType == AuthorizationDenied
      ensures issuance.store.disk == if status == 201 then Some(issuance.store.records) else old(issuance.store.disk)
    {
      if request.None? {
        return 400;
      }
      var principal := AuthenticatedPrincipal(identity.id, identity.name, RolesFor(policy, identity.fingerprint));
      assert ISSUE_ROLE in principal.roles <==> CanIssueCertificates(policy, identity.fingerprint);
      var issued := issuance.Issue(principal, authority, request.value, around);
      match issued {
        case Ok(_) => return 201;
        case Err(Unauthorized) => return 403;
        case Err(_) => return 400;
      }
    }

    /** The status decides what was done, and each is answered exactly when: 403 to callers that are
        not allow-listed, 400 when the path names no id or the body does not parse, 404 for an id
        that is not stored, 200 when the revocation is on disk and the acceptor is refreshed, and
        500 when either fails. A stored id ends revoked in memory, with the time and reason of this
        call unless it was revoked before. */
    method HandleRevoke(path: string, reason: Option<string>, identity: MtlsIdentity, around: RevokeSurroundings)
      returns (status: nat)
      requires issuance.store == acceptor.crlManager.store
      requires Inventory.Lists(around.order, issuance.store.records.Keys)
      modifies issuance.store, acceptor, acceptor.crlManager
      ensures status == 403 <==> !CanIssueCertificates(policy, identity.fingerprint)
      ensures status != 403 ==>
                (status == 400 <==> IdFromRevokePath(path, around.parse).None? || !around.bodyParses)
      ensures status in {400, 403, 404} ==>
                && issuance.store.records == old(issuance.store.records)
                && issuance.store.disk == old(issuance.store.disk)
                && acceptor.acceptor == old(acceptor.acceptor)
                && acceptor.crlManager.counterFile == old(acceptor.crlManager.counterFile)
                && acceptor.crlManager.crlFile == old(acceptor.crlManager.crlFile)
      ensures status !in {400, 403} ==>
                var id := IdFromRevokePath(path, around.parse).value;
                && (status == 404 <==> id !in old(issuance.store.records))
                && (status != 404 ==>
                      && issuance.store.records == Store.Apply(old(issuance.store.records),
                           Store.StoreOp.Revoke(id, GivenReason(reason), around.at))
                      && (status == 200 <==> around.persist.NoFault?
                                             && Refreshes(issuance.store.records, old(acceptor.crlManager.counterFile),
                                                          around))
                      && (status != 200 ==> status == 500 && acceptor.acceptor == old(acceptor.acceptor))
                      && issuance.store.disk == (if around.persist.NoFault? then Some(issuance.store.records)
                                                 else old(issuance.store.disk)))
      ensures status == 200 ==>
                var id := IdFromRevokePath(path, around.parse).value;
                && id in issuance.store.records && issuance.store.records[id].revoked
                && acceptor.crlManager.crlFile == Some(acceptor.acceptor)
                && Crl.NextNumber(old(acceptor.crlManager.counterFile)) == Ok(acceptor.acceptor.number)
                && Crl.Decodable(Crl.EntriesOf(Store.ListRecords(issuance.store.records, around.order), around.now))
                && acceptor.acceptor.revoked == Crl.RevokedCerts(
                     Crl.EntriesOf(Store.ListRecords(issuance.store.records, around.order), around.now))
                && HexToBytes(issuance.store.records[id].serialNumber).Some?
                && acceptor.acceptor.Lists(Value(HexToBytes(issuance.store.records[id].serialNumber).value))
    {
      if !CanIssueCertificates(policy, identity.fingerprint) {
        return 403;
      }
      var id := IdFromRevokePath(path, around.parse);
      if id.None? {
        return 400;
      }
      if !around.bodyParses {
        return 400;
      }
      var store := issuance.store;
      var revoked := store.Revoke(id.value, GivenReason(reason), around.at, around.persist);
      match revoked {
        case Ok(Some(certificate)) =>
          var refreshed := acceptor.Refresh(around.order, around.now, around.generatedAt, around.generate,
                                            around.configFails);
          Crl.ListIsSignableExactly(store.records, around.order, around.now);
          if refreshed.Err? {
            return 500;
          }
          ListedAfterRefresh(store.records, around.order, around.now, id.value, acceptor.acceptor);
          return 200;
        case Ok(None) => return 404;
        case Err(_) => return 500;
      }
    }
  }

  /** A refreshed acceptor lists every revoked record. */
  lemma ListedAfterRefresh(records: Store.Records, order: seq<Uuid>, now: Time, id: Uuid, crl: Crl.SignedCrl)
    requires Inventory.Lists(order, records.Keys) && id in records && records[id].revoked
    requires Crl.Decodable(Crl.EntriesOf(Store.ListRecords(records, order), now))
    requires crl.revoked == Crl.RevokedCerts(Crl.EntriesOf(Store.ListRecords(records, order), now))
    ensures HexToBytes(records[id].serialNumber).Some?
    ensures crl.Lists(Value(HexToBytes(records[id].serialNumber).value))
  {
    var entries := Crl.EntriesOf(Store.ListRecords(records, order), now);
    var serial := records[id].serialNumber;
    Crl.ListAgreesWithStore(records, order, Crl.RevocationList(now, now, entries), now, serial);
    assert Store.IsRevokedSerial(records, serial);
    var i :| 0 <= i < |entries| && entries[i].serialNumber == serial;
    assert Value(crl.revoked[i].serialNumber) == Value(HexToBytes(serial).value);
  }
}
