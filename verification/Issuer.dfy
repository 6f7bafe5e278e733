/** Symbolic certificates, the two certificate authorities and the certificate issuer.
    Signatures are ideal: one verifies exactly when it was made over the same contents
    with the matching key. */
module Issuer {
  import opened Wrappers
  import opened Codec
  import opened Lifecycle
  import opened Validity

  // ------------------------------------------------------------- certificates

  type Key = nat

  datatype Name = Name(commonName: Option<string>)

  datatype KeyUsage = DigitalSignature | KeyEncipherment | KeyCertSign | CrlSign

  datatype ExtendedKeyUsage = ServerAuth | ClientAuth

  datatype San = DnsName(name: string) | IpAddress(address: IpAddr)

  datatype IsCa = NoCa | Unconstrained | Constrained(pathLength: nat)

  datatype Params = Params(
    subject: Name,
    sans: seq<San>,
    isCa: IsCa,
    keyUsages: seq<KeyUsage>,
    extendedKeyUsages: seq<ExtendedKeyUsage>,
    authorityKeyIdentifier: bool,
    validity: CertificateValidity)

  datatype Contents = Contents(issuer: Name, publicKey: Key, serial: nat, params: Params)

  datatype Signature = Signature(signer: Key, over: Contents)

  datatype Certificate = Certificate(contents: Contents, signature: Signature)
  {
    predicate CarriesCa() {
      contents.params.isCa != NoCa
    }

    predicate HasUsage(usage: KeyUsage) {
      usage in contents.params.keyUsages
    }

    predicate VerifiesWith(key: Key) {
      signature == Signature(key, contents)
    }
  }

  /** A signature belongs to one key and one set of contents: put on anything else it verifies
      with no key. */
  lemma SignatureBindsContents(c: Certificate, key: Key, other: Contents, otherKey: Key)
    requires c.VerifiesWith(key)
    ensures c.VerifiesWith(otherKey) <==> otherKey == key
    ensures Certificate(other, c.signature).VerifiesWith(otherKey) <==> other == c.contents && otherKey == key
  {
  }

  function Sign(params: Params, publicKey: Key, serial: nat, issuer: Name, issuerKey: Key): Certificate {
    var contents := Contents(issuer, publicKey, serial, params);
    Certificate(contents, Signature(issuerKey, contents))
  }

  /** What the cryptographic library delivers: a fresh key and serial, or a failure. */
  datatype Crypto = Unavailable(detail: string) | Fresh(key: Key, serial: nat)

  /** What a fresh parameter set of the library starts from. */
  function DefaultParams(validity: CertificateValidity): Params {
    Params(Name(None), [], NoCa, [], [], false, validity)
  }

  // -------------------------------------------------------------- authorities

  datatype CaError = Cryptographic | Configuration(message: string)

  /** A certificate authority: its key and its own certificate. */
  datatype Authority = Authority(key: Key, certificate: Certificate)
  {
    function Subject(): Name {
      certificate.contents.params.subject
    }
  }

  function CaParams(commonName: string, constraint: IsCa, validity: CertificateValidity): Params {
    Params(Name(Some(commonName)), [], constraint, [KeyCertSign, CrlSign], [], true, validity)
  }

  function GeneratedRoot(commonName: string, validity: CertificateValidity, crypto: Crypto)
    : Result<Authority, CaError>
  {
    if IsBlank(commonName) then Err(Configuration("root CA common name cannot be empty"))
    else if crypto.Unavailable? then Err(Cryptographic)
    else
      var params := CaParams(commonName, Unconstrained, validity);
      Ok(Authority(crypto.key, Sign(params, crypto.key, crypto.serial, params.subject, crypto.key)))
  }

  function GeneratedIntermediate(root: Authority, commonName: string, validity: CertificateValidity, crypto: Crypto)
    : Result<Authority, CaError>
  {
    if IsBlank(commonName) then Err(Configuration("intermediate CA common name cannot be empty"))
    else if crypto.Unavailable? then Err(Cryptographic)
    else
      var params := CaParams(commonName, Constrained(0), validity);
      Ok(Authority(crypto.key, Sign(params, crypto.key, crypto.serial, root.Subject(), root.key)))
  }

  predicate BlankName(commonName: string) {
    forall k :: 0 <= k < |commonName| ==> commonName[k] as int in WHITE_SPACE
  }

  /** What an authority's certificate says: its own name and key, the issuer's name, the right to
      sign certificates and lists under this constraint, and nothing else. */
  predicate AuthorityFor(a: Authority, commonName: string, issuer: Name, issuerKey: Key, constraint: IsCa,
                         validity: CertificateValidity, key: Key, serial: nat)
  {
    && a.key == key
    && a.certificate.signature == Signature(issuerKey, a.certificate.contents)
    && a.certificate.contents == Contents(issuer, key, serial,
         Params(Name(Some(commonName)), [], constraint, [KeyCertSign, CrlSign], [], true, validity))
  }

  /** A root is generated for every name that is not blank: self-signed, self-issued, without a
      path length. */
  lemma RootExactly(commonName: string, validity: CertificateValidity, crypto: Crypto)
    ensures match GeneratedRoot(commonName, validity, crypto)
      case Ok(a) =>
        && !BlankName(commonName) && crypto.Fresh?
        && AuthorityFor(a, commonName, Name(Some(commonName)), crypto.key, Unconstrained, validity,
                        crypto.key, crypto.serial)
      case Err(Configuration(message)) =>
        BlankName(commonName) && message == "root CA common name cannot be empty"
      case Err(Cryptographic) => !BlankName(commonName) && crypto.Unavailable?
  {
    BlankExactly(commonName);
  }

  /** An intermediate is issued and signed by its root, and may issue leaves only. */
  lemma IntermediateExactly(root: Authority, commonName: string, validity: CertificateValidity, crypto: Crypto)
    ensures match GeneratedIntermediate(root, commonName, validity, crypto)
      case Ok(a) =>
        && !BlankName(commonName) && crypto.Fresh?
        && AuthorityFor(a, commonName, root.certificate.contents.params.subject, root.key, Constrained(0), validity,
                        crypto.key, crypto.serial)
      case Err(Configuration(message)) =>
        BlankName(commonName) && message == "intermediate CA common name cannot be empty"
      case Err(Cryptographic) => !BlankName(commonName) && crypto.Unavailable?
  {
    BlankExactly(commonName);
  }

  method GenerateRoot(commonName: string, validity: CertificateValidity, crypto: Crypto)
    returns (r: Result<Authority, CaError>)
    ensures r == GeneratedRoot(commonName, validity, crypto)
  {
    if IsBlank(commonName) {
      return Err(Configuration("root CA common name cannot be empty"));
    }
    var params := DefaultParams(validity);
    params := params.(subject := Name(Some(commonName)));
    params := params.(isCa := Unconstrained);
    params := params.(keyUsages := [KeyCertSign, CrlSign]);
    params := params.(authorityKeyIdentifier := true);
    if crypto.Unavailable? {
      return Err(Cryptographic);
    }
    return Ok(Authority(crypto.key, Sign(params, crypto.key, crypto.serial, params.subject, crypto.key)));
  }

  method GenerateIntermediate(root: Authority, commonName: string, validity: CertificateValidity, crypto: Crypto)
    returns (r: Result<Authority, CaError>)
    ensures r == GeneratedIntermediate(root, commonName, validity, crypto)
  {
    if IsBlank(commonName) {
      return Err(Configuration("intermediate CA common name cannot be empty"));
    }
    var params := DefaultParams(validity);
    params := params.(subject := Name(Some(commonName)));
    params := params.(isCa := Constrained(0));
    params := params.(keyUsages := [KeyCertSign, CrlSign]);
    params := params.(authorityKeyIdentifier := true);
    if crypto.Unavailable? {
      return Err(Cryptographic);
    }
    return Ok(Authority(crypto.key, Sign(params, crypto.key, crypto.serial, root.Subject(), root.key)));
  }

  // ------------------------------------------------------------------ requests

  datatype CertificateRequest = CertificateRequest(
    commonName: string,
    dnsNames: seq<string>,
    ipAddresses: seq<IpAddr>,
    clientAuth: bool,
    serverAuth: bool)
  {
    function WithDnsName(name: string): CertificateRequest {
      this.(dnsNames := dnsNames + [name])
    }

    function WithIpAddress(address: IpAddr): CertificateRequest {
      this.(ipAddresses := ipAddresses + [address])
    }
  }

  function NewRequest(commonName: string): CertificateRequest {
    CertificateRequest(commonName, [], [], true, true)
  }

  /** A new request asks for both usages and names nobody but its subject; names and addresses are
      added in order. */
  lemma RequestBuiltInOrder(commonName: string, built: CertificateRequest, name: string, address: IpAddr)
    ensures NewRequest(commonName).WithDnsName(name).WithIpAddress(address)
         == CertificateRequest(commonName, [name], [address], true, true)
    ensures built.WithDnsName(name).dnsNames == built.dnsNames + [name]
    ensures built.WithIpAddress(address).ipAddresses == built.ipAddresses + [address]
  {
  }

  datatype IssuanceError = CertificateFailure(detail: string) | Policy(message: string)

  const MAX_COMMON_NAME := 253
  const MAX_DNS_NAMES := 100
  const MAX_IP_ADDRESSES := 100

  function ValidateRequest(request: CertificateRequest): Result<(), IssuanceError> {
    if IsBlank(request.commonName) && request.dnsNames == [] && request.ipAddresses == [] then
      Err(Policy("certificate must contain a subject identity"))
    else if ByteLength(request.commonName) > MAX_COMMON_NAME then
      Err(Policy("common name exceeds maximum length"))
    else if |request.dnsNames| > MAX_DNS_NAMES then
      Err(Policy("too many DNS subject alternative names"))
    else if |request.ipAddresses| > MAX_IP_ADDRESSES then
      Err(Policy("too many IP subject alternative names"))
    else if !request.serverAuth && !request.clientAuth then
      Err(Policy("certificate must have at least one permitted extended key usage"))
    else Ok(())
  }

  /** The limits of the core policy, in the order in which they are reported. */
  predicate KeepsCoreLimit(request: CertificateRequest, k: nat) {
    match k
    case 0 => !BlankName(request.commonName) || request.dnsNames != [] || request.ipAddresses != []
    case 1 => ByteLength(request.commonName) <= 253
    case 2 => |request.dnsNames| <= 100
    case 3 => |request.ipAddresses| <= 100
    case 4 => request.serverAuth || request.clientAuth
    case _ => true
  }

  const CORE_MESSAGES: seq<string> := [
    "certificate must contain a subject identity",
    "common name exceeds maximum length",
    "too many DNS subject alternative names",
    "too many IP subject alternative names",
    "certificate must have at least one permitted extended key usage"]

  /** The core accepts a request exactly when it keeps every limit; otherwise the first one it does
      not keep is reported. */
  lemma CorePolicyExactly(request: CertificateRequest)
    ensures ValidateRequest(request) == Ok(()) <==> forall k :: 0 <= k < 5 ==> KeepsCoreLimit(request, k)
    ensures ValidateRequest(request).Err? ==>
      exists k :: 0 <= k < 5 && !KeepsCoreLimit(request, k)
        && ValidateRequest(request) == Err(Policy(CORE_MESSAGES[k]))
        && forall j :: 0 <= j < k ==> KeepsCoreLimit(request, j)
  {
    BlankExactly(request.commonName);
    var k := if !KeepsCoreLimit(request, 0) then 0 else if !KeepsCoreLimit(request, 1) then 1
             else if !KeepsCoreLimit(request, 2) then 2 else if !KeepsCoreLimit(request, 3) then 3 else 4;
    assert ValidateRequest(request).Err? ==>
      !KeepsCoreLimit(request, k) && ValidateRequest(request) == Err(Policy(CORE_MESSAGES[k]));
  }

  /** A DNS name is carried as an IA5String, which holds ASCII only. */
  predicate IsIa5(s: string) {
    forall i :: 0 <= i < |s| ==> s[i] as int < 128
  }

  function DnsSans(names: seq<string>): seq<San> {
    seq(|names|, i requires 0 <= i < |names| => DnsName(names[i]))
  }

  function IpSans(addresses: seq<IpAddr>): seq<San> {
    seq(|addresses|, i requires 0 <= i < |addresses| => IpAddress(addresses[i]))
  }

  function LeafParams(request: CertificateRequest, validity: CertificateValidity): Params {
    Params(
      Name(if IsBlank(request.commonName) then None else Some(request.commonName)),
      DnsSans(request.dnsNames) + IpSans(request.ipAddresses),
      NoCa,
      [DigitalSignature, KeyEncipherment],
      (if request.serverAuth then [ServerAuth] else []) + (if request.clientAuth then [ClientAuth] else []),
      true,
      validity)
  }

  function IssuedCertificate(ca: Authority, request: CertificateRequest, validity: CertificateValidity, crypto: Crypto)
    : Result<Certificate, IssuanceError>
  {
    match ValidateRequest(request)
    case Err(e) => Err(e)
    case Ok(_) =>
      if exists i :: 0 <= i < |request.dnsNames| && !IsIa5(request.dnsNames[i]) then
        Err(Policy("invalid DNS subject alternative name"))
      else if crypto.Unavailable? then Err(CertificateFailure(crypto.detail))
      else Ok(Sign(LeafParams(request, validity), crypto.key, crypto.serial, ca.Subject(), ca.key))
  }

  method IssueCertificate(ca: Authority, request: CertificateRequest, validity: CertificateValidity, crypto: Crypto)
    returns (r: Result<Certificate, IssuanceError>)
    ensures r == IssuedCertificate(ca, request, validity, crypto)
  {
    var checked := ValidateRequest(request);
    if checked.Err? {
      return Err(checked.error);
    }
    var params := DefaultParams(validity);
    if !IsBlank(request.commonName) {
      params := params.(subject := Name(Some(request.commonName)));
    }
    var i := 0;
    while i < |request.dnsNames|
      invariant i <= |request.dnsNames|
      invariant forall k :: 0 <= k < i ==> IsIa5(request.dnsNames[k])
      invariant params == DefaultParams(validity).(
                  subject := LeafParams(request, validity).subject, sans := DnsSans(request.dnsNames[..i]))
    {
      if !IsIa5(request.dnsNames[i]) {
        return Err(Policy("invalid DNS subject alternative name"));
      }
      params := params.(sans := params.sans + [DnsName(request.dnsNames[i])]);
      i := i + 1;
    }
    var j := 0;
    while j < |request.ipAddresses|
      invariant j <= |request.ipAddresses|
      invariant params == DefaultParams(validity).(
                  subject := LeafParams(request, validity).subject,
                  sans := DnsSans(request.dnsNames) + IpSans(request.ipAddresses[..j]))
    {
      params := params.(sans := params.sans + [IpAddress(request.ipAddresses[j])]);
      j := j + 1;
    }
    assert request.ipAddresses[..j] == request.ipAddresses;
    params := params.(isCa := NoCa);
    params := params.(keyUsages := [DigitalSignature, KeyEncipherment]);
    var eku := [];
    if request.serverAuth {
      eku := eku + [ServerAuth];
    }
    if request.clientAuth {
      eku := eku + [ClientAuth];
    }
    params := params.(extendedKeyUsages := eku);
    params := params.(authorityKeyIdentifier := true);
    assert params == LeafParams(request, validity);
    if crypto.Unavailable? {
      return Err(CertificateFailure(crypto.detail));
    }
    return Ok(Sign(params, crypto.key, crypto.serial, ca.Subject(), ca.key));
  }

  /** What a leaf says, and when there is none. It carries the issuer's name and signature, the
      fresh key and serial, the validity given, the rights of an end entity, and the usages
      asked for, server before client. */
  lemma LeafExactly(ca: Authority, request: CertificateRequest, validity: CertificateValidity, crypto: Crypto)
    ensures var ascii := forall i, k :: 0 <= i < |request.dnsNames| && 0 <= k < |request.dnsNames[i]| ==>
                           request.dnsNames[i][k] as int < 128;
      match IssuedCertificate(ca, request, validity, crypto)
      case Ok(c) =>
        && ValidateRequest(request).Ok? && ascii && crypto.Fresh?
        && c.signature == Signature(ca.key, c.contents)
        && c.contents.issuer == ca.certificate.contents.params.subject
        && c.contents.publicKey == crypto.key && c.contents.serial == crypto.serial
        && c.contents.params.validity == validity && c.contents.params.isCa == NoCa
        && c.contents.params.keyUsages == [DigitalSignature, KeyEncipherment]
        && c.contents.params.extendedKeyUsages
           == (if request.serverAuth && request.clientAuth then [ServerAuth, ClientAuth]
               else if request.serverAuth then [ServerAuth] else [ClientAuth])
        && c.contents.params.authorityKeyIdentifier
      case Err(e) =>
        if ValidateRequest(request).Err? then Err(e) == ValidateRequest(request)
        else if !ascii then e == Policy("invalid DNS subject alternative name")
        else crypto.Unavailable? && e == CertificateFailure(crypto.detail)
  {
  }

  // ------------------------------------------- what a certificate says of its request

  function DnsNamesOf(sans: seq<San>): seq<string> {
    if sans == [] then []
    else (match sans[0] case DnsName(name) => [name] case IpAddress(_) => []) + DnsNamesOf(sans[1..])
  }

  function IpAddressesOf(sans: seq<San>): seq<IpAddr> {
    if sans == [] then []
    else (match sans[0] case DnsName(_) => [] case IpAddress(address) => [address]) + IpAddressesOf(sans[1..])
  }

  lemma {:induction false} SansSplit(names: seq<string>, addresses: seq<IpAddr>)
    ensures DnsNamesOf(DnsSans(names) + IpSans(addresses)) == names
    ensures IpAddressesOf(DnsSans(names) + IpSans(addresses)) == addresses
    decreases |names| + |addresses|
  {
    var sans := DnsSans(names) + IpSans(addresses);
    if names != [] {
      assert sans[1..] == DnsSans(names[1..]) + IpSans(addresses);
      SansSplit(names[1..], addresses);
    } else if addresses != [] {
      assert sans[1..] == DnsSans(names) + IpSans(addresses[1..]);
      SansSplit(names, addresses[1..]);
    }
  }

  /** The request can be read back from the certificate: the DNS names, then the addresses,
      in request order, both usage flags, and the common name unless it was blank. */
  lemma IssuedCertificateTellsItsRequest(ca: Authority, request: CertificateRequest, validity: CertificateValidity,
                                         crypto: Crypto)
    requires IssuedCertificate(ca, request, validity, crypto).Ok?
    ensures var params := IssuedCertificate(ca, request, validity, crypto).value.contents.params;
      && DnsNamesOf(params.sans) == request.dnsNames
      && IpAddressesOf(params.sans) == request.ipAddresses
      && (request.serverAuth <==> ServerAuth in params.extendedKeyUsages)
      && (request.clientAuth <==> ClientAuth in params.extendedKeyUsages)
      && 1 <= |params.extendedKeyUsages| <= 2
      && (forall i, j :: 0 <= i < |request.dnsNames| <= j < |params.sans| ==>
            params.sans[i].DnsName? && params.sans[j].IpAddress?)
      && params.subject.commonName == (if BlankName(request.commonName) then None else Some(request.commonName))
  {
    BlankExactly(request.commonName);
    SansSplit(request.dnsNames, request.ipAddresses);
  }
}
