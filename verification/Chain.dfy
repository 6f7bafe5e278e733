/** The chain validator, and its agreement with the authorities and the issuer. */
module Chain {
  import opened Wrappers
  import opened Codec
  import opened Lifecycle
  import opened Validity
  import opened Issuer
  import Inventory
  import Store
  import Crl

  // -------------------------------------------------------------- the validator

  /** DER bytes: an encoded certificate, nothing, or bytes that do not parse. */
  datatype Der = Empty | Garbage(noise: nat) | Encoded(certificate: Certificate)

  datatype TrustAnchor = TrustAnchor(id: Uuid, certificateDer: Der, enabled: bool)

  datatype ChainValidationError =
    | CertificateInvalid(cause: CertificateValidationError)
    | NoTrustAnchor
    | EmptyChain
    | InvalidIssuer
    | InvalidCaUsage
    | LeafIsCa
    | IdentityMismatch
    | Revoked
    | InvalidCertificate
    | InvalidSignature

  datatype ValidationResult = ValidationResult(trusted: bool, chainDepth: nat, trustAnchorId: Option<Uuid>)

  /** The first enabled anchor holding exactly these bytes. */
  function FindAnchor(anchors: seq<TrustAnchor>, root: Der): Option<TrustAnchor> {
    if anchors == [] then None
    else if anchors[0].enabled && anchors[0].certificateDer == root then Some(anchors[0])
    else FindAnchor(anchors[1..], root)
  }

  lemma {:induction false} FindAnchorFindsEnabled(anchors: seq<TrustAnchor>, root: Der)
    ensures FindAnchor(anchors, root).Some? <==>
            exists i :: 0 <= i < |anchors| && anchors[i].enabled && anchors[i].certificateDer == root
    ensures FindAnchor(anchors, root).Some? ==>
            exists i :: 0 <= i < |anchors| && anchors[i] == FindAnchor(anchors, root).value
              && anchors[i].enabled && anchors[i].certificateDer == root
              && forall j :: 0 <= j < i ==> !(anchors[j].enabled && anchors[j].certificateDer == root)
  {
    if anchors != [] {
      FindAnchorFindsEnabled(anchors[1..], root);
      if i :| 0 <= i < |anchors| && anchors[i].enabled && anchors[i].certificateDer == root {
        if i > 0 {
          assert anchors[1..][i - 1] == anchors[i];
        }
      }
      if j :| 0 <= j < |anchors[1..]| && anchors[1..][j].enabled && anchors[1..][j].certificateDer == root {
        assert anchors[j + 1] == anchors[1..][j];
      }
    }
  }

  function ValidateDerChain(leafDer: Der, intermediateDer: Der, rootDer: Der, anchors: seq<TrustAnchor>, now: Time)
    : Result<ValidationResult, ChainValidationError>
  {
    if leafDer.Empty? || intermediateDer.Empty? || rootDer.Empty? then Err(EmptyChain)
    else if leafDer.Garbage? || intermediateDer.Garbage? || rootDer.Garbage? then Err(InvalidCertificate)
    else
      var leaf, intermediate, root := leafDer.certificate, intermediateDer.certificate, rootDer.certificate;
      var anchor := FindAnchor(anchors, rootDer);
      if anchor.None? then Err(NoTrustAnchor)
      else if leaf.contents.issuer != intermediate.contents.params.subject then Err(InvalidIssuer)
      else if intermediate.contents.issuer != root.contents.params.subject then Err(InvalidIssuer)
      else if !intermediate.CarriesCa() then Err(CertificateInvalid(NotACa))
      else if !root.CarriesCa() then Err(CertificateInvalid(NotACa))
      else if !intermediate.HasUsage(KeyCertSign) then Err(InvalidCaUsage)
      else if !root.HasUsage(KeyCertSign) then Err(InvalidCaUsage)
      else if !leaf.VerifiesWith(intermediate.contents.publicKey) then Err(InvalidSignature)
      else if !intermediate.VerifiesWith(root.contents.publicKey) then Err(InvalidSignature)
      else if !root.VerifiesWith(root.contents.publicKey) then Err(InvalidSignature)
      else
        match leaf.contents.params.validity.Validate(now)
        case Err(e) => Err(CertificateInvalid(e))
        case Ok(_) =>
        match intermediate.contents.params.validity.Validate(now)
        case Err(e) => Err(CertificateInvalid(e))
        case Ok(_) =>
        match root.contents.params.validity.Validate(now)
        case Err(e) => Err(CertificateInvalid(e))
        case Ok(_) =>
          if leaf.CarriesCa() then Err(LeafIsCa)
          else if !leaf.HasUsage(DigitalSignature) then Err(CertificateInvalid(MissingKeyUsage))
          else Ok(ValidationResult(true, 3, Some(anchor.value.id)))
  }

  /** What an acceptable chain is, in no particular order. */
  ghost predicate GoodChain(leaf: Certificate, intermediate: Certificate, root: Certificate,
                            anchors: seq<TrustAnchor>, now: Time)
  {
    && (exists i :: 0 <= i < |anchors| && anchors[i].enabled && anchors[i].certificateDer == Encoded(root))
    && leaf.contents.issuer == intermediate.contents.params.subject
    && intermediate.contents.issuer == root.contents.params.subject
    && leaf.signature == Signature(intermediate.contents.publicKey, leaf.contents)
    && intermediate.signature == Signature(root.contents.publicKey, intermediate.contents)
    && root.signature == Signature(root.contents.publicKey, root.contents)
    && (forall ca :: ca in {intermediate, root} ==>
          ca.contents.params.isCa != NoCa && KeyCertSign in ca.contents.params.keyUsages)
    && leaf.contents.params.isCa == NoCa && DigitalSignature in leaf.contents.params.keyUsages
    && (forall c :: c in {leaf, intermediate, root} ==>
          c.contents.params.validity.notBefore <= now <= c.contents.params.validity.notAfter)
  }

  /** The validator accepts exactly the good chains, and only encoded certificates. */
  lemma AcceptsExactlyGoodChains(leaf: Der, intermediate: Der, root: Der, anchors: seq<TrustAnchor>, now: Time)
    ensures ValidateDerChain(leaf, intermediate, root, anchors, now).Ok? <==>
              && leaf.Encoded? && intermediate.Encoded? && root.Encoded?
              && GoodChain(leaf.certificate, intermediate.certificate, root.certificate, anchors, now)
  {
    FindAnchorFindsEnabled(anchors, root);
    if leaf.Encoded? && intermediate.Encoded? && root.Encoded? {
      var l, i, r := leaf.certificate, intermediate.certificate, root.certificate;
      assert i in {i, r} && r in {i, r} && l in {l, i, r} && i in {l, i, r} && r in {l, i, r};
    }
  }

  /** The position of the first enabled anchor that holds these bytes. */
  predicate FirstAnchorAt(anchors: seq<TrustAnchor>, root: Der, i: nat) {
    && i < |anchors| && anchors[i].enabled && anchors[i].certificateDer == root
    && forall j :: 0 <= j < i ==> !(anchors[j].enabled && anchors[j].certificateDer == root)
  }

  /** The fault that a rejection reports. */
  predicate Faulty(leaf: Certificate, intermediate: Certificate, root: Certificate, now: Time,
                   error: ChainValidationError)
  {
    var l, i, t := leaf.contents, intermediate.contents, root.contents;
    match error
    case NoTrustAnchor => true
    case InvalidIssuer => l.issuer != i.params.subject || i.issuer != t.params.subject
    case CertificateInvalid(NotACa) => i.params.isCa == NoCa || t.params.isCa == NoCa
    case InvalidCaUsage => KeyCertSign !in i.params.keyUsages || KeyCertSign !in t.params.keyUsages
    case InvalidSignature =>
      || leaf.signature != Signature(i.publicKey, l)
      || intermediate.signature != Signature(t.publicKey, i)
      || root.signature != Signature(t.publicKey, t)
    case CertificateInvalid(NotYetValid) =>
      now < l.params.validity.notBefore || now < i.params.validity.notBefore || now < t.params.validity.notBefore
    case CertificateInvalid(Expired) =>
      l.params.validity.notAfter < now || i.params.validity.notAfter < now || t.params.validity.notAfter < now
    case LeafIsCa => l.params.isCa != NoCa
    case CertificateInvalid(MissingKeyUsage) => DigitalSignature !in l.params.keyUsages
    case _ => false
  }

  /** An accepted chain is reported as trusted, three deep, under the first anchor that matches;
      every rejection names a fault the chain has. */
  lemma VerdictNamesItsGround(leafDer: Der, intermediateDer: Der, rootDer: Der, anchors: seq<TrustAnchor>, now: Time)
    ensures var r := ValidateDerChain(leafDer, intermediateDer, rootDer, anchors, now);
      && (r.Ok? ==> exists i: nat :: FirstAnchorAt(anchors, rootDer, i)
                      && r.value == ValidationResult(true, 3, Some(anchors[i].id)))
      && (r == Err(EmptyChain) <==> Empty in {leafDer, intermediateDer, rootDer})
      && (r == Err(InvalidCertificate) <==>
            Empty !in {leafDer, intermediateDer, rootDer}
            && (leafDer.Garbage? || intermediateDer.Garbage? || rootDer.Garbage?))
      && (leafDer.Encoded? && intermediateDer.Encoded? && rootDer.Encoded? ==>
            && (r == Err(NoTrustAnchor) <==>
                  forall i :: 0 <= i < |anchors| ==> !(anchors[i].enabled && anchors[i].certificateDer == rootDer))
            && (r.Err? ==> Faulty(leafDer.certificate, intermediateDer.certificate, rootDer.certificate, now, r.error)))
  {
    FindAnchorFindsEnabled(anchors, rootDer);
  }

  /** The caller says whether the leaf is revoked; a revoked one is refused before anything else. */
  function ValidateDerChainWithRevocation(leafDer: Der, intermediateDer: Der, rootDer: Der,
                                          anchors: seq<TrustAnchor>, leafRevoked: bool, now: Time)
    : Result<ValidationResult, ChainValidationError>
  {
    if leafRevoked then Err(ChainValidationError.Revoked)
    else ValidateDerChain(leafDer, intermediateDer, rootDer, anchors, now)
  }

  // ------------------------------------------------------ agreement with the issuer

  predicate InWindow(certificate: Certificate, now: Time) {
    certificate.contents.params.validity.notBefore <= now <= certificate.contents.params.validity.notAfter
  }

  ghost predicate Trusts(anchors: seq<TrustAnchor>, root: Authority) {
    exists i :: 0 <= i < |anchors| && anchors[i].enabled && anchors[i].certificateDer == Encoded(root.certificate)
  }

  /** A root, an intermediate generated from it, and a leaf issued by that intermediate. */
  ghost predicate GeneratedChain(root: Authority, intermediate: Authority, leaf: Certificate) {
    && (exists cn, v, c :: GeneratedRoot(cn, v, c) == Ok(root))
    && (exists cn, v, c :: GeneratedIntermediate(root, cn, v, c) == Ok(intermediate))
    && (exists request, v, c :: IssuedCertificate(intermediate, request, v, c) == Ok(leaf))
  }

  /** Names, signatures and usages fit together; nothing is said of anchors and time. */
  predicate SoundChain(leaf: Certificate, intermediate: Certificate, root: Certificate) {
    && leaf.contents.issuer == intermediate.contents.params.subject
    && intermediate.contents.issuer == root.contents.params.subject
    && root.VerifiesWith(root.contents.publicKey) && intermediate.VerifiesWith(root.contents.publicKey)
    && leaf.VerifiesWith(intermediate.contents.publicKey)
    && root.CarriesCa() && root.HasUsage(KeyCertSign)
    && intermediate.CarriesCa() && intermediate.HasUsage(KeyCertSign)
    && !leaf.CarriesCa() && leaf.HasUsage(DigitalSignature)
  }

  lemma GeneratedChainIsSound(root: Authority, intermediate: Authority, leaf: Certificate)
    requires GeneratedChain(root, intermediate, leaf)
    ensures SoundChain(leaf, intermediate.certificate, root.certificate)
  {
  }

  lemma SoundChainAcceptedExactly(leaf: Certificate, intermediate: Certificate, root: Certificate,
                                  anchors: seq<TrustAnchor>, now: Time)
    requires SoundChain(leaf, intermediate, root)
    ensures var r := ValidateDerChain(Encoded(leaf), Encoded(intermediate), Encoded(root), anchors, now);
            var anchor := FindAnchor(anchors, Encoded(root));
      && (r.Ok? <==> anchor.Some? && InWindow(leaf, now) && InWindow(intermediate, now) && InWindow(root, now))
      && (r.Ok? ==> r.value == ValidationResult(true, 3, Some(anchor.value.id)))
      && (anchor.None? ==> r == Err(NoTrustAnchor))
  {
  }

  /** A generated chain is accepted exactly when its root is an enabled anchor and the
      instant lies in all three validity windows, end points included. */
  lemma GeneratedChainAcceptedExactly(root: Authority, intermediate: Authority, leaf: Certificate,
                                      anchors: seq<TrustAnchor>, now: Time)
    requires GeneratedChain(root, intermediate, leaf)
    ensures var r := ValidateDerChain(Encoded(leaf), Encoded(intermediate.certificate), Encoded(root.certificate),
                                      anchors, now);
      && (r.Ok? <==>
            && Trusts(anchors, root)
            && InWindow(leaf, now) && InWindow(intermediate.certificate, now) && InWindow(root.certificate, now))
      && (r.Ok? ==> r.value.trusted && r.value.chainDepth == 3 && r.value.trustAnchorId.Some?)
      && (!Trusts(anchors, root) ==> r == Err(NoTrustAnchor))
  {
    GeneratedChainIsSound(root, intermediate, leaf);
    SoundChainAcceptedExactly(leaf, intermediate.certificate, root.certificate, anchors, now);
    FindAnchorFindsEnabled(anchors, Encoded(root.certificate));
  }

  /** A caller that asks the store whether the leaf is revoked is told what the TLS verifier
      finds on a list signed from that store: a chain is then accepted exactly when its
      leaf's serial number is not listed and the chain is good. */
  lemma RevocationStopsChainExactly(leaf: Certificate, intermediate: Der, root: Der, anchors: seq<TrustAnchor>,
                                    now: Time, records: Store.Records, order: seq<Uuid>, listedAt: Time,
                                    signed: Crl.SignedCrl)
    requires Inventory.Lists(order, records.Keys) && Crl.AllIssuedHere(records)
    requires Crl.Decodable(Crl.EntriesOf(Store.ListRecords(records, order), listedAt))
    requires signed.revoked == Crl.RevokedCerts(Crl.EntriesOf(Store.ListRecords(records, order), listedAt))
    ensures var revoked := Store.IsRevokedSerial(records, StoredSerial(leaf.contents.serial));
            var r := ValidateDerChainWithRevocation(Encoded(leaf), intermediate, root, anchors, revoked, now);
      && (r.Ok? <==>
            && !signed.Lists(leaf.contents.serial) && intermediate.Encoded? && root.Encoded?
            && GoodChain(leaf, intermediate.certificate, root.certificate, anchors, now))
      && (r == Err(ChainValidationError.Revoked) <==> signed.Lists(leaf.contents.serial))
  {
    AcceptsExactlyGoodChains(Encoded(leaf), intermediate, root, anchors, now);
    Crl.SignedListRejectsExactlyTheRevoked(records, order, listedAt, signed, leaf.contents.serial);
  }

  ghost predicate IssuerMade(c: Certificate) {
    exists ca, request, v, crypto :: IssuedCertificate(ca, request, v, crypto) == Ok(c)
  }

  ghost predicate Generated(c: Certificate) {
    || (exists cn, v, crypto :: GeneratedRoot(cn, v, crypto).Ok? && GeneratedRoot(cn, v, crypto).value.certificate == c)
    || (exists root, cn, v, crypto ::
          && GeneratedIntermediate(root, cn, v, crypto).Ok?
          && GeneratedIntermediate(root, cn, v, crypto).value.certificate == c)
  }

  lemma ConstrainedPositions(leaf: Der, intermediate: Der, root: Der, anchors: seq<TrustAnchor>, now: Time)
    requires ValidateDerChain(leaf, intermediate, root, anchors, now).Ok?
    ensures leaf.Encoded? && intermediate.Encoded? && root.Encoded?
    ensures intermediate.certificate.CarriesCa() && root.certificate.CarriesCa() && !leaf.certificate.CarriesCa()
  {
  }

  /** No issuer-made leaf is accepted as an intermediate or a root, and no generated CA
      certificate is accepted as a leaf, whatever the other two positions hold. */
  lemma PositionsCannotBeSwapped(c: Certificate, x: Der, y: Der, anchors: seq<TrustAnchor>, now: Time)
    ensures IssuerMade(c) ==> ValidateDerChain(x, Encoded(c), y, anchors, now).Err?
    ensures IssuerMade(c) ==> ValidateDerChain(x, y, Encoded(c), anchors, now).Err?
    ensures Generated(c) ==> ValidateDerChain(Encoded(c), x, y, anchors, now).Err?
  {
    assert IssuerMade(c) ==> !c.CarriesCa();
    assert Generated(c) ==> c.CarriesCa();
    if ValidateDerChain(x, Encoded(c), y, anchors, now).Ok? {
      ConstrainedPositions(x, Encoded(c), y, anchors, now);
    }
    if ValidateDerChain(x, y, Encoded(c), anchors, now).Ok? {
      ConstrainedPositions(x, y, Encoded(c), anchors, now);
    }
    if ValidateDerChain(Encoded(c), x, y, anchors, now).Ok? {
      ConstrainedPositions(Encoded(c), x, y, anchors, now);
    }
  }

  // ------------------------------------------------------------ identity checks

  datatype IdentityRequirement = IdentityRequirement(
    dnsName: Option<string>,
    ipAddress: Option<IpAddr>,
    requireServerAuth: bool,
    requireClientAuth: bool)

  /** The certificate facts a caller of the metadata validator hands over (those the validator
      looks at). */
  datatype CertificateValidationInput = CertificateValidationInput(
    validity: CertificateValidity,
    isCa: bool,
    digitalSignature: bool,
    serverAuth: bool,
    clientAuth: bool,
    dnsNames: seq<string>,
    ipAddresses: seq<IpAddr>)

  /** The facts of a certificate as a caller would read them off it; the library has no function
      that does so. */
  function FactsOf(c: Certificate): CertificateValidationInput {
    var params := c.contents.params;
    CertificateValidationInput(
      params.validity, c.CarriesCa(), c.HasUsage(DigitalSignature),
      ServerAuth in params.extendedKeyUsages, ClientAuth in params.extendedKeyUsages,
      DnsNamesOf(params.sans), IpAddressesOf(params.sans))
  }

  predicate NamesDns(names: seq<string>, name: string) {
    exists i :: 0 <= i < |names| && LowerAscii(names[i]) == LowerAscii(name)
  }

  /** The identity asked for is there: one of the names up to ASCII case, letter by letter, the
      address, and the usages. */
  predicate Meets(requirement: IdentityRequirement, names: seq<string>, addresses: seq<IpAddr>,
                  serverAuth: bool, clientAuth: bool)
  {
    && (requirement.dnsName.Some? ==>
          exists i :: 0 <= i < |names| && SameIgnoringCase(names[i], requirement.dnsName.value))
    && (requirement.ipAddress.Some? ==>
          exists i :: 0 <= i < |addresses| && addresses[i] == requirement.ipAddress.value)
    && (requirement.requireServerAuth ==> serverAuth)
    && (requirement.requireClientAuth ==> clientAuth)
  }

  lemma NamesDnsExactly(names: seq<string>, name: string)
    ensures NamesDns(names, name) <==> exists i :: 0 <= i < |names| && SameIgnoringCase(names[i], name)
  {
    forall i | 0 <= i < |names|
      ensures LowerAscii(names[i]) == LowerAscii(name) <==> SameIgnoringCase(names[i], name)
    {
      SameIgnoringCaseExactly(names[i], name);
    }
  }

  function ValidateIdentity(input: CertificateValidationInput, requirement: IdentityRequirement)
    : Result<(), ChainValidationError>
  {
    if requirement.dnsName.Some? && !NamesDns(input.dnsNames, requirement.dnsName.value) then Err(IdentityMismatch)
    else if requirement.ipAddress.Some? && requirement.ipAddress.value !in input.ipAddresses then Err(IdentityMismatch)
    else if requirement.requireServerAuth && !input.serverAuth then Err(CertificateInvalid(MissingExtendedKeyUsage))
    else if requirement.requireClientAuth && !input.clientAuth then Err(CertificateInvalid(MissingExtendedKeyUsage))
    else Ok(())
  }

  lemma IdentityExactly(input: CertificateValidationInput, requirement: IdentityRequirement)
    ensures var r := ValidateIdentity(input, requirement);
      && (r.Ok? <==> Meets(requirement, input.dnsNames, input.ipAddresses, input.serverAuth, input.clientAuth))
      && (r.Err? ==> r.error == (if Meets(requirement.(requireServerAuth := false, requireClientAuth := false),
                                          input.dnsNames, input.ipAddresses, false, false)
                                 then CertificateInvalid(MissingExtendedKeyUsage) else IdentityMismatch))
  {
    if requirement.dnsName.Some? {
      NamesDnsExactly(input.dnsNames, requirement.dnsName.value);
    }
  }

  function FirstEnabled(anchors: seq<TrustAnchor>): Option<TrustAnchor> {
    if anchors == [] then None else if anchors[0].enabled then Some(anchors[0]) else FirstEnabled(anchors[1..])
  }

  function ValidateLeaf(input: CertificateValidationInput, anchors: seq<TrustAnchor>,
                        identity: Option<IdentityRequirement>, now: Time)
    : Result<ValidationResult, ChainValidationError>
  {
    match input.validity.Validate(now)
    case Err(e) => Err(CertificateInvalid(e))
    case Ok(_) =>
      if input.isCa then Err(LeafIsCa)
      else if !input.digitalSignature then Err(CertificateInvalid(MissingKeyUsage))
      else
        var met := if identity.Some? then ValidateIdentity(input, identity.value) else Ok(());
        if met.Err? then Err(met.error)
        else if FirstEnabled(anchors).None? then Err(NoTrustAnchor)
        else Ok(ValidationResult(true, 1, Some(FirstEnabled(anchors).value.id)))
  }

  lemma {:induction false} FirstEnabledExactly(anchors: seq<TrustAnchor>)
    ensures FirstEnabled(anchors).Some? <==> exists i :: 0 <= i < |anchors| && anchors[i].enabled
    ensures FirstEnabled(anchors).Some? ==>
      exists i :: 0 <= i < |anchors| && anchors[i].enabled && anchors[i] == FirstEnabled(anchors).value
                  && forall j :: 0 <= j < i ==> !anchors[j].enabled
  {
    if anchors == [] {
    } else if anchors[0].enabled {
    } else {
      FirstEnabledExactly(anchors[1..]);
      assert forall i :: 0 < i < |anchors| ==> anchors[i] == anchors[1..][i - 1];
      if FirstEnabled(anchors[1..]).Some? {
        var i :| 0 <= i < |anchors[1..]| && anchors[1..][i].enabled && anchors[1..][i] == FirstEnabled(anchors).value
                 && forall j :: 0 <= j < i ==> !anchors[1..][j].enabled;
        assert anchors[i + 1] == FirstEnabled(anchors).value;
      }
    }
  }

  /** A leaf is accepted on its facts exactly when it is an end entity within its dates that may
      sign, has the identity asked for, and some anchor is enabled; the first such anchor is
      reported. */
  lemma LeafAcceptedExactly(input: CertificateValidationInput, anchors: seq<TrustAnchor>,
                            identity: Option<IdentityRequirement>, now: Time)
    ensures var r := ValidateLeaf(input, anchors, identity, now);
      && (r.Ok? <==>
            && input.validity.notBefore <= now <= input.validity.notAfter
            && !input.isCa && input.digitalSignature
            && (identity.Some? ==>
                  Meets(identity.value, input.dnsNames, input.ipAddresses, input.serverAuth, input.clientAuth))
            && exists i :: 0 <= i < |anchors| && anchors[i].enabled)
      && (r.Ok? ==> exists i :: 0 <= i < |anchors| && anchors[i].enabled
                      && (forall j :: 0 <= j < i ==> !anchors[j].enabled)
                      && r.value == ValidationResult(true, 1, Some(anchors[i].id)))
  {
    FirstEnabledExactly(anchors);
    if identity.Some? {
      IdentityExactly(input, identity.value);
    }
  }

  /** With its facts read off faithfully, an issued leaf satisfies an identity requirement exactly
      when the request asked for that identity: the DNS name up to ASCII case, the address,
      and the usages. */
  lemma IssuedLeafMeetsRequirementExactly(ca: Authority, request: CertificateRequest, validity: CertificateValidity,
                                          crypto: Crypto, anchors: seq<TrustAnchor>,
                                          requirement: IdentityRequirement, now: Time)
    requires IssuedCertificate(ca, request, validity, crypto).Ok?
    ensures var leaf := IssuedCertificate(ca, request, validity, crypto).value;
            ValidateLeaf(FactsOf(leaf), anchors, Some(requirement), now).Ok? <==>
              && validity.notBefore <= now <= validity.notAfter
              && (exists i :: 0 <= i < |anchors| && anchors[i].enabled)
              && Meets(requirement, request.dnsNames, request.ipAddresses, request.serverAuth, request.clientAuth)
  {
    IssuedCertificateTellsItsRequest(ca, request, validity, crypto);
    LeafExactly(ca, request, validity, crypto);
    LeafAcceptedExactly(FactsOf(IssuedCertificate(ca, request, validity, crypto).value), anchors,
                        Some(requirement), now);
  }

  // ------------------------------------------------ nothing else is ever accepted

  /** One signing operation of the deployment. */
  datatype Act =
    | RootMade(root: Authority)
    | IntermediateMade(parent: Authority, child: Authority)
    | LeafMade(issuer: Authority, request: CertificateRequest, leaf: Certificate)
  {
    function Product(): Certificate {
      match this
      case RootMade(root) => root.certificate
      case IntermediateMade(_, child) => child.certificate
      case LeafMade(_, _, leaf) => leaf
    }

    function NewKey(): Key {
      Product().contents.publicKey
    }
  }

  /** The act is an execution of the code, for an authority that exists already. */
  ghost predicate Proper(past: seq<Act>, act: Act) {
    match act
    case RootMade(root) => exists cn, v, c :: GeneratedRoot(cn, v, c) == Ok(root)
    case IntermediateMade(parent, child) =>
      RootMade(parent) in past && exists cn, v, c :: GeneratedIntermediate(parent, cn, v, c) == Ok(child)
    case LeafMade(issuer, request, leaf) =>
      && (exists root :: IntermediateMade(root, issuer) in past)
      && exists v, c :: IssuedCertificate(issuer, request, v, c) == Ok(leaf)
  }

  /** A history of signing operations in which every key is generated afresh. */
  ghost predicate History(log: seq<Act>) {
    && (forall i :: 0 <= i < |log| ==> Proper(log[..i], log[i]))
    && (forall i, j :: 0 <= i < |log| && 0 <= j < |log| && log[i].NewKey() == log[j].NewKey() ==> i == j)
  }

  ghost predicate AuthorityKey(log: seq<Act>, key: Key) {
    exists i :: 0 <= i < |log| && !log[i].LeafMade? && log[i].NewKey() == key
  }

  /** Ideal signatures: a signature under an authority's key comes from the log. */
  ghost predicate Unforged(log: seq<Act>, c: Certificate) {
    AuthorityKey(log, c.signature.signer) ==> exists i :: 0 <= i < |log| && log[i].Product() == c
  }

  /** What an act's product was signed with. */
  lemma ActSigner(past: seq<Act>, act: Act)
    requires Proper(past, act)
    ensures match act
      case RootMade(root) =>
        root.key == act.NewKey() == act.Product().signature.signer && act.Product().CarriesCa()
      case IntermediateMade(parent, child) =>
        child.key == act.NewKey() && parent.key == act.Product().signature.signer && act.Product().CarriesCa()
      case LeafMade(issuer, request, leaf) =>
        issuer.key == leaf.signature.signer && !leaf.CarriesCa() && ValidateRequest(request).Ok?
  {
  }

  /** The act that made the authority which signed act number `i`. */
  lemma SignerOf(log: seq<Act>, i: nat) returns (s: nat)
    requires History(log) && i < |log|
    ensures s <= i && !log[s].LeafMade? && log[s].NewKey() == log[i].Product().signature.signer
    ensures log[i].RootMade? ==> s == i
    ensures log[i].IntermediateMade? ==> log[s] == RootMade(log[i].parent)
    ensures log[i].LeafMade? ==> log[s].IntermediateMade? && log[s].child == log[i].issuer
  {
    assert Proper(log[..i], log[i]);
    ActSigner(log[..i], log[i]);
    match log[i]
    case RootMade(root) => s := i;
    case IntermediateMade(parent, child) =>
      s :| 0 <= s < i && log[..i][s] == RootMade(parent);
      assert Proper(log[..s], log[s]);
      ActSigner(log[..s], log[s]);
    case LeafMade(issuer, request, leaf) =>
      var root :| IntermediateMade(root, issuer) in log[..i];
      s :| 0 <= s < i && log[..i][s] == IntermediateMade(root, issuer);
      assert Proper(log[..s], log[s]);
      ActSigner(log[..s], log[s]);
  }

  lemma AcceptedSignatures(leaf: Certificate, intermediate: Certificate, root: Certificate,
                           anchors: seq<TrustAnchor>, now: Time)
    requires ValidateDerChain(Encoded(leaf), Encoded(intermediate), Encoded(root), anchors, now).Ok?
    ensures intermediate.CarriesCa() && intermediate.signature.signer == root.contents.publicKey
    ensures !leaf.CarriesCa() && leaf.signature.signer == intermediate.contents.publicKey
  {
  }

  /** A CA certificate signed with a root's key is that root or an intermediate of it. */
  lemma SignedByRoot(log: seq<Act>, r: nat, c: Certificate) returns (m: nat)
    requires History(log) && r < |log| && log[r].RootMade? && Unforged(log, c)
    requires c.signature.signer == log[r].NewKey() && c.CarriesCa()
    ensures m < |log| && log[m].Product() == c && !log[m].LeafMade?
    ensures log[m].RootMade? ==> m == r
    ensures log[m].IntermediateMade? ==> log[m].parent == log[r].root
  {
    assert AuthorityKey(log, c.signature.signer);
    m :| 0 <= m < |log| && log[m].Product() == c;
    var sm := SignerOf(log, m);
    assert sm == r;
    assert Proper(log[..m], log[m]);
    ActSigner(log[..m], log[m]);
  }

  /** A leaf signed with an authority's key was issued by that authority. */
  lemma SignedByAuthority(log: seq<Act>, m: nat, c: Certificate) returns (n: nat)
    requires History(log) && m < |log| && !log[m].LeafMade? && Unforged(log, c)
    requires c.signature.signer == log[m].NewKey() && !c.CarriesCa()
    ensures n < |log| && log[n].LeafMade? && log[n].leaf == c && ValidateRequest(log[n].request).Ok?
    ensures log[m].IntermediateMade? && log[n].issuer == log[m].child
  {
    assert AuthorityKey(log, c.signature.signer);
    n :| 0 <= n < |log| && log[n].Product() == c;
    var sn := SignerOf(log, n);
    assert sn == m;
    assert Proper(log[..n], log[n]);
    ActSigner(log[..n], log[n]);
  }

  /** Soundness of the validator: whenever it accepts a chain under a generated root,
      and nobody forged an authority's signature, the leaf was issued by an intermediate of
      that very root, for a request that passed the issuance policy. */
  lemma AcceptedLeafWasIssued(log: seq<Act>, r: nat, leaf: Certificate, intermediate: Certificate,
                              anchors: seq<TrustAnchor>, now: Time) returns (m: nat, n: nat)
    requires History(log) && r < |log| && log[r].RootMade?
    requires Unforged(log, leaf) && Unforged(log, intermediate)
    requires ValidateDerChain(Encoded(leaf), Encoded(intermediate), Encoded(log[r].root.certificate), anchors, now).Ok?
    ensures m < |log| && n < |log|
    ensures log[m].IntermediateMade? && log[m].parent == log[r].root && log[m].child.certificate == intermediate
    ensures log[n].LeafMade? && log[n].leaf == leaf && log[n].issuer == log[m].child
    ensures ValidateRequest(log[n].request).Ok?
  {
    AcceptedSignatures(leaf, intermediate, log[r].root.certificate, anchors, now);
    m := SignedByRoot(log, r, intermediate);
    n := SignedByAuthority(log, m, leaf);
  }
}
