/** Certificate revocation lists: how one is built from the store, numbered, signed and
    installed in the TLS acceptor, one call at a time. */
module Crl {
  import opened Wrappers
  import opened Codec
  import opened Inventory
  import opened Store

  // ------------------------------------------------------------------ reasons

  datatype RevocationReason =
    | Unspecified | KeyCompromise | CaCompromise | AffiliationChanged | Superseded
    | CessationOfOperation | CertificateHold | RemoveFromCrl | PrivilegeWithdrawn | AaCompromise

  function ParseReason(value: string): RevocationReason {
    var text := LowerAscii(Trim(value));
    if text in ["keycompromise", "key_compromise", "key compromise"] then KeyCompromise
    else if text in ["cacompromise", "ca_compromise", "ca compromise"] then CaCompromise
    else if text in ["affiliationchanged", "affiliation_changed", "affiliation changed"] then AffiliationChanged
    else if text == "superseded" then Superseded
    else if text in ["cessationofoperation", "cessation_of_operation", "cessation of operation"]
      then CessationOfOperation
    else if text in ["certificatehold", "certificate_hold", "certificate hold"] then CertificateHold
    else if text in ["removefromcrl", "remove_from_crl", "remove from crl"] then RemoveFromCrl
    else if text in ["privilegelwithdrawn", "privilegewithdrawn", "privilege_withdrawn", "privilege withdrawn"]
      then PrivilegeWithdrawn
    else if text in ["aacompromise", "aa_compromise", "aa compromise"] then AaCompromise
    else Unspecified
  }

  /** The spellings of each reason that has any. */
  function SpellingsOf(reason: RevocationReason): seq<string> {
    match reason
    case Unspecified => []
    case KeyCompromise => ["keycompromise", "key_compromise", "key compromise"]
    case CaCompromise => ["cacompromise", "ca_compromise", "ca compromise"]
    case AffiliationChanged => ["affiliationchanged", "affiliation_changed", "affiliation changed"]
    case Superseded => ["superseded"]
    case CessationOfOperation => ["cessationofoperation", "cessation_of_operation", "cessation of operation"]
    case CertificateHold => ["certificatehold", "certificate_hold", "certificate hold"]
    case RemoveFromCrl => ["removefromcrl", "remove_from_crl", "remove from crl"]
    case PrivilegeWithdrawn =>
      ["privilegelwithdrawn", "privilegewithdrawn", "privilege_withdrawn", "privilege withdrawn"]
    case AaCompromise => ["aacompromise", "aa_compromise", "aa compromise"]
  }

  /** The reason a spelling belongs to shows in its first three letters. */
  predicate StartsLike(reason: RevocationReason, text: string) {
    |text| >= 3 &&
    match reason
    case Unspecified => false
    case KeyCompromise => text[0] == 'k'
    case CaCompromise => text[0] == 'c' && text[1] == 'a'
    case AffiliationChanged => text[0] == 'a' && text[1] == 'f'
    case Superseded => text[0] == 's'
    case CessationOfOperation => text[0] == 'c' && text[1] == 'e' && text[2] == 's'
    case CertificateHold => text[0] == 'c' && text[1] == 'e' && text[2] == 'r'
    case RemoveFromCrl => text[0] == 'r'
    case PrivilegeWithdrawn => text[0] == 'p'
    case AaCompromise => text[0] == 'a' && text[1] == 'a'
  }

  lemma ThirdLetterDecides(reason: RevocationReason, text: string)
    requires text in SpellingsOf(reason) && reason in {CaCompromise, CessationOfOperation, CertificateHold}
    ensures StartsLike(reason, text)
  {
  }

  lemma SpellingsStartAlike(reason: RevocationReason, text: string)
    requires text in SpellingsOf(reason)
    ensures StartsLike(reason, text)
  {
    if reason in {CaCompromise, CessationOfOperation, CertificateHold} {
      ThirdLetterDecides(reason, text);
    }
  }

  /** A reason is recognized exactly in its own spellings, whatever the case and the white space
      around them; any other text is an unspecified reason. */
  lemma ReasonExactly(value: string, reason: RevocationReason)
    ensures var text := LowerAscii(Trim(value));
      ParseReason(value) == reason <==>
        if reason == Unspecified then forall other :: text !in SpellingsOf(other) else text in SpellingsOf(reason)
  {
    var text := LowerAscii(Trim(value));
    forall other | text in SpellingsOf(other) ensures StartsLike(other, text) {
      SpellingsStartAlike(other, text);
    }
    ParsedIsSpelled(value);
  }

  lemma ParsedIsSpelled(value: string)
    ensures var text, parsed := LowerAscii(Trim(value)), ParseReason(value);
      if parsed == Unspecified then forall other :: text !in SpellingsOf(other) else text in SpellingsOf(parsed)
  {
  }

  // ------------------------------------------------------------------ the list

  datatype CrlEntry = CrlEntry(serialNumber: string, reason: RevocationReason, revokedAt: Time)

  datatype RevocationList = RevocationList(generatedAt: Time, nextUpdate: Time, entries: seq<CrlEntry>)
  {
    function AddRecord(entry: CrlEntry): RevocationList {
      this.(entries := entries + [entry])
    }

    predicate ContainsSerial(serial: string) {
      exists i :: 0 <= i < |entries| && entries[i].serialNumber == serial
    }
  }

  const SEVEN_DAYS: Time := 7 * 86_400 * 1_000_000_000

  function EntryFor(record: CertificateRecord, now: Time): CrlEntry {
    CrlEntry(
      record.serialNumber,
      ParseReason(if record.revocationReason.Some? then record.revocationReason.value else "unspecified"),
      if record.revokedAt.Some? then record.revokedAt.value else now)
  }

  /** A record without a date is dated now, one without a reason has none specified. */
  lemma EntryExactly(record: CertificateRecord, now: Time)
    ensures var entry := EntryFor(record, now);
      && entry.serialNumber == record.serialNumber
      && entry.revokedAt == (match record.revokedAt case None => now case Some(at) => at)
      && entry.reason == (match record.revocationReason case None => Unspecified case Some(text) => ParseReason(text))
  {
    var text := "unspecified";
    TrimKeepsSolidText(text);
    assert LowerAscii(text) == text;
    forall other ensures text !in SpellingsOf(other) {
      if text in SpellingsOf(other) {
        SpellingsStartAlike(other, text);
      }
    }
    ReasonExactly(text, Unspecified);
  }

  function RevokedOnly(listing: seq<CertificateRecord>): seq<CertificateRecord> {
    if listing == [] then []
    else
      var last := listing[|listing| - 1];
      RevokedOnly(listing[..|listing| - 1]) + (if last.revoked then [last] else [])
  }

  /** The entries a listing gives rise to: one for each revoked record, in listing order. */
  function EntriesOf(listing: seq<CertificateRecord>, now: Time): seq<CrlEntry> {
    var revoked := RevokedOnly(listing);
    seq(|revoked|, i requires 0 <= i < |revoked| => EntryFor(revoked[i], now))
  }

  lemma {:induction false} RevokedOnlyContents(listing: seq<CertificateRecord>, r: CertificateRecord)
    ensures multiset(RevokedOnly(listing))[r] == if r.revoked then multiset(listing)[r] else 0
  {
    if listing == [] {
    } else {
      RevokedOnlyContents(listing[..|listing| - 1], r);
      assert listing == listing[..|listing| - 1] + [listing[|listing| - 1]];
    }
  }

  lemma EntriesComeFromRevokedRecords(listing: seq<CertificateRecord>, now: Time, serial: string)
    ensures (exists i :: 0 <= i < |EntriesOf(listing, now)| && EntriesOf(listing, now)[i].serialNumber == serial)
       <==> (exists r :: r in listing && r.revoked && r.serialNumber == serial)
  {
    var revoked, entries := RevokedOnly(listing), EntriesOf(listing, now);
    if i :| 0 <= i < |entries| && entries[i].serialNumber == serial {
      assert revoked[i] in multiset(revoked);
      RevokedOnlyContents(listing, revoked[i]);
      assert revoked[i] in multiset(listing);
    }
    if r :| r in listing && r.revoked && r.serialNumber == serial {
      assert r in multiset(listing);
      RevokedOnlyContents(listing, r);
      assert r in multiset(revoked);
      var i :| 0 <= i < |revoked| && revoked[i] == r;
      assert entries[i].serialNumber == serial;
    }
  }

  function RevokedIds(records: Records, ids: set<Uuid>): set<Uuid> {
    set id | id in ids && id in records && records[id].revoked
  }

  lemma {:induction false} RevokedAlong(records: Records, order: seq<Uuid>)
    requires NoRepeats(order) && forall id :: id in order ==> id in records
    ensures |RevokedOnly(ValuesAlong(records, order))| == |RevokedIds(records, Elements(order))|
    decreases |order|
  {
    if order == [] {
      assert RevokedIds(records, Elements(order)) == {};
    } else {
      var id, rest := order[0], order[1..];
      RevokedAlong(records, rest);
      RevokedOnlyPrepend(records[id], ValuesAlong(records, rest));
      assert order == [id] + rest;
      assert Elements(order) == {id} + Elements(rest);
      if records[id].revoked {
        assert RevokedIds(records, Elements(order)) == {id} + RevokedIds(records, Elements(rest));
      } else {
        assert RevokedIds(records, Elements(order)) == RevokedIds(records, Elements(rest));
      }
    }
  }

  lemma {:induction false} RevokedOnlyPrepend(r: CertificateRecord, listing: seq<CertificateRecord>)
    ensures RevokedOnly([r] + listing) == (if r.revoked then [r] else []) + RevokedOnly(listing)
  {
    if listing == [] {
      assert [r][..0] == [] && [r] + listing == [r];
    } else {
      var init, last := listing[..|listing| - 1], listing[|listing| - 1];
      RevokedOnlyPrepend(r, init);
      assert ([r] + listing)[..|listing|] == [r] + init;
    }
  }

  lemma RevokedOnlyOfPermutation(listing: seq<CertificateRecord>, values: seq<CertificateRecord>)
    requires multiset(listing) == multiset(values)
    ensures |RevokedOnly(listing)| == |RevokedOnly(values)|
  {
    forall r ensures multiset(RevokedOnly(listing))[r] == multiset(RevokedOnly(values))[r] {
      RevokedOnlyContents(listing, r);
      RevokedOnlyContents(values, r);
    }
    assert multiset(RevokedOnly(listing)) == multiset(RevokedOnly(values));
    assert |multiset(RevokedOnly(listing))| == |multiset(RevokedOnly(values))|;
  }

  /** One entry for each revoked record of the store, whatever the iteration order. */
  lemma OneEntryPerRevokedRecord(records: Records, order: seq<Uuid>, now: Time)
    requires Inventory.Lists(order, records.Keys)
    ensures |EntriesOf(ListRecords(records, order), now)| == |RevokedIds(records, records.Keys)|
  {
    NewestFirstIsAStableSort(ValuesAlong(records, order), now);
    RevokedOnlyOfPermutation(ListRecords(records, order), ValuesAlong(records, order));
    RevokedAlong(records, order);
  }

  // ------------------------------------------------------------------- signing

  datatype RevokedCert = RevokedCert(serialNumber: seq<Byte>, revocationTime: Time, reason: RevocationReason)

  datatype SignedCrl = SignedCrl(number: nat, thisUpdate: Time, nextUpdate: Time, revoked: seq<RevokedCert>)
  {
    /** The revoked certificates are these entries, in order, each with its own serial, date and
        reason. */
    predicate Carries(entries: seq<CrlEntry>) {
      && |revoked| == |entries|
      && forall i :: 0 <= i < |entries| ==>
           && HexToBytes(entries[i].serialNumber) == Some(revoked[i].serialNumber)
           && revoked[i].revocationTime == entries[i].revokedAt
           && revoked[i].reason == entries[i].reason
    }

    /** CRL checking in the TLS verifier: serials are compared as numbers. */
    predicate Lists(serial: nat) {
      exists i :: 0 <= i < |revoked| && Value(revoked[i].serialNumber) == serial
    }
  }

  datatype CrlError = Generation | InvalidSerialNumber

  predicate Decodable(entries: seq<CrlEntry>) {
    forall i :: 0 <= i < |entries| ==> HexToBytes(entries[i].serialNumber).Some?
  }

  function RevokedCertFor(entry: CrlEntry): RevokedCert
    requires HexToBytes(entry.serialNumber).Some?
  {
    RevokedCert(HexToBytes(entry.serialNumber).value, entry.revokedAt, entry.reason)
  }

  function RevokedCerts(entries: seq<CrlEntry>): seq<RevokedCert>
    requires Decodable(entries)
  {
    seq(|entries|, i requires 0 <= i < |entries| => RevokedCertFor(entries[i]))
  }

  /** Signing fails exactly when some serial does not decode or the library fails. */
  method SignedDer(crl: RevocationList, number: nat, libraryFails: bool) returns (r: Result<SignedCrl, CrlError>)
    ensures r.Ok? <==> Decodable(crl.entries) && !libraryFails
    ensures r.Ok? ==> r.value == SignedCrl(number, crl.generatedAt, crl.nextUpdate, RevokedCerts(crl.entries))
    ensures r.Ok? ==> r.value.Carries(crl.entries)
    ensures r.Err? ==> (r.error == InvalidSerialNumber <==> !Decodable(crl.entries))
  {
    var revoked := [];
    var i := 0;
    while i < |crl.entries|
      invariant i <= |crl.entries| == |crl.entries[..i]| + (|crl.entries| - i)
      invariant Decodable(crl.entries[..i]) && revoked == RevokedCerts(crl.entries[..i])
    {
      var bytes := HexToBytes(crl.entries[i].serialNumber);
      if bytes.None? {
        return Err(InvalidSerialNumber);
      }
      assert crl.entries[..i + 1] == crl.entries[..i] + [crl.entries[i]];
      revoked := revoked + [RevokedCert(bytes.value, crl.entries[i].revokedAt, crl.entries[i].reason)];
      i := i + 1;
    }
    assert crl.entries[..i] == crl.entries;
    if libraryFails {
      return Err(Generation);
    }
    return Ok(SignedCrl(number, crl.generatedAt, crl.nextUpdate, revoked));
  }

  // -------------------------------------------------------------- numbering

  datatype GenerateError = CounterInvalid | CounterExhausted | FileAccess | Signing(cause: CrlError)

  /** The number the next list gets, given the text of the counter file. */
  function NextNumber(counterFile: Option<string>): Result<nat, GenerateError> {
    var current := if counterFile.Some? then ParseU64(Trim(counterFile.value)) else Some(0);
    match current
    case None => Err(CounterInvalid)
    case Some(n) => if n == U64_MAX then Err(CounterExhausted) else Ok(n + 1)
  }

  /** Without a counter file the first number is 1; a counter file has to hold a u64, and gives
      the number after it unless that does not exist. */
  lemma NextNumberExactly(counterFile: Option<string>)
    ensures counterFile.None? ==> NextNumber(counterFile) == Ok(1)
    ensures counterFile.Some? ==>
      NextNumber(counterFile) ==
        match ParseU64(Trim(counterFile.value))
        case None => Err(CounterInvalid)
        case Some(n) => if n == 18_446_744_073_709_551_615 then Err(CounterExhausted) else Ok(n + 1)
  {
  }

  /** A counter file the manager wrote itself is read back as the number written, so the
      next number is one more; at the largest u64 it is an error and not a wrap. */
  lemma NextNumberCountsOn(n: nat)
    requires n <= 18_446_744_073_709_551_615
    ensures NextNumber(Some(PrintDecimal(n)))
         == if n == 18_446_744_073_709_551_615 then Err(CounterExhausted) else Ok(n + 1)
  {
    CounterRoundTrip(n);
  }

  // ------------------------------------------------------------------- manager

  /** Where generating a list fails, apart from what its inputs determine. */
  datatype GenerateFault = NoFault | ReadingCounter | WritingCounter | Library | WritingList

  /** The counter file gives a next number, is read when it exists, and is written. */
  predicate Advances(counterFile: Option<string>, fault: GenerateFault) {
    NextNumber(counterFile).Ok? && !fault.WritingCounter? && !(fault.ReadingCounter? && counterFile.Some?)
  }

  class CrlManager {
    const store: CertificateStore
    var counterFile: Option<string>
    var crlFile: Option<SignedCrl>

    constructor (store: CertificateStore, counterFile: Option<string>)
      ensures this.store == store && this.counterFile == counterFile && crlFile == None
    {
      this.store, this.counterFile, this.crlFile := store, counterFile, None;
    }

    /** The counter is on disk before the number is used. */
    method NextCrlNumber(fault: GenerateFault) returns (r: Result<nat, GenerateError>)
      modifies `counterFile
      ensures r == if fault.ReadingCounter? && old(counterFile).Some? then Err(FileAccess)
                   else if NextNumber(old(counterFile)).Ok? && fault.WritingCounter? then Err(FileAccess)
                   else NextNumber(old(counterFile))
      ensures counterFile == if r.Ok? then Some(PrintDecimal(r.value)) else old(counterFile)
      ensures r.Ok? <==> Advances(old(counterFile), fault)
    {
      if fault.ReadingCounter? && counterFile.Some? {
        return Err(FileAccess);
      }
      var next := NextNumber(counterFile);
      if next.Err? {
        return next;
      }
      if fault.WritingCounter? {
        return Err(FileAccess);
      }
      counterFile := Some(PrintDecimal(next.value));
      return next;
    }

    /** The unsigned list: every revoked record of the listing, in listing order. */
    method BuildList(order: seq<Uuid>, now: Time, generatedAt: Time) returns (crl: RevocationList)
      requires Inventory.Lists(order, store.records.Keys)
      ensures crl == RevocationList(generatedAt, now + SEVEN_DAYS, EntriesOf(ListRecords(store.records, order), now))
    {
      crl := RevocationList(generatedAt, now + SEVEN_DAYS, []);
      var listing := ListRecords(store.records, order);
      var i := 0;
      while i < |listing|
        invariant i <= |listing|
        invariant crl == RevocationList(generatedAt, now + SEVEN_DAYS, EntriesOf(listing[..i], now))
      {
        assert listing[..i + 1][..i] == listing[..i];
        assert RevokedOnly(listing[..i + 1])
            == RevokedOnly(listing[..i]) + (if listing[i].revoked then [listing[i]] else []);
        if listing[i].revoked {
          crl := crl.AddRecord(EntryFor(listing[i], now));
        }
        i := i + 1;
      }
      assert listing[..i] == listing;
    }

    /** `order` is the store's iteration order; `now` dates the next update and records without
        a date of their own, and the list's own date `generatedAt` is read after it. A number is
        used up exactly when the counter could be advanced, also if the list then fails. */
    method GenerateAndPersist(order: seq<Uuid>, now: Time, generatedAt: Time, fault: GenerateFault)
      returns (r: Result<SignedCrl, GenerateError>)
      requires Inventory.Lists(order, store.records.Keys)
      modifies `counterFile, `crlFile
      ensures r.Ok? <==> Advances(old(counterFile), fault) && !fault.Library? && !fault.WritingList?
                         && Decodable(EntriesOf(ListRecords(store.records, order), now))
      ensures r.Ok? ==>
                && NextNumber(old(counterFile)) == Ok(r.value.number) && crlFile == Some(r.value)
                && Decodable(EntriesOf(ListRecords(store.records, order), now))
                && r.value == SignedCrl(r.value.number, generatedAt, now + 604_800_000_000_000,
                                        RevokedCerts(EntriesOf(ListRecords(store.records, order), now)))
      ensures r.Err? && Advances(old(counterFile), fault) ==>
                r.error == (if !Decodable(EntriesOf(ListRecords(store.records, order), now)) then
                              Signing(InvalidSerialNumber)
                            else if fault.Library? then Signing(Generation)
                            else FileAccess)
      ensures r.Err? ==> crlFile == old(crlFile)
      ensures counterFile == if Advances(old(counterFile), fault)
                             then Some(PrintDecimal(NextNumber(old(counterFile)).value)) else old(counterFile)
    {
      var number := NextCrlNumber(fault);
      if number.Err? {
        return Err(number.error);
      }
      var crl := BuildList(order, now, generatedAt);
      var der := SignedDer(crl, number.value, fault.Library?);
      if der.Err? {
        return Err(Signing(der.error));
      }
      if fault.WritingList? {
        return Err(FileAccess);
      }
      crlFile := Some(der.value);
      return Ok(der.value);
    }
  }

  // ---------------------------------------------------------- agreement with the store

  /** What a signed list says of one record. */
  predicate Describes(cert: RevokedCert, r: CertificateRecord, now: Time) {
    && HexToBytes(r.serialNumber) == Some(cert.serialNumber)
    && cert.revocationTime == (match r.revokedAt case None => now case Some(at) => at)
    && cert.reason == (match r.revocationReason case None => Unspecified case Some(text) => ParseReason(text))
  }

  /** The serial texts of the list are exactly the revoked serials of the store, whatever
      the iteration order: `contains_serial` and `is_revoked_serial` agree. */
  lemma ListAgreesWithStore(records: Records, order: seq<Uuid>, list: RevocationList, now: Time, serial: string)
    requires Inventory.Lists(order, records.Keys) && list.entries == EntriesOf(ListRecords(records, order), now)
    ensures list.ContainsSerial(serial) <==> IsRevokedSerial(records, serial)
  {
    var listing := ListRecords(records, order);
    EntriesComeFromRevokedRecords(listing, now, serial);
    if r :| r in listing && r.revoked && r.serialNumber == serial {
      ListHoldsTheRecords(records, order, r);
      var id :| id in records && records[id] == r;
    }
    if id :| id in records && records[id].serialNumber == serial && records[id].revoked {
      ListHoldsTheRecords(records, order, records[id]);
    }
  }

  ghost predicate AllRevokedDecode(records: Records) {
    forall serial :: IsRevokedSerial(records, serial) ==> HexToBytes(serial).Some?
  }

  /** A list can be signed exactly when every revoked serial in the store decodes: one
      record with an undecodable serial blocks every later list. */
  lemma ListIsSignableExactly(records: Records, order: seq<Uuid>, now: Time)
    requires Inventory.Lists(order, records.Keys)
    ensures Decodable(EntriesOf(ListRecords(records, order), now)) <==> AllRevokedDecode(records)
  {
    var entries := EntriesOf(ListRecords(records, order), now);
    var list := RevocationList(now, now + SEVEN_DAYS, entries);
    forall i | 0 <= i < |entries| ensures IsRevokedSerial(records, entries[i].serialNumber) {
      assert list.ContainsSerial(entries[i].serialNumber);
      ListAgreesWithStore(records, order, list, now, entries[i].serialNumber);
    }
    forall serial | IsRevokedSerial(records, serial)
      ensures exists i :: 0 <= i < |entries| && entries[i].serialNumber == serial
    {
      ListAgreesWithStore(records, order, list, now, serial);
    }
  }

  /** Every serial in the store was written by issuance. */
  ghost predicate AllIssuedHere(records: Records) {
    forall id :: id in records ==> exists n :: StoredSerial(n) == records[id].serialNumber
  }

  /** For certificates issued by this service a signed list rejects serial number n exactly
      when the store has the certificate with that number as revoked. */
  lemma SignedListRejectsExactlyTheRevoked(records: Records, order: seq<Uuid>, now: Time, signed: SignedCrl, n: nat)
    requires Inventory.Lists(order, records.Keys) && AllIssuedHere(records)
    ensures Decodable(EntriesOf(ListRecords(records, order), now))
    ensures signed.revoked == RevokedCerts(EntriesOf(ListRecords(records, order), now)) ==>
              (signed.Lists(n) <==> IsRevokedSerial(records, StoredSerial(n)))
  {
    forall serial | IsRevokedSerial(records, serial)
      ensures exists m :: StoredSerial(m) == serial && HexToBytes(serial).Some?
    {
      var id :| id in records && records[id].serialNumber == serial && records[id].revoked;
      var m :| StoredSerial(m) == records[id].serialNumber;
      StoredSerialRoundTrip(m);
    }
    ListIsSignableExactly(records, order, now);
    var entries := EntriesOf(ListRecords(records, order), now);
    var list := RevocationList(now, now + SEVEN_DAYS, entries);
    if signed.revoked != RevokedCerts(entries) {
      return;
    }
    StoredSerialRoundTrip(n);
    ListAgreesWithStore(records, order, list, now, StoredSerial(n));
    if i :| 0 <= i < |entries| && Value(signed.revoked[i].serialNumber) == n {
      assert list.ContainsSerial(entries[i].serialNumber);
      ListAgreesWithStore(records, order, list, now, entries[i].serialNumber);
      var m :| StoredSerial(m) == entries[i].serialNumber && HexToBytes(entries[i].serialNumber).Some?;
      StoredSerialRoundTrip(m);
    }
    if i :| 0 <= i < |entries| && entries[i].serialNumber == StoredSerial(n) {
      assert Value(signed.revoked[i].serialNumber) == n;
    }
  }

  /** The revoked certificates of a signed list are the store's revoked records, with the serial
      bytes, the date and the reason of each: every record has its place, and every place
      its record. */
  lemma SignedListCarriesTheRecords(records: Records, order: seq<Uuid>, now: Time, signed: SignedCrl,
                                    r: CertificateRecord)
    requires Inventory.Lists(order, records.Keys)
    requires signed.Carries(EntriesOf(ListRecords(records, order), now))
    ensures r in records.Values && r.revoked ==>
              exists i :: 0 <= i < |signed.revoked| && Describes(signed.revoked[i], r, now)
    ensures forall i :: 0 <= i < |signed.revoked| ==>
              exists q :: q in records.Values && q.revoked && Describes(signed.revoked[i], q, now)
  {
    var listing := ListRecords(records, order);
    var kept := RevokedOnly(listing);
    forall i | 0 <= i < |signed.revoked|
      ensures kept[i] in records.Values && kept[i].revoked && Describes(signed.revoked[i], kept[i], now)
    {
      assert kept[i] in multiset(kept);
      RevokedOnlyContents(listing, kept[i]);
      assert kept[i] in multiset(listing);
      ListHoldsTheRecords(records, order, kept[i]);
      EntryExactly(kept[i], now);
    }
    if r in records.Values && r.revoked {
      ListHoldsTheRecords(records, order, r);
      assert r in multiset(listing);
      RevokedOnlyContents(listing, r);
      assert r in multiset(kept);
      var i :| 0 <= i < |kept| && kept[i] == r;
      assert Describes(signed.revoked[i], r, now);
    }
  }

  // --------------------------------------------------------------- the acceptor

  class TlsAcceptorManager {
    var acceptor: SignedCrl  // the revocation state new handshakes are checked against
    const crlManager: CrlManager

    constructor (initial: SignedCrl, crlManager: CrlManager)
      ensures acceptor == initial && this.crlManager == crlManager
    {
      this.acceptor, this.crlManager := initial, crlManager;
    }

    method Replace(crl: SignedCrl)
      modifies `acceptor
      ensures acceptor == crl
    {
      acceptor := crl;
    }

    /** Either the acceptor is the freshly persisted list, or it is what it was before. */
    method Refresh(order: seq<Uuid>, now: Time, generatedAt: Time, fault: GenerateFault, configFails: bool)
      returns (r: Result<(), ()>)
      requires Inventory.Lists(order, crlManager.store.records.Keys)
      modifies this, crlManager
      ensures r.Err? ==> acceptor == old(acceptor)
      ensures r.Ok? ==>
                && crlManager.crlFile == Some(acceptor)
                && Decodable(EntriesOf(ListRecords(crlManager.store.records, order), now))
                && acceptor == SignedCrl(acceptor.number, generatedAt, now + 604_800_000_000_000,
                                         RevokedCerts(EntriesOf(ListRecords(crlManager.store.records, order), now)))
                && NextNumber(old(crlManager.counterFile)) == Ok(acceptor.number)
      ensures r.Ok? <==> Advances(old(crlManager.counterFile), fault) && !fault.Library? && !fault.WritingList?
                         && Decodable(EntriesOf(ListRecords(crlManager.store.records, order), now)) && !configFails
    {
      var crl := crlManager.GenerateAndPersist(order, now, generatedAt, fault);
      if crl.Err? {
        return Err(());
      }
      if configFails {
        return Err(());
      }
      Replace(crl.value);
      return Ok(());
    }
  }
}
