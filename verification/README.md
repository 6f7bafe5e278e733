# Daemon PKI: verified model

A Dafny model of the state and decisions of Daemon PKI, with proofs. It covers the
certificate inventory and its lifecycle engine, the durable certificate store, revocation
lists and the TLS acceptor that enforces them, certificate issuance with its audit log, the
two certificate authorities and the chain validator, and the identity registry.

| file | what it models |
|---|---|
| `Wrappers.dfy` | result types, identifiers, instants |
| `Codec.dfy` | trimming, the decimal list counter, hexadecimal serial numbers |
| `Lifecycle.dfy` | certificate metadata, the six-state machine, evaluation against the clock |
| `Inventory.dfy`, `InventoryRuns.dfy` | the inventory class; what holds over every run of its operations |
| `Sweeps.dfy` | lifecycle sweeps, alone and in sequence |
| `Renewal.dfy` | the renewal queue, work items, replacement requests |
| `Validity.dfy`, `Issuer.dfy`, `Chain.dfy` | validity windows, authorities and issuer, chain validator |
| `Store.dfy`, `Crl.dfy` | the certificate store and the revocation list manager, one call at a time |
| `Service.dfy` | store calls, list generations, start-up and crashes as a transition system |
| `ServiceInvariants.dfy`, `ServiceTheorems.dfy` | what holds under every interleaving |
| `ServiceGuards.dfy` | what two guards, at installation and at the counter write, give under every interleaving |
| `ServiceExclusive.dfy` | list generations that do not overlap pass both guards |
| `ServiceOverlap.dfy` | an undisturbed revocation, and what overlapping calls can lose |
| `Issuance.dfy`, `Http.dfy` | the issuance pipeline with its audit log; handler decisions |
| `Registry.dfy` | the identity registry |

## How it is modelled

- Instants are integers in nanoseconds, and every clock reading is an argument. An
  evaluation makes three readings (`Tick`), as the code does; sweeps and the renewal queue
  take one set of readings for each certificate. Statements about several readings ask
  only that the clock does not run backwards.
- A hash map yields its keys in some order; the order is an argument, and nothing is assumed
  of it beyond that it lists the keys once each.
- A record owned by a map is an object of a class; `Owned` says that no object is stored
  under two ids, which Rust's ownership gives. Each method that changes an object is tied to
  a function on values (`AfterRegister`, `AfterTransition`, `Apply`, `Booked`, ...), and the
  properties are proved about those functions. What such a function computes is also stated in
  terms that do not mention it, case by case and with the constants written out (the lemmas
  named `...Exactly`).
- In `Service` each lock operation, change of memory, file write and rename is one step.
  Every fallible step can fail, and a crash can come between any two. A crash loses threads,
  locks, memory and the acceptor; files stay, and the store is reopened from its file, so
  versions count on from the version on disk.
- Certificates are symbolic and signatures ideal: one verifies exactly when it was made
  with the matching key over the same contents. `History` is a log of signing operations with
  fresh keys; `Unforged` says that signatures under an authority's key come from that log.
- Address and identifier parsing, keys, serial numbers, record ids and every failure of a
  library or the file system are arguments.

## What the proofs found

- A store call can return an error although its change is on disk, because another call has
  published it: the other renames the shared temporary file first (`FailedCallMayBeOnDisk`,
  `MissingTemporaryMeansWritten`), or persists both changes before this call fails at a step
  of its own (`FailedSerialisationMayBeOnDisk`). Whatever a call returns, its change reaches
  the disk exactly when some rename takes effect after it (`ChangeReachesDiskExactly`).
- Ok(None) promises nothing about the disk: a removal whose write failed, made again, finds
  nothing to remove and writes nothing, and a restart brings the record back
  (`RemovedRecordComesBack`; when exactly: `AbsentAnswerIsDurableExactly`).
- List generation takes no lock of its own. When two generations overlap, a revocation
  answered 200 can be missing from the acceptor afterwards (`OverlapLosesAnsweredRevocation`),
  and while records are only added and revoked that is so exactly when the list installed
  last was taken before the change (`RevocationIsListedExactly`). Refusing to install a list
  older than the present one would be enough (`AnsweredRevocationsStayListed`).
- Overlapping generations can also sign a number twice (`OverlapRepeatsANumber`). No number is
  handed out twice exactly when every counter write still finds the number it was computed
  from (`NumbersIncreaseExactly`), which the code could check when it writes.
- Without overlap neither can happen, in any run with any crashes
  (`ExclusiveRunsPassTheGuards`).
- One revoked record whose serial does not decode blocks every later list
  (`ListIsSignableExactly`). Issuance never writes such a record.
- No inventory method moves a certificate to RenewalPending, and only from there is a
  renewal accepted, so without an edit through `get_mut` every renewal is refused, the queued
  ones included (`NoRenewalWithoutOutsideEdit`, `QueuedRenewalIsRefused`).
- A refused renewal is not atomic: it changes something exactly when the predecessor was
  RenewalPending, and leaves it Renewed without a replacement (`RefusedRenewal`,
  `RefusedRenewalIsNotAtomic`).
- The duplicate-fingerprint error is never raised; registering an indexed fingerprint makes
  the earlier holder unfindable by it (`RegisterKeepsCompletenessExactly`), and removing one of
  two certificates with the same fingerprint makes the other unfindable by it
  (`RemoveExactly`).
- A caller of the identity registry's `get_mut` can undo a revocation, and breaks the
  fingerprint map exactly by changing an id or a fingerprint (`EditDecides`,
  `EditKeepsBindingsExactly`).
- A sweep that meets a Revoked certificate past its end date stops there with an error
  (`SweepAtSucceedsExactly`, `FailedSweepIsPartial`).
- The serial text of a client identity differs from the stored text whenever the leading
  byte has its top bit set (`RawSerialDenotesSameNumber`).

## Model

| member | source | states |
|---|---|---|
| Codec.CounterRoundTrip | daemon-pki-api/src/crl.rs:97-132 | the counter text written for any u64 is read back, after trimming, as that number |
| Codec.ParseU64Exactly | daemon-pki-api/src/crl.rs:101-117 | the texts that hold a u64: digits in range, with or without one plus sign |
| Codec.TrimExactly | daemon-pki-api/src/crl.rs:113-117 | trimming cuts Unicode white space off both ends and nothing else |
| Codec.BlankExactly | daemon-pki-api/src/issuance.rs:376-382 | a common name counts as empty exactly when it is white space throughout |
| Codec.ByteLengthExactly | daemon-pki-api/src/issuance.rs:384-392 | lengths are counted in UTF-8 bytes: one a character, one more from U+0080, U+0800 and U+10000 on |
| Codec.LowerAsciiExactly | daemon-pki-api/src/crl.rs:136-137 | lower-casing changes nothing but the case of ASCII letters, and leaves no capital |
| Codec.SameIgnoringCaseExactly | daemon-pki-core/src/validation/chain.rs:346-356 | comparing lower-cased texts is comparing letter by letter regardless of ASCII case |
| Codec.StoredSerialRoundTrip | daemon-pki-api/src/issuance.rs:308-317 | the serial text stored at issuance decodes to the same number, for every serial |
| Codec.StoredSerialInjective | daemon-pki-api/src/issuance.rs:308-317 | different serial numbers never get the same text |
| Codec.RawSerialDenotesSameNumber | daemon-pki-api/src/tls/identity.rs:30-34 | the raw DER spelling denotes the same number, and is the same text exactly when the leading byte is below 128 (section 8.3 of X.690) |
| Codec.HexToBytesExactly | daemon-pki-core/src/revocation/crl.rs:154-169 | a text decodes to given bytes exactly when it is nonempty and each pair of characters spells one of them: two hexadecimal digits of either case, or a plus sign and a digit |
| Codec.TextRoundTripsExactly | daemon-pki-core/src/revocation/crl.rs:154-169 | a decodable text is printed back unchanged exactly when it is lower-case hexadecimal |
| Codec.SignedPairDecodes | daemon-pki-core/src/revocation/crl.rs:154-169 | a plus sign and a digit decode to the digit, and are not lower-case hexadecimal |
| Lifecycle.CertificateMetadata.constructor | daemon-pki-core/src/certificate/metadata.rs:70-98 | new metadata is Active with a 30-day window and no associations |
| Lifecycle.RenewalDueExactly | daemon-pki-core/src/certificate/metadata.rs:108-116 | only Active and Expiring certificates are due, and from which instant, under truncation to whole seconds, for windows of either sign |
| Lifecycle.RenewalDueIsMonotone | daemon-pki-core/src/certificate/metadata.rs:108-116 | once due, a certificate in the same state stays due |
| Lifecycle.Transition | daemon-pki-core/src/certificate/lifecycle.rs:189-298 | the in-place transition is the specified one: result, state and timestamp |
| Lifecycle.TransitionGrantedExactly | daemon-pki-core/src/certificate/lifecycle.rs:189-298 | which transitions are granted, stated by destination, what each outcome changes, and which error a refusal is |
| Lifecycle.TerminalStatesAbsorb | daemon-pki-core/src/certificate/lifecycle.rs:199-203 | Revoked and Expired absorb every history of requests |
| Lifecycle.RevocationRefusedOnlyWhenExpired | daemon-pki-core/src/certificate/lifecycle.rs:189-298 | after any history revocation is refused exactly when the certificate has expired, and then nothing changes it any more |
| Lifecycle.RenewedOnlyThroughPending | daemon-pki-core/src/certificate/lifecycle.rs:241-244 | every history that reaches Renewed passes through RenewalPending |
| Lifecycle.Evaluate | daemon-pki-core/src/certificate/lifecycle.rs:300-330 | the in-place evaluation is the specified one |
| Lifecycle.EvaluationTable | daemon-pki-core/src/certificate/lifecycle.rs:300-330 | evaluation fails exactly for Revoked past the end date; the state and timestamp it leads to as a decision table |
| Lifecycle.LateEvaluationAbsorbsEarly | daemon-pki-core/src/certificate/lifecycle.rs:300-330 | evaluating early and again later ends as evaluating only later does |
| Validity.ValidityExactly | daemon-pki-core/src/validation/certificate.rs:70-83 | which instants are accepted, too early, too late |
| Inventory.CertificateInventory.constructor | daemon-pki-core/src/certificate/inventory.rs:38-44 | a new inventory is empty |
| Inventory.CertificateInventory.Register | daemon-pki-core/src/certificate/inventory.rs:47-71 | registration has the specified result and effect on all three maps |
| Inventory.CertificateInventory.RegisterRenewal | daemon-pki-core/src/certificate/inventory.rs:74-102 | renewal has the specified result and effect, in place |
| Inventory.CertificateInventory.GetMut | daemon-pki-core/src/certificate/inventory.rs:114-121 | hands out the stored record itself, or NotFound |
| Inventory.CertificateInventory.Remove | daemon-pki-core/src/certificate/inventory.rs:167-184 | removal hands out the stored record and drops it with its two index keys |
| Inventory.CertificateInventory.Revoke | daemon-pki-core/src/certificate/inventory.rs:249-261 | revocation is one transition of one record |
| Inventory.CertificateInventory.MarkRenewed | daemon-pki-core/src/certificate/inventory.rs:264-276 | marking as renewed is one transition of one record |
| Inventory.CertificateInventory.FindBySerial | daemon-pki-core/src/certificate/inventory.rs:124-139 | serial lookup is the specified lookup |
| Inventory.CertificateInventory.FindByFingerprint | daemon-pki-core/src/certificate/inventory.rs:142-153 | fingerprint lookup is the specified lookup |
| Inventory.CertificateInventory.EvaluateLifecycle | daemon-pki-core/src/certificate/inventory.rs:223-246 | the sweep loop has the specified result and effect, also when it stops early |
| Inventory.CertificateInventory.StateCounts | daemon-pki-core/src/certificate/inventory.rs:279-318 | each count is the number of certificates in that state, and the total is the size of the inventory |
| Inventory.TallyCounts | daemon-pki-core/src/certificate/inventory.rs:279-318 | counting along any listing counts every state exactly |
| Inventory.EachCountIsItsState | daemon-pki-core/src/certificate/inventory.rs:279-318 | each count is that of its own state |
| InventoryRuns.IndexesHoldOverEveryRun | daemon-pki-core/src/certificate/inventory.rs:47-184 | over every run the serial index is exactly the inverse of the serials, and every fingerprint entry names a live certificate with that fingerprint |
| InventoryRuns.EditKeepsIndexesExactly | daemon-pki-core/src/certificate/inventory.rs:114-121 | an edit through get_mut keeps the indexes exactly when it leaves the indexed fields alone |
| InventoryRuns.RegisterExactly | daemon-pki-core/src/certificate/inventory.rs:47-71 | a registered certificate is found by id, serial and fingerprint and no other lookup changes; a taken id or serial is refused, id first |
| InventoryRuns.RemoveExactly | daemon-pki-core/src/certificate/inventory.rs:167-184 | a removed certificate is handed out and no longer found by id, serial or fingerprint; no other lookup changes |
| InventoryRuns.RevokeExactly | daemon-pki-core/src/certificate/inventory.rs:249-261 | revoking takes any certificate that has not expired to Revoked and touches nothing else |
| InventoryRuns.MarkRenewedExactly | daemon-pki-core/src/certificate/inventory.rs:264-276 | marking as renewed is granted from RenewalPending alone; which error otherwise |
| InventoryRuns.FindBySerialIsAScan | daemon-pki-core/src/certificate/inventory.rs:124-139 | after any run a serial lookup gives what a scan of all certificates gives |
| InventoryRuns.FindByFingerprintIsSound | daemon-pki-core/src/certificate/inventory.rs:142-153 | after any run a fingerprint lookup gives only a certificate with that fingerprint |
| InventoryRuns.RegisterKeepsCompletenessExactly | daemon-pki-core/src/certificate/inventory.rs:47-71 | a registration keeps every certificate findable by fingerprint exactly when the id or serial is taken, so that nothing is registered, or the fingerprint was not indexed before |
| InventoryRuns.FingerprintsFindableOverEveryRun | daemon-pki-core/src/certificate/inventory.rs:47-184 | with distinct fingerprints the fingerprint index is complete over every run |
| InventoryRuns.RegisterRenewalAcceptedExactly | daemon-pki-core/src/certificate/inventory.rs:74-102 | when a renewal is accepted |
| InventoryRuns.AcceptedRenewal | daemon-pki-core/src/certificate/inventory.rs:74-102 | predecessor Renewed, replacement as given but Active and with its associations, all else unchanged, one more entry, indexes kept |
| InventoryRuns.RefusedRenewal | daemon-pki-core/src/certificate/inventory.rs:74-102 | a refused renewal changes something exactly when the predecessor was RenewalPending; NotFound and lifecycle errors change nothing, a duplicate changes at most the predecessor's state and timestamp |
| InventoryRuns.RefusedRenewalIsNotAtomic | daemon-pki-core/src/certificate/inventory.rs:74-102 | a concrete renewal under a taken serial is refused and leaves its predecessor Renewed |
| InventoryRuns.NoRenewalWithoutOutsideEdit | daemon-pki-core/src/certificate/inventory.rs:74-102 | driven by its own methods from Active certificates, the inventory never reaches RenewalPending or Renewed and accepts no renewal |
| Sweeps.SweepEffect | daemon-pki-core/src/certificate/inventory.rs:223-246 | a sweep evaluates a prefix of its listing, touches nothing else, stops exactly at a Revoked certificate past its end date, and counts the states that moved |
| Sweeps.SweepAtSucceedsExactly | daemon-pki-core/src/certificate/inventory.rs:223-246 | at one instant, in any order, a sweep succeeds exactly when no Revoked certificate has reached its end date; then the result does not depend on the order |
| Sweeps.SecondSweepDoesNothing | daemon-pki-core/src/certificate/inventory.rs:223-246 | a second sweep at the same instant reports 0 and changes nothing |
| Sweeps.FailedSweepIsPartial | daemon-pki-core/src/certificate/inventory.rs:223-246 | after a failed sweep each certificate is untouched or fully evaluated |
| Sweeps.SweptInventoryIsCurrent | daemon-pki-core/src/certificate/lifecycle.rs:306-327 | after a successful sweep usable certificates pass the validator's date check, no Active one is due, and whatever is due is Expiring |
| Sweeps.ExpiryDiffersOnlyAtTheEndDate | daemon-pki-core/src/validation/certificate.rs:70-83 | inventory and validator disagree on expiry exactly at the instant of the end date |
| Sweeps.SweepFrequencyDoesNotMatter | daemon-pki-core/src/certificate/inventory.rs:223-246 | any sequence of sweeps before a last one, failed ones included, changes neither whether the last succeeds nor the states it leaves |
| Renewal.QueueHoldsExactlyTheDue | daemon-pki-core/src/certificate/lifecycle.rs:373-381 | one item per certificate due when candidates were taken (Active or Expiring, window open), in listing order: a first attempt at Renew with its identity and the time of queueing; the second filter drops nothing |
| Renewal.DueIdsAreDistinct | daemon-pki-core/src/certificate/inventory.rs:213-218 | the candidates are exactly the Active and Expiring certificates whose window is open, each once |
| Renewal.RenewalActionTable | daemon-pki-core/src/certificate/lifecycle.rs:332-354 | what the action filter makes of each state |
| Renewal.ReplacementKeepsIdentity | daemon-pki-core/src/certificate/lifecycle.rs:85-118 | a certificate issued for a work item carries the names, addresses and usages of the identity |
| Renewal.RenewalWorkItem.MarkAttempt | daemon-pki-core/src/certificate/lifecycle.rs:68-71 | the attempt counter saturates at the largest u32 |
| Renewal.RenewalWorkItem.BuildRequest | daemon-pki-core/src/certificate/lifecycle.rs:85-118 | the loops rebuild exactly the identity's request |
| Renewal.IssueReplacement | daemon-pki-core/src/certificate/lifecycle.rs:124-152 | an attempt is counted whatever the issuer answers, and only for Renew items |
| Renewal.RenewIntoInventory | daemon-pki-core/src/certificate/lifecycle.rs:154-183 | registers the replacement as specified and how it reports each failure |
| Renewal.QueuedRenewalIsRefused | daemon-pki-core/src/certificate/inventory.rs:74-102 | a renewal queued from an Active or Expiring certificate is refused and changes nothing |
| Issuer.SignatureBindsContents | daemon-pki-core/src/validation/chain.rs:268-284 | a signature verifies with one key over one set of contents |
| Issuer.RootExactly | daemon-pki-core/src/ca/root.rs:37-67 | a root exists for every name that is not blank: self-signed, self-issued, signing certificates and lists, without a path length |
| Issuer.IntermediateExactly | daemon-pki-core/src/ca/root.rs:123-164 | an intermediate is issued and signed by its root, with path length 0 |
| Issuer.RequestBuiltInOrder | daemon-pki-core/src/certificate/issuance.rs:30-49 | a new request asks for both usages; names and addresses are added in order |
| Issuer.CorePolicyExactly | daemon-pki-core/src/certificate/issuance.rs:109-144 | the core accepts a request exactly when it keeps every limit, and otherwise reports the first it does not keep |
| Issuer.LeafExactly | daemon-pki-core/src/certificate/issuance.rs:53-107 | what a leaf carries (issuer, key, serial, dates, rights, usages in order), and which error there is instead |
| Issuer.GenerateRoot | daemon-pki-core/src/ca/root.rs:30-67 | the step-by-step parameters are those of a self-signed unconstrained CA |
| Issuer.GenerateIntermediate | daemon-pki-core/src/ca/root.rs:123-164 | the step-by-step parameters are those of a CA with path length 0 signed by the root |
| Issuer.IssueCertificate | daemon-pki-core/src/certificate/issuance.rs:53-107 | the loops build exactly the specified certificate or the specified error |
| Issuer.IssuedCertificateTellsItsRequest | daemon-pki-core/src/certificate/issuance.rs:69-98 | DNS names, then addresses, in request order, and both usage flags can be read back from the certificate |
| Chain.AcceptsExactlyGoodChains | daemon-pki-core/src/validation/chain.rs:180-340 | the ordered checks accept exactly the chains whose names, signatures, rights, usages and dates are in order under an enabled anchor |
| Chain.VerdictNamesItsGround | daemon-pki-core/src/validation/chain.rs:180-340 | an accepted chain is reported under the first matching anchor; every rejection names a fault the chain has |
| Chain.GeneratedChainAcceptedExactly | daemon-pki-core/src/validation/chain.rs:180-340 | a generated chain is accepted exactly when its root is an enabled anchor and now lies in all three windows |
| Chain.RevocationStopsChainExactly | daemon-pki-core/src/validation/chain.rs:147-169 | asked with the store's answer, the validator refuses a leaf as revoked exactly when a list signed from that store has its serial number, and otherwise accepts exactly the good chains |
| Chain.PositionsCannotBeSwapped | daemon-pki-core/src/validation/chain.rs:227-237 | no issued leaf is accepted as intermediate or root, no generated CA as leaf |
| Chain.AcceptedLeafWasIssued | daemon-pki-core/src/validation/chain.rs:180-340 | without forged authority signatures every accepted leaf was issued by an intermediate of that very root for a request within policy |
| Chain.IdentityExactly | daemon-pki-core/src/validation/chain.rs:342-381 | when an identity requirement is met, and which error it is otherwise |
| Chain.LeafAcceptedExactly | daemon-pki-core/src/validation/chain.rs:79-124 | a leaf is accepted on its facts exactly when it is an end entity within its dates that may sign and has the identity asked for, under the first enabled anchor |
| Chain.IssuedLeafMeetsRequirementExactly | daemon-pki-core/src/validation/chain.rs:91-124 | with its facts read off faithfully by the caller, an issued leaf satisfies an identity requirement exactly when its request asked for that name (letter by letter up to ASCII case), address and usages |
| Store.ApplyExactly | daemon-pki-api/src/certificates.rs:107-219 | what a call does to its own record, and that it touches no other |
| Store.NewestFirstIsAStableSort | daemon-pki-api/src/certificates.rs:139-153 | the listing is a permutation, newest first, and stable |
| Store.ListHoldsTheRecords | daemon-pki-api/src/certificates.rs:139-153 | the listing holds exactly the stored records |
| Store.ListIsNewestFirst | daemon-pki-api/src/certificates.rs:139-153 | the listing runs from the newest record to the oldest, with ties in iteration order |
| Store.RevokedSerialsAreQueried | daemon-pki-api/src/certificates.rs:185-200 | the revoked serials are those the query reports |
| Store.CertificateStore.Open | daemon-pki-api/src/certificates.rs:80-101 | a missing or blank file opens as an empty store, a parsed one with its records; an unreadable one is an Io error, an unparsable one a Serialization error |
| Store.CertificateStore.Persist | daemon-pki-api/src/certificates.rs:234-257 | which failure leaves what in the temporary file and the store file |
| Store.CertificateStore.Insert | daemon-pki-api/src/certificates.rs:107-125 | Ok means on disk; an error still leaves the record in memory |
| Store.CertificateStore.Revoke | daemon-pki-api/src/certificates.rs:155-183 | the three outcomes, and what is revoked in memory and on disk in each |
| Store.CertificateStore.Remove | daemon-pki-api/src/certificates.rs:201-219 | the three outcomes, and what is gone from memory and disk in each |
| Crl.SignedDer | daemon-pki-core/src/revocation/crl.rs:84-116 | signing fails exactly when a serial does not decode or the library fails; otherwise every entry is there in order, with its serial bytes, date and reason |
| Crl.ReasonExactly | daemon-pki-api/src/crl.rs:135-175 | a reason is recognized exactly in its own spellings, whatever case and surrounding white space; any other text is unspecified |
| Crl.EntryExactly | daemon-pki-api/src/crl.rs:52-74 | the entry of a record, with the defaults for a missing date and reason |
| Crl.SignedListCarriesTheRecords | daemon-pki-api/src/crl.rs:47-80 | the signed entries are the store's revoked records, with the serial bytes, date and reason of each, both ways |
| Crl.NextNumberExactly | daemon-pki-api/src/crl.rs:97-132 | the first number is 1; a counter file that holds a u64 gives the next one, or an error |
| Crl.NextNumberCountsOn | daemon-pki-api/src/crl.rs:97-132 | after n comes n + 1, and after the largest u64 an error |
| Crl.CrlManager.NextCrlNumber | daemon-pki-api/src/crl.rs:97-132 | the number, or which error; the counter file holds the number before it is returned, and is unchanged on error |
| Crl.CrlManager.GenerateAndPersist | daemon-pki-api/src/crl.rs:36-95 | when a list is made; it holds the store's revoked records under the next number and is the list on file; a number is used up exactly when the counter could be advanced, whatever fails later |
| Crl.OneEntryPerRevokedRecord | daemon-pki-api/src/crl.rs:47-74 | one entry for each revoked record, in any iteration order |
| Crl.ListAgreesWithStore | daemon-pki-core/src/revocation/crl.rs:75-82 | contains_serial and is_revoked_serial agree on every text |
| Crl.ListIsSignableExactly | daemon-pki-core/src/revocation/crl.rs:84-102 | a list can be signed exactly when every revoked serial in the store decodes |
| Crl.SignedListRejectsExactlyTheRevoked | daemon-pki-core/src/revocation/crl.rs:84-116 | for certificates issued here the signed list rejects a serial number exactly when it is revoked in the store |
| Crl.TlsAcceptorManager.Replace | daemon-pki-api/src/tls/manager.rs:48-58 | the acceptor is the new one |
| Crl.TlsAcceptorManager.Refresh | daemon-pki-api/src/tls/manager.rs:60-82 | when a refresh succeeds; the acceptor is then the list just filed, and otherwise unchanged |
| ServiceInvariants.InvHoldsOverEveryRun | daemon-pki-api/src/certificates.rs:107-257 | lock discipline, lineage of memory, staged files, the store file and pending refreshes stay consistent under every interleaving with crashes |
| ServiceTheorems.CommittedCallsSurvive | daemon-pki-api/src/certificates.rs:234-257 | the store file is always one complete memory version, its version never decreases, and every call that persisted and returned Ok stays at or below it |
| ServiceTheorems.CommittedEffectIsOnDisk | daemon-pki-api/src/certificates.rs:107-219 | an insert that returned Ok, and a revocation or removal that returned Ok(Some), has its effect on disk, and in memory after any restart, until a later call discards that record |
| ServiceTheorems.AbsentAnswerIsDurableExactly | daemon-pki-api/src/certificates.rs:155-219 | an id answered as unknown is also absent from disk exactly unless the first unpersisted change of its record removed or replaced it |
| ServiceTheorems.ChangeReachesDiskExactly | daemon-pki-api/src/certificates.rs:234-257 | whatever its call returns, a change is on disk exactly when some thread's rename took effect after it |
| ServiceTheorems.MissingTemporaryMeansWritten | daemon-pki-api/src/certificates.rs:249-256 | a rename that finds its temporary file gone fails although the change is on disk |
| ServiceTheorems.FirstRevocationStands | daemon-pki-api/src/certificates.rs:170-175 | the first revocation fixes the time and reason of the list entry for good |
| ServiceTheorems.AcceptorReflectsTheStore | daemon-pki-api/src/tls/manager.rs:60-82 | the acceptor rejects what was revoked when its list was made: a subset of what is revoked now, with everything revoked before the listing |
| ServiceTheorems.RevocationIsListedExactly | daemon-pki-api/src/tls/manager.rs:60-82 | over every interleaving a revoked serial is rejected exactly when the installed list was made from the version that revoked it or a later one |
| ServiceTheorems.OnlyInstallationChangesTheAcceptor | daemon-pki-api/src/tls/manager.rs:60-82 | a failed refresh leaves the acceptor unchanged |
| ServiceTheorems.StepsWaitExactly | daemon-pki-api/src/certificates.rs:107-257 | when a step has to wait for a guard, and callers for the service |
| ServiceTheorems.StoreFailuresExactly | daemon-pki-api/src/certificates.rs:234-257 | a failing store step leaves memory and files alone and ends the call |
| ServiceTheorems.GenerationFailuresExactly | daemon-pki-api/src/crl.rs:36-132 | a failing generation step, or a serial that does not decode, ends the refresh and leaves everything else alone |
| ServiceTheorems.CrashExactly | daemon-pki-api/src/certificates.rs:80-101 | a crash loses what is not in a file, and the store comes back as its file has it |
| ServiceTheorems.ListingMatchesGeneration | daemon-pki-api/src/crl.rs:47-80 | the listing and signing steps agree with sequential generation, for any iteration order |
| ServiceGuards.AnsweredRevocationsStayListed | daemon-pki-api/src/http.rs:629-658 | if no installation goes back to an older list, every revocation answered 200 is listed whenever the service is up, then and after any restart |
| ServiceGuards.AnsweredRevocationsAreRejected | daemon-pki-api/src/http.rs:629-658 | the same for the signed list in a handshake: it has the serial number of every answered revocation |
| ServiceGuards.NumbersIncreaseExactly | daemon-pki-api/src/crl.rs:97-132 | over every run no list number is handed out twice, and they increase, exactly when every counter write still finds the number it was computed from |
| ServiceGuards.NoNumberIsSignedTwice | daemon-pki-api/src/crl.rs:36-132 | while every counter write is current no number is signed twice and the counter file is never behind a signed number (section 5.2.3 of RFC 5280) |
| ServiceExclusive.ExclusiveRunsPassTheGuards | daemon-pki-api/src/tls/manager.rs:60-82 | without overlapping generations no installation goes back and every counter write is current, over restarts, crashes and failures |
| ServiceExclusive.ListNumbersStrictlyIncrease | daemon-pki-api/src/crl.rs:36-132 | without overlapping generations signed numbers strictly increase over restarts, crashes and failures, bounded by the counter file (section 5.2.3 of RFC 5280) |
| ServiceExclusive.ExhaustedCounterStopsGeneration | daemon-pki-api/src/crl.rs:119-121 | whatever text stands for the largest u64, a generation ends with nothing changed, and no other text is refused as exhausted |
| ServiceOverlap.UndisturbedRevocationIsAnswered | daemon-pki-api/src/http.rs:629-658 | a revocation that meets no failure is answered 200, is on disk, and the acceptor lists the present store |
| ServiceOverlap.StartUpServes | daemon-pki-api/src/bin/server.rs:201-253 | start-up makes the first list from the reopened store before serving |
| ServiceOverlap.FailedCallMayBeOnDisk | daemon-pki-api/src/certificates.rs:234-257 | a run of two overlapping calls in which one returns an error although its change is on disk |
| ServiceOverlap.FailedSerialisationMayBeOnDisk | daemon-pki-api/src/certificates.rs:234-257 | a run in which a call fails before writing anything although another call has put its change on disk |
| ServiceOverlap.RemovedRecordComesBack | daemon-pki-api/src/certificates.rs:201-219 | a run in which a removal answered Ok(None) leaves the record on disk for the next restart |
| ServiceOverlap.OverlapLosesAnsweredRevocation | daemon-pki-api/src/tls/manager.rs:60-82 | a run of two overlapping generations after which an answered revocation is not rejected |
| ServiceOverlap.OverlapRepeatsANumber | daemon-pki-api/src/crl.rs:97-132 | a run of two overlapping generations that signs one number twice |
| Issuance.PolicyRefinesCoreExactly | daemon-pki-api/src/issuance.rs:372-460 | the service policy lets through only what the core accepts, exactly when its limits stay within 253/100/100 (or it refuses everything) |
| Issuance.ServicePolicyExactly | daemon-pki-api/src/issuance.rs:372-460 | a request is let through exactly when it keeps every limit, and otherwise the first it does not keep is reported |
| Issuance.DefaultPolicyExactly | daemon-pki-api/src/issuance.rs:48-58 | the default policy is the core policy for requests with a common name and some subject alternative name |
| Issuance.IssuanceService.BuildRequest | daemon-pki-api/src/issuance.rs:235-269 | the loops build the core request, or report the first address that does not parse and audit it |
| Issuance.IssuanceService.Issue | daemon-pki-api/src/issuance.rs:192-370 | the pipeline takes the specified exit, with its result, its audit event (id, time and reason included) and its effect on the store |
| Issuance.AuditConservation | daemon-pki-api/src/issuance.rs:192-370 | over every run one event per call except those lost after signing; Success events equal Ok answers; store growth equals Ok answers plus calls that failed to persist |
| Issuance.EventTellsResult | daemon-pki-api/src/issuance.rs:201-358 | type and outcome of the event match the result of the call; a store failure says whether the certificate did not parse again or was not persisted |
| Issuance.RefusedExactly | daemon-pki-api/src/issuance.rs:201-262 | which calls are refused before the issuer is asked, and with which error |
| Issuance.ExitExactly | daemon-pki-api/src/issuance.rs:271-370 | where an allowed call leaves the pipeline, with which record and response |
| Issuance.RecordExactly | daemon-pki-api/src/issuance.rs:325-336 | the stored record carries the serial, end date, names, addresses and usages, not revoked |
| Issuance.EventNamesTheCall | daemon-pki-api/src/issuance.rs:160-190 | every event has its own id and time, the caller's id and name, and the common name asked for |
| Issuance.EventNamesTheCause | daemon-pki-api/src/issuance.rs:201-358 | an event has a reason exactly when the call did not succeed, and it is the cause |
| Issuance.BookedExactly | daemon-pki-api/src/issuance.rs:192-370 | what each exit adds to the log and to the store |
| Issuance.IssuanceKeepsSerialsDecodable | daemon-pki-api/src/issuance.rs:308-340 | issuance only stores serials that the list builder decodes |
| Issuance.OkAnswerMeansIssuedAsAsked | daemon-pki-api/src/issuance.rs:192-370 | an Ok answer means an authorized caller, a request within policy, and a certificate with exactly the names and usages asked for, stored under its own serial |
| Issuance.AuditStore.Record | daemon-pki-api/src/audit/mod.rs:124-134 | recording appends one event |
| Http.RevokePathNamesExactly | daemon-pki-api/src/http.rs:704-718 | which paths name which identifier |
| Http.RevokePathsAreRouted | daemon-pki-api/src/http.rs:294-359 | every such path reaches the revocation handler by POST |
| Http.DispatchExactly | daemon-pki-api/src/http.rs:294-359 | which method and path reach which handler |
| Http.RolesExactly | daemon-pki-api/src/http.rs:83-112 | an allow-listed fingerprint gets the operator's three roles, any other none |
| Http.HttpApi.HandleIssue | daemon-pki-api/src/http.rs:364-448 | 403 to callers that are not allow-listed, with a denial in the log and no record; 201 exactly for certificates that are stored, and then on disk |
| Http.HttpApi.HandleRevoke | daemon-pki-api/src/http.rs:559-687 | each status is answered exactly when: 403 not allow-listed, 400 no id or body, 404 not stored, 200 persisted and refreshed, 500 otherwise; a stored id ends revoked in memory with time and reason, on disk and listed by the acceptor after 200 |
| Registry.BindingsHoldOverEveryRun | daemon-pki-core/src/identity/registry.rs:136-174 | over every run, edits through get_mut that keep the keys included, fingerprints and identities stay in bijection, and bindings are never dropped or moved |
| Registry.AuthorizationIsExact | daemon-pki-core/src/identity/registry.rs:200-230 | authorization succeeds exactly when the unique holder of the fingerprint is active and has the role; otherwise it tells an unbound fingerprint from a refused holder |
| Registry.RevokedForEver | daemon-pki-core/src/identity/registry.rs:262-275 | after a revocation the fingerprint is refused for ever, unless an edit takes the Revoked status away |
| Registry.StatusChangeDecides | daemon-pki-core/src/identity/registry.rs:83-100 | what enable, disable and revoke do to authorization |
| Registry.RegisterExactly | daemon-pki-core/src/identity/registry.rs:136-174 | registering stores the identity and binds its fingerprint unless either is taken; nothing else changes |
| Registry.ChangeExactly | daemon-pki-core/src/identity/registry.rs:83-100 | what disable, enable and revoke make of each status; Disabled can be enabled again, Revoked cannot |
| Registry.EditKeepsBindingsExactly | daemon-pki-core/src/identity/registry.rs:183-188 | an edit through get_mut keeps the bijection exactly when it leaves id and fingerprint alone |
| Registry.EditDecides | daemon-pki-core/src/identity/registry.rs:183-188 | after such an edit the holder is authorized exactly as the edit says, revoked before or not |
| Registry.MachineIdentity.constructor | daemon-pki-core/src/identity/registry.rs:46-64 | a new identity is active and has no roles |
| Registry.MachineIdentity.WithRole | daemon-pki-core/src/identity/registry.rs:66-77 | adds a role once |
| Registry.MachineIdentity.ChangeStatus | daemon-pki-core/src/identity/registry.rs:83-100 | the in-place status changes are the specified ones |
| Registry.IdentityRegistry.Register | daemon-pki-core/src/identity/registry.rs:136-174 | registration has the specified result and effect on both maps |
| Registry.IdentityRegistry.GetMut | daemon-pki-core/src/identity/registry.rs:183-188 | hands out the stored identity itself, if there is one |
| Registry.IdentityRegistry.Change | daemon-pki-core/src/identity/registry.rs:232-275 | disable, enable and revoke have the specified result and effect |
| Registry.IdentityRegistry.Authorize | daemon-pki-core/src/identity/registry.rs:200-230 | authorization is the specified one |

## Left out

- Sockets, TLS handshakes, HTTP parsing and JSON: library behaviour; CRL checking in a handshake is membership of the serial number in the installed list.
- X.509 encoding, PEM, key generation, hashing and signature mathematics: certificates are symbolic and encodings injective.
- Torn file writes, permissions, and two processes on one store: file writes and renames are atomic and the store is shared within one process.
- A store file that does not open (`Store.CertificateStore.Open` has it): module Service starts and restarts from files that do.
- Lock poisoning: no guarded section can panic in the code modelled.
- Authorities reloaded from PEM files: the reloaded issuer has the key and subject of the generated one.
- Non-ASCII serial text: slicing it by bytes can fall inside a character, which the decoder modelled here, on characters, does not show.
- Metadata setters (fingerprint, tags, assignments) and queries by state: covered by the general edit through `get_mut`, or easy.
- `evaluate_all`: the sweep with its error renamed. `validate_ca`: three of the checks `validate_der_chain` makes.
- The list and get handlers: they read the store after the same authorization test.
- `TrustStore` add and remove, `AuditStore` clear, OCSP, revocation record builders: easy members.
- Issuance.IssuanceService.Issue: the private key, the PEM text and the separate event value handed back with an Ok answer are not modelled, nor the text of a store or parse failure.
- Chain.IssuedLeafMeetsRequirementExactly: no function of the repository derives the validator's input from a certificate, so the facts are those a faithful caller would read off.
- Service: the read lock taken for one listing is one step; the store calls of issuance appear as inserts, their audit events in module Issuance.
- The agent crate, the command-line demo, the bootstrap client, deployment scripts and the empty placeholder modules.
