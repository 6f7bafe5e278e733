/** The durable certificate store, one call at a time. Overlapping calls are the subject
    of module Service. */
module Store {
  import opened Wrappers
  import opened Inventory

  datatype CertificateRecord = CertificateRecord(
    id: Uuid,
    serialNumber: string,
    commonName: string,
    dnsNames: seq<string>,
    ipAddresses: seq<string>,
    clientAuth: bool,
    serverAuth: bool,
    issuer: string,
    issuedAt: Time,
    notAfter: Option<Time>,
    revoked: bool,
    revokedAt: Option<Time>,
    revocationReason: Option<string>)

  type Records = map<Uuid, CertificateRecord>

  // ----------------------------------------------------------- what the calls do

  datatype StoreOp =
    | Insert(record: CertificateRecord)
    | Revoke(id: Uuid, reason: string, at: Time)
    | Remove(id: Uuid)
  {
    function Target(): Uuid {
      if Insert? then record.id else id
    }
  }

  /** The first revocation fixes the time and the reason; later ones change nothing. */
  function Revoked(record: CertificateRecord, reason: string, at: Time): CertificateRecord {
    if record.revoked then record
    else record.(revoked := true, revokedAt := Some(at), revocationReason := Some(reason))
  }

  function Apply(records: Records, op: StoreOp): Records {
    match op
    case Insert(record) => records[record.id := record]
    case Revoke(id, reason, at) => if id in records then records[id := Revoked(records[id], reason, at)] else records
    case Remove(id) => records - {id}
  }

  /** Whether the call goes on to write the store: revoking or removing an unknown id does not. */
  predicate Persists(records: Records, op: StoreOp) {
    op.Insert? || op.Target() in records
  }

  /** What one call does to the store: its own record, and no other. */
  lemma ApplyExactly(records: Records, op: StoreOp)
    ensures var after := Apply(records, op);
      && (op.Insert? ==> after.Keys == records.Keys + {op.record.id} && after[op.record.id] == op.record)
      && (op.Remove? ==> after.Keys == records.Keys - {op.id})
      && (op.Revoke? ==>
            && after.Keys == records.Keys
            && (op.id in records ==>
                  after[op.id] == (if records[op.id].revoked then records[op.id]
                                   else records[op.id].(revoked := true, revokedAt := Some(op.at),
                                                        revocationReason := Some(op.reason)))))
      && (forall id :: id in records && id != (if op.Insert? then op.record.id else op.id) ==>
            id in after && after[id] == records[id])
    ensures Persists(records, op) <==> op.Insert? || op.id in records
  {
  }

  predicate IsRevokedSerial(records: Records, serial: string) {
    exists id :: id in records && records[id].serialNumber == serial && records[id].revoked
  }

  function RevokedSerials(records: Records): set<string> {
    set id | id in records && records[id].revoked :: records[id].serialNumber
  }

  lemma RevokedSerialsAreQueried(records: Records, serial: string)
    ensures serial in RevokedSerials(records) <==> IsRevokedSerial(records, serial)
  {
  }

  // ----------------------------------------------------------------- the listing

  function ValuesAlong(records: Records, order: seq<Uuid>): seq<CertificateRecord>
    requires forall id :: id in order ==> id in records
    decreases |order|
  {
    if order == [] then [] else [records[order[0]]] + ValuesAlong(records, order[1..])
  }

  /** Places a record behind every record issued at the same time or later. */
  function Place(sorted: seq<CertificateRecord>, r: CertificateRecord): seq<CertificateRecord> {
    if sorted == [] || sorted[|sorted| - 1].issuedAt >= r.issuedAt then sorted + [r]
    else Place(sorted[..|sorted| - 1], r) + [sorted[|sorted| - 1]]
  }

  /** A stable sort by issue time, newest first. */
  function NewestFirst(records: seq<CertificateRecord>): seq<CertificateRecord> {
    if records == [] then [] else Place(NewestFirst(records[..|records| - 1]), records[|records| - 1])
  }

  ghost predicate Descending(s: seq<CertificateRecord>) {
    forall i, j :: 0 <= i < j < |s| ==> s[i].issuedAt >= s[j].issuedAt
  }

  function IssuedAtTime(s: seq<CertificateRecord>, t: Time): seq<CertificateRecord> {
    if s == [] then []
    else IssuedAtTime(s[..|s| - 1], t) + (if s[|s| - 1].issuedAt == t then [s[|s| - 1]] else [])
  }

  lemma {:induction false} PlacePermutes(sorted: seq<CertificateRecord>, r: CertificateRecord)
    ensures multiset(Place(sorted, r)) == multiset(sorted) + multiset{r}
  {
    var n := |sorted|;
    if sorted == [] || sorted[n - 1].issuedAt >= r.issuedAt {
    } else {
      PlacePermutes(sorted[..n - 1], r);
      assert sorted == sorted[..n - 1] + [sorted[n - 1]];
    }
  }

  lemma AppendKeepsDescending(s: seq<CertificateRecord>, r: CertificateRecord)
    requires Descending(s) && forall q :: q in s ==> q.issuedAt >= r.issuedAt
    ensures Descending(s + [r])
  {
  }

  lemma {:induction false} PlaceKeepsDescending(sorted: seq<CertificateRecord>, r: CertificateRecord)
    requires Descending(sorted)
    ensures Descending(Place(sorted, r))
  {
    var n := |sorted|;
    if sorted == [] || sorted[n - 1].issuedAt >= r.issuedAt {
      AppendKeepsDescending(sorted, r);
    } else {
      var init, last := sorted[..n - 1], sorted[n - 1];
      PlaceKeepsDescending(init, r);
      PlacePermutes(init, r);
      forall q | q in Place(init, r) ensures q.issuedAt >= last.issuedAt {
        assert q in multiset(Place(init, r));
        if q != r {
          assert q in init;
        }
      }
      AppendKeepsDescending(Place(init, r), last);
    }
  }

  lemma IssuedAtTimeOfExtension(s: seq<CertificateRecord>, r: CertificateRecord, t: Time)
    ensures IssuedAtTime(s + [r], t) == IssuedAtTime(s, t) + (if r.issuedAt == t then [r] else [])
  {
    assert (s + [r])[..|s|] == s;
  }

  lemma {:induction false} PlaceKeepsTies(sorted: seq<CertificateRecord>, r: CertificateRecord, t: Time)
    ensures IssuedAtTime(Place(sorted, r), t) == IssuedAtTime(sorted, t) + (if r.issuedAt == t then [r] else [])
  {
    var n := |sorted|;
    if sorted == [] || sorted[n - 1].issuedAt >= r.issuedAt {
      IssuedAtTimeOfExtension(sorted, r, t);
    } else {
      PlaceKeepsTies(sorted[..n - 1], r, t);
      IssuedAtTimeOfExtension(Place(sorted[..n - 1], r), sorted[n - 1], t);
    }
  }

  /** The listing is a stable sort: a permutation, newest first, and records issued at the
      same instant stay in iteration order. */
  lemma {:induction false} NewestFirstIsAStableSort(records: seq<CertificateRecord>, t: Time)
    ensures Descending(NewestFirst(records))
    ensures multiset(NewestFirst(records)) == multiset(records)
    ensures IssuedAtTime(NewestFirst(records), t) == IssuedAtTime(records, t)
  {
    if records == [] {
    } else {
      var init, last := records[..|records| - 1], records[|records| - 1];
      assert records == init + [last];
      NewestFirstIsAStableSort(init, t);
      PlacePermutes(NewestFirst(init), last);
      PlaceKeepsDescending(NewestFirst(init), last);
      PlaceKeepsTies(NewestFirst(init), last, t);
    }
  }

  function ListRecords(records: Records, order: seq<Uuid>): seq<CertificateRecord>
    requires forall id :: id in order ==> id in records
  {
    NewestFirst(ValuesAlong(records, order))
  }

  lemma {:induction false} ValuesAlongContents(records: Records, order: seq<Uuid>, r: CertificateRecord)
    requires forall id :: id in order ==> id in records
    ensures r in ValuesAlong(records, order) <==> exists id :: id in order && records[id] == r
    decreases |order|
  {
    if order == [] {
    } else {
      ValuesAlongContents(records, order[1..], r);
      assert order == [order[0]] + order[1..];
    }
  }

  /** The listing holds exactly the stored records. */
  lemma ListHoldsTheRecords(records: Records, order: seq<Uuid>, r: CertificateRecord)
    requires Lists(order, records.Keys)
    ensures r in ListRecords(records, order) <==> r in records.Values
  {
    NewestFirstIsAStableSort(ValuesAlong(records, order), 0);
    assert r in ListRecords(records, order) <==> r in multiset(ListRecords(records, order));
    assert r in ValuesAlong(records, order) <==> r in multiset(ValuesAlong(records, order));
    ValuesAlongContents(records, order, r);
    assert forall id :: id in order <==> id in Elements(order);
  }

  /** The listing runs from the newest record to the oldest; records issued at the same instant
      come in iteration order. */
  lemma ListIsNewestFirst(records: Records, order: seq<Uuid>, i: nat, j: nat, t: Time)
    requires forall id :: id in order ==> id in records
    ensures i < j < |ListRecords(records, order)| ==>
              ListRecords(records, order)[i].issuedAt >= ListRecords(records, order)[j].issuedAt
    ensures IssuedAtTime(ListRecords(records, order), t) == IssuedAtTime(ValuesAlong(records, order), t)
  {
    NewestFirstIsAStableSort(ValuesAlong(records, order), t);
  }

  // --------------------------------------------------------------- the store itself

  datatype StoreError = Io | Serialization

  /** Where writing the store fails, if it does. */
  datatype PersistFault = NoFault | WhileSerializing | CreatingDirectory | WritingTemporary | Renaming
  {
    function Error(): StoreError
      requires !NoFault?
    {
      if WhileSerializing? then Serialization else Io
    }
  }

  /** What may be found under the name of the store file. */
  datatype StoreFile = Missing | Unreadable | Blank | Unparsable | Holding(records: Records)

  class CertificateStore {
    var records: Records
    var temporary: Option<Records>
    var disk: Option<Records>  // what the store file holds, if there is one

    constructor (disk: Option<Records>)
      ensures this.disk == disk && temporary == None
      ensures records == if disk.Some? then disk.value else map[]
    {
      this.disk, temporary := disk, None;
      records := if disk.Some? then disk.value else map[];
    }

    /** A missing or blank store file opens as an empty store; one that cannot be read or parsed
        does not open. */
    static method Open(file: StoreFile) returns (r: Result<CertificateStore, StoreError>)
      ensures file.Unreadable? <==> r == Err(Io)
      ensures file.Unparsable? <==> r == Err(Serialization)
      ensures r.Ok? ==> fresh(r.value) && r.value.temporary == None
      ensures r.Ok? ==> r.value.records == if file.Holding? then file.records else map[]
      ensures r.Ok? ==> r.value.disk == if file.Missing? then None else Some(r.value.records)
    {
      match file {
        case Missing => var store := new CertificateStore(None); return Ok(store);
        case Unreadable => return Err(Io);
        case Blank => var store := new CertificateStore(Some(map[])); return Ok(store);
        case Unparsable => return Err(Serialization);
        case Holding(records) => var store := new CertificateStore(Some(records)); return Ok(store);
      }
    }

    method Persist(fault: PersistFault) returns (r: Result<(), StoreError>)
      modifies `temporary, `disk
      ensures r == if fault.NoFault? then Ok(()) else Err(if fault.WhileSerializing? then Serialization else Io)
      ensures disk == if fault.NoFault? then Some(records) else old(disk)
      ensures temporary ==
              if fault.NoFault? then None else if fault.Renaming? then Some(records) else old(temporary)
    {
      if fault.WhileSerializing? {
        return Err(Serialization);
      }
      var serialized := records;
      if fault.CreatingDirectory? || fault.WritingTemporary? {
        return Err(Io);
      }
      temporary := Some(serialized);
      if fault.Renaming? {
        return Err(Io);
      }
      disk, temporary := temporary, None;
      return Ok(());
    }

    /** The record is in memory even when writing it fails. */
    method Insert(record: CertificateRecord, fault: PersistFault) returns (r: Result<Uuid, StoreError>)
      modifies this
      ensures records == Apply(old(records), StoreOp.Insert(record))
      ensures r == if fault.NoFault? then Ok(record.id)
                   else Err(if fault.WhileSerializing? then Serialization else Io)
      ensures disk == if fault.NoFault? then Some(records) else old(disk)
    {
      records := records[record.id := record];
      var persisted := Persist(fault);
      if persisted.Err? {
        return Err(persisted.error);
      }
      return Ok(record.id);
    }

    method Revoke(id: Uuid, reason: string, at: Time, fault: PersistFault)
      returns (r: Result<Option<CertificateRecord>, StoreError>)
      modifies this
      ensures records == Apply(old(records), StoreOp.Revoke(id, reason, at))
      ensures id !in old(records) ==> r == Ok(None) && disk == old(disk)
      ensures id in old(records) && fault.NoFault? ==>
                r == Ok(Some(records[id])) && records[id].revoked && disk == Some(records)
      ensures id in old(records) && !fault.NoFault? ==>
                && r == Err(if fault.WhileSerializing? then Serialization else Io)
                && disk == old(disk)
    {
      if id !in records {
        return Ok(None);
      }
      var record := records[id];
      if !record.revoked {
        record := record.(revoked := true, revokedAt := Some(at), revocationReason := Some(reason));
        records := records[id := record];
      }
      assert records == Apply(old(records), StoreOp.Revoke(id, reason, at));
      var persisted := Persist(fault);
      if persisted.Err? {
        return Err(persisted.error);
      }
      return Ok(Some(record));
    }

    method Remove(id: Uuid, fault: PersistFault) returns (r: Result<Option<CertificateRecord>, StoreError>)
      modifies this
      ensures records == Apply(old(records), StoreOp.Remove(id))
      ensures id !in old(records) ==> r == Ok(None) && disk == old(disk)
      ensures id in old(records) && fault.NoFault? ==> r == Ok(Some(old(records)[id])) && disk == Some(records)
      ensures id in old(records) && !fault.NoFault? ==>
                && r == Err(if fault.WhileSerializing? then Serialization else Io)
                && disk == old(disk)
    {
      if id !in records {
        assert records - {id} == records;
        return Ok(None);
      }
      var removed := records[id];
      records := records - {id};
      var persisted := Persist(fault);
      if persisted.Err? {
        return Err(persisted.error);
      }
      return Ok(Some(removed));
    }
  }
}
