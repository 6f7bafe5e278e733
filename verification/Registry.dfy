/** The identity registry: machine identities by id, bound one-to-one to certificate
    fingerprints. */
module Registry {
  import opened Wrappers

  datatype IdentityType = Device | Workload | Service | Human

  datatype IdentityStatus = Active | Disabled | Revoked

  datatype Identity = Identity(
    id: Uuid,
    name: string,
    kind: IdentityType,
    fingerprint: string,
    status: IdentityStatus,
    roles: seq<string>,
    createdAt: Time,
    updatedAt: Time)

  datatype RegistryError =
    | AlreadyExists(id: Uuid)
    | FingerprintAlreadyBound(holder: Uuid)
    | NotFound(missing: Uuid)
    | FingerprintNotFound(fingerprint: string)
    | NotActive(refused: Uuid)

  datatype Snapshot = Snapshot(identities: map<Uuid, Identity>, fingerprints: map<string, Uuid>)

  const EMPTY := Snapshot(map[], map[])

  // ------------------------------------------------ what each operation leads to

  function AfterRegister(reg: Snapshot, i: Identity): (Result<Uuid, RegistryError>, Snapshot) {
    if i.id in reg.identities then (Err(AlreadyExists(i.id)), reg)
    else if i.fingerprint in reg.fingerprints then
      (Err(FingerprintAlreadyBound(reg.fingerprints[i.fingerprint])), reg)
    else (Ok(i.id), Snapshot(reg.identities[i.id := i], reg.fingerprints[i.fingerprint := i.id]))
  }

  datatype StatusChange = Disable | Enable | Revoke

  /** Revoked is final for disable and enable; revoking again only renews the timestamp. */
  function ChangedIdentity(i: Identity, change: StatusChange, now: Time): Identity {
    match change
    case Disable => if i.status == Revoked then i else i.(status := Disabled, updatedAt := now)
    case Enable => if i.status == Revoked then i else i.(status := Active, updatedAt := now)
    case Revoke => i.(status := Revoked, updatedAt := now)
  }

  function AfterChange(reg: Snapshot, id: Uuid, change: StatusChange, now: Time)
    : (Result<(), RegistryError>, Snapshot)
  {
    if id !in reg.identities then (Err(NotFound(id)), reg)
    else (Ok(()), reg.(identities := reg.identities[id := ChangedIdentity(reg.identities[id], change, now)]))
  }

  function FindByFingerprint(reg: Snapshot, fingerprint: string): Option<Identity> {
    if fingerprint in reg.fingerprints && reg.fingerprints[fingerprint] in reg.identities
    then Some(reg.identities[reg.fingerprints[fingerprint]]) else None
  }

  /** A missing role is reported like an inactive identity. */
  function Authorization(reg: Snapshot, fingerprint: string, role: string): Result<Identity, RegistryError> {
    match FindByFingerprint(reg, fingerprint)
    case None => Err(FingerprintNotFound(fingerprint))
    case Some(i) =>
      if i.status != Active then Err(NotActive(i.id))
      else if role !in i.roles then Err(NotActive(i.id))
      else Ok(i)
  }

  /** Registering stores the identity and binds its fingerprint, unless its id or its fingerprint
      is taken; nothing else changes. */
  lemma RegisterExactly(reg: Snapshot, i: Identity)
    ensures AfterRegister(reg, i) ==
      if i.id in reg.identities.Keys then (Err(AlreadyExists(i.id)), reg)
      else if i.fingerprint in reg.fingerprints.Keys then
        (Err(FingerprintAlreadyBound(reg.fingerprints[i.fingerprint])), reg)
      else
        (Ok(i.id), Snapshot(identities := reg.identities[i.id := i],
                            fingerprints := reg.fingerprints[i.fingerprint := i.id]))
  {
  }

  /** What a change does to one identity, by its status before; nobody else is touched. Disabled can
      be enabled again, Revoked cannot. */
  lemma ChangeExactly(reg: Snapshot, id: Uuid, change: StatusChange, now: Time)
    ensures var (r, after) := AfterChange(reg, id, change, now);
      if id !in reg.identities.Keys then (r, after) == (Err(NotFound(id)), reg)
      else
        var i := reg.identities[id];
        && r == Ok(()) && after.fingerprints == reg.fingerprints && after.identities.Keys == reg.identities.Keys
        && (forall other :: other in reg.identities && other != id ==> after.identities[other] == reg.identities[other])
        && after.identities[id] ==
             match (i.status, change)
             case (Revoked, Revoke) => i.(updatedAt := now)
             case (Revoked, _) => i
             case (_, Disable) => i.(status := Disabled, updatedAt := now)
             case (_, Enable) => i.(status := Active, updatedAt := now)
             case (_, Revoke) => i.(status := Revoked, updatedAt := now)
  {
  }

  // ---------------------------------------------------------------------- runs

  datatype Op =
    | Register(identity: Identity)
    | Change(id: Uuid, change: StatusChange, now: Time)
    | Edit(id: Uuid, edited: Identity)  // a caller writing through `get_mut`

  function Step(reg: Snapshot, op: Op): Snapshot {
    match op
    case Register(identity) => AfterRegister(reg, identity).1
    case Change(id, change, now) => AfterChange(reg, id, change, now).1
    case Edit(id, edited) =>
      if id in reg.identities then reg.(identities := reg.identities[id := edited]) else reg
  }

  function Run(reg: Snapshot, ops: seq<Op>): Snapshot
    decreases |ops|
  {
    if ops == [] then reg else Run(Step(reg, ops[0]), ops[1..])
  }

  /** The fingerprint map is a bijection between the fingerprints in use and the identities. */
  ghost predicate Bound(reg: Snapshot) {
    && (forall id :: id in reg.identities ==>
          && reg.identities[id].id == id
          && reg.identities[id].fingerprint in reg.fingerprints
          && reg.fingerprints[reg.identities[id].fingerprint] == id)
    && (forall f :: f in reg.fingerprints ==>
          && reg.fingerprints[f] in reg.identities
          && reg.identities[reg.fingerprints[f]].fingerprint == f)
  }

  /** Bindings are never dropped or moved. */
  ghost predicate Keeps(reg: Snapshot, later: Snapshot) {
    forall f :: f in reg.fingerprints ==> f in later.fingerprints && later.fingerprints[f] == reg.fingerprints[f]
  }

  /** An edit that leaves the id and the fingerprint of a registered identity alone. */
  predicate EditKeepsKeys(reg: Snapshot, op: Op) {
    op.Edit? && op.id in reg.identities ==>
      op.edited.id == op.id && op.edited.fingerprint == reg.identities[op.id].fingerprint
  }

  predicate EditsKeepKeys(reg: Snapshot, ops: seq<Op>)
    decreases |ops|
  {
    ops == [] || (EditKeepsKeys(reg, ops[0]) && EditsKeepKeys(Step(reg, ops[0]), ops[1..]))
  }

  lemma RegisterKeepsBindings(reg: Snapshot, i: Identity)
    requires Bound(reg)
    ensures Bound(AfterRegister(reg, i).1) && Keeps(reg, AfterRegister(reg, i).1)
  {
  }

  /** Replacing the value of one identity without touching its keys. */
  lemma RewriteKeepsBindings(reg: Snapshot, id: Uuid, i: Identity)
    requires Bound(reg) && id in reg.identities
    requires i.id == id && i.fingerprint == reg.identities[id].fingerprint
    ensures Bound(reg.(identities := reg.identities[id := i]))
  {
  }

  lemma StepKeepsBindings(reg: Snapshot, op: Op)
    requires Bound(reg) && EditKeepsKeys(reg, op)
    ensures Bound(Step(reg, op)) && Keeps(reg, Step(reg, op))
  {
    match op
    case Register(identity) => RegisterKeepsBindings(reg, identity);
    case Change(id, change, now) =>
      if id in reg.identities {
        RewriteKeepsBindings(reg, id, ChangedIdentity(reg.identities[id], change, now));
      }
    case Edit(id, edited) =>
      if id in reg.identities {
        RewriteKeepsBindings(reg, id, edited);
      }
  }

  /** `get_mut` does not rebind, so an edit breaks the bijection exactly when it touches the id or
      the fingerprint. */
  lemma EditKeepsBindingsExactly(reg: Snapshot, id: Uuid, edited: Identity)
    requires Bound(reg)
    ensures Bound(Step(reg, Edit(id, edited))) <==> EditKeepsKeys(reg, Edit(id, edited))
  {
    if EditKeepsKeys(reg, Edit(id, edited)) {
      StepKeepsBindings(reg, Edit(id, edited));
    } else {
      var after := Step(reg, Edit(id, edited));
      assert after.identities[id] == edited && after.fingerprints[reg.identities[id].fingerprint] == id;
    }
  }

  /** Over every run the bindings stay a bijection and only grow. */
  lemma {:induction false} BindingsHoldOverEveryRun(reg: Snapshot, ops: seq<Op>)
    requires Bound(reg) && EditsKeepKeys(reg, ops)
    ensures Bound(Run(reg, ops)) && Keeps(reg, Run(reg, ops))
    decreases |ops|
  {
    if ops == [] {
    } else {
      StepKeepsBindings(reg, ops[0]);
      BindingsHoldOverEveryRun(Step(reg, ops[0]), ops[1..]);
    }
  }

  ghost predicate Holds(reg: Snapshot, id: Uuid, fingerprint: string) {
    id in reg.identities && reg.identities[id].fingerprint == fingerprint
  }

  /** After any run, authorization succeeds exactly when the one holder of the fingerprint is
      active and has the role. */
  lemma AuthorizationIsExact(ops: seq<Op>, fingerprint: string, role: string)
    requires EditsKeepKeys(EMPTY, ops)
    ensures var reg := Run(EMPTY, ops);
      && (Authorization(reg, fingerprint, role).Ok? <==>
            exists id :: Holds(reg, id, fingerprint) && reg.identities[id].status == Active
                         && role in reg.identities[id].roles)
      && (Authorization(reg, fingerprint, role).Ok? ==>
            var i := Authorization(reg, fingerprint, role).value;
            Holds(reg, i.id, fingerprint) && reg.identities[i.id] == i)
      && (Authorization(reg, fingerprint, role) == Err(FingerprintNotFound(fingerprint)) <==>
            forall id :: !Holds(reg, id, fingerprint))
      && (forall id :: Holds(reg, id, fingerprint) && Authorization(reg, fingerprint, role).Err? ==>
            Authorization(reg, fingerprint, role) == Err(NotActive(id)))
      && (forall id, other :: Holds(reg, id, fingerprint) && Holds(reg, other, fingerprint) ==> id == other)
  {
    BindingsHoldOverEveryRun(EMPTY, ops);
    var reg := Run(EMPTY, ops);
    if FindByFingerprint(reg, fingerprint).Some? {
      assert Holds(reg, reg.fingerprints[fingerprint], fingerprint);
    }
  }

  /** No edit takes the Revoked status away from this identity. */
  predicate EditsKeepRevoked(ops: seq<Op>, id: Uuid) {
    forall i :: 0 <= i < |ops| && ops[i].Edit? && ops[i].id == id ==> ops[i].edited.status == Revoked
  }

  lemma {:induction false} RevokedStays(reg: Snapshot, ops: seq<Op>, id: Uuid)
    requires id in reg.identities && reg.identities[id].status == Revoked && EditsKeepRevoked(ops, id)
    ensures id in Run(reg, ops).identities && Run(reg, ops).identities[id].status == Revoked
    decreases |ops|
  {
    if ops != [] {
      assert forall i :: 0 <= i < |ops[1..]| ==> ops[1..][i] == ops[i + 1];
      RevokedStays(Step(reg, ops[0]), ops[1..], id);
    }
  }

  /** Once an identity is revoked its fingerprint is refused for ever, whatever is
      registered, enabled, disabled or edited afterwards, short of an edit of that status. */
  lemma RevokedForEver(before: seq<Op>, id: Uuid, now: Time, after: seq<Op>, role: string)
    requires EditsKeepKeys(EMPTY, before) && id in Run(EMPTY, before).identities
    requires EditsKeepKeys(AfterChange(Run(EMPTY, before), id, Revoke, now).1, after) && EditsKeepRevoked(after, id)
    ensures var fingerprint := Run(EMPTY, before).identities[id].fingerprint;
            var revoked := AfterChange(Run(EMPTY, before), id, Revoke, now).1;
            Authorization(Run(revoked, after), fingerprint, role) == Err(NotActive(id))
  {
    BindingsHoldOverEveryRun(EMPTY, before);
    var reg := Run(EMPTY, before);
    StepKeepsBindings(reg, Change(id, Revoke, now));
    var revoked := AfterChange(reg, id, Revoke, now).1;
    BindingsHoldOverEveryRun(revoked, after);
    RevokedStays(revoked, after, id);
    assert revoked.fingerprints[reg.identities[id].fingerprint] == id;
  }

  /** After a status change the holder is authorized exactly when it was enabled, never
      revoked, and has the role. */
  lemma StatusChangeDecides(before: seq<Op>, id: Uuid, change: StatusChange, now: Time, role: string)
    requires EditsKeepKeys(EMPTY, before) && id in Run(EMPTY, before).identities
    ensures var reg := Run(EMPTY, before);
            var i := reg.identities[id];
            var after := AfterChange(reg, id, change, now).1;
            Authorization(after, i.fingerprint, role).Ok? <==>
              change == Enable && i.status != Revoked && role in i.roles
  {
    BindingsHoldOverEveryRun(EMPTY, before);
    var reg := Run(EMPTY, before);
    assert reg.fingerprints[reg.identities[id].fingerprint] == id;
  }

  /** After an edit that keeps the keys the holder is authorized exactly as the edit says, even
      if it was revoked before: `get_mut` can undo a revocation. */
  lemma EditDecides(before: seq<Op>, id: Uuid, edited: Identity, role: string)
    requires EditsKeepKeys(EMPTY, before) && id in Run(EMPTY, before).identities
    requires EditKeepsKeys(Run(EMPTY, before), Edit(id, edited))
    ensures Authorization(Step(Run(EMPTY, before), Edit(id, edited)), edited.fingerprint, role).Ok? <==>
            edited.status == Active && role in edited.roles
  {
    BindingsHoldOverEveryRun(EMPTY, before);
    assert Run(EMPTY, before).fingerprints[edited.fingerprint] == id;
  }

  // -------------------------------------------------------------- the classes

  class MachineIdentity {
    var id: Uuid
    var name: string
    var kind: IdentityType
    var fingerprint: string
    var status: IdentityStatus
    var roles: seq<string>
    var createdAt: Time
    var updatedAt: Time

    function View(): Identity
      reads this
    {
      Identity(id, name, kind, fingerprint, status, roles, createdAt, updatedAt)
    }

    constructor (name: string, kind: IdentityType, fingerprint: string, freshId: Uuid, now: Time)
      ensures View() == Identity(freshId, name, kind, fingerprint, Active, [], now, now)
    {
      this.id, this.name, this.kind, this.fingerprint := freshId, name, kind, fingerprint;
      this.status, this.roles := Active, [];
      this.createdAt, this.updatedAt := now, now;
    }

    method WithRole(role: string)
      modifies `roles
      ensures View() == old(View()).(roles := if role in old(roles) then old(roles) else old(roles) + [role])
    {
      if role !in roles {
        roles := roles + [role];
      }
    }

    method ChangeStatus(change: StatusChange, now: Time)
      modifies `status, `updatedAt
      ensures View() == ChangedIdentity(old(View()), change, now)
    {
      match change {
        case Disable =>
          if status != Revoked {
            status, updatedAt := Disabled, now;
          }
        case Enable =>
          if status != Revoked {
            status, updatedAt := Active, now;
          }
        case Revoke =>
          status, updatedAt := Revoked, now;
      }
    }
  }

  class IdentityRegistry {
    var identities: map<Uuid, MachineIdentity>
    var fingerprints: map<string, Uuid>

    /** The map owns its identities, so none is stored under two ids. */
    ghost predicate Owned()
      reads this
    {
      forall a, b :: a in identities && b in identities && a != b ==> identities[a] != identities[b]
    }

    function View(): Snapshot
      reads this, identities.Values
    {
      Snapshot(map id | id in identities :: identities[id].View(), fingerprints)
    }

    constructor ()
      ensures Owned() && View() == EMPTY
    {
      identities, fingerprints := map[], map[];
    }

    method Register(identity: MachineIdentity) returns (r: Result<Uuid, RegistryError>)
      requires Owned() && identity !in identities.Values
      modifies this
      ensures Owned()
      ensures r == AfterRegister(old(View()), identity.View()).0
      ensures View() == AfterRegister(old(View()), identity.View()).1
    {
      if identity.id in identities {
        return Err(AlreadyExists(identity.id));
      }
      if identity.fingerprint in fingerprints {
        return Err(FingerprintAlreadyBound(fingerprints[identity.fingerprint]));
      }
      fingerprints := fingerprints[identity.fingerprint := identity.id];
      identities := identities[identity.id := identity];
      assert View().identities == old(View()).identities[identity.id := identity.View()];
      return Ok(identity.id);
    }

    method GetMut(id: Uuid) returns (r: Option<MachineIdentity>)
      ensures r == if id in identities then Some(identities[id]) else None
    {
      if id in identities {
        return Some(identities[id]);
      }
      return None;
    }

    method Change(id: Uuid, change: StatusChange, now: Time) returns (r: Result<(), RegistryError>)
      requires Owned()
      modifies identities.Values
      ensures Owned()
      ensures r == AfterChange(old(View()), id, change, now).0
      ensures View() == AfterChange(old(View()), id, change, now).1
    {
      var found := GetMut(id);
      if found.None? {
        return Err(NotFound(id));
      }
      found.value.ChangeStatus(change, now);
      assert View().identities == old(View()).identities[id := identities[id].View()];
      return Ok(());
    }

    method Authorize(fingerprint: string, role: string) returns (r: Result<MachineIdentity, RegistryError>)
      ensures r.Ok? ==> r.value in identities.Values
      ensures r.Ok? ==> Ok(r.value.View()) == Authorization(View(), fingerprint, role)
      ensures r.Err? ==> Err(r.error) == Authorization(View(), fingerprint, role)
    {
      if fingerprint !in fingerprints || fingerprints[fingerprint] !in identities {
        return Err(FingerprintNotFound(fingerprint));
      }
      var identity := identities[fingerprints[fingerprint]];
      if identity.status != Active {
        return Err(NotActive(identity.id));
      }
      if role !in identity.roles {
        return Err(NotActive(identity.id));
      }
      return Ok(identity);
    }
  }
}
