/** Certificate metadata and the lifecycle state machine. */
module Lifecycle {
  import opened Wrappers

  // ------------------------------------------------------------------- data

  datatype CertificateState = Active | Expiring | RenewalPending | Renewed | Revoked | Expired
  {
    predicate IsUsable() {
      Active? || Expiring?
    }

    predicate IsTerminal() {
      Revoked? || Expired?
    }
  }

  datatype IpAddr = V4(bits: nat) | V6(bits: nat)

  datatype CertificateIdentity = CertificateIdentity(
    commonName: Option<string>,
    dnsNames: seq<string>,
    ipAddresses: seq<IpAddr>,
    clientAuth: bool,
    serverAuth: bool)

  /** The value of one metadata record at one moment. */
  datatype Metadata = Metadata(
    id: Uuid,
    serialNumber: string,
    issuer: string,
    subject: string,
    identity: CertificateIdentity,
    state: CertificateState,
    notBefore: Time,
    notAfter: Time,
    fingerprint: Option<string>,
    createdAt: Time,
    updatedAt: Time,
    renewalWindowSeconds: int,
    workloadId: Option<string>,
    deviceId: Option<string>,
    serviceId: Option<string>,
    tags: seq<string>)

  datatype LifecycleError =
    | InvalidTransition(from: CertificateState, to: CertificateState)
    | TerminalState(state: CertificateState)

  const DEFAULT_RENEWAL_WINDOW_SECONDS := 2_592_000

  /** The mutable record that the inventory owns; `View` is its value. */
  class CertificateMetadata {
    var id: Uuid
    var serialNumber: string
    var issuer: string
    var subject: string
    var identity: CertificateIdentity
    var state: CertificateState
    var notBefore: Time
    var notAfter: Time
    var fingerprint: Option<string>
    var createdAt: Time
    var updatedAt: Time
    var renewalWindowSeconds: int
    var workloadId: Option<string>
    var deviceId: Option<string>
    var serviceId: Option<string>
    var tags: seq<string>

    function View(): Metadata
      reads this
    {
      Metadata(id, serialNumber, issuer, subject, identity, state, notBefore, notAfter, fingerprint,
               createdAt, updatedAt, renewalWindowSeconds, workloadId, deviceId, serviceId, tags)
    }

    constructor (serialNumber: string, issuer: string, subject: string, identity: CertificateIdentity,
                 notBefore: Time, notAfter: Time, freshId: Uuid, now: Time)
      ensures View() == Metadata(freshId, serialNumber, issuer, subject, identity, Active, notBefore, notAfter,
                                 None, now, now, 2_592_000, None, None, None, [])
    {
      this.id := freshId;
      this.serialNumber, this.issuer, this.subject := serialNumber, issuer, subject;
      this.identity := identity;
      this.state := Active;
      this.notBefore, this.notAfter := notBefore, notAfter;
      this.fingerprint := None;
      this.createdAt, this.updatedAt := now, now;
      this.renewalWindowSeconds := DEFAULT_RENEWAL_WINDOW_SECONDS;
      this.workloadId, this.deviceId, this.serviceId := None, None, None;
      this.tags := [];
    }
  }

  // ------------------------------------------------------------ renewal window

  const NANOS_PER_SECOND := 1_000_000_000

  /** `Duration::whole_seconds`: the quotient is truncated toward zero. */
  function WholeSeconds(nanos: int): int {
    if nanos >= 0 then nanos / NANOS_PER_SECOND else -((-nanos) / NANOS_PER_SECOND)
  }

  function RemainingSeconds(m: Metadata, now: Time): int {
    WholeSeconds(m.notAfter - now)
  }

  predicate RenewalDue(m: Metadata, now: Time) {
    RemainingSeconds(m, now) <= m.renewalWindowSeconds && m.state.IsUsable()
  }

  /** Only Active and Expiring certificates are due, and from this instant on, given
      truncation: a window of w >= 0 whole seconds opens just after w + 1 seconds remain; a
      negative window opens when exactly -w seconds have passed since the end date. */
  lemma RenewalDueExactly(m: Metadata, now: Time)
    ensures RenewalDue(m, now) <==>
      && (m.state == Active || m.state == Expiring)
      && (if m.renewalWindowSeconds >= 0
          then m.notAfter - now < (m.renewalWindowSeconds + 1) * 1_000_000_000
          else m.notAfter - now <= m.renewalWindowSeconds * 1_000_000_000)
  {
  }

  lemma RenewalDueIsMonotone(m: Metadata, earlier: Time, later: Time)
    requires earlier <= later && RenewalDue(m, earlier)
    ensures RenewalDue(m, later)
  {
    RenewalDueExactly(m, earlier);
    RenewalDueExactly(m, later);
  }

  // ---------------------------------------------------------------- transitions

  predicate Permitted(from: CertificateState, to: CertificateState) {
    match from
    case Active => to in {Expiring, RenewalPending, Revoked, Expired}
    case Expiring => to in {RenewalPending, Revoked, Expired}
    case RenewalPending => to in {Renewed, Revoked, Expired}
    case Renewed => to in {Active, Expiring, RenewalPending, Revoked, Expired}
    case Revoked => false
    case Expired => false
  }

  /** Result of `transition` and the record afterwards; `stamp` is the clock read for
      `updated_at`. */
  function AfterTransition(m: Metadata, next: CertificateState, stamp: Time)
    : (Result<(), LifecycleError>, Metadata)
  {
    if m.state == next then (Ok(()), m)
    else if m.state.IsTerminal() then (Err(TerminalState(m.state)), m)
    else if !Permitted(m.state, next) then (Err(InvalidTransition(m.state, next)), m)
    else (Ok(()), m.(state := next, updatedAt := stamp))
  }

  /** Which requests are granted, by destination: staying put always; otherwise only from a
      live state, to a terminal state or RenewalPending from anywhere, to Renewed from
      RenewalPending, to Active from Renewed, to Expiring from Active or Renewed. */
  lemma TransitionGrantedExactly(m: Metadata, next: CertificateState, stamp: Time)
    ensures var (r, after) := AfterTransition(m, next, stamp);
      && (r.Ok? <==>
            || next == m.state
            || (&& m.state !in {Revoked, Expired}
                && (|| next in {Revoked, Expired, RenewalPending}
                    || (next == Renewed && m.state == RenewalPending)
                    || (next == Active && m.state == Renewed)
                    || (next == Expiring && m.state in {Active, Renewed}))))
      && after == (if r.Ok? && next != m.state then m.(state := next, updatedAt := stamp) else m)
      && (r.Err? ==> r.error == (if m.state in {Revoked, Expired} then TerminalState(m.state)
                                 else InvalidTransition(m.state, next)))
  {
  }

  method Transition(certificate: CertificateMetadata, next: CertificateState, stamp: Time)
    returns (r: Result<(), LifecycleError>)
    modifies certificate`state, certificate`updatedAt
    ensures (r, certificate.View()) == AfterTransition(old(certificate.View()), next, stamp)
  {
    var current := certificate.state;
    if current == next {
      return Ok(());
    }
    if current.IsTerminal() {
      return Err(TerminalState(current));
    }
    if !Permitted(current, next) {
      return Err(InvalidTransition(current, next));
    }
    certificate.state := next;
    certificate.updatedAt := stamp;
    return Ok(());
  }

  datatype TransitionRequest = TransitionRequest(next: CertificateState, stamp: Time)

  /** Any history of transition requests, the refused ones included. */
  function RunTransitions(m: Metadata, requests: seq<TransitionRequest>): Metadata
    decreases |requests|
  {
    if requests == [] then m
    else RunTransitions(AfterTransition(m, requests[0].next, requests[0].stamp).1, requests[1..])
  }

  lemma {:induction false} TerminalStatesAbsorb(m: Metadata, requests: seq<TransitionRequest>)
    requires m.state.IsTerminal()
    ensures RunTransitions(m, requests) == m
    decreases |requests|
  {
    if requests == [] {
    } else {
      TerminalStatesAbsorb(m, requests[1..]);
    }
  }

  /** Over any history, revocation is refused exactly when the record has expired. */
  lemma RevocationRefusedOnlyWhenExpired(m: Metadata, requests: seq<TransitionRequest>, stamp: Time)
    ensures var before := RunTransitions(m, requests);
            var (r, after) := AfterTransition(before, Revoked, stamp);
            && (r.Ok? <==> before.state != Expired)
            && after.state == (if before.state == Expired then Expired else Revoked)
            && (forall more :: RunTransitions(after, more) == after)
  {
    var after := AfterTransition(RunTransitions(m, requests), Revoked, stamp).1;
    forall more ensures RunTransitions(after, more) == after {
      TerminalStatesAbsorb(after, more);
    }
  }

  /** A record that ends Renewed without having started so was RenewalPending at some point. */
  lemma {:induction false} RenewedOnlyThroughPending(m: Metadata, requests: seq<TransitionRequest>) returns (k: nat)
    requires m.state != Renewed && RunTransitions(m, requests).state == Renewed
    ensures k <= |requests| && RunTransitions(m, requests[..k]).state == RenewalPending
    decreases |requests|
  {
    if m.state == RenewalPending {
      k := 0;
    } else {
      var next := AfterTransition(m, requests[0].next, requests[0].stamp).1;
      var i := RenewedOnlyThroughPending(next, requests[1..]);
      k := i + 1;
      assert requests[..k][1..] == requests[1..][..i];
    }
  }

  // ----------------------------------------------------------------- evaluation

  /** The three clock readings one evaluation makes: for the end date, for the renewal
      window, and for `updated_at`. */
  datatype Tick = Tick(now: Time, due: Time, stamp: Time)
  {
    ghost predicate Ordered() {
      now <= due <= stamp
    }
  }

  function AfterEvaluate(m: Metadata, tick: Tick): (Result<CertificateState, LifecycleError>, Metadata) {
    if tick.now >= m.notAfter then
      if m.state == Expired then (Ok(Expired), m)
      else
        match AfterTransition(m, Expired, tick.stamp)
        case (Ok(_), m') => (Ok(m'.state), m')
        case (Err(e), m') => (Err(e), m')
    else if RenewalDue(m, tick.due) && m.state == Active then
      match AfterTransition(m, Expiring, tick.stamp)
      case (Ok(_), m') => (Ok(m'.state), m')
      case (Err(e), m') => (Err(e), m')
    else (Ok(m.state), m)
  }

  method Evaluate(certificate: CertificateMetadata, tick: Tick)
    returns (r: Result<CertificateState, LifecycleError>)
    modifies certificate`state, certificate`updatedAt
    ensures (r, certificate.View()) == AfterEvaluate(old(certificate.View()), tick)
  {
    if tick.now >= certificate.notAfter {
      if certificate.state != Expired {
        var t := Transition(certificate, Expired, tick.stamp);
        if t.Err? {
          return Err(t.error);
        }
      }
      return Ok(certificate.state);
    }
    if RenewalDue(certificate.View(), tick.due) && certificate.state == Active {
      var t := Transition(certificate, Expiring, tick.stamp);
      if t.Err? {
        return Err(t.error);
      }
    }
    return Ok(certificate.state);
  }

  predicate RevokedPastEnd(m: Metadata, now: Time) {
    m.state == Revoked && now >= m.notAfter
  }

  /** The state an evaluation leads to, as a decision table. */
  lemma EvaluationTable(m: Metadata, tick: Tick)
    ensures var (r, after) := AfterEvaluate(m, tick);
      && (r.Err? <==> m.state == Revoked && tick.now >= m.notAfter)
      && r == (if r.Ok? then Ok(after.state) else Err(TerminalState(Revoked)))
      && after == (if after.state == m.state then m else m.(state := after.state, updatedAt := tick.stamp))
      && after.state ==
           (if m.state in {Revoked, Expired} then m.state
            else if tick.now >= m.notAfter then Expired
            else if m.state == Active && RenewalDue(m, tick.due) then Expiring
            else m.state)
  {
  }

  /** Evaluating early and again later ends where evaluating only later does. */
  lemma LateEvaluationAbsorbsEarly(m: Metadata, early: Tick, late: Tick)
    requires early.Ordered() && late.Ordered() && early.due <= late.now
    ensures var between := AfterEvaluate(m, early).1;
      && AfterEvaluate(between, late).0.Ok? == AfterEvaluate(m, late).0.Ok?
      && AfterEvaluate(between, late).1.state == AfterEvaluate(m, late).1.state
  {
    if RenewalDue(m, early.due) {
      RenewalDueIsMonotone(m, early.due, late.due);
    }
  }
}
