/** What lifecycle sweeps achieve: when one succeeds, what it leaves behind, and that
    sweeping more often changes nothing. */
module Sweeps {
  import opened Wrappers
  import opened Lifecycle
  import opened Inventory
  import opened Validity

  // -------------------------------------------------------- the effect of one sweep

  /** The ids whose state differs between two moments. */
  ghost function Moved(before: Certificates, after: Certificates): set<Uuid> {
    set id | id in before && id in after && before[id].state != after[id].state
  }

  lemma MovedByOne(certificates: Certificates, id: Uuid, stepped: Metadata, after: Certificates)
    requires id in certificates && id in after && after[id] == stepped
    ensures |Moved(certificates, after)| == |Moved(certificates[id := stepped], after)|
                                            + (if certificates[id].state != stepped.state then 1 else 0)
  {
    var next := certificates[id := stepped];
    if certificates[id].state != stepped.state {
      assert Moved(certificates, after) == Moved(next, after) + {id};
    } else {
      assert Moved(certificates, after) == Moved(next, after);
    }
  }

  /** A sweep evaluates a prefix of its listing, each certificate once with its own tick,
      and touches nothing else; it stops early exactly at a Revoked certificate whose end
      date has come. Its count is the number of certificates whose state moved. */
  lemma {:induction false} SweepEffect(certificates: Certificates, order: seq<Uuid>, clock: seq<Tick>, changed: nat)
    returns (n: nat)
    requires |order| == |clock| && NoRepeats(order) && Elements(order) <= certificates.Keys
    ensures n <= |order|
    ensures var (r, after) := Sweep(certificates, order, clock, changed);
      && after.Keys == certificates.Keys
      && (forall k :: 0 <= k < n ==>
            && !RevokedPastEnd(certificates[order[k]], clock[k].now)
            && after[order[k]] == AfterEvaluate(certificates[order[k]], clock[k]).1)
      && (forall id :: id in certificates && id !in order[..n] ==> after[id] == certificates[id])
      && (r.Ok? <==> n == |order|)
      && (n < |order| ==> RevokedPastEnd(certificates[order[n]], clock[n].now))
      && (r.Ok? ==> r.value == changed + |Moved(certificates, after)|)
      && (r.Err? ==> r.error == InventoryError.Lifecycle(TerminalState(Revoked)))
    decreases |order|
  {
    if order == [] {
      n := 0;
      assert Moved(certificates, certificates) == {};
    } else {
      var id := order[0];
      var before := certificates[id];
      var (r0, stepped) := AfterEvaluate(before, clock[0]);
      EvaluationTable(before, clock[0]);
      if r0.Err? {
        n := 0;
        assert certificates[id := stepped] == certificates;
      } else {
        var next := certificates[id := stepped];
        var count := if before.state != stepped.state then changed + 1 else changed;
        var m := SweepEffect(next, order[1..], clock[1..], count);
        n := m + 1;
        var (r, after) := Sweep(next, order[1..], clock[1..], count);
        EffectExtends(certificates, order, clock, id, next, after, m);
        assert id !in order[1..][..m];
        MovedByOne(certificates, id, stepped, after);
      }
    }
  }

  /** The step of the induction that only concerns which entries were evaluated. */
  lemma EffectExtends(certificates: Certificates, order: seq<Uuid>, clock: seq<Tick>, id: Uuid,
                      next: Certificates, after: Certificates, m: nat)
    requires |order| == |clock| && order != [] && order[0] == id && NoRepeats(order)
    requires Elements(order) <= certificates.Keys && m < |order|
    requires next == certificates[id := AfterEvaluate(certificates[id], clock[0]).1]
    requires after.Keys == certificates.Keys
    requires !RevokedPastEnd(certificates[id], clock[0].now)
    requires forall k :: 0 <= k < m ==>
               && !RevokedPastEnd(next[order[1..][k]], clock[1..][k].now)
               && after[order[1..][k]] == AfterEvaluate(next[order[1..][k]], clock[1..][k]).1
    requires forall other :: other in next && other !in order[1..][..m] ==> after[other] == next[other]
    ensures forall k :: 0 <= k < m + 1 ==>
              && !RevokedPastEnd(certificates[order[k]], clock[k].now)
              && after[order[k]] == AfterEvaluate(certificates[order[k]], clock[k]).1
    ensures forall other :: other in certificates && other !in order[..m + 1] ==> after[other] == certificates[other]
  {
    forall k | 0 <= k < m + 1
      ensures !RevokedPastEnd(certificates[order[k]], clock[k].now)
      ensures after[order[k]] == AfterEvaluate(certificates[order[k]], clock[k]).1
    {
      if k == 0 {
        assert id !in order[1..][..m];
      } else {
        assert order[1..][k - 1] == order[k] && clock[1..][k - 1] == clock[k] && order[k] in order[1..];
      }
    }
    forall other | other in certificates && other !in order[..m + 1]
      ensures after[other] == certificates[other]
    {
      assert order[..m + 1][0] == id;
      assert forall k :: 0 <= k < m ==> order[1..][..m][k] == order[..m + 1][k + 1];
    }
  }

  // ------------------------------------------------------- a sweep at one instant

  function Frozen(now: Time, n: nat): seq<Tick> {
    seq(n, _ => Tick(now, now, now))
  }

  function SweepAt(certificates: Certificates, order: seq<Uuid>, now: Time)
    : (Result<nat, InventoryError>, Certificates)
  {
    Sweep(certificates, order, Frozen(now, |order|), 0)
  }

  ghost predicate AnyRevokedPastEnd(certificates: Certificates, now: Time) {
    exists id :: id in certificates && RevokedPastEnd(certificates[id], now)
  }

  /** Every certificate evaluated once at the given instant. */
  function EvaluatedAt(certificates: Certificates, now: Time): Certificates {
    map id | id in certificates :: AfterEvaluate(certificates[id], Tick(now, now, now)).1
  }

  /** In any iteration order a sweep at one instant succeeds exactly when no Revoked
      certificate has reached its end date, and then its result does not depend on the order. */
  lemma SweepAtSucceedsExactly(certificates: Certificates, order: seq<Uuid>, now: Time)
    requires Lists(order, certificates.Keys)
    ensures var (r, after) := SweepAt(certificates, order, now);
      && (r.Ok? <==> !AnyRevokedPastEnd(certificates, now))
      && (r.Ok? ==> after == EvaluatedAt(certificates, now) && r.value == |Moved(certificates, after)|)
  {
    var n := SweepEffect(certificates, order, Frozen(now, |order|), 0);
    var (r, after) := SweepAt(certificates, order, now);
    if n < |order| {
      assert order[n] in Elements(order);
    } else {
      forall id | id in certificates
        ensures !RevokedPastEnd(certificates[id], now) && after[id] == EvaluatedAt(certificates, now)[id]
      {
        assert id in Elements(order);
        var k :| 0 <= k < |order| && order[k] == id;
      }
    }
  }

  lemma EvaluatingTwiceIsOnce(m: Metadata, now: Time)
    ensures var once := AfterEvaluate(m, Tick(now, now, now)).1;
            AfterEvaluate(once, Tick(now, now, now)).1 == once
  {
  }

  /** A second sweep at the same instant, in any order, succeeds, reports 0 and changes nothing. */
  lemma SecondSweepDoesNothing(certificates: Certificates, first: seq<Uuid>, second: seq<Uuid>, now: Time)
    requires Lists(first, certificates.Keys) && Lists(second, certificates.Keys)
    requires SweepAt(certificates, first, now).0.Ok?
    ensures var once := SweepAt(certificates, first, now).1;
            SweepAt(once, second, now) == (Ok(0), once)
  {
    SweepAtSucceedsExactly(certificates, first, now);
    var once := SweepAt(certificates, first, now).1;
    forall id | id in once
      ensures !RevokedPastEnd(once[id], now) && AfterEvaluate(once[id], Tick(now, now, now)).1 == once[id]
    {
      assert !RevokedPastEnd(certificates[id], now);
      EvaluationTable(certificates[id], Tick(now, now, now));
      EvaluatingTwiceIsOnce(certificates[id], now);
    }
    SweepAtSucceedsExactly(once, second, now);
    assert EvaluatedAt(once, now) == once;
    assert Moved(once, once) == {};
  }

  /** A failed sweep stops at some Revoked certificate past its end date; the certificates
      before it in the listing are fully evaluated, all others are untouched. */
  lemma FailedSweepIsPartial(certificates: Certificates, order: seq<Uuid>, now: Time) returns (n: nat)
    requires Lists(order, certificates.Keys) && SweepAt(certificates, order, now).0.Err?
    ensures n < |order| && order[n] in certificates && RevokedPastEnd(certificates[order[n]], now)
    ensures var after := SweepAt(certificates, order, now).1;
      && after.Keys == certificates.Keys
      && forall id :: id in certificates ==>
           after[id] == (if id in order[..n] then EvaluatedAt(certificates, now)[id] else certificates[id])
  {
    n := SweepEffect(certificates, order, Frozen(now, |order|), 0);
    assert order[n] in Elements(order);
    forall id | id in certificates && id in order[..n]
      ensures SweepAt(certificates, order, now).1[id] == EvaluatedAt(certificates, now)[id]
    {
      var k :| 0 <= k < n && order[k] == id;
    }
  }

  /** After a successful sweep every usable certificate passes the validator's end-date
      check, no Active certificate is due, and whatever is due is Expiring. */
  lemma SweptInventoryIsCurrent(certificates: Certificates, order: seq<Uuid>, now: Time, id: Uuid)
    requires Lists(order, certificates.Keys) && SweepAt(certificates, order, now).0.Ok? && id in certificates
    ensures var after := SweepAt(certificates, order, now).1;
      && id in after
      && var m := after[id];
      && (m.state in {Active, Expiring} && m.notBefore <= now ==>
            CertificateValidity(m.notBefore, m.notAfter).Validate(now).Ok?)
      && (m.state == Active ==> !RenewalDue(m, now))
      && (RenewalDue(m, now) ==> m.state == CertificateState.Expiring)
      && (m.state == CertificateState.Expired || m.state == Revoked || now < m.notAfter)
  {
    SweepAtSucceedsExactly(certificates, order, now);
    EvaluationTable(certificates[id], Tick(now, now, now));
  }

  /** The inventory expires a certificate at its end date, the validator only after it: the
      two agree at every other instant. */
  lemma ExpiryDiffersOnlyAtTheEndDate(m: Metadata, tick: Tick)
    requires m.state !in {Revoked, CertificateState.Expired} && m.notBefore <= tick.now
    ensures var expiredHere := AfterEvaluate(m, tick).1.state == CertificateState.Expired;
            var expiredThere := CertificateValidity(m.notBefore, m.notAfter).Validate(tick.now).Err?;
            expiredHere != expiredThere <==> tick.now == m.notAfter
  {
    EvaluationTable(m, tick);
  }

  // --------------------------------------------------------- sequences of sweeps

  datatype Pass = Pass(order: seq<Uuid>, clock: seq<Tick>)

  /** A clock that never runs backwards, read from instant `from` on. */
  ghost predicate ClockFrom(clock: seq<Tick>, from: Time)
    decreases |clock|
  {
    clock == [] || (clock[0].Ordered() && from <= clock[0].now && ClockFrom(clock[1..], clock[0].stamp))
  }

  function Latest(clock: seq<Tick>, from: Time): Time
    decreases |clock|
  {
    if clock == [] then from else Latest(clock[1..], clock[0].stamp)
  }

  lemma {:induction false} ClockBounds(clock: seq<Tick>, from: Time)
    requires ClockFrom(clock, from)
    ensures from <= Latest(clock, from)
    ensures forall k :: 0 <= k < |clock| ==>
              clock[k].Ordered() && from <= clock[k].now && clock[k].stamp <= Latest(clock, from)
    decreases |clock|
  {
    if clock != [] {
      ClockBounds(clock[1..], clock[0].stamp);
      forall k | 0 <= k < |clock|
        ensures clock[k].Ordered() && from <= clock[k].now && clock[k].stamp <= Latest(clock, from)
      {
        if k > 0 {
          assert clock[k] == clock[1..][k - 1];
        }
      }
    }
  }

  predicate WellFormed(pass: Pass, keys: set<Uuid>) {
    Lists(pass.order, keys) && |pass.order| == |pass.clock|
  }

  ghost predicate PassesFrom(passes: seq<Pass>, keys: set<Uuid>, from: Time)
    decreases |passes|
  {
    passes == [] ||
    (&& WellFormed(passes[0], keys) && ClockFrom(passes[0].clock, from)
     && PassesFrom(passes[1..], keys, Latest(passes[0].clock, from)))
  }

  function End(passes: seq<Pass>, from: Time): Time
    decreases |passes|
  {
    if passes == [] then from else End(passes[1..], Latest(passes[0].clock, from))
  }

  /** Sweep after sweep, whether or not each succeeds. */
  function RunPasses(certificates: Certificates, passes: seq<Pass>): Certificates
    requires forall i :: 0 <= i < |passes| ==> |passes[i].order| == |passes[i].clock|
    decreases |passes|
  {
    if passes == [] then certificates
    else RunPasses(Sweep(certificates, passes[0].order, passes[0].clock, 0).1, passes[1..])
  }

  /** How far evaluations up to instant `t` can have moved a certificate from `m`. */
  predicate Drifted(m: Metadata, moved: Metadata, t: Time) {
    && moved == m.(state := moved.state, updatedAt := moved.updatedAt)
    && (|| moved.state == m.state
        || (moved.state == CertificateState.Expired && !m.state.IsTerminal() && m.notAfter <= t)
        || (moved.state == Expiring && m.state == Active && RenewalDue(m, t)))
  }

  lemma DriftWidens(m: Metadata, moved: Metadata, t: Time, later: Time)
    requires Drifted(m, moved, t) && t <= later
    ensures Drifted(m, moved, later)
  {
    if RenewalDue(m, t) {
      RenewalDueIsMonotone(m, t, later);
    }
  }

  lemma EvaluationDrifts(m: Metadata, moved: Metadata, t: Time, tick: Tick)
    requires Drifted(m, moved, t) && t <= tick.now && tick.Ordered()
    ensures Drifted(m, AfterEvaluate(moved, tick).1, tick.stamp)
  {
    EvaluationTable(moved, tick);
    DriftWidens(m, moved, t, tick.stamp);
    if moved.state == Active && RenewalDue(moved, tick.due) {
      RenewalDueIsMonotone(moved, tick.due, tick.stamp);
      RenewalDueExactly(m, tick.stamp);
      RenewalDueExactly(moved, tick.stamp);
    }
  }

  /** Wherever drift has taken a certificate, a later evaluation takes it to the same state. */
  lemma DriftIsAbsorbed(m: Metadata, moved: Metadata, t: Time, tick: Tick)
    requires Drifted(m, moved, t) && t <= tick.now && tick.Ordered()
    ensures RevokedPastEnd(moved, tick.now) <==> RevokedPastEnd(m, tick.now)
    ensures AfterEvaluate(moved, tick).1.state == AfterEvaluate(m, tick).1.state
  {
    EvaluationTable(m, tick);
    EvaluationTable(moved, tick);
    DriftWidens(m, moved, t, tick.due);
    RenewalDueExactly(m, tick.due);
    RenewalDueExactly(moved, tick.due);
  }

  ghost predicate AllDrifted(certificates: Certificates, moved: Certificates, t: Time) {
    && moved.Keys == certificates.Keys
    && forall id :: id in certificates ==> Drifted(certificates[id], moved[id], t)
  }

  lemma PassDrifts(certificates: Certificates, moved: Certificates, pass: Pass, from: Time)
    requires AllDrifted(certificates, moved, from)
    requires WellFormed(pass, certificates.Keys) && ClockFrom(pass.clock, from)
    ensures AllDrifted(certificates, Sweep(moved, pass.order, pass.clock, 0).1, Latest(pass.clock, from))
  {
    ClockBounds(pass.clock, from);
    var n := SweepEffect(moved, pass.order, pass.clock, 0);
    var after := Sweep(moved, pass.order, pass.clock, 0).1;
    forall id | id in certificates
      ensures Drifted(certificates[id], after[id], Latest(pass.clock, from))
    {
      if id in pass.order[..n] {
        var k :| 0 <= k < n && pass.order[k] == id;
        EvaluationDrifts(certificates[id], moved[id], from, pass.clock[k]);
        DriftWidens(certificates[id], after[id], pass.clock[k].stamp, Latest(pass.clock, from));
      } else {
        DriftWidens(certificates[id], moved[id], from, Latest(pass.clock, from));
      }
    }
  }

  lemma {:induction false} PassesDrift(certificates: Certificates, moved: Certificates, passes: seq<Pass>, from: Time)
    requires AllDrifted(certificates, moved, from) && PassesFrom(passes, certificates.Keys, from)
    ensures forall i :: 0 <= i < |passes| ==> |passes[i].order| == |passes[i].clock|
    ensures AllDrifted(certificates, RunPasses(moved, passes), End(passes, from))
    decreases |passes|
  {
    if passes != [] {
      PassDrifts(certificates, moved, passes[0], from);
      var next := Sweep(moved, passes[0].order, passes[0].clock, 0).1;
      PassesDrift(certificates, next, passes[1..], Latest(passes[0].clock, from));
      forall i | 0 <= i < |passes| ensures |passes[i].order| == |passes[i].clock| {
        if i > 0 {
          assert passes[i] == passes[1..][i - 1];
        }
      }
    }
  }

  /** Sweep frequency does not matter: under a clock that never runs backwards, any
      sequence of sweeps, failed ones included, followed by a last sweep succeeds exactly
      when that last sweep alone would, and then leaves every certificate in the same state. */
  lemma SweepFrequencyDoesNotMatter(certificates: Certificates, passes: seq<Pass>, last: Pass, from: Time)
    requires PassesFrom(passes, certificates.Keys, from)
    requires WellFormed(last, certificates.Keys) && ClockFrom(last.clock, End(passes, from))
    ensures forall i :: 0 <= i < |passes| ==> |passes[i].order| == |passes[i].clock|
    ensures var (often, afterOften) := Sweep(RunPasses(certificates, passes), last.order, last.clock, 0);
            var (once, afterOnce) := Sweep(certificates, last.order, last.clock, 0);
      && often.Ok? == once.Ok?
      && afterOften.Keys == afterOnce.Keys == certificates.Keys
      && (once.Ok? ==> forall id :: id in certificates ==> afterOften[id].state == afterOnce[id].state)
  {
    PassesDrift(certificates, certificates, passes, from);
    var moved := RunPasses(certificates, passes);
    var t := End(passes, from);
    ClockBounds(last.clock, t);
    var n := SweepEffect(moved, last.order, last.clock, 0);
    var n' := SweepEffect(certificates, last.order, last.clock, 0);
    forall k | 0 <= k < |last.order|
      ensures RevokedPastEnd(moved[last.order[k]], last.clock[k].now)
          <==> RevokedPastEnd(certificates[last.order[k]], last.clock[k].now)
      ensures AfterEvaluate(moved[last.order[k]], last.clock[k]).1.state
           == AfterEvaluate(certificates[last.order[k]], last.clock[k]).1.state
    {
      assert last.order[k] in Elements(last.order);
      DriftIsAbsorbed(certificates[last.order[k]], moved[last.order[k]], t, last.clock[k]);
    }
    assert n == n';
    if n == |last.order| {
      forall id | id in certificates
        ensures Sweep(moved, last.order, last.clock, 0).1[id].state
             == Sweep(certificates, last.order, last.clock, 0).1[id].state
      {
        assert id in Elements(last.order);
        var k :| 0 <= k < |last.order| && last.order[k] == id;
      }
    }
  }
}
