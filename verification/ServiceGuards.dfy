/** Two guards the service could check, each at a single step, and what they give under every
    interleaving: an installation that never goes back to an older list, and a counter write
    that still finds the number it was computed from. */
module ServiceGuards {
  import opened Wrappers
  import opened Codec
  import opened Store
  import opened Crl
  import opened Service
  import opened ServiceInvariants
  import opened ServiceTheorems
  import Inventory

  // ------------------------------------------------------------ what a step can change

  ghost predicate TouchesOnly(s: State, t: Tid, s': State) {
    forall u :: u != t && u in s'.threads ==> u in s.threads && s'.threads[u] == s.threads[u]
  }

  lemma FileStepTouchesOneThread(s: State, step: Step, s': State)
    requires Next(s, step) == Some(s') && (step.Serialise? || step.WriteTemporary? || step.Rename?)
    ensures TouchesOnly(s, step.t, s')
  {
  }

  lemma StoreStepTouchesOneThread(s: State, step: Step, s': State)
    requires Next(s, step) == Some(s') && StoreStep(step)
    ensures TouchesOnly(s, step.t, s')
  {
    if step.Serialise? || step.WriteTemporary? || step.Rename? {
      FileStepTouchesOneThread(s, step, s');
    }
  }

  /** A step other than a crash belongs to one thread and leaves the others where they are. */
  lemma StepTouchesOneThread(s: State, step: Step, s': State)
    requires Next(s, step) == Some(s') && !step.Crash?
    ensures TouchesOnly(s, step.t, s')
  {
    if StoreStep(step) {
      StoreStepTouchesOneThread(s, step, s');
    }
  }

  /** How a thread can come to be in a generation, to hold a list, or to have installed one. */
  ghost predicate OwnProgress(s: State, step: Step, s': State)
    requires !step.Crash?
  {
    step.t in s'.threads ==>
      var pc' := s'.threads[step.t];
      && (pc'.InGeneration() ==> step.ReadCounter? || (step.t in s.threads && s.threads[step.t].InGeneration()))
      && (pc'.HasList() && !step.ListStore? ==>
            step.t in s.threads && s.threads[step.t].HasList() && s.threads[step.t].crl == pc'.crl)
      && (pc'.Installed? ==> step.Install?)
      && (pc'.Numbering? ==> step.ReadCounter? && NextNumber(s.counter) == Ok(pc'.next))
      && (pc'.Numbered? ==> step.WriteCounter?)
      && (pc'.Listed? ==> step.ListStore? && step.t in s.threads && s.threads[step.t].Numbered?
                          && s.threads[step.t].number == pc'.crl.number)
  }

  lemma StoreStepProgress(s: State, step: Step, s': State)
    requires Next(s, step) == Some(s') && StoreStep(step)
    ensures OwnProgress(s, step, s')
  {
  }

  lemma StepProgress(s: State, step: Step, s': State)
    requires Next(s, step) == Some(s') && !step.Crash?
    ensures OwnProgress(s, step, s')
  {
    if StoreStep(step) {
      StoreStepProgress(s, step, s');
    }
  }

  lemma AcceptorAndAnswersUntouched(s: State, step: Step, s': State)
    requires Next(s, step) == Some(s') && !step.Install? && !step.Respond? && !step.Crash?
    ensures s'.acceptor == s.acceptor && s'.answered == s.answered
  {
  }

  lemma CounterAndLogUntouched(s: State, step: Step, s': State)
    requires Next(s, step) == Some(s') && !step.WriteCounter? && !step.SignList?
    ensures s'.counter == s.counter && s'.signed == s.signed
  {
  }

  // --------------------------------------------------------- installations go forward

  /** No installation replaces a list by one made from an older version of the store. */
  predicate Forward(s: State, step: Step) {
    step.Install? && step.ok && At(s, step.t) && s.threads[step.t].Filed? && s.acceptor.Some? ==>
      s.acceptor.value.version <= s.threads[step.t].crl.version
  }

  predicate ForwardRun(s: State, steps: seq<Step>)
    decreases |steps|
  {
    steps == [] ||
    (Forward(s, steps[0]) && Next(s, steps[0]).Some? && ForwardRun(Next(s, steps[0]).value, steps[1..]))
  }

  /** Every revocation answered 200 was made no later than this version. */
  ghost predicate CoversAnswered(s: State, version: nat) {
    forall v :: v in s.answered ==> v <= version
  }

  ghost predicate CoverOk(s: State, pc: Pc) {
    && (pc.Installed? && pc.job.Answering? ==> s.acceptor.Some? && pc.job.version <= s.acceptor.value.version)
    && (pc.HasList() ==> s.acceptor.Some? || CoversAnswered(s, pc.crl.version))
  }

  ghost predicate Covering(s: State) {
    && (s.acceptor.Some? ==> CoversAnswered(s, s.acceptor.value.version))
    && (forall t :: t in s.threads ==> CoverOk(s, s.threads[t]))
  }

  lemma InstallKeepsCovering(s: State, t: Tid, ok: bool)
    requires Inv(s) && Covering(s) && At(s, t) && s.threads[t].Filed? && Forward(s, Install(t, ok))
    ensures Covering(AfterInstall(s, t, ok))
  {
    assert ThreadOk(s, t, s.threads[t]) && CoverOk(s, s.threads[t]);
    var s' := AfterInstall(s, t, ok);
    forall u | u in s'.threads ensures CoverOk(s', s'.threads[u]) {
      if u != t {
        assert CoverOk(s, s.threads[u]);
      }
    }
  }

  lemma RespondKeepsCovering(s: State, t: Tid)
    requires Inv(s) && Covering(s) && At(s, t) && s.threads[t].Installed?
    ensures Covering(AfterRespond(s, t))
  {
    assert CoverOk(s, s.threads[t]) && ThreadOk(s, t, s.threads[t]);
    var s' := AfterRespond(s, t);
    forall u | u in s'.threads ensures CoverOk(s', s'.threads[u]) {
      assert CoverOk(s, s.threads[u]);
    }
  }

  /** Steps that neither install, answer nor crash; a fresh listing covers what is answered. */
  lemma OtherStepKeepsCovering(s: State, step: Step, s': State)
    requires Inv(s) && Covering(s) && Next(s, step) == Some(s')
    requires !step.Install? && !step.Respond? && !step.Crash?
    ensures Covering(s')
  {
    AcceptorAndAnswersUntouched(s, step, s');
    StepTouchesOneThread(s, step, s');
    StepProgress(s, step, s');
    assert CoversAnswered(s, s.Current());
    forall u | u in s'.threads ensures CoverOk(s', s'.threads[u]) {
      if u in s.threads {
        assert CoverOk(s, s.threads[u]);
      }
    }
  }

  lemma StepKeepsCovering(s: State, step: Step, s': State)
    requires Inv(s) && Covering(s) && Next(s, step) == Some(s') && Forward(s, step)
    ensures Covering(s')
  {
    match step
    case Install(t, ok) => InstallKeepsCovering(s, t, ok);
    case Respond(t) => RespondKeepsCovering(s, t);
    case Crash =>
    case _ => OtherStepKeepsCovering(s, step, s');
  }

  lemma {:induction false} CoveringHolds(s: State, steps: seq<Step>, s': State)
    requires Inv(s) && Covering(s) && ForwardRun(s, steps) && Run(s, steps) == Some(s')
    ensures Inv(s') && Covering(s')
    decreases |steps|
  {
    if steps == [] {
    } else {
      var mid := Next(s, steps[0]).value;
      StepKeepsInv(s, steps[0], mid);
      StepKeepsCovering(s, steps[0], mid);
      CoveringHolds(mid, steps[1..], s');
    }
  }

  /** While no installation goes back, whatever overlaps: whenever the service is up, the
      acceptor's list was made from a store version that has every revocation answered 200,
      across crashes and restarts; so the serial of each is listed unless a later call
      removed or replaced its record. */
  lemma AnsweredRevocationsStayListed(file: Records, counter: Option<string>, steps: seq<Step>, s: State, v: nat)
    requires ForwardRun(Initial(file, counter), steps) && Run(Initial(file, counter), steps) == Some(s)
    requires s.up && v in s.answered
    ensures s.acceptor.Some? && v <= s.acceptor.value.version < |s.history| == |s.applied| + 1
    ensures 1 <= v && s.applied[v - 1].Revoke?
    ensures (forall i :: v <= i < s.acceptor.value.version ==> !Discards(s.applied[i], s.applied[v - 1].id)) ==>
              && s.applied[v - 1].id in s.history[v]
              && s.history[v][s.applied[v - 1].id].serialNumber in s.acceptor.value.serials
  {
    InitialInv(file, counter);
    CoveringHolds(Initial(file, counter), steps, s);
    var id, w := s.applied[v - 1].id, s.acceptor.value.version;
    if forall i :: v <= i < w ==> !Discards(s.applied[i], id) {
      EffectStays(s, v, v);
      EffectStays(s, v, w);
      SerialStays(s, v, w, id);
      assert s.history[w][id].serialNumber in RevokedSerials(s.history[w]);
    }
  }

  /** Whoever added a record used a serial number printed by issuance. */
  ghost predicate InsertsIssuedHere(s: State) {
    forall i :: 0 <= i < |s.applied| && s.applied[i].Insert? ==>
      exists n :: StoredSerial(n) == s.applied[i].record.serialNumber
  }

  lemma {:induction false} VersionsIssuedHere(s: State, w: nat)
    requires Lineage(s) && InsertsIssuedHere(s) && AllIssuedHere(s.history[0]) && w <= |s.applied|
    ensures AllIssuedHere(s.history[w])
    decreases w
  {
    if w > 0 {
      VersionsIssuedHere(s, w - 1);
      var before, op := s.history[w - 1], s.applied[w - 1];
      assert s.history[w - 1 + 1] == Apply(before, op);
      forall id | id in s.history[w] ensures exists n :: StoredSerial(n) == s.history[w][id].serialNumber {
        assert id in before ==> exists n :: StoredSerial(n) == before[id].serialNumber;
      }
    }
  }

  lemma {:induction false} FirstVersionStays(s: State, steps: seq<Step>, s': State)
    requires Inv(s) && Run(s, steps) == Some(s')
    ensures Inv(s') && s'.history[0] == s.history[0]
    decreases |steps|
  {
    CommittedCallsSurvive(s, steps, s');
    assert s.history[..s.disk.version + 1][0] == s'.history[0];
  }

  /** The same in a handshake, where serials are compared as numbers: with records written by
      issuance, the list signed for the acceptor, in whatever order the store was
      iterated, has the serial number of every revocation answered 200. */
  lemma AnsweredRevocationsAreRejected(file: Records, counter: Option<string>, steps: seq<Step>, s: State, v: nat,
                                       order: seq<Uuid>, now: Time, signed: SignedCrl)
    requires ForwardRun(Initial(file, counter), steps) && Run(Initial(file, counter), steps) == Some(s)
    requires AllIssuedHere(file) && InsertsIssuedHere(s)
    requires s.up && v in s.answered && s.acceptor.Some? && s.acceptor.value.version < |s.history|
    requires Inventory.Lists(order, s.history[s.acceptor.value.version].Keys)
    ensures Lineage(s) && 1 <= v <= s.acceptor.value.version && s.applied[v - 1].Revoke?
    ensures var entries := EntriesOf(ListRecords(s.history[s.acceptor.value.version], order), now);
      && Decodable(entries)
      && (signed.revoked == RevokedCerts(entries)
          && (forall i :: v <= i < s.acceptor.value.version ==> !Discards(s.applied[i], s.applied[v - 1].id)) ==>
            exists n :: StoredSerial(n) == s.history[v][s.applied[v - 1].id].serialNumber && signed.Lists(n))
  {
    InitialInv(file, counter);
    FirstVersionStays(Initial(file, counter), steps, s);
    AnsweredRevocationsStayListed(file, counter, steps, s, v);
    var w, id := s.acceptor.value.version, s.applied[v - 1].id;
    assert ListedFrom(s, s.acceptor.value);
    VersionsIssuedHere(s, w);
    SignedListRejectsExactlyTheRevoked(s.history[w], order, now, signed, 0);
    if forall i :: v <= i < w ==> !Discards(s.applied[i], id) {
      EffectStays(s, v, v);
      VersionsIssuedHere(s, v);
      var n :| StoredSerial(n) == s.history[v][id].serialNumber;
      SignedListRejectsExactlyTheRevoked(s.history[w], order, now, signed, n);
      RevokedSerialsAreQueried(s.history[w], StoredSerial(n));
    }
  }

  // ------------------------------------------------------------ counter writes are current

  /** The number the counter file holds. */
  function CounterValue(counter: Option<string>): Option<nat> {
    if counter.None? then None else ParseU64(Trim(counter.value))
  }

  lemma NextNumberIsOneMore(counter: Option<string>)
    requires NextNumber(counter).Ok?
    ensures CounterValue(counter).Some? ==> NextNumber(counter).value == CounterValue(counter).value + 1
    ensures CounterValue(Some(PrintDecimal(NextNumber(counter).value))) == Some(NextNumber(counter).value)
  {
    if counter.Some? {
      var text := Trim(counter.value);
      ParseDigitsBounded(if text != [] && text[0] == '+' then text[1..] else text, 0);
    }
    CounterRoundTrip(NextNumber(counter).value);
  }

  predicate WritesCounter(s: State, step: Step) {
    step.WriteCounter? && step.ok && At(s, step.t) && s.threads[step.t].Numbering?
  }

  /** The counter file still gives the number about to be written: no other counter write
      came after this generation's read. */
  predicate CurrentWrite(s: State, step: Step) {
    WritesCounter(s, step) ==> NextNumber(s.counter) == Ok(s.threads[step.t].next)
  }

  predicate CurrentRun(s: State, steps: seq<Step>)
    decreases |steps|
  {
    steps == [] ||
    (CurrentWrite(s, steps[0]) && Next(s, steps[0]).Some? && CurrentRun(Next(s, steps[0]).value, steps[1..]))
  }

  /** The numbers a run hands out to generations, in order. */
  function Allotted(s: State, steps: seq<Step>): seq<nat>
    decreases |steps|
  {
    if steps == [] || Next(s, steps[0]).None? then []
    else (if WritesCounter(s, steps[0]) then [s.threads[steps[0].t].next] else [])
         + Allotted(Next(s, steps[0]).value, steps[1..])
  }

  ghost predicate Increasing(numbers: seq<nat>) {
    forall i, j :: 0 <= i < j < |numbers| ==> numbers[i] < numbers[j]
  }

  ghost predicate Distinct(numbers: seq<nat>) {
    forall i, j :: 0 <= i < j < |numbers| ==> numbers[i] != numbers[j]
  }

  /** While every write was current: the counter file holds the last number handed out, and
      a generation about to write has either the next number or one handed out before. */
  ghost predicate InOrder(s: State, done: seq<nat>) {
    && Increasing(done)
    && (done != [] ==> CounterValue(s.counter) == Some(done[|done| - 1]))
    && (forall t :: t in s.threads && s.threads[t].Numbering? ==>
          NextNumber(s.counter) == Ok(s.threads[t].next) || s.threads[t].next in done)
  }

  lemma CurrentWriteKeepsOrder(s: State, t: Tid, done: seq<nat>)
    requires InOrder(s, done) && At(s, t) && s.threads[t].Numbering?
    requires NextNumber(s.counter) == Ok(s.threads[t].next)
    ensures InOrder(AfterWriteCounter(s, t, true), done + [s.threads[t].next])
  {
    NextNumberIsOneMore(s.counter);
  }

  lemma OtherStepKeepsOrder(s: State, step: Step, s': State, done: seq<nat>)
    requires InOrder(s, done) && Next(s, step) == Some(s') && !WritesCounter(s, step)
    ensures InOrder(s', done)
  {
    if !step.Crash? {
      StepTouchesOneThread(s, step, s');
      StepProgress(s, step, s');
    }
    if !step.WriteCounter? && !step.SignList? {
      CounterAndLogUntouched(s, step, s');
    }
  }

  lemma RepeatedNumber(done: seq<nat>, n: nat, later: seq<nat>)
    requires n in done
    ensures !Distinct(done + [n] + later) && !Increasing(done + [n] + later)
  {
    var i :| 0 <= i < |done| && done[i] == n;
    var all := done + [n] + later;
    assert all[i] == all[|done|];
  }

  /** What the first step of a run adds to the numbers handed out. */
  lemma AllottedByStep(s: State, steps: seq<Step>, done: seq<nat>)
    requires steps != [] && Next(s, steps[0]).Some?
    ensures var rest := Allotted(Next(s, steps[0]).value, steps[1..]);
            done + Allotted(s, steps)
            == (if WritesCounter(s, steps[0]) then done + [s.threads[steps[0].t].next] else done) + rest
  {
  }

  lemma {:induction false} AllottedAfter(s: State, steps: seq<Step>, s': State, done: seq<nat>)
    requires InOrder(s, done) && Run(s, steps) == Some(s')
    ensures var all := done + Allotted(s, steps);
      && (Increasing(all) <==> CurrentRun(s, steps)) && (Distinct(all) <==> CurrentRun(s, steps))
    decreases |steps|
  {
    if steps == [] {
      assert done + Allotted(s, steps) == done;
    } else {
      var step, mid := steps[0], Next(s, steps[0]).value;
      AllottedByStep(s, steps, done);
      if !WritesCounter(s, step) {
        OtherStepKeepsOrder(s, step, mid, done);
        AllottedAfter(mid, steps[1..], s', done);
      } else {
        var n := s.threads[step.t].next;
        if NextNumber(s.counter) == Ok(n) {
          CurrentWriteKeepsOrder(s, step.t, done);
          AllottedAfter(mid, steps[1..], s', done + [n]);
        } else {
          RepeatedNumber(done, n, Allotted(mid, steps[1..]));
        }
      }
    }
  }

  /** When list numbers repeat. Over every run, crashes and overlaps included, no number is
      handed out twice exactly when every counter write is current, and then they increase:
      the first write that is not current repeats a number handed out before. */
  lemma NumbersIncreaseExactly(file: Records, counter: Option<string>, steps: seq<Step>, s: State)
    requires Run(Initial(file, counter), steps) == Some(s)
    ensures var numbers := Allotted(Initial(file, counter), steps);
      && (Increasing(numbers) <==> CurrentRun(Initial(file, counter), steps))
      && (Distinct(numbers) <==> CurrentRun(Initial(file, counter), steps))
  {
    AllottedAfter(Initial(file, counter), steps, s, []);
    assert [] + Allotted(Initial(file, counter), steps) == Allotted(Initial(file, counter), steps);
  }

  // ------------------------------------------------------------------- signed at most once

  predicate Pending(pc: Pc) {
    pc.Numbered? || pc.Listed?
  }

  function PendingNumber(pc: Pc): nat
    requires Pending(pc)
  {
    if pc.Numbered? then pc.number else pc.crl.number
  }

  /** The counter file is not behind this number. */
  predicate Reached(counter: Option<string>, n: nat) {
    CounterValue(counter).Some? && n <= CounterValue(counter).value
  }

  ghost predicate PendingOk(s: State, t: Tid)
    requires t in s.threads
  {
    Pending(s.threads[t]) ==>
      var n := PendingNumber(s.threads[t]);
      && Reached(s.counter, n) && n !in s.signed
      && (forall u :: u in s.threads && u != t && Pending(s.threads[u]) ==> PendingNumber(s.threads[u]) != n)
  }

  /** Numbers waiting to be signed are unsigned, different, and within the counter. */
  ghost predicate SignedOnce(s: State) {
    && Distinct(s.signed) && (forall n :: n in s.signed ==> Reached(s.counter, n))
    && (forall t :: t in s.threads ==> PendingOk(s, t))
  }

  lemma WriteCounterKeepsSignedOnce(s: State, t: Tid, ok: bool)
    requires SignedOnce(s) && At(s, t) && s.threads[t].Numbering? && CurrentWrite(s, WriteCounter(t, ok))
    ensures SignedOnce(AfterWriteCounter(s, t, ok))
  {
    var s' := AfterWriteCounter(s, t, ok);
    if ok {
      NextNumberIsOneMore(s.counter);
    }
    forall u | u in s'.threads ensures PendingOk(s', u) {
      assert u in s.threads && PendingOk(s, u);
    }
  }

  lemma SignListKeepsSignedOnce(s: State, t: Tid, ok: bool)
    requires SignedOnce(s) && At(s, t) && s.threads[t].Listed?
    ensures SignedOnce(AfterSignList(s, t, ok))
  {
    var s' := AfterSignList(s, t, ok);
    assert PendingOk(s, t);
    forall u | u in s'.threads ensures PendingOk(s', u) {
      assert PendingOk(s, u);
    }
  }

  lemma OtherStepKeepsSignedOnce(s: State, step: Step, s': State)
    requires SignedOnce(s) && Next(s, step) == Some(s') && !step.WriteCounter? && !step.SignList?
    ensures SignedOnce(s')
  {
    CounterAndLogUntouched(s, step, s');
    if !step.Crash? {
      StepTouchesOneThread(s, step, s');
      StepProgress(s, step, s');
      forall u | u in s'.threads && Pending(s'.threads[u])
        ensures u in s.threads && Pending(s.threads[u]) && PendingNumber(s.threads[u]) == PendingNumber(s'.threads[u])
      {
      }
      forall u | u in s'.threads ensures PendingOk(s', u) {
        if Pending(s'.threads[u]) {
          assert PendingOk(s, u);
        }
      }
    }
  }

  lemma StepKeepsSignedOnce(s: State, step: Step, s': State)
    requires SignedOnce(s) && Next(s, step) == Some(s') && CurrentWrite(s, step)
    ensures SignedOnce(s')
  {
    match step
    case WriteCounter(t, ok) => WriteCounterKeepsSignedOnce(s, t, ok);
    case SignList(t, ok) => SignListKeepsSignedOnce(s, t, ok);
    case _ => OtherStepKeepsSignedOnce(s, step, s');
  }

  lemma {:induction false} SignedOnceHolds(s: State, steps: seq<Step>, s': State)
    requires SignedOnce(s) && CurrentRun(s, steps) && Run(s, steps) == Some(s')
    ensures SignedOnce(s')
    decreases |steps|
  {
    if steps == [] {
    } else {
      StepKeepsSignedOnce(s, steps[0], Next(s, steps[0]).value);
      SignedOnceHolds(Next(s, steps[0]).value, steps[1..], s');
    }
  }

  /** While every counter write is current, whatever overlaps, no number is signed twice, and
      the counter file is never behind a number signed. */
  lemma NoNumberIsSignedTwice(file: Records, counter: Option<string>, steps: seq<Step>, s: State)
    requires CurrentRun(Initial(file, counter), steps) && Run(Initial(file, counter), steps) == Some(s)
    ensures Distinct(s.signed)
    ensures forall n :: n in s.signed ==> Reached(s.counter, n)
  {
    SignedOnceHolds(Initial(file, counter), steps, s);
  }
}
