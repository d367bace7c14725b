/** Writing the node status: skipped while nothing changed and the heartbeat has not elapsed. */
module StatusWriter {
  import opened Wrappers
  import opened StatusComparison

  const SECOND := 1_000_000_000

  /** What the API server does with a write. A lost reply is an update that took effect and reports an error. */
  datatype Fault = NoFault | GetFails | UpdateRejected | ReplyLost

  /** One call, as seen from outside. */
  datatype Outcome = Outcome(ok: bool, skipped: bool)

  /** A collected status, what the API server will do with it, and the time since the call before. */
  datatype Cycle = Cycle(status: StatusData, fault: Fault, elapsed: nat)

  /** The state after a call: the object, what was acknowledged last, the time since the last acknowledged write
      when the call began, and the clock. */
  datatype Snapshot = Snapshot(stored: StatusData, acked: Option<StatusData>, age: int, clock: int)

  predicate NoFaults(cycles: seq<Cycle>, i: nat)
    requires i < |cycles|
  {
    forall j :: 0 <= j <= i ==> cycles[j].fault == NoFault
  }

  lemma NoFaultsSoFar(cycles: seq<Cycle>, i: nat)
    requires i < |cycles| && NoFaults(cycles, i)
    ensures cycles[i].fault == NoFault && (i > 0 ==> NoFaults(cycles, i - 1))
  {
  }

  /** The status shows an update less than a heartbeat before the given time, or at that time. */
  predicate Fresh(written: StatusData, at: int, heartbeatSeconds: int) {
    written.lastUpdated.Some? &&
    (written.lastUpdated.value == at || at - written.lastUpdated.value < heartbeatSeconds * SECOND)
  }

  /** A success shows the collected status exactly when it wrote or the object equals what was acknowledged last;
      and it was skipped only before the heartbeat. */
  ghost predicate Reported(status: StatusData, o: Outcome, s: Snapshot, heartbeatSeconds: int) {
    && (o.ok ==> (SameStatus(Some(s.stored), Some(status)) <==> !o.skipped || SameStatus(Some(s.stored), s.acked)))
    && (o.skipped ==> s.age < heartbeatSeconds * SECOND && s.acked.Some?)
  }

  lemma IsReported(status: StatusData, o: Outcome, s: Snapshot, heartbeatSeconds: int)
    requires o.ok ==> (SameStatus(Some(s.stored), Some(status)) <==> !o.skipped || SameStatus(Some(s.stored), s.acked))
    requires o.skipped ==> s.age < heartbeatSeconds * SECOND && s.acked.Some?
    ensures Reported(status, o, s, heartbeatSeconds)
  {
  }

  lemma ReportedMeans(status: StatusData, o: Outcome, s: Snapshot, heartbeatSeconds: int)
    requires Reported(status, o, s, heartbeatSeconds)
    ensures o.ok ==> (SameStatus(Some(s.stored), Some(status)) <==> !o.skipped || SameStatus(Some(s.stored), s.acked))
    ensures o.skipped ==> s.age < heartbeatSeconds * SECOND && s.acked.Some?
  {
  }

  class BGPNodeStatusReporter {
    var lastWrittenStatus: Option<StatusData>
    var lastWriteTime: int
    var heartbeatSeconds: int
    var now: int
    /** The status of this node's object; nobody else writes it. */
    var stored: StatusData

    constructor (stored: StatusData, heartbeatSeconds: int, now: int)
      ensures this.stored == stored && this.heartbeatSeconds == heartbeatSeconds && this.now == now
      ensures lastWrittenStatus == None
    {
      this.stored, this.heartbeatSeconds, this.now := stored, heartbeatSeconds, now;
      lastWrittenStatus, lastWriteTime := None, 0;
    }

    /** What was written last is what is stored: true as long as no reply is lost. */
    ghost predicate InStep()
      reads this
    {
      lastWrittenStatus.Some? ==> lastWrittenStatus == Some(stored)
    }

    /** What was acknowledged last carries the time of that write. */
    ghost predicate Stamped()
      reads this
    {
      lastWrittenStatus.Some? ==> lastWrittenStatus.value.lastUpdated == Some(lastWriteTime)
    }

    ghost predicate HeartbeatElapsed(at: int)
      reads this
    {
      at - lastWriteTime >= heartbeatSeconds * SECOND
    }

    /** Get and update of the object. */
    method Update(status: StatusData, fault: Fault) returns (ok: bool)
      modifies this`stored
      ensures ok <==> fault == NoFault
      ensures stored == if fault == NoFault || fault == ReplyLost then status else old(stored)
    {
      if fault == GetFails {
        return false;
      }
      if fault != UpdateRejected {
        stored := status;
      }
      ok := fault == NoFault;
    }

    /** The wait before a write that a change triggered: a random number of whole seconds below a quarter of the
        heartbeat, on a clock that only such waits advance during a call. */
    method Jitter()
      modifies this`now
      ensures old(now) <= now
      ensures now - old(now) <= MaxJitter()
    {
      var jitterMax := heartbeatSeconds / 4;
      if jitterMax > 0 {
        var jitter: int :| 0 <= jitter < jitterMax;
        now := now + jitter * SECOND;
      }
    }

    function MaxJitter(): int
      reads this`heartbeatSeconds
    {
      if heartbeatSeconds >= 4 then (heartbeatSeconds / 4 - 1) * SECOND else 0
    }

    /** writeStatus. A call that reports success leaves the object equal to what was just collected, unless it
        skipped the write while the object was out of step; and it skips only before the heartbeat elapses. */
    method WriteStatus(status: StatusData, fault: Fault) returns (r: Outcome)
      requires Stamped()
      modifies this`stored, this`lastWrittenStatus, this`lastWriteTime, this`now
      ensures Stamped()
      ensures !r.skipped ==>
        stored == if fault == NoFault || fault == ReplyLost
                  then status.(lastUpdated := Some(now), heartbeatSeconds := heartbeatSeconds) else old(stored)
      ensures old(InStep()) && fault != ReplyLost ==> InStep()
      ensures old(InStep()) && fault == NoFault ==> lastWrittenStatus.Some? && Fresh(stored, now, heartbeatSeconds)
      ensures old(now) <= now <= old(now) + MaxJitter()
      ensures r.ok && !r.skipped ==> SameStatus(Some(stored), Some(status)) && InStep() && lastWriteTime == now
      ensures r.skipped ==>
        && r.ok && now == old(now) && stored == old(stored) && lastWrittenStatus.Some?
        && lastWrittenStatus == old(lastWrittenStatus) && lastWriteTime == old(lastWriteTime)
        && !old(HeartbeatElapsed(now)) && SameStatus(old(lastWrittenStatus), Some(status))
      ensures r.ok && old(InStep()) ==> SameStatus(Some(stored), Some(status))
      ensures r.ok ==>
        (SameStatus(Some(stored), Some(status)) <==> !r.skipped || SameStatus(Some(stored), lastWrittenStatus))
      ensures old(lastWrittenStatus).Some? && Identified(old(lastWrittenStatus).value) && !old(HeartbeatElapsed(now)) ==>
              SameStatus(old(lastWrittenStatus), Some(status)) ==> r.skipped
      ensures !r.skipped ==> (r.ok <==> fault == NoFault)
      ensures !r.ok ==> lastWrittenStatus == old(lastWrittenStatus) && lastWriteTime == old(lastWriteTime)
      ensures !r.skipped && fault == ReplyLost ==> SameStatus(Some(stored), Some(status))
      ensures r.ok && !r.skipped ==> lastWrittenStatus.Some? && StatusKeepsLists(lastWrittenStatus.value, status)
    {
      hide Identified, StatusViewOf;
      var equal := StatusEqual(lastWrittenStatus, Some(status));
      if equal {
        if now - lastWriteTime < heartbeatSeconds * SECOND {
          return Outcome(true, true);
        }
      } else {
        Jitter();
      }
      var stamped := status.(lastUpdated := Some(now), heartbeatSeconds := heartbeatSeconds);
      StampIsNotCompared(status, Some(now), heartbeatSeconds);
      var ok := Update(stamped, fault);
      if ok {
        lastWrittenStatus, lastWriteTime := Some(stamped), now;
      }
      r := Outcome(ok, false);
    }

    /** Any sequence of cycles with any faults. A success leaves the object equal to the status of its cycle
        exactly when it wrote, or when the object still equals what was last acknowledged; the two can differ
        only from a lost reply on, and until the next success that writes. No cycle is skipped once the
        heartbeat has elapsed since the last write; so as long as no call fails, the object never shows an
        update a heartbeat or more ago at the end of a cycle. */
    method WriteAll(cycles: seq<Cycle>) returns (outcomes: seq<Outcome>, ghost after: seq<Snapshot>)
      requires InStep() && Stamped()
      modifies this`stored, this`lastWrittenStatus, this`lastWriteTime, this`now
      ensures |outcomes| == |after| == |cycles|
      ensures forall i :: 0 <= i < |cycles| && NoFaults(cycles, i) ==> Fresh(after[i].stored, after[i].clock, heartbeatSeconds)
      ensures forall i :: 0 <= i < |cycles| && outcomes[i].ok ==>
        (SameStatus(Some(after[i].stored), Some(cycles[i].status)) <==>
         !outcomes[i].skipped || SameStatus(Some(after[i].stored), after[i].acked))
      ensures forall i :: 0 <= i < |cycles| && after[i].acked.Some? && after[i].acked != Some(after[i].stored) ==>
        LostReplyStands(cycles, outcomes, i)
      ensures forall i :: 0 <= i < |cycles| && outcomes[i].ok && !SameStatus(Some(after[i].stored), Some(cycles[i].status)) ==>
        LostReplyStands(cycles, outcomes, i)
      ensures forall i :: 0 <= i < |cycles| && outcomes[i].skipped ==> after[i].age < heartbeatSeconds * SECOND
      ensures cycles != [] ==> stored == after[|cycles| - 1].stored && lastWrittenStatus == after[|cycles| - 1].acked
    {
      hide SameStatus, LostReplyStands, NoFaults, Fresh, Reported;
      outcomes, after := [], [];
      for i := 0 to |cycles|
        invariant heartbeatSeconds == old(heartbeatSeconds)
        invariant |outcomes| == |after| == i
        invariant Stamped()
        invariant i > 0 && NoFaults(cycles, i - 1) ==> InStep()
        invariant forall j :: 0 <= j < i && NoFaults(cycles, j) ==> Fresh(after[j].stored, after[j].clock, heartbeatSeconds)
        invariant forall j :: 0 <= j < i ==> Reported(cycles[j].status, outcomes[j], after[j], heartbeatSeconds)
        invariant forall j :: 0 <= j < i && after[j].acked.Some? && after[j].acked != Some(after[j].stored) ==> LostReplyStands(cycles, outcomes, j)
        invariant if i == 0 then InStep() else stored == after[i - 1].stored && lastWrittenStatus == after[i - 1].acked
      {
        if NoFaults(cycles, i) {
          NoFaultsSoFar(cycles, i);
        }
        now := now + cycles[i].elapsed;
        ghost var inStep, before, age := InStep(), outcomes, now - lastWriteTime;
        var o := WriteStatus(cycles[i].status, cycles[i].fault);
        outcomes, after := outcomes + [o], after + [Snapshot(stored, lastWrittenStatus, age, now)];
        IsReported(cycles[i].status, o, after[i], heartbeatSeconds);
        LostReplyEarlier(cycles, before, o);
        if lastWrittenStatus.Some? && lastWrittenStatus != Some(stored) {
          LostReplyStandsStill(cycles, outcomes, i, inStep);
        }
      }
      forall i | 0 <= i < |cycles|
        ensures outcomes[i].skipped ==> after[i].age < heartbeatSeconds * SECOND
        ensures outcomes[i].ok ==>
          (SameStatus(Some(after[i].stored), Some(cycles[i].status)) <==>
           !outcomes[i].skipped || SameStatus(Some(after[i].stored), after[i].acked))
        ensures outcomes[i].skipped ==> after[i].acked.Some? {
        ReportedMeans(cycles[i].status, outcomes[i], after[i], heartbeatSeconds);
      }
      forall i | 0 <= i < |cycles| && outcomes[i].ok && !SameStatus(Some(after[i].stored), Some(cycles[i].status))
        ensures LostReplyStands(cycles, outcomes, i) {
        SameIsReflexive(Some(after[i].stored));
      }
    }

    /** With a lost reply the guarantee fails until the heartbeat: the object keeps a status that is over, and
        the next cycle, which finds what was last acknowledged, reports success without writing. */
    method LostReplyLeavesAStaleObject(a: StatusData, b: StatusData) returns (r: Outcome)
      requires lastWrittenStatus == None && heartbeatSeconds > 0
      requires Identified(a) && Identified(b) && !SameStatus(Some(a), Some(b))
      modifies this`stored, this`lastWrittenStatus, this`lastWriteTime, this`now
      ensures r == Outcome(true, true) && SameStatus(Some(stored), Some(b)) && !SameStatus(Some(stored), Some(a))
    {
      hide Identified, StatusViewOf;
      var first := WriteStatus(a, NoFault);
      IdentifiedKept(lastWrittenStatus.value, a);
      var second := WriteStatus(b, ReplyLost);
      r := WriteStatus(a, NoFault);
    }
  }

  /** Some cycle up to i lost its reply, and no later cycle up to i wrote successfully. */
  ghost predicate LostReplyStands(cycles: seq<Cycle>, outcomes: seq<Outcome>, i: nat)
    requires i < |cycles| && i < |outcomes|
  {
    exists k :: 0 <= k <= i && cycles[k].fault == ReplyLost && !outcomes[k].ok &&
                forall j :: k < j <= i ==> !(outcomes[j].ok && !outcomes[j].skipped)
  }

  lemma LostReplyEarlier(cycles: seq<Cycle>, outcomes: seq<Outcome>, o: Outcome)
    requires |outcomes| < |cycles|
    ensures forall j :: 0 <= j < |outcomes| ==>
      LostReplyStands(cycles, outcomes, j) == LostReplyStands(cycles, outcomes + [o], j)
  {
    forall j | 0 <= j < |outcomes| ensures LostReplyStands(cycles, outcomes, j) == LostReplyStands(cycles, outcomes + [o], j) {
      assert forall k :: 0 <= k <= j ==> (outcomes + [o])[k] == outcomes[k];
    }
  }

  lemma LostReplyStandsStill(cycles: seq<Cycle>, outcomes: seq<Outcome>, i: nat, justLost: bool)
    requires i < |cycles| && i < |outcomes| && !(outcomes[i].ok && !outcomes[i].skipped)
    requires if justLost then cycles[i].fault == ReplyLost && !outcomes[i].ok else i > 0 && LostReplyStands(cycles, outcomes, i - 1)
    ensures LostReplyStands(cycles, outcomes, i)
  {
    if !justLost {
      var k :| 0 <= k <= i - 1 && cycles[k].fault == ReplyLost && !outcomes[k].ok &&
               forall j :: k < j <= i - 1 ==> !(outcomes[j].ok && !outcomes[j].skipped);
      assert forall j :: k < j <= i ==> !(outcomes[j].ok && !outcomes[j].skipped);
    } else {
      assert cycles[i].fault == ReplyLost;
    }
  }

  lemma SameIsReflexive(a: Option<StatusData>)
    ensures SameStatus(a, a)
  {
  }

  /** The stamps are not part of the comparison. */
  lemma StampIsNotCompared(s: StatusData, lastUpdated: Option<int>, heartbeatSeconds: int)
    ensures SameStatus(Some(s.(lastUpdated := lastUpdated, heartbeatSeconds := heartbeatSeconds)), Some(s))
  {
  }

  /** The lists that identify neighbors and routes are written as collected. */
  ghost predicate StatusKeepsLists(written: StatusData, collected: StatusData) {
    written.neighbors == collected.neighbors && written.rib == collected.rib
  }

  lemma IdentifiedKept(written: StatusData, collected: StatusData)
    requires StatusKeepsLists(written, collected) && Identified(collected)
    ensures Identified(written)
  {
  }
}
