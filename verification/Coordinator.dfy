/** The run coordinator: which checks may start, seen over every interleaving of its locked methods. */
module Coordinator {

  /** The fields the mutex guards. A time of 0 is the zero time of a monitor that has not run. */
  datatype Runs = Runs(
    lastRuns: map<int, int>,
    inFlight: set<int>,
    pending: set<int>,
    active: int,
    skippedOverlaps: int)

  datatype ClaimResult = Accepted | NotDue | Overlap | Capacity

  /** One critical section. */
  datatype Op =
    | Claim(id: int, now: int, interval: int)
    | ClaimManual(id: int, now: int)
    | RequestImmediate(id: int)
    | Release(id: int)
    | Forget(id: int)

  datatype Performed = Performed(runs: Runs, result: ClaimResult)

  const NO_RUNS := Runs(map[], {}, {}, 0, 0)

  function LastRun(runs: Runs, id: int): int {
    if id in runs.lastRuns then runs.lastRuns[id] else 0
  }

  predicate Due(runs: Runs, id: int, now: int, interval: int) {
    LastRun(runs, id) == 0 || now - LastRun(runs, id) >= interval
  }

  function Start(runs: Runs, id: int, now: int): Runs {
    runs.(lastRuns := runs.lastRuns[id := now], inFlight := runs.inFlight + {id}, active := runs.active + 1)
  }

  /** The effect of one critical section; the result matters for claims only. */
  function Perform(limit: int, runs: Runs, op: Op): Performed {
    match op
    case Claim(id, now, interval) =>
      if id !in runs.pending && !Due(runs, id, now, interval) then Performed(runs, NotDue)
      else if id in runs.inFlight then
        if id in runs.pending then Performed(runs, Overlap)
        else
          var skipped := runs.(lastRuns := runs.lastRuns[id := now], skippedOverlaps := runs.skippedOverlaps + 1);
          Performed(skipped, Overlap)
      else if runs.active >= limit then Performed(runs, Capacity)
      else Performed(Start(runs, id, now).(pending := runs.pending - {id}), Accepted)
    case ClaimManual(id, now) =>
      if id in runs.inFlight then Performed(runs, Overlap)
      else if runs.active >= limit then Performed(runs, Capacity)
      else Performed(Start(runs, id, now), Accepted)
    case RequestImmediate(id) =>
      Performed(runs.(pending := runs.pending + {id}), Accepted)
    case Release(id) =>
      if id in runs.inFlight
      then Performed(runs.(inFlight := runs.inFlight - {id}, active := runs.active - 1), Accepted)
      else Performed(runs, Accepted)
    case Forget(id) =>
      Performed(runs.(lastRuns := runs.lastRuns - {id}, pending := runs.pending - {id}), Accepted)
  }

  class RunCoordinator {
    var lastRuns: map<int, int>
    var inFlight: set<int>
    var pendingImmediate: set<int>
    var active: int
    const limit: int
    var skippedOverlaps: int

    ghost function Contents(): Runs
      reads this
    {
      Runs(lastRuns, inFlight, pendingImmediate, active, skippedOverlaps)
    }

    constructor (limit: int)
      ensures this.limit == limit && Contents() == NO_RUNS
    {
      lastRuns, inFlight, pendingImmediate := map[], {}, {};
      active, skippedOverlaps := 0, 0;
      this.limit := limit;
    }

    method Claim(id: int, now: int, interval: int) returns (r: ClaimResult)
      modifies this
      ensures Performed(Contents(), r) == Perform(limit, old(Contents()), Op.Claim(id, now, interval))
    {
      var immediate := id in pendingImmediate;
      if !immediate {
        var last := if id in lastRuns then lastRuns[id] else 0;
        if last != 0 && now - last < interval {
          return NotDue;
        }
      }
      if id in inFlight {
        if !immediate {
          lastRuns := lastRuns[id := now];
          skippedOverlaps := skippedOverlaps + 1;
        }
        return Overlap;
      }
      if active >= limit {
        return Capacity;
      }
      pendingImmediate := pendingImmediate - {id};
      lastRuns := lastRuns[id := now];
      inFlight := inFlight + {id};
      active := active + 1;
      r := Accepted;
    }

    method ClaimManual(id: int, now: int) returns (r: ClaimResult)
      modifies this
      ensures Performed(Contents(), r) == Perform(limit, old(Contents()), Op.ClaimManual(id, now))
    {
      if id in inFlight {
        return Overlap;
      }
      if active >= limit {
        return Capacity;
      }
      lastRuns := lastRuns[id := now];
      inFlight := inFlight + {id};
      active := active + 1;
      r := Accepted;
    }

    method RequestImmediate(id: int)
      modifies this`pendingImmediate
      ensures Contents() == Perform(limit, old(Contents()), Op.RequestImmediate(id)).runs
    {
      pendingImmediate := pendingImmediate + {id};
    }

    method Release(id: int)
      modifies this`inFlight, this`active
      ensures Contents() == Perform(limit, old(Contents()), Op.Release(id)).runs
    {
      if id !in inFlight {
        return;
      }
      inFlight := inFlight - {id};
      active := active - 1;
    }

    method Forget(id: int)
      modifies this`lastRuns, this`pendingImmediate
      ensures Contents() == Perform(limit, old(Contents()), Op.Forget(id)).runs
    {
      lastRuns := lastRuns - {id};
      pendingImmediate := pendingImmediate - {id};
    }
  }

  // ----- Interleavings: any sequence of critical sections -----

  /** The coordinator after a sequence of critical sections of arbitrarily many runs. */
  function After(limit: int, ops: seq<Op>): Runs {
    if ops == [] then NO_RUNS
    else Perform(limit, After(limit, ops[..|ops| - 1]), ops[|ops| - 1]).runs
  }

  function Before(limit: int, ops: seq<Op>, i: nat): Runs
    requires i < |ops|
  {
    After(limit, ops[..i])
  }

  function ResultAt(limit: int, ops: seq<Op>, i: nat): ClaimResult
    requires i < |ops|
  {
    Perform(limit, Before(limit, ops, i), ops[i]).result
  }

  predicate Started(limit: int, ops: seq<Op>, i: nat)
    requires i < |ops|
  {
    (ops[i].Claim? || ops[i].ClaimManual?) && ResultAt(limit, ops, i) == Accepted
  }

  /** A release that finds its monitor in flight. */
  predicate Freed(limit: int, ops: seq<Op>, i: nat)
    requires i < |ops|
  {
    ops[i].Release? && ops[i].id in Before(limit, ops, i).inFlight
  }

  /** A scheduled claim of a running monitor that is due and has no immediate request waiting. */
  predicate SkippedOverlap(limit: int, ops: seq<Op>, i: nat)
    requires i < |ops|
  {
    var before := Before(limit, ops, i);
    && ops[i].Claim?
    && ops[i].id in before.inFlight
    && ops[i].id !in before.pending
    && Due(before, ops[i].id, ops[i].now, ops[i].interval)
  }

  function Starts(limit: int, ops: seq<Op>): nat {
    if ops == [] then 0
    else Starts(limit, ops[..|ops| - 1]) + if Started(limit, ops, |ops| - 1) then 1 else 0
  }

  function Frees(limit: int, ops: seq<Op>): nat {
    if ops == [] then 0
    else Frees(limit, ops[..|ops| - 1]) + if Freed(limit, ops, |ops| - 1) then 1 else 0
  }

  function Skips(limit: int, ops: seq<Op>): nat {
    if ops == [] then 0
    else Skips(limit, ops[..|ops| - 1]) + if SkippedOverlap(limit, ops, |ops| - 1) then 1 else 0
  }

  /**
   * At most `limit` runs at once, one per monitor; the counter is the set's size and the balance of claims
   * and releases.
   */
  lemma {:induction false} BoundedAndConserved(limit: int, ops: seq<Op>)
    requires limit >= 0
    ensures var runs := After(limit, ops);
      && runs.active == |runs.inFlight| <= limit
      && runs.active == Starts(limit, ops) - Frees(limit, ops)
      && runs.skippedOverlaps == Skips(limit, ops)
  {
    if ops != [] {
      var n := |ops| - 1;
      BoundedAndConserved(limit, ops[..n]);
      StepBoundedAndConserved(limit, After(limit, ops[..n]), ops[n]);
    }
  }

  lemma StepBoundedAndConserved(limit: int, runs: Runs, op: Op)
    requires runs.active == |runs.inFlight| <= limit
    ensures var step := Perform(limit, runs, op);
      && step.runs.active == |step.runs.inFlight| <= limit
      && step.runs.active - runs.active ==
         (if (op.Claim? || op.ClaimManual?) && step.result == Accepted then 1 else 0)
         - (if op.Release? && op.id in runs.inFlight then 1 else 0)
      && step.runs.skippedOverlaps - runs.skippedOverlaps ==
         (if op.Claim? && op.id in runs.inFlight && op.id !in runs.pending && Due(runs, op.id, op.now, op.interval)
          then 1 else 0)
  {
  }

  /** A critical section that uses up an immediate request: an accepted scheduled claim, or a deletion. */
  predicate Consumes(limit: int, ops: seq<Op>, i: nat, id: int)
    requires i < |ops|
  {
    ops[i].id == id && ((ops[i].Claim? && ResultAt(limit, ops, i) == Accepted) || ops[i].Forget?)
  }

  /** The earlier positions of a sequence look the same in its prefix. */
  lemma SamePrefix(limit: int, ops: seq<Op>, i: nat)
    requires i < |ops| - 1
    ensures var init := ops[..|ops| - 1];
      && init[i] == ops[i] && Before(limit, init, i) == Before(limit, ops, i)
      && ResultAt(limit, init, i) == ResultAt(limit, ops, i)
  {
    assert ops[..|ops| - 1][..i] == ops[..i];
  }

  ghost predicate Waiting(limit: int, ops: seq<Op>, i: int, id: int) {
    && 0 <= i < |ops| && ops[i] == RequestImmediate(id)
    && forall j :: i < j < |ops| ==> !Consumes(limit, ops, j, id)
  }

  lemma WaitingEarlier(limit: int, ops: seq<Op>, i: int, id: int)
    requires ops != [] && i < |ops| - 1
    ensures Waiting(limit, ops, i, id) <==>
            Waiting(limit, ops[..|ops| - 1], i, id) && !Consumes(limit, ops, |ops| - 1, id)
  {
    var n := |ops| - 1;
    var init := ops[..n];
    if Waiting(limit, ops, i, id) {
      assert !Consumes(limit, ops, n, id);
      forall j | i < j < n
        ensures !Consumes(limit, init, j, id)
      {
        SamePrefix(limit, ops, j);
        assert !Consumes(limit, ops, j, id);
      }
    } else if Waiting(limit, init, i, id) && !Consumes(limit, ops, n, id) {
      forall j | i < j < |ops|
        ensures !Consumes(limit, ops, j, id)
      {
        if j < n {
          SamePrefix(limit, ops, j);
          assert !Consumes(limit, init, j, id);
        }
      }
      assert false;
    }
  }

  /** An immediate request waits exactly until a scheduled claim is accepted or the monitor is forgotten. */
  lemma {:induction false} PendingUntilConsumed(limit: int, ops: seq<Op>, id: int)
    ensures id in After(limit, ops).pending <==> exists i :: Waiting(limit, ops, i, id)
  {
    if ops != [] {
      var n := |ops| - 1;
      PendingUntilConsumed(limit, ops[..n], id);
      forall i | i < n
        ensures Waiting(limit, ops, i, id) <==> Waiting(limit, ops[..n], i, id) && !Consumes(limit, ops, n, id)
      {
        WaitingEarlier(limit, ops, i, id);
      }
      assert Waiting(limit, ops, n, id) <==> ops[n] == RequestImmediate(id);
      if i :| Waiting(limit, ops[..n], i, id) {
        assert Waiting(limit, ops, i, id) <==> !Consumes(limit, ops, n, id);
      }
    }
  }

  ghost predicate InRun(limit: int, ops: seq<Op>, i: int, id: int) {
    && 0 <= i < |ops| && ops[i].id == id && Started(limit, ops, i)
    && forall j :: i < j < |ops| ==> ops[j] != Release(id)
  }

  lemma InRunEarlier(limit: int, ops: seq<Op>, i: int, id: int)
    requires ops != [] && i < |ops| - 1
    ensures InRun(limit, ops, i, id) <==> InRun(limit, ops[..|ops| - 1], i, id) && ops[|ops| - 1] != Release(id)
  {
    if 0 <= i {
      SamePrefix(limit, ops, i);
    }
    assert forall j :: 0 <= j < |ops| - 1 ==> ops[..|ops| - 1][j] == ops[j];
  }

  /** A monitor is in flight exactly while its last accepted claim has not been released. */
  lemma {:induction false} InFlightUntilReleased(limit: int, ops: seq<Op>, id: int)
    ensures id in After(limit, ops).inFlight <==> exists i :: InRun(limit, ops, i, id)
  {
    if ops != [] {
      var n := |ops| - 1;
      InFlightUntilReleased(limit, ops[..n], id);
      forall i | i < n
        ensures InRun(limit, ops, i, id) <==> InRun(limit, ops[..n], i, id) && ops[n] != Release(id)
      {
        InRunEarlier(limit, ops, i, id);
      }
      assert InRun(limit, ops, n, id) <==> ops[n].id == id && Started(limit, ops, n);
      if i :| InRun(limit, ops[..n], i, id) {
        assert InRun(limit, ops, i, id) <==> ops[n] != Release(id);
      }
    }
  }

  /** A critical section that moves a monitor's schedule: any accepted claim, or a skipped overlap. */
  predicate Stamps(limit: int, ops: seq<Op>, i: nat, id: int)
    requires i < |ops|
  {
    ops[i].id == id && (Started(limit, ops, i) || SkippedOverlap(limit, ops, i))
  }

  ghost predicate LastStamp(limit: int, ops: seq<Op>, i: int, id: int) {
    && 0 <= i < |ops| && Stamps(limit, ops, i, id)
    && forall j :: i < j < |ops| ==> !Stamps(limit, ops, j, id) && ops[j] != Forget(id)
  }

  /** The stored last run is the time of the latest stamp since the monitor was last forgotten. */
  lemma {:induction false} LastRunIsLastStamp(limit: int, ops: seq<Op>, id: int, i: int)
    requires LastStamp(limit, ops, i, id)
    ensures LastRun(After(limit, ops), id) == ops[i].now
  {
    var n := |ops| - 1;
    var init := ops[..n];
    assert ops[..n] == init;
    if i < n {
      SamePrefix(limit, ops, i);
      forall j | i < j < n
        ensures !Stamps(limit, init, j, id) && init[j] != Forget(id)
      {
        SamePrefix(limit, ops, j);
      }
      LastRunIsLastStamp(limit, init, id, i);
      assert !Stamps(limit, ops, n, id);
    }
  }

  /** Without such a stamp nothing is stored, and the monitor is due at once. */
  lemma {:induction false} NoStampNoLastRun(limit: int, ops: seq<Op>, id: int)
    requires forall i :: !LastStamp(limit, ops, i, id)
    ensures LastRun(After(limit, ops), id) == 0
  {
    if ops != [] {
      var n := |ops| - 1;
      var init := ops[..n];
      assert ops[..n] == init;
      assert !LastStamp(limit, ops, n, id);
      if ops[n] != Forget(id) {
        forall i
          ensures !LastStamp(limit, init, i, id)
        {
          if LastStamp(limit, init, i, id) {
            forall j | i <= j < n
              ensures Stamps(limit, ops, j, id) == Stamps(limit, init, j, id) && ops[j] == init[j]
            {
              SamePrefix(limit, ops, j);
            }
            assert LastStamp(limit, ops, i, id);
          }
        }
        NoStampNoLastRun(limit, init, id);
      }
    }
  }

  /** The monitor's latest stamp since it was forgotten, if it has one, is at least an interval old. */
  ghost predicate Spaced(limit: int, ops: seq<Op>, id: int, now: int, interval: int) {
    forall i :: LastStamp(limit, ops, i, id) ==> ops[i].now == 0 || now - ops[i].now >= interval
  }

  /** A monitor is due exactly when an interval has passed since its latest stamp, or it has none. */
  lemma DueIffSpaced(limit: int, ops: seq<Op>, id: int, now: int, interval: int)
    ensures Due(After(limit, ops), id, now, interval) <==> Spaced(limit, ops, id, now, interval)
  {
    if i :| LastStamp(limit, ops, i, id) {
      forall j | LastStamp(limit, ops, j, id)
        ensures LastRun(After(limit, ops), id) == ops[j].now
      {
        LastRunIsLastStamp(limit, ops, id, j);
      }
      LastRunIsLastStamp(limit, ops, id, i);
    } else {
      NoStampNoLastRun(limit, ops, id);
    }
  }

  /** An accepted scheduled claim comes at least one interval after the latest stamp, unless a request was waiting. */
  lemma ScheduledRunsAreSpaced(limit: int, ops: seq<Op>, i: int, j: nat)
    requires j < |ops| && ops[j].Claim? && ResultAt(limit, ops, j) == Accepted
    requires forall w :: !Waiting(limit, ops[..j], w, ops[j].id)
    requires LastStamp(limit, ops[..j], i, ops[j].id) && ops[i].now != 0
    ensures ops[j].now - ops[i].now >= ops[j].interval
  {
    PendingUntilConsumed(limit, ops[..j], ops[j].id);
    LastRunIsLastStamp(limit, ops[..j], ops[j].id, i);
  }

  /** No run of the monitor is in progress, and fewer runs than the limit are. */
  ghost predicate RoomFor(limit: int, ops: seq<Op>, id: int) {
    (forall j :: !InRun(limit, ops, j, id)) && Starts(limit, ops) - Frees(limit, ops) < limit
  }

  lemma RoomIsIdleAndFree(limit: int, ops: seq<Op>, id: int)
    requires limit >= 0
    ensures var runs := After(limit, ops);
      RoomFor(limit, ops, id) <==> id !in runs.inFlight && runs.active < limit
  {
    InFlightUntilReleased(limit, ops, id);
    BoundedAndConserved(limit, ops);
  }

  /** A manual run starts exactly when its monitor is idle and fewer runs than the limit are in progress. */
  lemma ManualAcceptedIff(limit: int, ops: seq<Op>, i: nat)
    requires limit >= 0 && i < |ops| && ops[i].ClaimManual?
    ensures ResultAt(limit, ops, i) == Accepted <==> RoomFor(limit, ops[..i], ops[i].id)
  {
    RoomIsIdleAndFree(limit, ops[..i], ops[i].id);
  }

  /** A scheduled run needs in addition a waiting request, or its interval to have passed since the last stamp. */
  lemma ScheduledAcceptedIff(limit: int, ops: seq<Op>, i: nat)
    requires limit >= 0 && i < |ops| && ops[i].Claim?
    ensures ResultAt(limit, ops, i) == Accepted <==>
            && RoomFor(limit, ops[..i], ops[i].id)
            && ((exists j :: Waiting(limit, ops[..i], j, ops[i].id))
                || Spaced(limit, ops[..i], ops[i].id, ops[i].now, ops[i].interval))
  {
    RoomIsIdleAndFree(limit, ops[..i], ops[i].id);
    PendingUntilConsumed(limit, ops[..i], ops[i].id);
    DueIffSpaced(limit, ops[..i], ops[i].id, ops[i].now, ops[i].interval);
  }

  /** Some accepted claim of the monitor has not been released. */
  ghost predicate Busy(limit: int, ops: seq<Op>, id: int) {
    exists j :: InRun(limit, ops, j, id)
  }

  /** As many runs are in progress as the limit allows. */
  ghost predicate Full(limit: int, ops: seq<Op>) {
    Starts(limit, ops) - Frees(limit, ops) >= limit
  }

  /** What a manual run is told: that the monitor's run is in progress, or else that no slot is free. */
  lemma ManualAnswer(limit: int, ops: seq<Op>, i: nat)
    requires limit >= 0 && i < |ops| && ops[i].ClaimManual?
    ensures ResultAt(limit, ops, i) == Overlap <==> Busy(limit, ops[..i], ops[i].id)
    ensures ResultAt(limit, ops, i) == Capacity <==> !Busy(limit, ops[..i], ops[i].id) && Full(limit, ops[..i])
    ensures ResultAt(limit, ops, i) != NotDue
  {
    InFlightUntilReleased(limit, ops[..i], ops[i].id);
    BoundedAndConserved(limit, ops[..i]);
  }

  /** What a scheduled claim is told: whether the monitor has anything to run at all comes first. */
  lemma ScheduledAnswer(limit: int, ops: seq<Op>, i: nat)
    requires limit >= 0 && i < |ops| && ops[i].Claim?
    ensures var before, id := ops[..i], ops[i].id;
      var due := Spaced(limit, before, id, ops[i].now, ops[i].interval);
      var wanted := (exists j :: Waiting(limit, before, j, id)) || due;
      && (ResultAt(limit, ops, i) == NotDue <==> !wanted)
      && (ResultAt(limit, ops, i) == Overlap <==> wanted && Busy(limit, before, id))
      && (ResultAt(limit, ops, i) == Capacity <==> wanted && !Busy(limit, before, id) && Full(limit, before))
  {
    InFlightUntilReleased(limit, ops[..i], ops[i].id);
    BoundedAndConserved(limit, ops[..i]);
    PendingUntilConsumed(limit, ops[..i], ops[i].id);
    DueIffSpaced(limit, ops[..i], ops[i].id, ops[i].now, ops[i].interval);
  }

  /**
   * A waiting request is served: the next scheduled claim that finds room is accepted, however recent the
   * last run, and uses it up; one that finds none leaves it waiting.
   */
  lemma WaitingIsServed(limit: int, ops: seq<Op>, claim: Op, w: int)
    requires limit >= 0 && claim.Claim? && Waiting(limit, ops, w, claim.id)
    ensures ResultAt(limit, ops + [claim], |ops|) == Accepted <==> RoomFor(limit, ops, claim.id)
    ensures if RoomFor(limit, ops, claim.id) then forall v :: !Waiting(limit, ops + [claim], v, claim.id)
            else Waiting(limit, ops + [claim], w, claim.id)
  {
    var all := ops + [claim];
    assert all[..|ops|] == ops;
    RoomIsIdleAndFree(limit, ops, claim.id);
    PendingUntilConsumed(limit, ops, claim.id);
    PendingUntilConsumed(limit, all, claim.id);
    WaitingEarlier(limit, all, w, claim.id);
  }
}
