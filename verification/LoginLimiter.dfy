/** Per-client lockout after repeated failed sign-ins. */
module LoginLimiter {

  const FAILURE_THRESHOLD := 5
  const FAILURE_WINDOW := 900
  const LOCKOUT_BASE := 60
  const LOCKOUT_MAX := 900

  /** A time of 0 is the zero time. */
  datatype Attempts = Attempts(failures: int, firstFailed: int, lockedUntil: int, lockouts: int)

  const FRESH := Attempts(0, 0, 0, 0)

  datatype Op =
    | LockedFor(key: string, now: int)
    | RecordFailure(key: string, now: int)
    | RecordSuccess(key: string)
    | ForgetStale(now: int)

  type Clients = map<string, Attempts>

  /** The base doubled once for each earlier lockout, at most four times, and capped. */
  function Lockout(lockouts: int): int {
    var factor := if lockouts <= 0 then 1 else if lockouts == 1 then 2 else if lockouts == 2 then 4
                  else if lockouts == 3 then 8 else 16;
    var doubled := LOCKOUT_BASE * factor;
    if doubled > LOCKOUT_MAX then LOCKOUT_MAX else doubled
  }

  predicate WindowPassed(a: Attempts, now: int) {
    a.firstFailed != 0 && now - a.firstFailed > FAILURE_WINDOW
  }

  predicate Stale(a: Attempts, now: int) {
    now > a.lockedUntil && (a.firstFailed == 0 || WindowPassed(a, now))
  }

  function Failed(a: Attempts, now: int): Attempts {
    var started := if a.failures == 0 then a.(firstFailed := now) else a;
    var counted := started.(failures := started.failures + 1);
    if counted.failures >= FAILURE_THRESHOLD
    then Attempts(0, 0, now + Lockout(counted.lockouts), counted.lockouts + 1)
    else counted
  }

  function Apply(clients: Clients, op: Op): Clients {
    match op
    case LockedFor(key, now) =>
      if key in clients && now >= clients[key].lockedUntil && WindowPassed(clients[key], now) then clients - {key}
      else clients
    case RecordFailure(key, now) =>
      clients[key := Failed(if key !in clients || WindowPassed(clients[key], now) then FRESH else clients[key], now)]
    case RecordSuccess(key) => clients - {key}
    case ForgetStale(now) => map key | key in clients && !Stale(clients[key], now) :: clients[key]
  }

  predicate InForce(clients: Clients, key: string, now: int) {
    key in clients && now < clients[key].lockedUntil
  }

  class Limiter {
    var clients: Clients

    constructor ()
      ensures clients == map[]
    {
      clients := map[];
    }

    /** How long the client must wait; 0 exactly when no lock is in force. */
    method LockedFor(key: string, now: int) returns (wait: int)
      modifies this
      ensures wait == if InForce(old(clients), key, now) then old(clients)[key].lockedUntil - now else 0
      ensures clients == Apply(old(clients), Op.LockedFor(key, now))
      ensures forall k :: k in clients ==> k in old(clients) && clients[k] == old(clients)[k]
      ensures forall k :: k in old(clients) && k !in clients ==>
                k == key && !InForce(old(clients), k, now)
                && old(clients)[k].firstFailed != 0 && now - old(clients)[k].firstFailed > FAILURE_WINDOW
    {
      if key !in clients {
        return 0;
      }
      var record := clients[key];
      if now < record.lockedUntil {
        return record.lockedUntil - now;
      }
      if record.firstFailed != 0 && now - record.firstFailed > FAILURE_WINDOW {
        clients := clients - {key};
      }
      wait := 0;
    }

    method RecordFailure(key: string, now: int)
      modifies this
      ensures clients == Apply(old(clients), Op.RecordFailure(key, now))
    {
      var record := FRESH;
      if key in clients && !(clients[key].firstFailed != 0 && now - clients[key].firstFailed > FAILURE_WINDOW) {
        record := clients[key];
      }
      if record.failures == 0 {
        record := record.(firstFailed := now);
      }
      record := record.(failures := record.failures + 1);
      if record.failures >= FAILURE_THRESHOLD {
        var lockout := Lockout(record.lockouts);
        record := Attempts(0, 0, now + lockout, record.lockouts + 1);
      }
      clients := clients[key := record];
    }

    method RecordSuccess(key: string)
      modifies this
      ensures clients == Apply(old(clients), Op.RecordSuccess(key))
      ensures key !in clients
      ensures forall k :: k in old(clients) && k != key ==> k in clients && clients[k] == old(clients)[k]
    {
      clients := clients - {key};
    }

    /** Drops the clients that have gone quiet. */
    method ForgetStale(now: int)
      modifies this
      ensures clients == Apply(old(clients), Op.ForgetStale(now))
      ensures forall k :: k in clients ==> k in old(clients) && clients[k] == old(clients)[k]
      ensures forall k :: k in old(clients) ==>
                (k in clients <==>
                   || now <= old(clients)[k].lockedUntil
                   || (old(clients)[k].firstFailed != 0 && now - old(clients)[k].firstFailed <= FAILURE_WINDOW))
    {
      var rest := clients.Keys;
      while rest != {}
        invariant rest <= clients.Keys
        invariant forall key :: key in clients <==>
                                  key in old(clients) && (key in rest || !Stale(old(clients)[key], now))
        invariant forall key :: key in clients ==> clients[key] == old(clients)[key]
        decreases rest
      {
        assert (forall key :: key !in rest) ==> rest == {};
        var key :| key in rest;
        var record := clients[key];
        if now > record.lockedUntil && (record.firstFailed == 0 || now - record.firstFailed > FAILURE_WINDOW) {
          clients := clients - {key};
        }
        rest := rest - {key};
      }
    }
  }

  // ----- Sequences of operations by any clients -----

  /** The time of an operation; a success carries none and takes the time before it. */
  function TimeOf(op: Op, before: int): int {
    if op.RecordSuccess? then before else op.now
  }

  /** The limiter after a sequence of operations, and the latest time it has seen. */
  function After(ops: seq<Op>): Clients {
    if ops == [] then map[] else Apply(After(ops[..|ops| - 1]), ops[|ops| - 1])
  }

  function Clock(ops: seq<Op>, start: int): int {
    if ops == [] then start else TimeOf(ops[|ops| - 1], Clock(ops[..|ops| - 1], start))
  }

  /** Times are positive and do not go back. */
  ghost predicate Timed(ops: seq<Op>, start: int) {
    start > 0 &&
    (ops == [] ||
     var init, last := ops[..|ops| - 1], ops[|ops| - 1];
     Timed(init, start) && Clock(init, start) <= TimeOf(last, Clock(init, start)))
  }

  /** What ties a record to the time: a lock ends within its own lockout of now, and of the first failure after it. */
  ghost predicate Sound(a: Attempts, now: int) {
    && 0 <= a.failures < FAILURE_THRESHOLD && a.lockouts >= 0
    && (a.failures == 0 <==> a.firstFailed == 0)
    && 0 <= a.firstFailed <= now
    && (a.lockouts == 0 ==> a.lockedUntil == 0)
    && (a.lockouts > 0 ==> a.lockedUntil <= now + Lockout(a.lockouts - 1))
    && (a.firstFailed != 0 ==> a.lockedUntil <= a.firstFailed + FAILURE_WINDOW)
  }

  ghost predicate AllSound(clients: Clients, now: int) {
    forall key :: key in clients ==> Sound(clients[key], now)
  }

  lemma LockoutGrows(n: int)
    ensures LOCKOUT_BASE <= Lockout(n) <= Lockout(n + 1) <= LOCKOUT_MAX <= FAILURE_WINDOW
  {
  }

  lemma FailedSound(a: Attempts, before: int, now: int)
    requires Sound(a, before) && 0 < before <= now
    ensures Sound(Failed(a, now), now)
  {
  }

  lemma StepKeepsSound(clients: Clients, op: Op, before: int, now: int)
    requires AllSound(clients, before) && 0 < before <= now && now == TimeOf(op, before)
    ensures AllSound(Apply(clients, op), now)
  {
    forall k | k in clients
      ensures Sound(clients[k], now)
    {
      LockoutGrows(clients[k].lockouts - 1);
    }
    if op.RecordFailure? {
      FailedSound(FRESH, before, now);
      if op.key in clients {
        FailedSound(clients[op.key], before, now);
      }
    }
  }

  lemma {:induction false} AlwaysSound(ops: seq<Op>, start: int)
    requires Timed(ops, start)
    ensures AllSound(After(ops), Clock(ops, start)) && Clock(ops, start) > 0
  {
    if ops != [] {
      var init, last := ops[..|ops| - 1], ops[|ops| - 1];
      AlwaysSound(init, start);
      StepKeepsSound(After(init), last, Clock(init, start), Clock(ops, start));
    }
  }

  /** No lock ever reaches more than fifteen minutes ahead. */
  lemma LocksAreBounded(ops: seq<Op>, start: int, key: string)
    requires Timed(ops, start) && key in After(ops)
    ensures After(ops)[key].lockedUntil <= Clock(ops, start) + LOCKOUT_MAX
  {
    AlwaysSound(ops, start);
    LockoutGrows(After(ops)[key].lockouts - 1);
  }

  // ----- Failures add up -----

  /**
   * The times of a client's failures that count towards its next lockout, told from its failures and successes
   * alone: a failure more than the window after the first one is the first again, and the fifth starts over.
   */
  function Counted(ops: seq<Op>, key: string): seq<int> {
    if ops == [] then []
    else
      var before, op := Counted(ops[..|ops| - 1], key), ops[|ops| - 1];
      match op
      case RecordSuccess(k) => if k == key then [] else before
      case RecordFailure(k, now) => if k == key then Counting(before, now) else before
      case _ => before
  }

  function Counting(before: seq<int>, now: int): seq<int> {
    var running := if before != [] && now - before[0] > FAILURE_WINDOW then [] else before;
    if |running| + 1 == FAILURE_THRESHOLD then [] else running + [now]
  }

  /** The record holds the counted failures, or is gone because their window has passed. */
  ghost predicate Holds(clients: Clients, key: string, counted: seq<int>, now: int) {
    if key in clients then
      && clients[key].failures == |counted|
      && (counted != [] ==> clients[key].firstFailed == counted[0])
    else counted != [] ==> now - counted[0] > FAILURE_WINDOW
  }

  lemma StepKeepsCount(clients: Clients, op: Op, before: int, now: int, key: string, counted: seq<int>)
    requires AllSound(clients, before) && 0 < before <= now && now == TimeOf(op, before)
    requires Holds(clients, key, counted, before)
    ensures Holds(Apply(clients, op), key,
                  match op
                  case RecordSuccess(k) => if k == key then [] else counted
                  case RecordFailure(k, t) => if k == key then Counting(counted, t) else counted
                  case _ => counted, now)
  {
  }

  /** Whatever else happens in between, the record of a client holds its counted failures. */
  lemma {:induction false} CountIsHeld(ops: seq<Op>, start: int, key: string)
    requires Timed(ops, start)
    ensures Holds(After(ops), key, Counted(ops, key), Clock(ops, start))
  {
    if ops != [] {
      var init, last := ops[..|ops| - 1], ops[|ops| - 1];
      CountIsHeld(init, start, key);
      AlwaysSound(init, start);
      StepKeepsCount(After(init), last, Clock(init, start), Clock(ops, start), key, Counted(init, key));
    }
  }

  /** The failures that still count when one more comes at a time. */
  function Running(ops: seq<Op>, key: string, now: int): seq<int> {
    var counted := Counted(ops, key);
    if counted != [] && now - counted[0] > FAILURE_WINDOW then [] else counted
  }

  /**
   * A failure locks its client when four are running, at least for the base time from now on; otherwise a lock
   * in force after it is the one in force before it.
   */
  lemma FifthRunningFailureLocks(ops: seq<Op>, start: int, key: string, now: int)
    requires Timed(ops + [Op.RecordFailure(key, now)], start)
    ensures var after := After(ops + [Op.RecordFailure(key, now)]);
      && key in after
      && after[key].failures == |Counted(ops + [Op.RecordFailure(key, now)], key)|
      && if |Running(ops, key, now)| == FAILURE_THRESHOLD - 1
         then after[key].lockedUntil >= now + LOCKOUT_BASE && InForce(after, key, now)
         else InForce(after, key, now) ==>
                InForce(After(ops), key, now) && after[key].lockedUntil == After(ops)[key].lockedUntil
  {
    var op := Op.RecordFailure(key, now);
    OneOpLater(ops, op, start);
    AlwaysSound(ops, start);
    CountIsHeld(ops, start, key);
    CountIsHeld(ops + [op], start, key);
    if key in After(ops) {
      LockoutGrows(After(ops)[key].lockouts);
    }
    LockoutGrows(0);
  }

  /** A failure that comes more than the window after the first running one is the first again, on a new record. */
  lemma LateFailureStartsOver(ops: seq<Op>, start: int, key: string, now: int)
    requires Timed(ops + [Op.RecordFailure(key, now)], start)
    requires Counted(ops, key) != [] && now - Counted(ops, key)[0] > FAILURE_WINDOW
    ensures var all := ops + [Op.RecordFailure(key, now)];
      Counted(all, key) == [now] && After(all) == After(ops)[key := Attempts(1, now, 0, 0)]
  {
    var op := Op.RecordFailure(key, now);
    OneOpLater(ops, op, start);
    AlwaysSound(ops, start);
    CountIsHeld(ops, start, key);
    assert (ops + [op])[..|ops|] == ops;
  }

  /** Operations that are no failure and no success of the client. */
  ghost predicate Elsewhere(ops: seq<Op>, key: string) {
    forall op :: op in ops ==> op != RecordSuccess(key) && !(op.RecordFailure? && op.key == key)
  }

  lemma {:induction false} ElsewhereCountsNothing(before: seq<Op>, more: seq<Op>, key: string)
    requires Elsewhere(more, key)
    ensures Counted(before + more, key) == Counted(before, key)
  {
    if more == [] {
      assert before + more == before;
    } else {
      var init, last := more[..|more| - 1], more[|more| - 1];
      assert more == init + [last];
      ElsewhereCountsNothing(before, init, key);
      assert (before + more)[..|before + more| - 1] == before + init;
    }
  }

  /** A failure after operations elsewhere joins the ones before it. */
  lemma NextFailureCounts(before: seq<Op>, more: seq<Op>, key: string, now: int, counted: seq<int>)
    requires Elsewhere(more, key) && Counted(before, key) == counted && |counted| + 1 < FAILURE_THRESHOLD
    requires counted != [] ==> now - counted[0] <= FAILURE_WINDOW
    ensures Counted(before + more + [Op.RecordFailure(key, now)], key) == counted + [now]
  {
    var op := Op.RecordFailure(key, now);
    ElsewhereCountsNothing(before, more, key);
    assert (before + more + [op])[..|before + more|] == before + more;
  }

  function FailedAfter(before: seq<Op>, more: seq<Op>, key: string, now: int): seq<Op> {
    before + more + [Op.RecordFailure(key, now)]
  }

  /**
   * Five failures of one client inside one window lock it after the fifth, whatever is asked, forgotten or
   * recorded for other clients in between: waits of this client, stale records, failures and successes of others.
   */
  lemma FiveFailuresInWindowLock(
    ops: seq<Op>, g1: seq<Op>, g2: seq<Op>, g3: seq<Op>, g4: seq<Op>, g5: seq<Op>, start: int, key: string,
    t1: int, t2: int, t3: int, t4: int, t5: int)
    requires Elsewhere(g1 + g2 + g3 + g4 + g5, key)
    requires Running(ops, key, t1) == []
    requires t1 <= t2 <= t3 <= t4 <= t5 <= t1 + FAILURE_WINDOW
    requires var two := FailedAfter(FailedAfter(ops, g1, key, t1), g2, key, t2);
      var four := FailedAfter(FailedAfter(two, g3, key, t3), g4, key, t4);
      Timed(FailedAfter(four, g5, key, t5), start)
    ensures var two := FailedAfter(FailedAfter(ops, g1, key, t1), g2, key, t2);
      var four := FailedAfter(FailedAfter(two, g3, key, t3), g4, key, t4);
      var after := After(FailedAfter(four, g5, key, t5));
      InForce(after, key, t5) && after[key].lockedUntil >= t5 + LOCKOUT_BASE
  {
    var one := FailedAfter(ops, g1, key, t1);
    var two := FailedAfter(one, g2, key, t2);
    var three := FailedAfter(two, g3, key, t3);
    var four := FailedAfter(three, g4, key, t4);
    FirstFailureCounts(ops, g1, key, t1);
    NextFailureCounts(one, g2, key, t2, [t1]);
    NextFailureCounts(two, g3, key, t3, [t1, t2]);
    NextFailureCounts(three, g4, key, t4, [t1, t2, t3]);
    ElsewhereCountsNothing(four, g5, key);
    FifthRunningFailureLocks(four + g5, start, key, t5);
  }

  lemma FirstFailureCounts(before: seq<Op>, more: seq<Op>, key: string, now: int)
    requires Elsewhere(more, key) && Running(before, key, now) == []
    ensures Counted(FailedAfter(before, more, key, now), key) == [now]
  {
    ElsewhereCountsNothing(before, more, key);
    assert FailedAfter(before, more, key, now)[..|before + more|] == before + more;
  }

  // ----- Locks persist -----

  /**
   * A failure recorded against a lock in force shortens it: its failure window has passed, so the record
   * starts over, or it is the fifth failure, and its lockout ends before the one in force.
   */
  predicate Shortens(a: Attempts, now: int) {
    WindowPassed(a, now) || (a.failures + 1 >= FAILURE_THRESHOLD && now + Lockout(a.lockouts) < a.lockedUntil)
  }

  /** For any record and any time, in order or late: exactly when a failure ends the lock in force earlier. */
  lemma FailureShortensIff(clients: Clients, key: string, now: int)
    requires InForce(clients, key, now) && now >= 0
    ensures key in Apply(clients, Op.RecordFailure(key, now))
    ensures Apply(clients, Op.RecordFailure(key, now))[key].lockedUntil < clients[key].lockedUntil <==>
            Shortens(clients[key], now)
  {
  }

  /**
   * Where times have not gone back so far, a failure that arrives late, at any time before the lock ends,
   * shortens the lock exactly when it is the fifth and its own lockout ends earlier.
   */
  lemma LateFailureShortensIff(ops: seq<Op>, start: int, key: string, now: int)
    requires Timed(ops, start) && InForce(After(ops), key, now) && now >= 0
    ensures var a := After(ops)[key];
      Apply(After(ops), Op.RecordFailure(key, now))[key].lockedUntil < a.lockedUntil <==>
      a.failures + 1 >= FAILURE_THRESHOLD && now + Lockout(a.lockouts) < a.lockedUntil
  {
    AlwaysSound(ops, start);
    FailureShortensIff(After(ops), key, now);
  }

  /** An operation that may take a client's lock away or shorten it. */
  predicate Threatens(clients: Clients, op: Op, key: string) {
    key in clients &&
    match op
    case LockedFor(k, now) => k == key && now >= clients[key].lockedUntil
    case RecordFailure(k, now) =>
      k == key && (now < 0 || now >= clients[key].lockedUntil || Shortens(clients[key], now))
    case RecordSuccess(k) => k == key
    case ForgetStale(now) => now >= clients[key].lockedUntil
  }

  lemma UnthreatenedStepKeepsLock(clients: Clients, op: Op, key: string)
    requires key in clients && !Threatens(clients, op, key)
    ensures key in Apply(clients, op) && Apply(clients, op)[key].lockedUntil >= clients[key].lockedUntil
  {
  }

  lemma OneOpLater(ops: seq<Op>, op: Op, start: int)
    ensures After(ops + [op]) == Apply(After(ops), op)
    ensures Clock(ops + [op], start) == TimeOf(op, Clock(ops, start))
    ensures Timed(ops + [op], start) <==> Timed(ops, start) && Clock(ops, start) <= TimeOf(op, Clock(ops, start))
  {
    assert (ops + [op])[..|ops|] == ops;
  }

  /** None of the operations that follow threatens the client's lock. */
  predicate Harmless(before: seq<Op>, more: seq<Op>, key: string) {
    more == [] ||
    var init, last := more[..|more| - 1], more[|more| - 1];
    Harmless(before, init, key) && !Threatens(After(before + init), last, key)
  }

  /** Whatever the order of their times, operations that do not threaten a lock never drop or shorten it. */
  lemma {:induction false} UnthreatenedLockPersists(before: seq<Op>, more: seq<Op>, key: string)
    requires key in After(before) && Harmless(before, more, key)
    ensures key in After(before + more) && After(before + more)[key].lockedUntil >= After(before)[key].lockedUntil
  {
    if more == [] {
      assert before + more == before;
    } else {
      var init, last := more[..|more| - 1], more[|more| - 1];
      UnthreatenedLockPersists(before, init, key);
      UnthreatenedStepKeepsLock(After(before + init), last, key);
      assert before + more == (before + init) + [last];
      OneOpLater(before + init, last, 1);
    }
  }

  /** An operation no earlier than the last threatens no lock in force, except the client's own success. */
  lemma OrderedStepDoesNotThreaten(clients: Clients, op: Op, before: int, now: int, key: string)
    requires AllSound(clients, before) && 0 < before <= now && now == TimeOf(op, before)
    requires InForce(clients, key, now) && op != RecordSuccess(key)
    ensures !Threatens(clients, op, key)
  {
    LockoutGrows(clients[key].lockouts - 1);
  }

  /** One step further: a lock still in force is not dropped or shortened by the next operation. */
  lemma NextStepKeepsLock(ops: seq<Op>, op: Op, start: int, key: string)
    requires Timed(ops + [op], start) && op != RecordSuccess(key)
    requires InForce(After(ops), key, Clock(ops + [op], start))
    ensures key in After(ops + [op]) && After(ops + [op])[key].lockedUntil >= After(ops)[key].lockedUntil
  {
    OneOpLater(ops, op, start);
    AlwaysSound(ops, start);
    OrderedStepDoesNotThreaten(After(ops), op, Clock(ops, start), Clock(ops + [op], start), key);
    UnthreatenedStepKeepsLock(After(ops), op, key);
  }

  /**
   * A lock persists: whatever any clients do afterwards, short of a success of the client itself, the
   * lock is still there and no shorter for as long as it is in force.
   */
  lemma {:induction false} LockPersists(before: seq<Op>, more: seq<Op>, start: int, key: string)
    requires Timed(before + more, start) && RecordSuccess(key) !in more
    requires InForce(After(before), key, Clock(before + more, start))
    ensures key in After(before + more) && After(before + more)[key].lockedUntil >= After(before)[key].lockedUntil
  {
    if more == [] {
      assert before + more == before;
    } else {
      var init, last := more[..|more| - 1], more[|more| - 1];
      assert before + more == (before + init) + [last];
      OneOpLater(before + init, last, start);
      LockPersists(before, init, start, key);
      NextStepKeepsLock(before + init, last, start, key);
    }
  }

  /** n failures of one client, all stamped t. */
  function Failures(clients: Clients, key: string, t: int, n: nat): Clients {
    if n == 0 then clients else Apply(Failures(clients, key, t, n - 1), Op.RecordFailure(key, t))
  }

  lemma FiveFailuresLock(clients: Clients, key: string, t: int)
    requires t > 0 && (key in clients ==> clients[key].failures == 0 && clients[key].firstFailed == 0)
    ensures var a := if key in clients then clients[key] else FRESH;
      Failures(clients, key, t, 5) == clients[key := Attempts(0, 0, t + Lockout(a.lockouts), a.lockouts + 1)]
  {
    var a := if key in clients then clients[key] else FRESH;
    assert Failures(clients, key, t, 1) == clients[key := a.(failures := 1, firstFailed := t)];
    assert Failures(clients, key, t, 2) == clients[key := a.(failures := 2, firstFailed := t)];
    assert Failures(clients, key, t, 3) == clients[key := a.(failures := 3, firstFailed := t)];
    assert Failures(clients, key, t, 4) == clients[key := a.(failures := 4, firstFailed := t)];
  }

  /** Five more failures, stamped over a minute before the five that locked a client, shorten its lock. */
  lemma LateFailuresShorten(key: string, t: int, late: int)
    requires 0 < late && late + LOCKOUT_BASE < t
    ensures var locked := Failures(map[], key, t, 5);
      && locked[key].lockedUntil == t + LOCKOUT_BASE
      && Failures(locked, key, late, 5)[key].lockedUntil == late + 2 * LOCKOUT_BASE < t + LOCKOUT_BASE
  {
    FiveFailuresLock(map[], key, t);
    FiveFailuresLock(Failures(map[], key, t, 5), key, late);
  }

  /** Five failures of a new client inside one window lock it for the base time, counted from the fifth; four do not. */
  lemma FifthFailureLocks(clients: Clients, key: string, t1: int, t2: int, t3: int, t4: int, t5: int)
    requires key !in clients && 0 < t1 <= t2 <= t3 <= t4 <= t5 <= t1 + FAILURE_WINDOW
    ensures var four := Apply(Apply(Apply(Apply(clients, Op.RecordFailure(key, t1)), Op.RecordFailure(key, t2)),
                                    Op.RecordFailure(key, t3)), Op.RecordFailure(key, t4));
      && !InForce(four, key, t4)
      && Apply(four, Op.RecordFailure(key, t5))[key] == Attempts(0, 0, t5 + LOCKOUT_BASE, 1)
  {
  }

  /** Each further lockout is at least as long: doubling from one minute up to the fifteen-minute cap. */
  lemma RepeatedLockoutsDouble(a: Attempts, now: int)
    requires a.failures == FAILURE_THRESHOLD - 1 && a.lockouts >= 0
    ensures Failed(a, now).lockouts == a.lockouts + 1
    ensures var length := Failed(a, now).lockedUntil - now;
      if a.lockouts == 0 then length == LOCKOUT_BASE
      else length == if 2 * Lockout(a.lockouts - 1) > LOCKOUT_MAX then LOCKOUT_MAX else 2 * Lockout(a.lockouts - 1)
  {
  }
}
