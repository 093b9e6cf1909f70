/** Sessions kept in a table and mirrored in memory, with every operation's two halves free to interleave. */
module Sessions {

  const SESSION_TTL := 86400

  /** The memory mirror and the sessions table: id to expiry. */
  datatype Mirror = Mirror(active: map<string, int>, table: map<string, int>)

  /** One half of an operation. A table half that reports failure has changed nothing. */
  datatype Half =
    | InsertRow(id: string, expiresAt: int)
    | Activate(id: string, expiresAt: int)
    | Drop(id: string)
    | DeleteRow(id: string, ok: bool)
    | DropExpired(cutoff: int)
    | DeleteExpired(cutoff: int, ok: bool)

  function Unexpired(sessions: map<string, int>, cutoff: int): map<string, int> {
    map id | id in sessions && sessions[id] > cutoff :: sessions[id]
  }

  function Apply(m: Mirror, half: Half): Mirror {
    match half
    case InsertRow(id, expiresAt) => m.(table := m.table[id := expiresAt])
    case Activate(id, expiresAt) => m.(active := m.active[id := expiresAt])
    case Drop(id) => m.(active := m.active - {id})
    case DeleteRow(id, ok) => if ok then m.(table := m.table - {id}) else m
    case DropExpired(cutoff) => m.(active := Unexpired(m.active, cutoff))
    case DeleteExpired(cutoff, ok) => if ok then m.(table := Unexpired(m.table, cutoff)) else m
  }

  predicate IsValid(m: Mirror, id: string, now: int) {
    id in m.active && now < m.active[id]
  }

  class SessionStore {
    var active: map<string, int>
    var table: map<string, int>

    ghost function Contents(): Mirror
      reads this
    {
      Mirror(active, table)
    }

    constructor (stored: map<string, int>)
      ensures Contents() == Mirror(map[], stored)
    {
      active, table := map[], stored;
    }

    /** Starts from the table: expired rows are deleted, the rest becomes the mirror. */
    method Load(now: int)
      modifies this
      ensures Contents() == Mirror(Unexpired(old(table), now), Unexpired(old(table), now))
      ensures forall id :: id in table <==> id in old(table) && old(table)[id] > now
      ensures forall id :: id in table ==> table[id] == old(table)[id]
      ensures active == table
    {
      table := Unexpired(table, now);
      var loaded: map<string, int> := map[];
      var rest := table.Keys;
      while rest != {}
        invariant rest <= table.Keys
        invariant forall id :: id in loaded <==> id in table && id !in rest
        invariant forall id :: id in loaded ==> loaded[id] == table[id]
        decreases rest
      {
        assert (forall id :: id !in rest) ==> rest == {};
        var id :| id in rest;
        loaded := loaded[id := table[id]];
        rest := rest - {id};
      }
      active := loaded;
    }

    /** The table half of issue, for a random id. */
    method IssueRow(id: string, now: int) returns (expiresAt: int)
      modifies this`table
      ensures expiresAt == now + SESSION_TTL
      ensures Contents() == Apply(old(Contents()), InsertRow(id, expiresAt))
    {
      expiresAt := now + SESSION_TTL;
      table := table[id := expiresAt];
    }

    /** The memory half of issue; the id is handed out only afterwards. */
    method IssueMemory(id: string, expiresAt: int)
      modifies this`active
      ensures Contents() == Apply(old(Contents()), Activate(id, expiresAt))
    {
      active := active[id := expiresAt];
    }

    method Valid(id: string, now: int) returns (ok: bool)
      ensures ok == IsValid(Contents(), id, now)
    {
      ok := id in active && now < active[id];
    }

    /** The memory half of revoke. */
    method RevokeMemory(id: string)
      modifies this`active
      ensures Contents() == Apply(old(Contents()), Drop(id))
    {
      active := active - {id};
    }

    /** The table half of revoke; whether the delete succeeded is not looked at. */
    method RevokeRow(id: string, ok: bool)
      modifies this`table
      ensures Contents() == Apply(old(Contents()), DeleteRow(id, ok))
    {
      if ok {
        table := table - {id};
      }
    }

    /** The table half of prune, whose outcome is not looked at either. */
    method PruneRows(cutoff: int, ok: bool)
      modifies this`table
      ensures Contents() == Apply(old(Contents()), DeleteExpired(cutoff, ok))
      ensures forall id :: id in table <==> id in old(table) && (ok ==> old(table)[id] > cutoff)
      ensures forall id :: id in table ==> table[id] == old(table)[id]
    {
      if ok {
        table := Unexpired(table, cutoff);
      }
    }

    /** The memory half of prune. */
    method PruneMemory(cutoff: int)
      modifies this`active
      ensures Contents() == Apply(old(Contents()), DropExpired(cutoff))
      ensures forall id :: id in active <==> id in old(active) && old(active)[id] > cutoff
      ensures forall id :: id in active ==> active[id] == old(active)[id]
    {
      var rest := active.Keys;
      while rest != {}
        invariant rest <= active.Keys
        invariant forall id :: id in active <==> id in old(active) && (id in rest || old(active)[id] > cutoff)
        invariant forall id :: id in active ==> active[id] == old(active)[id]
        decreases rest
      {
        assert (forall id :: id !in rest) ==> rest == {};
        var id :| id in rest;
        if active[id] <= cutoff {
          active := active - {id};
        }
        rest := rest - {id};
      }
    }
  }

  // ----- Interleavings -----

  /**
   * The store between two halves of any number of operations. `issuing` holds the sessions whose row is
   * inserted but not yet mirrored, `drawn` every id used so far, `revoked` the ids whose revocation began.
   */
  datatype World = World(now: int, mirror: Mirror, issuing: map<string, int>, drawn: set<string>, revoked: set<string>)

  datatype Step = Tick(now: int) | Take(half: Half)

  /** Ids are random, so a new one has not been seen; only an issued id, in a signed cookie, can be revoked. */
  predicate Enabled(w: World, step: Step) {
    match step
    case Tick(now) => now >= w.now
    case Take(InsertRow(id, _)) => id !in w.drawn
    case Take(Activate(id, expiresAt)) => id in w.issuing && w.issuing[id] == expiresAt
    case Take(Drop(id)) => id !in w.issuing
    case Take(DeleteRow(id, _)) => id in w.revoked
    case Take(DropExpired(cutoff)) => cutoff <= w.now
    case Take(DeleteExpired(cutoff, _)) => cutoff <= w.now
  }

  function Do(w: World, step: Step): World {
    match step
    case Tick(now) => w.(now := now)
    case Take(half) =>
      var after := w.(mirror := Apply(w.mirror, half));
      match half
      case InsertRow(id, expiresAt) => after.(issuing := w.issuing[id := expiresAt], drawn := w.drawn + {id})
      case Activate(id, _) => after.(issuing := w.issuing - {id})
      case Drop(id) => after.(drawn := w.drawn + {id}, revoked := w.revoked + {id})
      case _ => after
  }

  /** A process that has just loaded its sessions. */
  ghost predicate Initial(w: World) {
    && w.mirror.active == w.mirror.table
    && w.issuing == map[] && w.revoked == {}
    && w.mirror.table.Keys <= w.drawn
  }

  ghost predicate Behavior(worlds: seq<World>, steps: seq<Step>) {
    && |worlds| == |steps| + 1
    && Initial(worlds[0])
    && forall i :: 0 <= i < |steps| ==> Follows(worlds, steps, i)
  }

  /** The i-th step is enabled and leads to the next world. */
  ghost predicate Follows(worlds: seq<World>, steps: seq<Step>, i: nat)
    requires i < |steps| && |worlds| == |steps| + 1
  {
    Enabled(worlds[i], steps[i]) && worlds[i + 1] == Do(worlds[i], steps[i])
  }

  /** Every unexpired session in memory is in the table with the same expiry. */
  ghost predicate Mirrored(w: World) {
    forall id :: IsValid(w.mirror, id, w.now) ==> id in w.mirror.table && w.mirror.table[id] == w.mirror.active[id]
  }

  ghost predicate Inv(w: World) {
    && Mirrored(w)
    && (forall id :: id in w.issuing && w.now < w.issuing[id] ==>
                       id in w.mirror.table && w.mirror.table[id] == w.issuing[id])
    && (forall id :: id in w.issuing || id in w.mirror.active || id in w.revoked ==> id in w.drawn)
    && (forall id :: id in w.issuing ==> id !in w.revoked && id !in w.mirror.active)
    && (forall id :: id in w.revoked ==> id !in w.mirror.active)
  }

  lemma StepKeepsInv(w: World, step: Step)
    requires Inv(w) && Enabled(w, step)
    ensures Inv(Do(w, step))
  {
  }

  lemma {:induction false} AlwaysInv(worlds: seq<World>, steps: seq<Step>, k: nat)
    requires Behavior(worlds, steps) && k < |worlds|
    ensures Inv(worlds[k])
  {
    if k > 0 {
      AlwaysInv(worlds, steps, k - 1);
      assert Follows(worlds, steps, k - 1);
      StepKeepsInv(worlds[k - 1], steps[k - 1]);
    }
  }

  /** At every point between two halves, even after table deletes that failed, the mirror agrees with the table. */
  lemma MirrorAgrees(worlds: seq<World>, steps: seq<Step>, k: nat)
    requires Behavior(worlds, steps) && k < |worlds|
    ensures Mirrored(worlds[k])
  {
    AlwaysInv(worlds, steps, k);
  }

  /** From the moment its revocation begins, a session is not valid again in the process. */
  lemma {:induction false} RevokedStaysRevoked(
    worlds: seq<World>, steps: seq<Step>, i: nat, k: nat, id: string, now: int)
    requires Behavior(worlds, steps) && i < k < |worlds| && steps[i] == Take(Drop(id))
    ensures id in worlds[k].revoked && !IsValid(worlds[k].mirror, id, now)
    decreases k
  {
    AlwaysInv(worlds, steps, k);
    assert Follows(worlds, steps, k - 1);
    if k > i + 1 {
      RevokedStaysRevoked(worlds, steps, i, k - 1, id, now);
    }
  }

  /** The session is known, fully issued, and in the mirror with its expiry for as long as that lies ahead. */
  predicate Held(w: World, id: string, expiresAt: int) {
    && id in w.drawn && id !in w.issuing
    && (w.now < expiresAt ==> id in w.mirror.active && w.mirror.active[id] == expiresAt)
  }

  lemma StepKeepsHeld(w: World, step: Step, id: string, expiresAt: int)
    requires Enabled(w, step) && step != Take(Drop(id)) && Held(w, id, expiresAt)
    ensures Held(Do(w, step), id, expiresAt)
  {
  }

  /** An issued session that nobody revokes is valid until it expires, whatever is pruned meanwhile. */
  lemma {:induction false} IssuedStaysValid(
    worlds: seq<World>, steps: seq<Step>, i: nat, k: nat, id: string, expiresAt: int)
    requires Behavior(worlds, steps) && i < k < |worlds| && steps[i] == Take(Activate(id, expiresAt))
    requires forall j :: i < j < k ==> steps[j] != Take(Drop(id))
    ensures Held(worlds[k], id, expiresAt)
    ensures forall now :: worlds[k].now <= now < expiresAt ==> IsValid(worlds[k].mirror, id, now)
    decreases k
  {
    AlwaysInv(worlds, steps, k - 1);
    assert Follows(worlds, steps, k - 1);
    if k > i + 1 {
      IssuedStaysValid(worlds, steps, i, k - 1, id, expiresAt);
      StepKeepsHeld(worlds[k - 1], steps[k - 1], id, expiresAt);
    }
  }

  // ----- Restarts -----

  /** The session's row is there and expires after now. */
  predicate RowAlive(w: World, id: string, now: int) {
    id in w.mirror.table && now < w.mirror.table[id]
  }

  /** The row of an id drawn earlier is never written again; an unexpired one goes only by its own delete. */
  lemma StepKeepsRow(w: World, step: Step, id: string, now: int)
    requires Enabled(w, step) && id in w.drawn && Do(w, step).now <= now
    ensures RowAlive(Do(w, step), id, now) <==> RowAlive(w, id, now) && step != Take(DeleteRow(id, true))
  {
  }

  /** No delete of the session's row succeeds between two points. */
  ghost predicate NeverDeleted(steps: seq<Step>, id: string, i: nat, k: nat)
    requires k <= |steps|
  {
    k <= i + 1 || (NeverDeleted(steps, id, i, k - 1) && steps[k - 1] != Take(DeleteRow(id, true)))
  }

  lemma {:induction false} RowSurvivesIffNeverDeleted(
    worlds: seq<World>, steps: seq<Step>, i: nat, k: nat, id: string, now: int)
    requires Behavior(worlds, steps) && i < k < |worlds| && steps[i] == Take(Drop(id)) && worlds[k].now <= now
    ensures RowAlive(worlds[k], id, now) <==> RowAlive(worlds[i], id, now) && NeverDeleted(steps, id, i, k)
    decreases k
  {
    assert Follows(worlds, steps, k - 1);
    if k > i + 1 {
      RowSurvivesIffNeverDeleted(worlds, steps, i, k - 1, id, now);
      RevokedStaysRevoked(worlds, steps, i, k - 1, id, now);
      AlwaysInv(worlds, steps, k - 1);
      StepKeepsRow(worlds[k - 1], steps[k - 1], id, now);
    }
  }

  /**
   * A restart loads the unexpired rows of the table. At any time after a revocation began, with any steps
   * in between, it brings the session back exactly when its row was there, has not expired, and no delete of
   * it succeeded.
   */
  lemma RestartRevivesIffRowSurvived(
    worlds: seq<World>, steps: seq<Step>, i: nat, k: nat, id: string, now: int)
    requires Behavior(worlds, steps) && i < k < |worlds| && steps[i] == Take(Drop(id)) && worlds[k].now <= now
    ensures var loaded := Unexpired(worlds[k].mirror.table, now);
      IsValid(Mirror(loaded, loaded), id, now) <==> RowAlive(worlds[i], id, now) && NeverDeleted(steps, id, i, k)
  {
    RowSurvivesIffNeverDeleted(worlds, steps, i, k, id, now);
  }
}
