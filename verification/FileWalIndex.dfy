/**
 `FileWalIndex::lock` (src/lib.rs:525-620) as the method it is. Before each of its critical
 sections the operations of other connections in `env.others` run on the shared table. Each
 section is shown to be a step of the transition system in `WalLocks`, so at return the
 connection is in one of that system's `Returned` states.
 */
module FileWalIndex {
  import opened Common
  import opened LockTable
  import opened WalLocks

  /** An operation another connection runs while the table mutex is free. */
  datatype OtherOp =
    | OtherLock(conn: ConnId, path: Path, offset: nat, len: nat, exclusive: bool)
    | OtherUnlock(conn: ConnId, path: Path, offset: nat, len: nat)
    | OtherClose(conn: ConnId, path: Path)

  datatype GuardResult = GuardTaken | WouldBlock | GuardError

  /** The loops of a call; each takes one slot at a time. */
  datatype Section = Locking | TakingGuards | Unlocking

  /**
   What the call meets: the lock file, the file-guard results by slot, the others' operations before
   each slot of each loop.
   */
  datatype Env = Env(lockFileOk: bool, guard: nat -> GuardResult, others: (Section, nat) -> seq<OtherOp>) {
    /** No other connection runs in between. */
    ghost predicate Quiet() {
      forall section: Section, slot: nat :: others(section, slot) == []
    }

    ghost predicate GuardsGranted(lo: nat, hi: nat) {
      forall slot: nat :: lo <= slot < hi ==> guard(slot).GuardTaken?
    }

    ghost predicate Foreign(c: ConnId) {
      forall section: Section, slot: nat, i :: 0 <= i < |others(section, slot)| ==> others(section, slot)[i].conn != c
    }
  }

  ghost predicate SameHolds(t: Table, t': Table, c: ConnId) {
    forall p: Path, b: nat :: HoldOf(t', p, b, c) == HoldOf(t, p, b, c)
  }

  lemma SameHoldsKeepInv(t: Table, t': Table, w: Wal, c: ConnId)
    requires SameHolds(t, t', c) && ConnInv(t, w, c)
    ensures ConnInv(t', w, c)
  {
    forall slot: nat
      ensures SlotInv(t', w, c, slot)
    {
      assert SlotInv(t, w, c, slot);
    }
  }

  method Interfere(table: InProcessLocks, ops: seq<OtherOp>, ghost c: ConnId)
    requires Sound(table.slots) && forall i :: 0 <= i < |ops| ==> ops[i].conn != c
    modifies table
    ensures Sound(table.slots) && SameHolds(old(table.slots), table.slots, c)
    ensures ops == [] ==> table.slots == old(table.slots)
  {
    for i := 0 to |ops|
      invariant Sound(table.slots) && SameHolds(old(table.slots), table.slots, c)
      invariant i == 0 ==> table.slots == old(table.slots)
    {
      ghost var t := table.slots;
      match ops[i] {
        case OtherLock(conn, path, offset, len, exclusive) =>
          var ok := table.TryLock(path, offset, len, exclusive, conn);
          assert TableStep(t, table.slots, conn);
        case OtherUnlock(conn, path, offset, len) =>
          table.Unlock(path, offset, len, conn);
          assert TableStep(t, table.slots, conn);
        case OtherClose(conn, path) =>
          table.UnlockAll(path, conn);
          assert TableStep(t, table.slots, conn);
      }
      StepKeepsSoundness(t, table.slots, ops[i].conn);
    }
  }

  class WalIndex {
    const table: InProcessLocks
    const connId: ConnId
    const path: Path
    var activeLocks: map<nat, Mode>

    /** The connection is at point `pc` of the transition system, in a sound table. */
    ghost predicate At(pc: Pc)
      reads this, table
    {
      Sound(table.slots) && ConnInv(table.slots, Wal(path, activeLocks, pc), connId)
    }

    constructor (table: InProcessLocks, connId: ConnId, path: Path)
      requires Sound(table.slots) && forall p: Path, b: nat :: HoldOf(table.slots, p, b, connId) == NO_HOLD
      ensures At(Ready) && this.table == table && this.connId == connId && this.path == path
    {
      this.table, this.connId, this.path, activeLocks := table, connId, path, map[];
    }

    method Lock(lo: nat, hi: nat, mode: Mode, env: Env) returns (outcome: Outcome, ghost undone: nat)
      requires At(Ready) && env.Foreign(connId)
      modifies this, table
      ensures At(Returned(Call(lo, hi, mode, old(table.slots)), undone, outcome))
      ensures !env.lockFileOk ==>
                outcome == Failed && table.slots == old(table.slots) && activeLocks == old(activeLocks)
      ensures env.lockFileOk && mode.Unlock? ==> outcome == Acquired
      ensures outcome == Acquired && !mode.Unlock? ==> forall slot: nat :: lo <= slot < hi ==>
                env.guard(slot).GuardTaken?
      ensures outcome == Failed && env.lockFileOk ==> exists slot: nat :: lo <= slot < hi && env.guard(slot).GuardError?
      ensures env.Quiet() && env.lockFileOk && !mode.Unlock? ==>
                (outcome == Acquired <==>
                   RangeIsFree(old(table.slots), path, lo, hi, mode, connId) && env.GuardsGranted(lo, hi))
      ensures outcome == Acquired && mode.Exclusive? ==> forall slot: nat :: lo <= slot < hi ==>
                && SlotAt(table.slots, path, LockByte(slot)) == Slot({}, Some(connId))
                && slot in activeLocks && activeLocks[slot] == Exclusive
    {
      ghost var call := Call(lo, hi, mode, table.slots);
      if !env.lockFileOk {
        Advance(table.slots, Ready, activeLocks, Returned(call, lo, Failed));
        return Failed, lo;
      }
      Advance(table.slots, Ready, activeLocks, if mode.Unlock? then Releasing(call, lo) else Acquiring(call, lo));
      if mode.Unlock? {
        ReleaseRange(call, lo, hi, env);
        return Acquired, lo;
      }
      var got := TakeTableLocks(call, lo, hi, mode, env);
      if got < hi {
        GiveUp(call, lo, got, Contended, env);
        return Contended, got;
      }
      outcome := TakeGuards(call, lo, hi, mode, env);
      if outcome.Acquired? {
        forall slot: nat | lo <= slot < hi && mode.Exclusive?
          ensures SlotAt(table.slots, path, LockByte(slot)) == Slot({}, Some(connId))
          ensures slot in activeLocks && activeLocks[slot] == Exclusive
        {
          ReturnedExclusive(table.slots, Wal(path, activeLocks, Returned(call, lo, Acquired)), connId, slot);
        }
        return outcome, lo;
      }
      GiveUp(call, lo, hi, outcome, env);
      return outcome, hi;
    }

    /** After a return the next call can begin. */
    lemma ReturnedIsReady(pc: Pc)
      requires pc.Returned? && At(pc)
      ensures At(Ready)
    {
      var t, w := table.slots, Wal(path, activeLocks, pc);
      forall slot: nat
        ensures SlotInv(t, w.(pc := Ready), connId, slot)
      {
        assert SlotInv(t, w, connId, slot);
      }
    }

    /** A step that leaves the table alone. */
    lemma Advance(t: Table, pc: Pc, guards: map<nat, Mode>, pc': Pc)
      requires t == table.slots && At(pc)
      requires ConnStep(t, Wal(path, activeLocks, pc), t, Wal(path, guards, pc'), connId)
      ensures ConnInv(t, Wal(path, guards, pc'), connId)
    {
      OwnStep(t, Wal(path, activeLocks, pc), t, Wal(path, guards, pc'), connId);
    }

    /** `WalIndexLock::None`, src/lib.rs:530-536 */
    method ReleaseRange(ghost call: Call, lo: nat, hi: nat, env: Env)
      requires call.lo == lo && call.hi == hi && At(Releasing(call, lo)) && env.Foreign(connId)
      modifies this, table
      ensures At(Returned(call, lo, Acquired))
    {
      var slot := lo;
      while slot < hi
        invariant lo <= slot && At(Releasing(call, slot))
      {
        LetOthersRun(env.others(Unlocking, slot), Releasing(call, slot));
        ghost var t, w := table.slots, Wal(path, activeLocks, Releasing(call, slot));
        table.Unlock(path, LockByte(slot), 1, connId);
        activeLocks := activeLocks - {slot};
        assert TableStep(t, table.slots, connId);
        StepKeepsSoundness(t, table.slots, connId);
        OwnStep(t, w, table.slots, Wal(path, activeLocks, Releasing(call, slot + 1)), connId);
        slot := slot + 1;
      }
      Advance(table.slots, Releasing(call, slot), activeLocks, Returned(call, lo, Acquired));
    }

    method LetOthersRun(ops: seq<OtherOp>, ghost pc: Pc)
      requires At(pc) && forall i :: 0 <= i < |ops| ==> ops[i].conn != connId
      modifies table
      ensures At(pc) && (ops == [] ==> table.slots == old(table.slots))
    {
      ghost var t := table.slots;
      Interfere(table, ops, connId);
      SameHoldsKeepInv(t, table.slots, Wal(path, activeLocks, pc), connId);
    }

    /** Phase 1, src/lib.rs:545-563: the slot that was refused, or the end of the range. */
    method TakeTableLocks(ghost call: Call, lo: nat, hi: nat, mode: Mode, env: Env) returns (got: nat)
      requires call.lo == lo && call.hi == hi && call.mode == mode && At(Acquiring(call, lo)) && env.Foreign(connId)
      modifies table
      ensures if got < hi then At(Undoing(call, got, lo, Contended)) else At(Guarding(call, lo, map[]))
      ensures got < hi ==> !Compatible(SlotAt(table.slots, path, LockByte(got)), mode.Exclusive?, connId)
      ensures env.Quiet() ==> (got >= hi <==> RangeIsFree(old(table.slots), path, lo, hi, mode, connId))
    {
      got := lo;
      while got < hi
        invariant lo <= got && At(Acquiring(call, got))
        invariant env.Quiet() ==> forall slot: nat :: lo <= slot < got ==>
                    SlotIsFree(old(table.slots), path, slot, mode, connId)
        invariant env.Quiet() ==> forall slot: nat :: got <= slot ==>
                    SlotAt(table.slots, path, LockByte(slot)) == SlotAt(old(table.slots), path, LockByte(slot))
      {
        assert env.Quiet() ==>
            SlotAt(table.slots, path, LockByte(got)) == SlotAt(old(table.slots), path, LockByte(got));
        var ok := TakeTableLock(call, lo, got, mode, env);
        assert env.Quiet() ==> (ok <==> SlotIsFree(old(table.slots), path, got, mode, connId));
        if !ok {
          return;
        }
        got := got + 1;
      }
      Advance(table.slots, Acquiring(call, got), activeLocks, Guarding(call, lo, map[]));
    }

    /** One slot of phase 1. */
    method TakeTableLock(ghost call: Call, ghost lo: nat, slot: nat, mode: Mode, env: Env) returns (ok: bool)
      requires call.lo == lo <= slot < call.hi && call.mode == mode && At(Acquiring(call, slot)) && env.Foreign(connId)
      modifies table
      ensures At(if ok then Acquiring(call, slot + 1) else Undoing(call, slot, lo, Contended))
      ensures !ok ==> !Compatible(SlotAt(table.slots, path, LockByte(slot)), mode.Exclusive?, connId)
      ensures env.Quiet() ==> (ok <==> SlotIsFree(old(table.slots), path, slot, mode, connId))
      ensures env.Quiet() ==> forall other: nat :: other != slot ==>
                SlotAt(table.slots, path, LockByte(other)) == SlotAt(old(table.slots), path, LockByte(other))
    {
      LetOthersRun(env.others(Locking, slot), Acquiring(call, slot));
      ghost var t, w := table.slots, Wal(path, activeLocks, Acquiring(call, slot));
      ok := table.TryLock(path, LockByte(slot), 1, mode.Exclusive?, connId);
      GrantedExactly(t, table.slots, path, LockByte(slot), 1, mode.Exclusive?, connId, ok);
      assert TableStep(t, table.slots, connId);
      StepKeepsSoundness(t, table.slots, connId);
      ghost var pc' := if ok then Acquiring(call, slot + 1) else Undoing(call, slot, lo, Contended);
      OwnStep(t, w, table.slots, Wal(path, activeLocks, pc'), connId);
    }

    /** Phase 2, src/lib.rs:565-607. The old guard of a slot goes only once the new one is taken. */
    method TakeGuards(ghost call: Call, lo: nat, hi: nat, mode: Mode, env: Env) returns (outcome: Outcome)
      requires call.lo == lo && call.hi == hi && call.mode == mode && At(Guarding(call, lo, map[]))
      requires env.Foreign(connId)
      modifies this, table
      ensures if outcome.Acquired? then At(Returned(call, lo, Acquired)) else At(Undoing(call, hi, lo, outcome))
      ensures outcome.Acquired? ==> forall slot: nat :: lo <= slot < hi ==> env.guard(slot).GuardTaken?
      ensures outcome.Contended? ==> exists slot: nat :: lo <= slot < hi && env.guard(slot).WouldBlock?
      ensures outcome.Failed? ==> exists slot: nat :: lo <= slot < hi && env.guard(slot).GuardError?
    {
      var newGuards: map<nat, Mode> := map[];
      var slot := lo;
      while slot < hi
        invariant lo <= slot && At(Guarding(call, slot, newGuards))
        invariant forall k: nat :: lo <= k < slot ==> env.guard(k).GuardTaken?
      {
        LetOthersRun(env.others(TakingGuards, slot), Guarding(call, slot, newGuards));
        match env.guard(slot) {
          case GuardTaken =>
            Advance(table.slots, Guarding(call, slot, newGuards), activeLocks - {slot},
                    Guarding(call, slot + 1, newGuards[slot := mode]));
            activeLocks := activeLocks - {slot};
            newGuards := newGuards[slot := mode];
          case WouldBlock =>
            Advance(table.slots, Guarding(call, slot, newGuards), activeLocks, Undoing(call, hi, lo, Contended));
            return Contended;
          case GuardError =>
            Advance(table.slots, Guarding(call, slot, newGuards), activeLocks, Undoing(call, hi, lo, Failed));
            return Failed;
        }
        slot := slot + 1;
      }
      Advance(table.slots, Guarding(call, slot, newGuards), activeLocks + newGuards, Returned(call, lo, Acquired));
      activeLocks := activeLocks + newGuards;
      outcome := Acquired;
    }

    /** The two rollback loops, src/lib.rs:549-552 and 585-588. */
    method GiveUp(ghost call: Call, lo: nat, undone: nat, ghost outcome: Outcome, env: Env)
      requires call.lo == lo && At(Undoing(call, undone, lo, outcome)) && env.Foreign(connId)
      modifies table
      ensures At(Returned(call, undone, outcome))
    {
      var slot := lo;
      while slot < undone
        invariant lo <= slot && At(Undoing(call, undone, slot, outcome))
      {
        LetOthersRun(env.others(Unlocking, slot), Undoing(call, undone, slot, outcome));
        ghost var t, w := table.slots, Wal(path, activeLocks, Undoing(call, undone, slot, outcome));
        table.Unlock(path, LockByte(slot), 1, connId);
        assert TableStep(t, table.slots, connId);
        StepKeepsSoundness(t, table.slots, connId);
        OwnStep(t, w, table.slots, Wal(path, activeLocks, Undoing(call, undone, slot + 1, outcome)), connId);
        slot := slot + 1;
      }
      Advance(table.slots, Undoing(call, undone, slot, outcome), activeLocks, Returned(call, undone, outcome));
    }
  }
}
