/**
 What the locks let through (src/lib.rs:235-281, 525-620): from every reachable state a connection that
 meets no interference and no refused guard gets every range that the others leave free, so readers
 share slots.
 */
module LockProgress {
  import opened Common
  import opened LockTable
  import opened WalLocks
  import opened LockRestores

  /** Only `c` has moved since the run. */
  ghost predicate OthersWait(run: seq<System>, longer: seq<System>, c: ConnId)
    requires run != []
  {
    && Extends(run, longer) && longer != [] && LastOf(longer).wals.Keys == LastOf(run).wals.Keys
    && forall d <- LastOf(run).wals.Keys :: d != c ==> Waits(run, longer, d)
  }

  lemma NobodyMoved(run: seq<System>, c: ConnId)
    requires run != []
    ensures OthersWait(run, run, c)
  {
  }

  /** One more step of `c`. */
  lemma Moves(run: seq<System>, longer: seq<System>, c: ConnId, t': Table, w': Wal) returns (more: seq<System>)
    requires run != [] && IsRun(longer) && OthersWait(run, longer, c) && c in LastOf(longer).wals
    requires ConnStep(LastOf(longer).table, LastOf(longer).wals[c], t', w', c)
    ensures IsRun(more) && OthersWait(run, more, c)
    ensures c in LastOf(more).wals && LastOf(more).wals[c] == w' && LastOf(more).table == t'
  {
    hide IsRun, ConnStep;
    more := Act(longer, c, t', w');
    ExtendsThrough(run, longer, more);
    forall d <- LastOf(run).wals.Keys | d != c
      ensures Waits(run, more, d)
    {
      WaitsOneMore(run, longer, more, d);
    }
  }

  /** The slots from `next` on are as they were when the call began. */
  ghost predicate Unmoved(t: Table, call: Call, path: Path, next: nat) {
    forall b: nat :: b >= LockByte(next) ==> SlotAt(t, path, b) == SlotAt(call.before, path, b)
  }

  lemma GrantOne(t: Table, w: Wal, c: ConnId, call: Call, next: nat) returns (t': Table)
    requires w.pc == Acquiring(call, next) && next < call.hi && Unmoved(t, call, w.path, next)
    requires SlotIsFree(call.before, w.path, next, call.mode, c)
    ensures AcquireStep(t, w, t', w.(pc := Acquiring(call, next + 1)), c) && Unmoved(t', call, w.path, next + 1)
  {
    var ok;
    t', ok := Attempt(t, w.path, LockByte(next), call.mode.Exclusive?, c);
    GrantedExactly(t, t', w.path, LockByte(next), 1, call.mode.Exclusive?, c, ok);
    assert ok;
  }

  lemma {:induction false} GrantAll(run: seq<System>, longer: seq<System>, c: ConnId, call: Call, next: nat, w: Wal)
    returns (more: seq<System>)
    requires run != [] && IsRun(longer) && OthersWait(run, longer, c) && c in LastOf(longer).wals
    requires LastOf(longer).wals[c] == w.(pc := Acquiring(call, next)) && next <= call.hi
    requires Unmoved(LastOf(longer).table, call, w.path, next)
    requires forall slot: nat :: next <= slot < call.hi ==> SlotIsFree(call.before, w.path, slot, call.mode, c)
    ensures IsRun(more) && OthersWait(run, more, c) && c in LastOf(more).wals
    ensures LastOf(more).wals[c] == w.(pc := Acquiring(call, call.hi))
    decreases call.hi - next
  {
    if next == call.hi {
      more := longer;
    } else {
      var t' := GrantOne(LastOf(longer).table, LastOf(longer).wals[c], c, call, next);
      var w' := w.(pc := Acquiring(call, next + 1));
      assert ConnStep(LastOf(longer).table, LastOf(longer).wals[c], t', w', c);
      hide IsRun, ConnStep, AcquireStep, OthersWait;
      var one := Moves(run, longer, c, t', w');
      more := GrantAll(run, one, c, call, next + 1, w);
    }
  }

  lemma {:induction false} GuardAll(run: seq<System>, longer: seq<System>, c: ConnId, call: Call, next: nat)
    returns (more: seq<System>)
    requires run != [] && IsRun(longer) && OthersWait(run, longer, c) && c in LastOf(longer).wals && next <= call.hi
    requires var pc := LastOf(longer).wals[c].pc; pc.Guarding? && pc.call == call && pc.next == next
    ensures IsRun(more) && OthersWait(run, more, c) && c in LastOf(more).wals
    ensures LastOf(more).wals[c].pc == Returned(call, call.lo, Acquired)
    ensures LastOf(more).wals[c].path == LastOf(longer).wals[c].path
    decreases call.hi - next
  {
    var s := LastOf(longer);
    var w, taken := s.wals[c], s.wals[c].pc.taken;
    var w' := if next < call.hi
              then w.(guards := w.guards - {next}, pc := Guarding(call, next + 1, taken[next := call.mode]))
              else w.(guards := w.guards + taken, pc := Returned(call, call.lo, Acquired));
    assert GuardStep(s.table, w, s.table, w');
    assert ConnStep(s.table, w, s.table, w', c);
    hide IsRun, ConnStep, GuardStep, OthersWait;
    more := Moves(run, longer, c, s.table, w');
    if next < call.hi {
      more := GuardAll(run, more, c, call, next + 1);
    }
  }

  /**
   From every reachable state, a ready connection that asks for a range the others leave free can be
   granted it at once: only it moves, and the others keep what they hold.
   */
  lemma FreeRangeIsGranted(run: seq<System>, c: ConnId, lo: nat, hi: nat, mode: Mode) returns (all: seq<System>)
    requires IsRun(run) && c in LastOf(run).wals && IsIdle(LastOf(run).wals[c]) && !mode.Unlock? && lo <= hi
    requires RangeIsFree(LastOf(run).table, LastOf(run).wals[c].path, lo, hi, mode, c)
    ensures IsRun(all) && OthersWait(run, all, c) && c in LastOf(all).wals
    ensures LastOf(all).wals[c].pc == Returned(Call(lo, hi, mode, LastOf(run).table), lo, Acquired)
    ensures LastOf(all).wals[c].path == LastOf(run).wals[c].path
    ensures forall d <- LastOf(run).wals.Keys, p: Path, b: nat :: d != c ==>
              HoldOf(LastOf(all).table, p, b, d) == HoldOf(LastOf(run).table, p, b, d)
  {
    var s := LastOf(run);
    var w, call := s.wals[c], Call(lo, hi, mode, s.table);
    var w1 := w.(pc := Acquiring(call, lo));
    assert BeginStep(s.table, w, s.table, w1);
    NobodyMoved(run, c);
    all := Moves(run, run, c, s.table, w1);
    all := GrantAll(run, all, c, call, lo, w);
    var t := LastOf(all).table;
    var w2, w3 := w.(pc := Acquiring(call, hi)), w.(pc := Guarding(call, lo, map[]));
    assert AcquireStep(t, w2, t, w3, c);
    all := Moves(run, all, c, t, w3);
    all := GuardAll(run, all, c, call, lo);
    hide IsRun, HoldOf;
    forall d <- s.wals.Keys, p: Path, b: nat | d != c
      ensures HoldOf(LastOf(all).table, p, b, d) == HoldOf(s.table, p, b, d)
    {
      WaitingKeepsHolds(run, all, d, p, b);
    }
  }

  // ---------- two readers ----------

  lemma OpenSecond(run: seq<System>, w: Wal) returns (longer: seq<System>)
    requires IsRun(run) && LastOf(run) == Alone(TableOf(Slot({1}, None)), w)
    ensures IsRun(longer)
    ensures LastOf(longer) == System(TableOf(Slot({1}, None)), map[1 := w, 2 := Wal("db", map[], Ready)], 3)
  {
    var s := LastOf(run);
    var s' := System(s.table, s.wals[2 := Wal("db", map[], Ready)], 3);
    assert OpenStep(s, s');
    Appended(run, s');
    longer := run + [s'];
  }

  /** Two connections end up holding one slot shared at the same time. */
  lemma TwoReadersShare() returns (run: seq<System>)
    ensures IsRun(run) && 1 in LastOf(run).wals && 2 in LastOf(run).wals
    ensures SlotAt(LastOf(run).table, "db", 120).shared >= {1, 2}
  {
    var first, w := TakesShared();
    var second := OpenSecond(first, w);
    run := FreeRangeIsGranted(second, 2, 0, 1, Shared);
    SharedRangeIsHeld(run, |run| - 1, 2, 0);
    hide IsRun;
    assert HoldOf(LastOf(run).table, "db", 120, 1) == HoldOf(LastOf(second).table, "db", 120, 1);
    assert LastOf(run).wals[2].path == "db";
  }
}
