/**
 `FileWalIndex::lock` (src/lib.rs:521-620) as a transition system.

 One call takes and drops the table mutex once per slot, so operations of other connections
 run between its slots. A step here is one critical section, or one file-guard attempt whose
 result (granted, would block, error) the environment chooses. Any connection may move next.
 */
module WalLocks {
  import opened Common
  import opened LockTable

  const WAL_LOCK_OFFSET: nat := 120

  /** The lock byte of a WAL-index slot; SQLite's are the eight bytes from 120 on. */
  function LockByte(slot: nat): (b: nat)
    ensures b == 120 + slot
  {
    WAL_LOCK_OFFSET + slot
  }

  datatype Mode = Unlock | Shared | Exclusive

  /** `Ok(true)`, `Ok(false)` and `Err`. */
  datatype Outcome = Acquired | Contended | Failed

  /** The arguments of a call, and the table as it was when the call began. */
  datatype Call = Call(lo: nat, hi: nat, mode: Mode, before: Table)

  /** Where a connection is inside `lock`. `undone` bounds the slots a failed call gave up. */
  datatype Pc =
    | Ready
    | Releasing(call: Call, next: nat)
    | Acquiring(call: Call, next: nat)
    | Guarding(call: Call, next: nat, taken: map<nat, Mode>)
    | Undoing(call: Call, undone: nat, next: nat, outcome: Outcome)
    | Returned(call: Call, undone: nat, outcome: Outcome)

  /** `guards` is `active_locks`: the file guards kept alive, by slot. */
  datatype Wal = Wal(path: Path, guards: map<nat, Mode>, pc: Pc)

  datatype System = System(table: Table, wals: map<ConnId, Wal>, nextId: ConnId)

  // ---------- steps of one connection ----------

  ghost predicate BeginStep(t: Table, w: Wal, t': Table, w': Wal) {
    && (w.pc.Ready? || w.pc.Returned?)
    && t' == t
    && exists lo: nat, hi: nat, mode: Mode ::
         var call := Call(lo, hi, mode, t);
         || w' == w.(pc := Returned(call, lo, Failed))  // the lock file cannot be opened
         || w' == w.(pc := if mode.Unlock? then Releasing(call, lo) else Acquiring(call, lo))
  }

  ghost predicate ReleaseStep(t: Table, w: Wal, t': Table, w': Wal, c: ConnId) {
    && w.pc.Releasing?
    && var Releasing(call, next) := w.pc;
       if next < call.hi then
         && Unlocked(t, t', w.path, LockByte(next), 1, c)
         && w' == w.(guards := w.guards - {next}, pc := Releasing(call, next + 1))
       else
         t' == t && w' == w.(pc := Returned(call, call.lo, Acquired))
  }

  ghost predicate AcquireStep(t: Table, w: Wal, t': Table, w': Wal, c: ConnId) {
    && w.pc.Acquiring?
    && var Acquiring(call, next) := w.pc;
       if next < call.hi then
         exists ok: bool ::
           && TryLocked(t, t', w.path, LockByte(next), 1, call.mode.Exclusive?, c, ok)
           && w' == w.(pc := if ok then Acquiring(call, next + 1) else Undoing(call, next, call.lo, Contended))
       else
         t' == t && w' == w.(pc := Guarding(call, call.lo, map[]))
  }

  ghost predicate GuardStep(t: Table, w: Wal, t': Table, w': Wal) {
    && w.pc.Guarding?
    && t' == t
    && var Guarding(call, next, taken) := w.pc;
       if next < call.hi then
         || w' == w.(guards := w.guards - {next}, pc := Guarding(call, next + 1, taken[next := call.mode]))
         || w' == w.(pc := Undoing(call, call.hi, call.lo, Contended))
         || w' == w.(pc := Undoing(call, call.hi, call.lo, Failed))
       else
         w' == w.(guards := w.guards + taken, pc := Returned(call, call.lo, Acquired))
  }

  ghost predicate UndoStep(t: Table, w: Wal, t': Table, w': Wal, c: ConnId) {
    && w.pc.Undoing?
    && var Undoing(call, undone, next, outcome) := w.pc;
       if next < undone then
         && Unlocked(t, t', w.path, LockByte(next), 1, c)
         && w' == w.(pc := Undoing(call, undone, next + 1, outcome))
       else
         t' == t && w' == w.(pc := Returned(call, undone, outcome))
  }

  ghost predicate ConnStep(t: Table, w: Wal, t': Table, w': Wal, c: ConnId) {
    || BeginStep(t, w, t', w')
    || ReleaseStep(t, w, t', w', c)
    || AcquireStep(t, w, t', w', c)
    || GuardStep(t, w, t', w')
    || UndoStep(t, w, t', w', c)
  }

  // ---------- steps of the system ----------

  ghost predicate OpenStep(s: System, s': System) {
    exists path: Path :: s' == System(s.table, s.wals[s.nextId := Wal(path, map[], Ready)], s.nextId + 1)
  }

  /** `Drop` and `delete`: the connection's table entries go, and its guards with it. */
  ghost predicate CloseStep(s: System, s': System, c: ConnId) {
    && c in s.wals && (s.wals[c].pc.Ready? || s.wals[c].pc.Returned?)
    && UnlockedAll(s.table, s'.table, s.wals[c].path, c)
    && s'.wals == s.wals - {c} && s'.nextId == s.nextId
  }

  ghost predicate ActStep(s: System, s': System, c: ConnId) {
    && c in s.wals && c in s'.wals
    && ConnStep(s.table, s.wals[c], s'.table, s'.wals[c], c)
    && s'.wals == s.wals[c := s'.wals[c]] && s'.nextId == s.nextId
  }

  ghost predicate Step(s: System, s': System) {
    || OpenStep(s, s')
    || (exists c: ConnId :: CloseStep(s, s', c))
    || (exists c: ConnId :: ActStep(s, s', c))
  }

  ghost predicate IsRun(run: seq<System>) {
    && |run| > 0
    && run[0] == System(map[], map[], 1)
    && forall i :: 0 < i < |run| ==> Step(run[i - 1], run[i])
  }

  // ---------- the invariant ----------

  function HoldAt(t: Table, w: Wal, slot: nat, c: ConnId): Hold {
    HoldOf(t, w.path, LockByte(slot), c)
  }

  /** The caller's hold on a slot once the slot has been granted to it in `mode`. */
  function GrantedHold(before: Hold, mode: Mode): Hold {
    if mode.Exclusive? then Hold(false, true) else Hold(true, before.exclusive)
  }

  ghost predicate AsBefore(t: Table, w: Wal, c: ConnId, call: Call, slot: nat) {
    HoldAt(t, w, slot, c) == HoldAt(call.before, w, slot, c)
  }

  ghost predicate IsGranted(t: Table, w: Wal, c: ConnId, call: Call, slot: nat) {
    HoldAt(t, w, slot, c) == GrantedHold(HoldAt(call.before, w, slot, c), call.mode)
  }

  ghost predicate IsFree(t: Table, w: Wal, c: ConnId, slot: nat) {
    HoldAt(t, w, slot, c) == NO_HOLD
  }

  ghost predicate Guarded(t: Table, w: Wal, c: ConnId, slot: nat) {
    HoldAt(t, w, slot, c) != NO_HOLD ==> slot in w.guards
  }

  /** Which slots have been granted, given up or left alone, at each point of a call. */
  ghost predicate SlotInv(t: Table, w: Wal, c: ConnId, slot: nat) {
    match w.pc
    case Ready => Guarded(t, w, c, slot)
    case Releasing(call, next) =>
      && (if call.lo <= slot < next then IsFree(t, w, c, slot) else AsBefore(t, w, c, call, slot))
      && Guarded(t, w, c, slot)
    case Acquiring(call, next) =>
      if call.lo <= slot < next then IsGranted(t, w, c, call, slot)
      else AsBefore(t, w, c, call, slot) && Guarded(t, w, c, slot)
    case Guarding(call, next, taken) =>
      && (if call.lo <= slot < call.hi then IsGranted(t, w, c, call, slot)
          else AsBefore(t, w, c, call, slot) && Guarded(t, w, c, slot))
      && (slot in taken <==> call.lo <= slot < next)
      && (slot in taken ==> taken[slot] == call.mode)
    case Undoing(call, undone, next, outcome) =>
      if call.lo <= slot < undone then slot < next ==> IsFree(t, w, c, slot)
      else AsBefore(t, w, c, call, slot) && Guarded(t, w, c, slot)
    case Returned(call, undone, outcome) =>
      && Guarded(t, w, c, slot)
      && if outcome.Acquired? then
           if !(call.lo <= slot < call.hi) then AsBefore(t, w, c, call, slot)
           else if call.mode.Unlock? then IsFree(t, w, c, slot)
           else IsGranted(t, w, c, call, slot) && slot in w.guards && w.guards[slot] == call.mode
         else
           if call.lo <= slot < undone then IsFree(t, w, c, slot) else AsBefore(t, w, c, call, slot)
  }

  predicate PcInv(pc: Pc) {
    match pc
    case Ready => true
    case Releasing(call, next) => call.mode.Unlock? && call.lo <= next && (next <= call.hi || next == call.lo)
    case Acquiring(call, next) => !call.mode.Unlock? && call.lo <= next && (next <= call.hi || next == call.lo)
    case Guarding(call, next, _) => !call.mode.Unlock? && call.lo <= next && (next <= call.hi || next == call.lo)
    case Undoing(call, undone, next, outcome) =>
      !call.mode.Unlock? && call.lo <= next <= undone <= call.hi && !outcome.Acquired?
    case Returned(call, undone, _) => call.lo <= undone && (undone <= call.hi || undone == call.lo)
  }

  /** A connection's locks all lie on lock bytes of its own path. */
  ghost predicate HoldsOnlyLockBytes(t: Table, w: Wal, c: ConnId) {
    forall p: Path, b: nat :: p != w.path || b < WAL_LOCK_OFFSET ==> HoldOf(t, p, b, c) == NO_HOLD
  }

  ghost predicate ConnInv(t: Table, w: Wal, c: ConnId) {
    && PcInv(w.pc)
    && HoldsOnlyLockBytes(t, w, c)
    && forall slot: nat :: SlotInv(t, w, c, slot)
  }

  ghost predicate Inv(s: System) {
    && Sound(s.table)
    && (forall c <- s.wals.Keys :: c < s.nextId)
    && (forall c <- s.wals.Keys :: ConnInv(s.table, s.wals[c], c))
    && (forall c: ConnId, p: Path, b: nat :: c !in s.wals ==> HoldOf(s.table, p, b, c) == NO_HOLD)
  }

  // ---------- preservation ----------

  lemma ConnStepIsTableStep(t: Table, w: Wal, t': Table, w': Wal, c: ConnId)
    requires ConnStep(t, w, t', w', c)
    ensures t' == t || TableStep(t, t', c)
    ensures w'.path == w.path
  {
  }

  /** One-slot table operations move the caller's hold on that slot and on no other byte. */
  lemma OneSlot(t: Table, t': Table, w: Wal, next: nat, c: ConnId, p: Path, b: nat)
    ensures Unlocked(t, t', w.path, LockByte(next), 1, c) ==>
              HoldOf(t', p, b, c) == if p == w.path && b == LockByte(next) then NO_HOLD else HoldOf(t, p, b, c)
    ensures forall x: bool, ok: bool :: TryLocked(t, t', w.path, LockByte(next), 1, x, c, ok) ==>
              HoldOf(t', p, b, c) == if ok && p == w.path && b == LockByte(next)
                                     then GrantedHold(HoldOf(t, p, b, c), if x then Exclusive else Shared)
                                     else HoldOf(t, p, b, c)
  {
  }

  lemma BeginAtSlot(t: Table, w: Wal, t': Table, w': Wal, c: ConnId, slot: nat)
    requires PcInv(w.pc) && SlotInv(t, w, c, slot) && BeginStep(t, w, t', w')
    ensures PcInv(w'.pc) && SlotInv(t', w', c, slot)
  {
  }

  lemma ReleaseAtSlot(t: Table, w: Wal, t': Table, w': Wal, c: ConnId, slot: nat)
    requires PcInv(w.pc) && SlotInv(t, w, c, slot) && ReleaseStep(t, w, t', w', c)
    ensures PcInv(w'.pc) && SlotInv(t', w', c, slot)
  {
    OneSlot(t, t', w, w.pc.next, c, w.path, LockByte(slot));
  }

  lemma AcquireAtSlot(t: Table, w: Wal, t': Table, w': Wal, c: ConnId, slot: nat)
    requires PcInv(w.pc) && SlotInv(t, w, c, slot) && AcquireStep(t, w, t', w', c)
    ensures PcInv(w'.pc) && SlotInv(t', w', c, slot)
  {
    OneSlot(t, t', w, w.pc.next, c, w.path, LockByte(slot));
  }

  lemma GuardAtSlot(t: Table, w: Wal, t': Table, w': Wal, c: ConnId, slot: nat)
    requires PcInv(w.pc) && SlotInv(t, w, c, slot) && GuardStep(t, w, t', w')
    ensures PcInv(w'.pc) && SlotInv(t', w', c, slot)
  {
  }

  lemma UndoAtSlot(t: Table, w: Wal, t': Table, w': Wal, c: ConnId, slot: nat)
    requires PcInv(w.pc) && SlotInv(t, w, c, slot) && UndoStep(t, w, t', w', c)
    ensures PcInv(w'.pc) && SlotInv(t', w', c, slot)
  {
    OneSlot(t, t', w, w.pc.next, c, w.path, LockByte(slot));
  }

  lemma OwnStepElsewhere(t: Table, w: Wal, t': Table, w': Wal, c: ConnId, p: Path, b: nat)
    requires HoldOf(t, p, b, c) == NO_HOLD && (p != w.path || b < WAL_LOCK_OFFSET)
    requires ConnStep(t, w, t', w', c)
    ensures HoldOf(t', p, b, c) == NO_HOLD
  {
    if w.pc.Releasing? || w.pc.Acquiring? || w.pc.Undoing? {
      OneSlot(t, t', w, w.pc.next, c, p, b);
    }
  }

  /** A connection's own step keeps its invariant. */
  lemma OwnStep(t: Table, w: Wal, t': Table, w': Wal, c: ConnId)
    requires ConnInv(t, w, c) && ConnStep(t, w, t', w', c)
    ensures ConnInv(t', w', c)
  {
    forall slot: nat
      ensures PcInv(w'.pc) && SlotInv(t', w', c, slot)
    {
      if BeginStep(t, w, t', w') {
        BeginAtSlot(t, w, t', w', c, slot);
      } else if ReleaseStep(t, w, t', w', c) {
        ReleaseAtSlot(t, w, t', w', c, slot);
      } else if AcquireStep(t, w, t', w', c) {
        AcquireAtSlot(t, w, t', w', c, slot);
      } else if GuardStep(t, w, t', w') {
        GuardAtSlot(t, w, t', w', c, slot);
      } else {
        UndoAtSlot(t, w, t', w', c, slot);
      }
    }
    forall p: Path, b: nat | p != w.path || b < WAL_LOCK_OFFSET
      ensures HoldOf(t', p, b, c) == NO_HOLD
    {
      OwnStepElsewhere(t, w, t', w', c, p, b);
    }
    assert SlotInv(t', w', c, 0);
  }

  /** A connection's invariant speaks only of its own holds, so no other step disturbs it. */
  lemma OthersStep(t: Table, t': Table, c: ConnId, w: Wal, d: ConnId)
    requires OthersKeep(t, t', c) && d != c && ConnInv(t, w, d)
    ensures ConnInv(t', w, d)
  {
    forall slot: nat
      ensures SlotInv(t', w, d, slot)
    {
      assert SlotInv(t, w, d, slot);
    }
  }

  lemma ActKeepsInv(s: System, s': System, c: ConnId)
    requires Inv(s) && ActStep(s, s', c)
    ensures Inv(s')
  {
    ConnStepIsTableStep(s.table, s.wals[c], s'.table, s'.wals[c], c);
    if s'.table != s.table {
      StepKeepsSoundness(s.table, s'.table, c);
    }
    forall d <- s'.wals.Keys
      ensures ConnInv(s'.table, s'.wals[d], d)
    {
      if d == c {
        OwnStep(s.table, s.wals[c], s'.table, s'.wals[c], c);
      } else {
        OthersStep(s.table, s'.table, c, s.wals[d], d);
      }
    }
  }

  lemma CloseKeepsInv(s: System, s': System, c: ConnId)
    requires Inv(s) && CloseStep(s, s', c)
    ensures Inv(s')
  {
    StepKeepsSoundness(s.table, s'.table, c);
    forall d <- s'.wals.Keys
      ensures ConnInv(s'.table, s'.wals[d], d)
    {
      OthersStep(s.table, s'.table, c, s.wals[d], d);
    }
    forall d: ConnId, p: Path, b: nat | d !in s'.wals
      ensures HoldOf(s'.table, p, b, d) == NO_HOLD
    {
      if d == c && p != s.wals[c].path {
        assert SlotAt(s'.table, p, b) == SlotAt(s.table, p, b);
        assert HoldOf(s.table, p, b, c) == NO_HOLD;
      }
    }
  }

  lemma OpenKeepsInv(s: System, s': System)
    requires Inv(s) && OpenStep(s, s')
    ensures Inv(s')
  {
    forall d <- s'.wals.Keys
      ensures ConnInv(s'.table, s'.wals[d], d)
    {
      if d == s.nextId {
        assert d !in s.wals;
      }
    }
  }

  lemma {:induction false} EveryRunKeepsInv(run: seq<System>)
    requires IsRun(run)
    ensures forall i :: 0 <= i < |run| ==> Inv(run[i])
  {
    for i := 1 to |run|
      invariant forall j :: 0 <= j < i ==> Inv(run[j])
    {
      var s, s' := run[i - 1], run[i];
      assert Step(s, s');
      if OpenStep(s, s') {
        OpenKeepsInv(s, s');
      } else if c: ConnId :| CloseStep(s, s', c) {
        CloseKeepsInv(s, s', c);
      } else {
        var c: ConnId :| ActStep(s, s', c);
        ActKeepsInv(s, s', c);
      }
    }
  }

  // ---------- the theorems ----------

  /** A connection that returned from a granted exclusive call owns each slot alone, behind its guard. */
  lemma ReturnedExclusive(t: Table, w: Wal, c: ConnId, slot: nat)
    requires Sound(t) && ConnInv(t, w, c) && w.pc.Returned? && w.pc.outcome.Acquired? && w.pc.call.mode.Exclusive?
    requires w.pc.call.lo <= slot < w.pc.call.hi
    ensures SlotAt(t, w.path, LockByte(slot)) == Slot({}, Some(c))
    ensures slot in w.guards && w.guards[slot] == Exclusive
  {
    assert SlotInv(t, w, c, slot);
    var s := SlotAt(t, w.path, LockByte(slot));
    assert s.shared <= {c} && c !in s.shared;
  }

  /**
   Whatever other connections do between its slots, a call that returned true for an exclusive
   range owns every slot alone, behind an exclusive file guard, from its return until its own
   next call.
   */
  lemma ExclusiveRangeIsOwned(run: seq<System>, i: nat, c: ConnId, slot: nat)
    requires IsRun(run) && i < |run|
    requires c in run[i].wals && run[i].wals[c].pc.Returned?
    requires var pc := run[i].wals[c].pc;
             pc.outcome.Acquired? && pc.call.mode.Exclusive? && pc.call.lo <= slot < pc.call.hi
    ensures var w := run[i].wals[c];
            && SlotAt(run[i].table, w.path, 120 + slot) == Slot({}, Some(c))
            && slot in w.guards && w.guards[slot] == Exclusive
    ensures forall d: ConnId :: d != c ==> HoldOf(run[i].table, run[i].wals[c].path, LockByte(slot), d) == NO_HOLD
  {
    EveryRunKeepsInv(run);
    ReturnedExclusive(run[i].table, run[i].wals[c], c, slot);
  }

  /** A granted shared range is held, guarded, and owned exclusively by nobody else. */
  lemma SharedRangeIsHeld(run: seq<System>, i: nat, c: ConnId, slot: nat)
    requires IsRun(run) && i < |run|
    requires c in run[i].wals && run[i].wals[c].pc.Returned?
    requires var pc := run[i].wals[c].pc;
             pc.outcome.Acquired? && pc.call.mode.Shared? && pc.call.lo <= slot < pc.call.hi
    ensures var w := run[i].wals[c];
            && c in SlotAt(run[i].table, w.path, 120 + slot).shared
            && slot in w.guards && w.guards[slot] == Shared
    ensures forall d: ConnId :: d != c ==> !HoldOf(run[i].table, run[i].wals[c].path, LockByte(slot), d).exclusive
  {
    EveryRunKeepsInv(run);
    assert SlotInv(run[i].table, run[i].wals[c], c, slot);
  }

  /**
   A call that returned false or an error gave up the slots below `undone` and left every other
   slot as it was: it gained no slot and no stronger mode.
   */
  lemma FailedCallGainsNothing(run: seq<System>, i: nat, c: ConnId, slot: nat)
    requires IsRun(run) && i < |run|
    requires c in run[i].wals && run[i].wals[c].pc.Returned? && !run[i].wals[c].pc.outcome.Acquired?
    ensures var w := run[i].wals[c];
            var now, was := HoldAt(run[i].table, w, slot, c), HoldAt(w.pc.call.before, w, slot, c);
            && now == (if w.pc.call.lo <= slot < w.pc.undone then NO_HOLD else was)
            && (now.shared ==> was.shared) && (now.exclusive ==> was.exclusive)
  {
    EveryRunKeepsInv(run);
    assert SlotInv(run[i].table, run[i].wals[c], c, slot);
  }

  /** At every return, each slot the connection holds in the table has a live file guard. */
  lemma HeldSlotsAreGuarded(run: seq<System>, i: nat, c: ConnId, p: Path, b: nat)
    requires IsRun(run) && i < |run|
    requires c in run[i].wals && (run[i].wals[c].pc.Ready? || run[i].wals[c].pc.Returned?)
    requires HoldOf(run[i].table, p, b, c) != NO_HOLD
    ensures var w := run[i].wals[c]; p == w.path && b >= 120 && b - 120 in w.guards
  {
    EveryRunKeepsInv(run);
    assert SlotInv(run[i].table, run[i].wals[c], c, b - WAL_LOCK_OFFSET);
  }

  /** Nobody else owns the slot's lock byte, and for an exclusive lock nobody else shares it. */
  ghost predicate SlotIsFree(t: Table, path: Path, slot: nat, mode: Mode, c: ConnId) {
    NoForeignOwner(t, path, 120 + slot, c) && (mode.Exclusive? ==> SlotAt(t, path, 120 + slot).shared <= {c})
  }

  ghost predicate RangeIsFree(t: Table, path: Path, lo: nat, hi: nat, mode: Mode, c: ConnId) {
    forall slot: nat :: lo <= slot < hi ==> SlotIsFree(t, path, slot, mode, c)
  }

  // ---------- a run in which a failed call loses a lock ----------

  ghost function Alone(t: Table, w: Wal): System { System(t, map[1 := w], 2) }

  lemma Extend(run: seq<System>, t: Table, w: Wal, t': Table, w': Wal)
    requires IsRun(run) && run[|run| - 1] == Alone(t, w) && ConnStep(t, w, t', w', 1)
    ensures IsRun(run + [Alone(t', w')])
  {
    var s, s' := Alone(t, w), Alone(t', w');
    assert s'.wals == s.wals[1 := s'.wals[1]];
    assert ActStep(s, s', 1);
    var longer := run + [s'];
    assert forall i :: 0 < i < |run| ==> Step(longer[i - 1], longer[i]);
  }

  function TableOf(s: Slot): Table { map["db" := map[LockByte(0) := s]] }

  lemma GrantStep(t: Table, t': Table, w: Wal, call: Call)
    requires call.hi == 1 && w.pc == Acquiring(call, 0)
    requires TryLocked(t, t', w.path, LockByte(0), 1, call.mode.Exclusive?, 1, true)
    ensures ConnStep(t, w, t', w.(pc := Acquiring(call, 1)), 1)
  {
    assert AcquireStep(t, w, t', w.(pc := Acquiring(call, 1)), 1);
  }

  /** The slot taken shared, upgraded, and released. */
  lemma SlotHistory()
    ensures TryLocked(map[], TableOf(Slot({1}, None)), "db", LockByte(0), 1, false, 1, true)
    ensures TryLocked(TableOf(Slot({1}, None)), TableOf(Slot({}, Some(1))), "db", LockByte(0), 1, true, 1, true)
    ensures Unlocked(TableOf(Slot({}, Some(1))), TableOf(EMPTY_SLOT), "db", LockByte(0), 1, 1)
  {
    assert {1} - {1} == {};
  }

  /** A lone connection takes slot 0 shared. */
  lemma TakesShared() returns (run: seq<System>, w: Wal)
    ensures IsRun(run) && run[|run| - 1] == Alone(TableOf(Slot({1}, None)), w)
    ensures w == Wal("db", map[0 := Shared], Returned(Call(0, 1, Shared, map[]), 0, Acquired))
  {
    hide TryLocked, Unlocked;
    SlotHistory();
    var none, held: Table := map[], TableOf(Slot({1}, None));
    var call := Call(0, 1, Shared, none);
    var w0 := Wal("db", map[], Ready);
    var w1, w2, w3 := w0.(pc := Acquiring(call, 0)), w0.(pc := Acquiring(call, 1)), w0.(pc := Guarding(call, 0, map[]));
    var w4 := w0.(pc := Guarding(call, 1, map[0 := Shared]));
    w := Wal("db", map[0 := Shared], Returned(call, 0, Acquired));
    var start := System(map[], map[], 1);
    assert Alone(none, w0) == System(start.table, start.wals[1 := w0], 2);
    assert OpenStep(start, Alone(none, w0));
    run := [start, Alone(none, w0)];
    Extend(run, none, w0, none, w1);
    run := run + [Alone(none, w1)];
    GrantStep(none, held, w1, call);
    Extend(run, none, w1, held, w2);
    run := run + [Alone(held, w2)];
    Extend(run, held, w2, held, w3);
    run := run + [Alone(held, w3)];
    assert w0.guards - {0} == w0.guards;
    Extend(run, held, w3, held, w4);
    run := run + [Alone(held, w4)];
    assert w4.guards + map[0 := Shared] == w.guards;
    Extend(run, held, w4, held, w);
    run := run + [Alone(held, w)];
  }

  /**
   The connection asks to upgrade the slot it holds shared; the table grants it, the file guard
   would block, and the rollback drops the slot altogether.
   */
  lemma FailedUpgradeLosesTheLock() returns (run: seq<System>)
    ensures IsRun(run) && 1 in run[|run| - 1].wals
    ensures var s := run[|run| - 1];
            var w := s.wals[1];
            && w.pc.Returned? && w.pc.outcome == Contended
            && HoldAt(w.pc.call.before, w, 0, 1) == Hold(true, false) && HoldAt(s.table, w, 0, 1) == NO_HOLD
  {
    hide TryLocked, Unlocked;
    SlotHistory();
    var w;
    run, w := TakesShared();
    var held, owned, freed := TableOf(Slot({1}, None)), TableOf(Slot({}, Some(1))), TableOf(EMPTY_SLOT);
    var call := Call(0, 1, Exclusive, held);
    var w1, w2, w3 := w.(pc := Acquiring(call, 0)), w.(pc := Acquiring(call, 1)), w.(pc := Guarding(call, 0, map[]));
    var w4, w5 := w.(pc := Undoing(call, 1, 0, Contended)), w.(pc := Undoing(call, 1, 1, Contended));
    var w6 := w.(pc := Returned(call, 1, Contended));
    Extend(run, held, w, held, w1);
    run := run + [Alone(held, w1)];
    GrantStep(held, owned, w1, call);
    Extend(run, held, w1, owned, w2);
    run := run + [Alone(owned, w2)];
    Extend(run, owned, w2, owned, w3);
    run := run + [Alone(owned, w3)];
    Extend(run, owned, w3, owned, w4);
    run := run + [Alone(owned, w4)];
    Extend(run, owned, w4, freed, w5);
    run := run + [Alone(freed, w5)];
    Extend(run, freed, w5, freed, w6);
    run := run + [Alone(freed, w6)];
  }
}
