/**
 When a failing range lock restores what its caller held (src/lib.rs:545-607), decided before the
 call: from every reachable state, every failing continuation restores the holds exactly if the
 caller holds none of the slots it is about to ask for.
 */
module LockRestores {
  import opened Common
  import opened LockTable
  import opened WalLocks

  ghost predicate IsIdle(w: Wal) { w.pc.Ready? || w.pc.Returned? }

  ghost function LastOf(run: seq<System>): System
    requires run != []
  {
    run[|run| - 1]
  }

  ghost predicate Extends(run: seq<System>, longer: seq<System>) {
    |run| <= |longer| && longer[..|run|] == run
  }

  // ---------- tables after one operation ----------

  function WithSlot(t: Table, path: Path, byte: nat, s: Slot): (t': Table)
    ensures forall p: Path, b: nat :: SlotAt(t', p, b) == if p == path && b == byte then s else SlotAt(t, p, b)
  {
    t[path := (if path in t then t[path] else map[])[byte := s]]
  }

  function WithoutConn(t: Table, path: Path, c: ConnId): (t': Table)
    ensures UnlockedAll(t, t', path, c)
  {
    if path in t then t[path := map b | b in t[path] :: Released(t[path][b], c)] else t
  }

  /** Some table follows each one-slot attempt. */
  lemma Attempt(t: Table, path: Path, byte: nat, exclusive: bool, c: ConnId) returns (t': Table, ok: bool)
    ensures TryLocked(t, t', path, byte, 1, exclusive, c, ok)
    ensures ok <==> Compatible(SlotAt(t, path, byte), exclusive, c)
  {
    var s := SlotAt(t, path, byte);
    ok := Compatible(s, exclusive, c);
    t' := if ok then WithSlot(t, path, byte, Granted(s, exclusive, c)) else t;
    assert Within(byte, byte, 1);
  }

  lemma Release(t: Table, path: Path, byte: nat, c: ConnId) returns (t': Table)
    ensures Unlocked(t, t', path, byte, 1, c)
  {
    t' := WithSlot(t, path, byte, Released(SlotAt(t, path, byte), c));
  }

  // ---------- extending a run ----------

  /** One step of connection `d`. */
  lemma Act(run: seq<System>, d: ConnId, t': Table, w': Wal) returns (longer: seq<System>)
    requires IsRun(run) && d in LastOf(run).wals
    requires ConnStep(LastOf(run).table, LastOf(run).wals[d], t', w', d)
    ensures IsRun(longer) && Extends(run, longer) && |longer| == |run| + 1
    ensures LastOf(longer) == System(t', LastOf(run).wals[d := w'], LastOf(run).nextId)
  {
    var s := LastOf(run);
    var s' := System(t', s.wals[d := w'], s.nextId);
    assert s'.wals[d] == w' && ActStep(s, s', d);
    longer := run + [s'];
    Appended(run, s');
  }

  lemma Close(run: seq<System>, d: ConnId) returns (longer: seq<System>)
    requires IsRun(run) && d in LastOf(run).wals && IsIdle(LastOf(run).wals[d])
    ensures IsRun(longer) && Extends(run, longer) && |longer| == |run| + 1
    ensures LastOf(longer).wals == LastOf(run).wals - {d}
  {
    var s := LastOf(run);
    var s' := System(WithoutConn(s.table, s.wals[d].path, d), s.wals - {d}, s.nextId);
    assert CloseStep(s, s', d);
    longer := run + [s'];
    Appended(run, s');
  }

  lemma Appended(run: seq<System>, s': System)
    requires IsRun(run) && Step(LastOf(run), s')
    ensures IsRun(run + [s']) && Extends(run, run + [s'])
  {
    hide Step;
    var longer := run + [s'];
    assert forall i :: 0 < i < |run| ==> Step(longer[i - 1], longer[i]);
  }

  // ---------- a call can always be finished ----------

  /** How far a connection is from the end of its call, at worst. */
  function StepsLeft(pc: Pc): nat
  {
    match pc
    case Ready => 0
    case Returned(_, _, _) => 0
    case Releasing(call, next) => if next < call.hi then call.hi - next + 1 else 1
    case Acquiring(call, next) => (if next < call.hi then call.hi - next
      else 0) + (if call.lo < call.hi then call.hi - call.lo else 0) + 4
    case Guarding(call, _, _) => (if call.lo < call.hi then call.hi - call.lo else 0) + 3
    case Undoing(call, undone, next, _) => if next < undone then undone - next + 1 else 1
  }

  /** The next step of a connection in the middle of a call, brought nearer to its end; a guard may fail. */
  lemma NextStep(t: Table, w: Wal, d: ConnId) returns (t': Table, w': Wal)
    requires PcInv(w.pc) && !IsIdle(w)
    ensures ConnStep(t, w, t', w', d) && StepsLeft(w'.pc) < StepsLeft(w.pc)
    ensures w.pc.Undoing? ==> w'.pc == (if w.pc.next < w.pc.undone then w.pc.(next := w.pc.next + 1)
      else Returned(w.pc.call, w.pc.undone, w.pc.outcome))
  {
    t' := t;
    match w.pc {
      case Releasing(call, next) =>
        if next < call.hi {
          t' := Release(t, w.path, LockByte(next), d);
          w' := w.(guards := w.guards - {next}, pc := Releasing(call, next + 1));
        } else {
          w' := w.(pc := Returned(call, call.lo, Acquired));
        }
        assert ReleaseStep(t, w, t', w', d);
      case Acquiring(call, next) =>
        if next < call.hi {
          var ok;
          t', ok := Attempt(t, w.path, LockByte(next), call.mode.Exclusive?, d);
          w' := w.(pc := if ok then Acquiring(call, next + 1) else Undoing(call, next, call.lo, Contended));
        } else {
          w' := w.(pc := Guarding(call, call.lo, map[]));
        }
        assert AcquireStep(t, w, t', w', d);
      case Guarding(call, next, taken) =>
        if next < call.hi {
          w' := w.(pc := Undoing(call, call.hi, call.lo, Contended));
        } else {
          w' := w.(guards := w.guards + taken, pc := Returned(call, call.lo, Acquired));
        }
        assert GuardStep(t, w, t', w');
      case Undoing(call, undone, next, outcome) =>
        if next < undone {
          t' := Release(t, w.path, LockByte(next), d);
          w' := w.(pc := Undoing(call, undone, next + 1, outcome));
        } else {
          w' := w.(pc := Returned(call, undone, outcome));
        }
        assert UndoStep(t, w, t', w', d);
    }
  }

  /** A connection is where the run left it, as long as only others move. */
  ghost predicate Waits(run: seq<System>, longer: seq<System>, c: ConnId)
    requires run != [] && c in LastOf(run).wals
  {
    && Extends(run, longer)
    && forall i :: |run| - 1 <= i < |longer| ==> c in longer[i].wals && longer[i].wals[c] == LastOf(run).wals[c]
  }

  /** The connection is open all along. */
  ghost predicate StaysIn(run: seq<System>, longer: seq<System>, c: ConnId)
    requires run != []
  {
    Extends(run, longer) && forall i :: |run| - 1 <= i < |longer| ==> c in longer[i].wals
  }

  lemma StaysIsLonger(run: seq<System>, longer: seq<System>, c: ConnId)
    requires run != [] && StaysIn(run, longer, c)
    ensures |run| <= |longer|
  {
  }

  lemma StaysFurther(run: seq<System>, middle: seq<System>, longer: seq<System>, c: ConnId)
    requires run != [] && middle != [] && StaysIn(run, middle, c) && StaysIn(middle, longer, c)
    ensures StaysIn(run, longer, c)
  {
    assert longer[..|run|] == longer[..|middle|][..|run|];
    forall i | |run| - 1 <= i < |longer|
      ensures c in longer[i].wals
    {
      if i < |middle| {
        assert longer[i] == longer[..|middle|][i];
      }
    }
  }

  /** One more step of a call under way; everyone else stays where it is. */
  lemma OneStep(run: seq<System>, d: ConnId) returns (one: seq<System>)
    requires IsRun(run) && d in LastOf(run).wals && !IsIdle(LastOf(run).wals[d])
    ensures IsRun(one) && Extends(run, one) && |one| == |run| + 1 && StaysIn(run, one, d)
    ensures LastOf(one).wals == LastOf(run).wals[d := LastOf(one).wals[d]]
    ensures StepsLeft(LastOf(one).wals[d].pc) < StepsLeft(LastOf(run).wals[d].pc)
    ensures var pc := LastOf(run).wals[d].pc;
            pc.Undoing? ==> LastOf(one).wals[d].pc ==
                            if pc.next < pc.undone then pc.(next := pc.next + 1)
                              else Returned(pc.call, pc.undone, pc.outcome)
  {
    var s := LastOf(run);
    EveryRunKeepsInv(run);
    assert ConnInv(s.table, s.wals[d], d);
    hide ConnStep, Inv, Step, ConnInv, StepsLeft, IsRun;
    var t', w' := NextStep(s.table, s.wals[d], d);
    one := Act(run, d, t', w');
  }

  /** Every connection can finish its call, whatever it is doing; the others wait. */
  lemma {:induction false} Finish(run: seq<System>, d: ConnId) returns (longer: seq<System>)
    requires IsRun(run) && d in LastOf(run).wals
    ensures IsRun(longer) && Extends(run, longer)
    ensures LastOf(longer).wals.Keys == LastOf(run).wals.Keys && IsIdle(LastOf(longer).wals[d])
    ensures StaysIn(run, longer, d) && forall c <- LastOf(run).wals.Keys :: c != d ==> Waits(run, longer, c)
    ensures var w := LastOf(run).wals[d];
            w.pc.Undoing? ==> LastOf(longer).wals[d].pc == Returned(w.pc.call, w.pc.undone, w.pc.outcome)
    ensures IsIdle(LastOf(run).wals[d]) ==> longer == run
    decreases StepsLeft(LastOf(run).wals[d].pc)
  {
    assert run != [];
    hide IsRun, StepsLeft;
    if IsIdle(LastOf(run).wals[d]) {
      longer := run;
    } else {
      var one := OneStep(run, d);
      longer := Finish(one, d);
      hide StaysIn;
      StaysFurther(run, one, longer, d);
      assert Extends(run, longer) by { ExtendsThrough(run, one, longer); }
      forall c <- LastOf(run).wals.Keys | c != d
        ensures Waits(run, longer, c)
      {
        assert Waits(one, longer, c);
        WaitsFurther(run, one, longer, c);
      }
    }
  }

  lemma ExtendsThrough(run: seq<System>, middle: seq<System>, longer: seq<System>)
    requires Extends(run, middle) && Extends(middle, longer)
    ensures Extends(run, longer)
  {
    assert longer[..|run|] == longer[..|middle|][..|run|];
  }

  lemma WaitsFurther(run: seq<System>, one: seq<System>, longer: seq<System>, c: ConnId)
    requires run != [] && Extends(run, one) && |one| == |run| + 1 && c in LastOf(run).wals
    requires c in LastOf(one).wals && LastOf(one).wals[c] == LastOf(run).wals[c] && Waits(one, longer, c)
    ensures Waits(run, longer, c)
  {
    assert longer[..|run|] == longer[..|one|][..|run|];
    assert longer[|run| - 1] == LastOf(run);
  }

  // ---------- a failing call from any reachable state ----------

  /** All other connections can finish and close while `c` waits. */
  lemma {:induction false} CloseOthers(run: seq<System>, c: ConnId) returns (longer: seq<System>)
    requires IsRun(run) && c in LastOf(run).wals
    ensures IsRun(longer) && Waits(run, longer, c) && LastOf(longer).wals.Keys == {c}
    decreases |LastOf(run).wals|
  {
    var s := LastOf(run);
    if s.wals.Keys == {c} {
      longer := run;
    } else {
      hide IsRun;
      var d :| d in s.wals.Keys && d != c;
      var finished := Finish(run, d);
      assert Waits(run, finished, c);
      var closed := Close(finished, d);
      assert LastOf(closed).wals.Keys == s.wals.Keys - {d};
      FewerKeys(s.wals, LastOf(closed).wals, d);
      WaitsOneMore(run, finished, closed, c);
      longer := CloseOthers(closed, c);
      WaitsThrough(run, closed, longer, c);
    }
  }

  lemma FewerKeys(wals: map<ConnId, Wal>, fewer: map<ConnId, Wal>, d: ConnId)
    requires d in wals && fewer.Keys == wals.Keys - {d}
    ensures |fewer| < |wals|
  {
    assert |wals| == |wals.Keys| && |fewer| == |fewer.Keys|;
    assert |wals.Keys - {d}| == |wals.Keys| - 1;
  }

  lemma WaitsOneMore(run: seq<System>, longer: seq<System>, more: seq<System>, c: ConnId)
    requires run != [] && c in LastOf(run).wals && Waits(run, longer, c) && Extends(longer, more)
    requires |more| == |longer| + 1
    requires c in LastOf(more).wals && LastOf(more).wals[c] == LastOf(longer).wals[c]
    ensures Waits(run, more, c)
  {
    assert more[..|run|] == more[..|longer|][..|run|];
    assert longer[|longer| - 1] == LastOf(longer);
    forall i | |run| - 1 <= i < |more|
      ensures c in more[i].wals && more[i].wals[c] == LastOf(run).wals[c]
    {
      if i < |longer| {
        assert more[i] == more[..|longer|][i];
      }
    }
  }

  lemma WaitsThrough(run: seq<System>, middle: seq<System>, longer: seq<System>, c: ConnId)
    requires run != [] && c in LastOf(run).wals && Waits(run, middle, c) && middle != [] && c in LastOf(middle).wals
    requires Waits(middle, longer, c)
    ensures Waits(run, longer, c)
  {
    assert longer[..|run|] == longer[..|middle|][..|run|];
    forall i | |run| - 1 <= i < |longer|
      ensures c in longer[i].wals && longer[i].wals[c] == LastOf(run).wals[c]
    {
      if i < |middle| {
        assert longer[i] == longer[..|middle|][i];
      } else {
        assert middle[|middle| - 1].wals[c] == LastOf(run).wals[c];
      }
    }
  }

  /** A connection alone in the system finds every slot compatible. */
  lemma AloneIsCompatible(s: System, c: ConnId, p: Path, b: nat, exclusive: bool)
    requires Inv(s) && s.wals.Keys == {c}
    ensures Compatible(SlotAt(s.table, p, b), exclusive, c)
  {
    var slot := SlotAt(s.table, p, b);
    forall d: ConnId | d in slot.shared || slot.exclusive == Some(d)
      ensures d == c
    {
      assert HoldOf(s.table, p, b, d) != NO_HOLD;
    }
  }

  /** Alone, a connection is granted slot after slot. */
  lemma {:induction false} AcquireAll(run: seq<System>, c: ConnId, call: Call, next: nat) returns (longer: seq<System>)
    requires IsRun(run) && LastOf(run).wals.Keys == {c} && LastOf(run).wals[c].pc == Acquiring(call, next)
    requires call.lo <= next <= call.hi && !call.mode.Unlock?
    ensures IsRun(longer) && Extends(run, longer) && StaysIn(run, longer, c)
    ensures LastOf(longer).wals.Keys == {c} && LastOf(longer).wals[c].pc == Acquiring(call, call.hi)
    decreases call.hi - next
  {
    if next == call.hi {
      longer := run;
    } else {
      EveryRunKeepsInv(run);
      var s := LastOf(run);
      var w := s.wals[c];
      AloneIsCompatible(s, c, w.path, LockByte(next), call.mode.Exclusive?);
      var t', ok := Attempt(s.table, w.path, LockByte(next), call.mode.Exclusive?, c);
      var w' := w.(pc := Acquiring(call, next + 1));
      assert AcquireStep(s.table, w, t', w', c);
      hide IsRun, Inv, TryLocked;
      var one := Act(run, c, t', w');
      longer := AcquireAll(one, c, call, next + 1);
      StaysFurther(run, one, longer, c);
    }
  }

  /** From the state `run` ends in, `c` waits until `b`, then calls, and `all` ends with that call having failed. */
  ghost predicate FailsAfter(run: seq<System>, all: seq<System>, b: nat, c: ConnId, lo: nat, hi: nat, mode: Mode)
    requires run != [] && c in LastOf(run).wals
  {
    && IsRun(all) && |run| <= b + 1 < |all| && Waits(run, all[..b + 1], c) && StaysIn(all[..b + 1], all, c)
    && var pc := LastOf(all).wals[c].pc;
       pc.Returned? && !pc.outcome.Acquired? && pc.call == Call(lo, hi, mode, all[b].table)
  }

  /** The caller holds at the end of `all` what it held at the end of `run`. */
  ghost predicate Restored(run: seq<System>, all: seq<System>, c: ConnId)
    requires run != [] && all != [] && c in LastOf(run).wals && c in LastOf(all).wals
  {
    forall slot: nat ::
      HoldAt(LastOf(all).table, LastOf(all).wals[c], slot, c) == HoldAt(LastOf(run).table, LastOf(run).wals[c], slot, c)
  }

  lemma BeginCall(run: seq<System>, c: ConnId, call: Call) returns (longer: seq<System>)
    requires IsRun(run) && LastOf(run).wals.Keys == {c} && IsIdle(LastOf(run).wals[c])
    requires call.before == LastOf(run).table && !call.mode.Unlock?
    ensures IsRun(longer) && StaysIn(run, longer, c) && |longer| == |run| + 1
    ensures LastOf(longer).wals.Keys == {c} && LastOf(longer).wals[c].pc == Acquiring(call, call.lo)
  {
    var s := LastOf(run);
    var w' := s.wals[c].(pc := Acquiring(call, call.lo));
    assert BeginStep(s.table, s.wals[c], s.table, w');
    hide IsRun;
    longer := Act(run, c, s.table, w');
  }

  /** Alone, a call can be granted every slot and then fail at its first guard. */
  lemma FailAlone(run: seq<System>, c: ConnId, call: Call) returns (all: seq<System>)
    requires IsRun(run) && LastOf(run).wals.Keys == {c} && IsIdle(LastOf(run).wals[c])
    requires call.before == LastOf(run).table && !call.mode.Unlock? && call.lo < call.hi
    ensures IsRun(all) && StaysIn(run, all, c) && |run| < |all|
    ensures c in LastOf(all).wals && LastOf(all).wals[c].pc == Returned(call, call.hi, Contended)
  {
    hide IsRun, StaysIn;
    var begun := BeginCall(run, c, call);
    var granted := AcquireAll(begun, c, call, call.lo);
    var guarding := GuardNext(granted, c, call);
    var undoing := GuardBlocks(guarding, c, call);
    all := Finish(undoing, c);
    StaysFurther(guarding, undoing, all, c);
    StaysFurther(granted, guarding, all, c);
    StaysFurther(begun, granted, all, c);
    assert |begun| <= |all| by { StaysIsLonger(begun, all, c); }
    StaysFurther(run, begun, all, c);
  }

  /**
   A failing call that was granted the whole range: others close, every slot is granted, the first
   guard would block.
   */
  lemma FailingCall(run: seq<System>, c: ConnId, lo: nat, hi: nat, mode: Mode) returns (all: seq<System>, b: nat)
    requires IsRun(run) && c in LastOf(run).wals && IsIdle(LastOf(run).wals[c]) && !mode.Unlock? && lo < hi
    ensures FailsAfter(run, all, b, c, lo, hi, mode) && LastOf(all).wals[c].pc.undone == hi
  {
    assert run != [];
    hide IsRun;
    var alone := CloseOthers(run, c);
    b := |alone| - 1;
    var s := LastOf(alone);
    assert alone[b].wals[c] == LastOf(run).wals[c];
    all := FailAlone(alone, c, Call(lo, hi, mode, s.table));
    assert all[..b + 1] == alone && all[b] == s;
  }

  lemma GuardNext(run: seq<System>, c: ConnId, call: Call) returns (longer: seq<System>)
    requires IsRun(run) && LastOf(run).wals.Keys == {c} && LastOf(run).wals[c].pc == Acquiring(call, call.hi)
    ensures IsRun(longer) && StaysIn(run, longer, c)
    ensures LastOf(longer).wals.Keys == {c} && LastOf(longer).wals[c].pc == Guarding(call, call.lo, map[])
  {
    var s := LastOf(run);
    var w' := s.wals[c].(pc := Guarding(call, call.lo, map[]));
    assert AcquireStep(s.table, s.wals[c], s.table, w', c);
    longer := Act(run, c, s.table, w');
  }

  lemma GuardBlocks(run: seq<System>, c: ConnId, call: Call) returns (longer: seq<System>)
    requires IsRun(run) && LastOf(run).wals.Keys == {c} && LastOf(run).wals[c].pc == Guarding(call, call.lo, map[])
    requires call.lo < call.hi
    ensures IsRun(longer) && StaysIn(run, longer, c)
    ensures LastOf(longer).wals.Keys == {c} && LastOf(longer).wals[c].pc == Undoing(call, call.hi, call.lo, Contended)
  {
    var s := LastOf(run);
    var w' := s.wals[c].(pc := Undoing(call, call.hi, call.lo, Contended));
    assert GuardStep(s.table, s.wals[c], s.table, w');
    longer := Act(run, c, s.table, w');
  }

  // ---------- holds along the way ----------

  /** A step that leaves a connection where it is leaves its holds alone. */
  lemma WaitStep(s: System, s': System, c: ConnId, p: Path, b: nat)
    requires Inv(s) && Step(s, s') && c in s.wals && c in s'.wals && s'.wals[c] == s.wals[c]
    ensures HoldOf(s'.table, p, b, c) == HoldOf(s.table, p, b, c)
  {
    if d: ConnId :| CloseStep(s, s', d) {
      assert TableStep(s.table, s'.table, d);
      StepKeepsSoundness(s.table, s'.table, d);
    } else if d: ConnId :| ActStep(s, s', d) {
      OtherActs(s, s', d, c, p, b);
    }
  }

  lemma OtherActs(s: System, s': System, d: ConnId, c: ConnId, p: Path, b: nat)
    requires Sound(s.table) && ActStep(s, s', d) && c in s.wals && c in s'.wals && s'.wals[c] == s.wals[c]
    ensures HoldOf(s'.table, p, b, c) == HoldOf(s.table, p, b, c)
  {
    ConnStepIsTableStep(s.table, s.wals[d], s'.table, s'.wals[d], d);
    if d != c && s'.table != s.table {
      hide ConnStep, TableStep;
      StepKeepsSoundness(s.table, s'.table, d);
    }
  }

  lemma WaitingKeepsHolds(run: seq<System>, longer: seq<System>, c: ConnId, p: Path, b: nat)
    requires IsRun(longer) && run != [] && c in LastOf(run).wals && Waits(run, longer, c)
    ensures HoldOf(LastOf(longer).table, p, b, c) == HoldOf(LastOf(run).table, p, b, c)
  {
    hide Step, Inv, HoldOf;
    EveryRunKeepsInv(longer);
    assert longer[|run| - 1] == LastOf(run);
    for i := |run| to |longer|
      invariant HoldOf(longer[i - 1].table, p, b, c) == HoldOf(LastOf(run).table, p, b, c)
    {
      WaitStep(longer[i - 1], longer[i], c, p, b);
    }
  }

  lemma PathStep(s: System, s': System, c: ConnId)
    requires Inv(s) && Step(s, s') && c in s.wals && c in s'.wals
    ensures s'.wals[c].path == s.wals[c].path
  {
    if d: ConnId :| ActStep(s, s', d) {
      ConnStepIsTableStep(s.table, s.wals[d], s'.table, s'.wals[d], d);
    }
  }

  lemma PathStays(run: seq<System>, all: seq<System>, c: ConnId)
    requires IsRun(all) && run != [] && StaysIn(run, all, c)
    ensures c in LastOf(run).wals && LastOf(all).wals[c].path == LastOf(run).wals[c].path
  {
    hide Step, Inv;
    EveryRunKeepsInv(all);
    assert all[|run| - 1] == LastOf(run);
    for i := |run| to |all|
      invariant all[i - 1].wals[c].path == LastOf(run).wals[c].path
    {
      PathStep(all[i - 1], all[i], c);
    }
  }

  lemma PrefixIsRun(all: seq<System>, n: nat)
    requires IsRun(all) && 0 < n <= |all|
    ensures IsRun(all[..n])
  {
    hide Step;
  }

  /** What a failing call left of each hold of its caller. */
  lemma AfterFailure(run: seq<System>, all: seq<System>, b: nat, c: ConnId, lo: nat, hi: nat, mode: Mode, slot: nat)
    requires run != [] && c in LastOf(run).wals && FailsAfter(run, all, b, c, lo, hi, mode)
    ensures var pc := LastOf(all).wals[c].pc;
            && (pc.undone <= hi || pc.undone == lo)
            && HoldAt(LastOf(all).table, LastOf(all).wals[c], slot, c) ==
               if lo <= slot < pc.undone then NO_HOLD else HoldAt(LastOf(run).table, LastOf(run).wals[c], slot, c)
  {
    var waited := all[..b + 1];
    PrefixIsRun(all, b + 1);
    PathStays(waited, all, c);
    var path := LastOf(run).wals[c].path;
    assert LastOf(waited) == all[b] && LastOf(waited).wals[c] == LastOf(run).wals[c];
    WaitingKeepsHolds(run, waited, c, path, LockByte(slot));
    FailedCallGainsNothing(all, |all| - 1, c, slot);
    EveryRunKeepsInv(all);
    assert ConnInv(LastOf(all).table, LastOf(all).wals[c], c);
  }

  /**
   From every reachable state in which the caller is ready: each failing call for a range, whatever
   the other connections and the file guards do, restores the caller's holds if and only if the
   caller holds no slot of the range now.
   */
  lemma FailureRestoresIffNothingHeld(run: seq<System>, c: ConnId, lo: nat, hi: nat, mode: Mode)
    requires IsRun(run) && c in LastOf(run).wals && IsIdle(LastOf(run).wals[c]) && !mode.Unlock?
    ensures (forall all: seq<System>, b: nat :: FailsAfter(run, all, b, c, lo, hi, mode) ==> Restored(run, all, c))
            <==>
            (forall slot: nat :: lo <= slot < hi ==> HoldAt(LastOf(run).table, LastOf(run).wals[c], slot, c) == NO_HOLD)
  {
    if slot: nat :| lo <= slot < hi && HoldAt(LastOf(run).table, LastOf(run).wals[c], slot, c) != NO_HOLD {
      var all, b := FailingCall(run, c, lo, hi, mode);
      AfterFailure(run, all, b, c, lo, hi, mode, slot);
      assert !Restored(run, all, c);
    } else {
      forall all: seq<System>, b: nat | FailsAfter(run, all, b, c, lo, hi, mode)
        ensures Restored(run, all, c)
      {
        forall slot: nat
          ensures HoldAt(LastOf(all).table, LastOf(all).wals[c], slot, c) ==
                  HoldAt(LastOf(run).table, LastOf(run).wals[c], slot, c)
        {
          AfterFailure(run, all, b, c, lo, hi, mode, slot);
        }
      }
    }
  }
}
