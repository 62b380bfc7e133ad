/**
 The process-wide lock table of src/lib.rs: path -> byte -> {shared holders, exclusive owner}.

 Every operation runs under one mutex, so each is a single atomic step. What it does to the
 table is stated as a relation between the table before and after, and the relation reads
 the table through `SlotAt`, because a refused request still inserts empty slots.
 */
module LockTable {
  import opened Common

  type ConnId = nat
  type Path = string

  datatype Slot = Slot(shared: set<ConnId>, exclusive: Option<ConnId>)

  const EMPTY_SLOT := Slot({}, None)

  type Table = map<Path, map<nat, Slot>>

  function SlotAt(t: Table, path: Path, byte: nat): Slot {
    if path in t && byte in t[path] then t[path][byte] else EMPTY_SLOT
  }

  /** What one connection holds on one byte. */
  datatype Hold = Hold(shared: bool, exclusive: bool)

  const NO_HOLD := Hold(false, false)

  function HoldOf(t: Table, path: Path, byte: nat, c: ConnId): Hold {
    var s := SlotAt(t, path, byte);
    Hold(c in s.shared, s.exclusive == Some(c))
  }

  /** The conflict test of src/lib.rs:256-265. */
  predicate Compatible(s: Slot, exclusive: bool, c: ConnId) {
    && (s.exclusive == None || s.exclusive == Some(c))
    && (exclusive ==> forall id <- s.shared :: id == c)
  }

  function Granted(s: Slot, exclusive: bool, c: ConnId): Slot {
    if exclusive then Slot(s.shared - {c}, Some(c)) else Slot(s.shared + {c}, s.exclusive)
  }

  function Released(s: Slot, c: ConnId): Slot {
    Slot(s.shared - {c}, if s.exclusive == Some(c) then None else s.exclusive)
  }

  predicate Within(byte: nat, offset: nat, len: nat) {
    offset <= byte < offset + len
  }

  /** All-or-nothing: the whole range is granted, or no slot of any path changes. */
  ghost predicate TryLocked(t: Table, t': Table, path: Path, offset: nat, len: nat,
                            exclusive: bool, c: ConnId, ok: bool)
  {
    && (ok <==> forall b: nat :: Within(b, offset, len) ==> Compatible(SlotAt(t, path, b), exclusive, c))
    && forall p: Path, b: nat :: SlotAt(t', p, b) ==
         if ok && p == path && Within(b, offset, len) then Granted(SlotAt(t, p, b), exclusive, c)
         else SlotAt(t, p, b)
  }

  /** No connection but `c` owns the byte exclusively. */
  predicate NoForeignOwner(t: Table, path: Path, byte: nat, c: ConnId) {
    SlotAt(t, path, byte).exclusive == None || SlotAt(t, path, byte).exclusive == Some(c)
  }

  /**
   When a request is granted, in the slots' own fields: a shared one if and only if no other connection
   owns a byte of the range, an exclusive one if and only if besides no other connection shares one.
   A grant then puts the caller in the shared set, or makes it the only holder.
   */
  lemma GrantedExactly(t: Table, t': Table, path: Path, offset: nat, len: nat, exclusive: bool, c: ConnId, ok: bool)
    requires TryLocked(t, t', path, offset, len, exclusive, c, ok)
    ensures !exclusive ==> (ok <==> forall b: nat :: offset <= b < offset + len ==> NoForeignOwner(t, path, b, c))
    ensures exclusive ==>
              (ok <==> forall b: nat :: offset <= b < offset + len ==>
                         NoForeignOwner(t, path, b, c) && SlotAt(t, path, b).shared <= {c})
    ensures forall b: nat :: ok && offset <= b < offset + len ==>
              var was, now := SlotAt(t, path, b), SlotAt(t', path, b);
              if exclusive then now.shared == {} && now.exclusive == Some(c)
              else now.shared == was.shared + {c} && now.exclusive == was.exclusive
    ensures forall p: Path, b: nat :: !(ok && p == path && offset <= b < offset + len) ==>
              SlotAt(t', p, b) == SlotAt(t, p, b)
  {
    forall b: nat | offset <= b < offset + len
      ensures Compatible(SlotAt(t, path, b), exclusive, c) <==>
              NoForeignOwner(t, path, b, c) && (exclusive ==> SlotAt(t, path, b).shared <= {c})
    {
    }
    assert forall b: nat :: Within(b, offset, len) <==> offset <= b < offset + len;
    forall b: nat | ok && offset <= b < offset + len && exclusive
      ensures SlotAt(t', path, b).shared == {}
    {
      assert Compatible(SlotAt(t, path, b), exclusive, c);
    }
  }

  /** What releasing a range does, in the slots' own fields. */
  lemma ReleasedExactly(t: Table, t': Table, path: Path, offset: nat, len: nat, c: ConnId, p: Path, b: nat)
    requires Unlocked(t, t', path, offset, len, c)
    ensures var was, now := SlotAt(t, p, b), SlotAt(t', p, b);
            if p == path && offset <= b < offset + len
            then
              && now.shared == was.shared - {c}
              && now.exclusive == if was.exclusive == Some(c) then None else was.exclusive
            else now == was
  {
  }

  ghost predicate Unlocked(t: Table, t': Table, path: Path, offset: nat, len: nat, c: ConnId) {
    forall p: Path, b: nat :: SlotAt(t', p, b) ==
      if p == path && Within(b, offset, len) then Released(SlotAt(t, p, b), c) else SlotAt(t, p, b)
  }

  ghost predicate UnlockedAll(t: Table, t': Table, path: Path, c: ConnId) {
    forall p: Path, b: nat :: SlotAt(t', p, b) ==
      if p == path then Released(SlotAt(t, p, b), c) else SlotAt(t, p, b)
  }

  /** The table `IN_PROCESS_LOCKS`. The methods are the bodies run under its mutex. */
  class InProcessLocks {
    var slots: Table

    constructor ()
      ensures slots == map[]
    {
      slots := map[];
    }

    method TryLock(path: Path, offset: nat, len: nat, exclusive: bool, c: ConnId) returns (ok: bool)
      modifies this
      ensures TryLocked(old(slots), slots, path, offset, len, exclusive, c, ok)
      ensures !exclusive ==>
                (ok <==> forall b: nat :: offset <= b < offset + len ==> NoForeignOwner(old(slots), path, b, c))
      ensures exclusive ==>
                (ok <==> forall b: nat :: offset <= b < offset + len ==>
                           NoForeignOwner(old(slots), path, b, c) && SlotAt(old(slots), path, b).shared <= {c})
    {
      var locks: map<nat, Slot> := if path in slots then slots[path] else map[];
      ghost var t := slots;
      // First pass: look for a conflict; empty slots appear on the way.
      var byte: nat := offset;
      while byte < offset + len
        invariant offset <= byte <= offset + len
        invariant forall p: Path, b: nat :: SlotAt(slots, p, b) == SlotAt(t, p, b)
        invariant forall b: nat :: SlotAt(t, path, b) == if b in locks then locks[b] else EMPTY_SLOT
        invariant forall b: nat :: offset <= b < byte ==> b in locks && Compatible(SlotAt(t, path, b), exclusive, c)
      {
        if byte !in locks {
          locks := locks[byte := EMPTY_SLOT];
        }
        var slot := locks[byte];
        var conflict := slot.exclusive.Some? && slot.exclusive != Some(c);
        if exclusive && exists id <- slot.shared :: id != c {
          conflict := true;
        }
        if conflict {
          slots := slots[path := locks];
          assert Within(byte, offset, len) && !Compatible(SlotAt(t, path, byte), exclusive, c);
          GrantedExactly(t, slots, path, offset, len, exclusive, c, false);
          return false;
        }
        byte := byte + 1;
      }
      assert forall b: nat :: Within(b, offset, len) ==> Compatible(SlotAt(t, path, b), exclusive, c);
      // Second pass: no conflict anywhere, so grant the range.
      byte := offset;
      while byte < offset + len
        invariant offset <= byte <= offset + len
        invariant forall b: nat :: Within(b, offset, len) ==> b in locks
        invariant forall b: nat :: (if b in locks then locks[b] else EMPTY_SLOT) ==
                                   if offset <= b < byte then Granted(SlotAt(t, path, b), exclusive, c)
                                   else SlotAt(t, path, b)
      {
        var slot := locks[byte];
        locks := locks[byte := if exclusive then Slot(slot.shared - {c}, Some(c))
                               else Slot(slot.shared + {c}, slot.exclusive)];
        byte := byte + 1;
      }
      slots := slots[path := locks];
      ok := true;
      GrantedExactly(t, slots, path, offset, len, exclusive, c, ok);
    }

    method Unlock(path: Path, offset: nat, len: nat, c: ConnId)
      modifies this
      ensures Unlocked(old(slots), slots, path, offset, len, c)
    {
      if path in slots {
        var locks: map<nat, Slot> := slots[path];
        ghost var t := slots;
        for byte: nat := offset to offset + len
          invariant forall b: nat :: (if b in locks then locks[b] else EMPTY_SLOT) ==
                                     if offset <= b < byte then Released(SlotAt(t, path, b), c)
                                     else SlotAt(t, path, b)
        {
          if byte in locks {
            var slot := locks[byte];
            locks := locks[byte := Slot(slot.shared - {c}, if slot.exclusive == Some(c) then None else slot.exclusive)];
          }
        }
        slots := slots[path := locks];
      }
    }

    method UnlockAll(path: Path, c: ConnId)
      modifies this
      ensures UnlockedAll(old(slots), slots, path, c)
    {
      if path in slots {
        var locks: map<nat, Slot> := slots[path];
        ghost var t := slots;
        var todo := locks.Keys;
        while todo != {}
          invariant todo <= locks.Keys
          invariant forall b: nat :: (if b in locks then locks[b] else EMPTY_SLOT) ==
                                     if b in todo then SlotAt(t, path, b) else Released(SlotAt(t, path, b), c)
          decreases todo
        {
          var byte :| byte in todo;
          var slot := locks[byte];
          locks := locks[byte := Slot(slot.shared - {c}, if slot.exclusive == Some(c) then None else slot.exclusive)];
          todo := todo - {byte};
        }
        slots := slots[path := locks];
      }
    }
  }

  // ---------- what every operation keeps ----------

  /** No slot has an exclusive owner beside another connection's lock. */
  ghost predicate Sound(t: Table) {
    forall p: Path, b: nat ::
      var s := SlotAt(t, p, b); s.exclusive.Some? ==> s.shared <= {s.exclusive.value}
  }

  /** Connections other than `c` hold in `t'` exactly what they held in `t`. */
  ghost predicate OthersKeep(t: Table, t': Table, c: ConnId) {
    forall d: ConnId, p: Path, b: nat :: d != c ==> HoldOf(t', p, b, d) == HoldOf(t, p, b, d)
  }

  /** One atomic operation of connection `c`, whichever it is. */
  ghost predicate TableStep(t: Table, t': Table, c: ConnId) {
    || (exists p: Path, o: nat, n: nat, x: bool, ok: bool :: TryLocked(t, t', p, o, n, x, c, ok))
    || (exists p: Path, o: nat, n: nat :: Unlocked(t, t', p, o, n, c))
    || (exists p: Path :: UnlockedAll(t, t', p, c))
  }

  /** Every operation keeps the table sound and touches only the caller's own locks. */
  lemma StepKeepsSoundness(t: Table, t': Table, c: ConnId)
    requires Sound(t) && TableStep(t, t', c)
    ensures Sound(t') && OthersKeep(t, t', c)
  {
    forall p: Path, b: nat
      ensures var s := SlotAt(t', p, b); s.exclusive.Some? ==> s.shared <= {s.exclusive.value}
      ensures forall d: ConnId :: d != c ==> HoldOf(t', p, b, d) == HoldOf(t, p, b, d)
    {
      StepAtByte(t, t', c, p, b);
    }
  }

  /** The four things a step can do to one byte. */
  lemma StepAtByte(t: Table, t': Table, c: ConnId, p: Path, b: nat)
    requires TableStep(t, t', c)
    ensures var s, s' := SlotAt(t, p, b), SlotAt(t', p, b);
            || s' == s
            || s' == Released(s, c)
            || (exists x: bool :: Compatible(s, x, c) && s' == Granted(s, x, c))
  {
    var s, s' := SlotAt(t, p, b), SlotAt(t', p, b);
    if q: Path, o: nat, n: nat, x: bool, ok: bool :| TryLocked(t, t', q, o, n, x, c, ok) {
      assert s' == s || (Compatible(s, x, c) && s' == Granted(s, x, c));
    }
  }

  /** In a sound table an exclusive owner is alone on its byte. */
  lemma ExclusiveIsAlone(t: Table, p: Path, b: nat, c: ConnId, d: ConnId)
    requires Sound(t) && c != d && HoldOf(t, p, b, c).exclusive
    ensures HoldOf(t, p, b, d) == NO_HOLD
  {
    assert SlotAt(t, p, b).shared <= {c};
  }

  /** Any finite history of operations by any connections, from the empty table. */
  lemma {:induction false} EveryHistoryIsSound(history: seq<Table>, callers: seq<ConnId>)
    requires |history| == |callers| + 1 && history[0] == map[]
    requires forall i :: 0 <= i < |callers| ==> TableStep(history[i], history[i + 1], callers[i])
    ensures forall i :: 0 <= i < |history| ==> Sound(history[i])
  {
    for i := 0 to |callers|
      invariant forall j :: 0 <= j <= i ==> Sound(history[j])
    {
      StepKeepsSoundness(history[i], history[i + 1], callers[i]);
    }
  }
}
