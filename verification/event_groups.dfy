/** An event group: a word of event bits plus the tasks blocked on it.

    The group is one object whose methods change it in place, one method per
    operation of event_groups.h.  A task blocked in xEventGroupWaitBits is a
    Waiter record in registration order; blocking is registering that record,
    and a task leaving the Blocked state is a Wakeup record handed back by the
    operation that released it, carrying the value its xEventGroupWaitBits call
    returns.  Expiry of a block time is the explicit step Timeout. */
module EventGroups {
  import opened EventBits

  /** Identity of a task (the owner of a blocked xEventGroupWaitBits call). */
  type TaskId = nat

  /** A task blocked in xEventGroupWaitBits, with the arguments of its call. */
  datatype Waiter = Waiter(task: TaskId, bitsToWaitFor: Bits, clearOnExit: bool, waitForAllBits: bool)

  /** A task leaving the Blocked state, and the value its wait call returns. */
  datatype Wakeup = Wakeup(task: TaskId, value: Bits)

  /** What a call of xEventGroupWaitBits does at once: return a value, or block. */
  datatype WaitOutcome = Returned(value: Bits) | Blocked

  /** The wait condition of w holds of the group value `value`. */
  predicate Unblocks(w: Waiter, value: Bits)
  {
    Satisfied(value, w.bitsToWaitFor, w.waitForAllBits)
  }

  function Tasks(ws: seq<Waiter>): set<TaskId>
  {
    set w | w in ws :: w.task
  }

  predicate DistinctTasks(ws: seq<Waiter>)
  {
    forall i, j | 0 <= i < j < |ws| :: ws[i].task != ws[j].task
  }

  /** Index of the waiter of `task` (its first one). */
  function Position(ws: seq<Waiter>, task: TaskId): (i: nat)
    requires task in Tasks(ws)
    ensures i < |ws| && ws[i].task == task
    ensures forall j | 0 <= j < i :: ws[j].task != task
  {
    if ws[0].task == task then 0
    else
      assert task in Tasks(ws[1..]) by {
        var w :| w in ws && w.task == task;
        assert w != ws[0];
        assert w in ws[1..];
      }
      Position(ws[1..], task) + 1
  }

  /* The release scan of xEventGroupSetBits, stated over the registered
     waiters ws (in registration order) and the value `pre` the group has
     right after the union, before any clear-on-exit clearing. */

  /** The tasks the scan releases, in registration order, each with `pre`. */
  function Released(ws: seq<Waiter>, pre: Bits): seq<Wakeup>
  {
    if ws == [] then []
    else
      var w := ws[|ws| - 1];
      Released(ws[..|ws| - 1], pre) + if Unblocks(w, pre) then [Wakeup(w.task, pre)] else []
  }

  /** The waiters the scan leaves blocked, in registration order. */
  function StillBlocked(ws: seq<Waiter>, pre: Bits): seq<Waiter>
  {
    if ws == [] then []
    else
      var w := ws[|ws| - 1];
      StillBlocked(ws[..|ws| - 1], pre) + if Unblocks(w, pre) then [] else [w]
  }

  /** The bits the released clear-on-exit waiters clear, accumulated by the scan. */
  function ClearMask(ws: seq<Waiter>, pre: Bits): Bits
  {
    if ws == [] then 0
    else
      var w := ws[|ws| - 1];
      if Unblocks(w, pre) && w.clearOnExit then ClearMask(ws[..|ws| - 1], pre) | w.bitsToWaitFor
      else ClearMask(ws[..|ws| - 1], pre)
  }

  /** The value xEventGroupSetBits leaves in the group: the union of the
      old value and the bits set, less the clear mask of the scan. */
  function SetValue(ws: seq<Waiter>, value: Bits, toSet: Bits): Bits
  {
    var pre := value | toSet;
    pre & !ClearMask(ws, pre)
  }

  /** The clear mask grows by the last waiter's bits exactly when the scan
      releases that waiter and it clears on exit. */
  lemma ClearMaskLast(ws: seq<Waiter>, pre: Bits)
    requires ws != []
    ensures var last := ws[|ws| - 1];
      Unblocks(last, pre) && last.clearOnExit ==>
        ClearMask(ws, pre) == ClearMask(ws[..|ws| - 1], pre) | last.bitsToWaitFor
    ensures var last := ws[|ws| - 1];
      !(Unblocks(last, pre) && last.clearOnExit) ==>
        ClearMask(ws, pre) == ClearMask(ws[..|ws| - 1], pre)
  {
  }

  /** One step of the scan over a waiter it releases and that clears on exit. */
  lemma ClearMaskGrows(ws: seq<Waiter>, i: nat, pre: Bits)
    requires i < |ws| && Unblocks(ws[i], pre) && ws[i].clearOnExit
    ensures ClearMask(ws[..i + 1], pre) == ClearMask(ws[..i], pre) | ws[i].bitsToWaitFor
  {
    assert ws[..i + 1][..i] == ws[..i];
  }

  /** One step of the scan over any other waiter. */
  lemma ClearMaskSame(ws: seq<Waiter>, i: nat, pre: Bits)
    requires i < |ws| && !(Unblocks(ws[i], pre) && ws[i].clearOnExit)
    ensures ClearMask(ws[..i + 1], pre) == ClearMask(ws[..i], pre)
  {
    assert ws[..i + 1][..i] == ws[..i];
  }

  /** One step of the scan: the released list and the kept list each grow
      by the waiter at index i, on the side its condition puts it. */
  lemma ScanStep(ws: seq<Waiter>, i: nat, pre: Bits)
    requires i < |ws|
    ensures Released(ws[..i + 1], pre) ==
      Released(ws[..i], pre) + if Unblocks(ws[i], pre) then [Wakeup(ws[i].task, pre)] else []
    ensures StillBlocked(ws[..i + 1], pre) ==
      StillBlocked(ws[..i], pre) + if Unblocks(ws[i], pre) then [] else [ws[i]]
  {
    assert ws[..i + 1][..i] == ws[..i];
  }

  lemma LastSplit(ws: seq<Waiter>)
    requires ws != []
    ensures forall w :: w in ws <==> w in ws[..|ws| - 1] || w == ws[|ws| - 1]
  {
    assert ws == ws[..|ws| - 1] + [ws[|ws| - 1]];
  }

  /** A wakeup is in Released exactly when it carries `pre` and the task of
      a waiter whose condition holds of `pre`. */
  lemma {:induction false} ReleasedMembers(ws: seq<Waiter>, pre: Bits)
    ensures forall x :: x in Released(ws, pre) <==>
      x.value == pre && exists w :: w in ws && Unblocks(w, pre) && w.task == x.task
  {
    if ws != [] {
      ReleasedMembers(ws[..|ws| - 1], pre);
      LastSplit(ws);
    }
  }

  /** StillBlocked keeps exactly the waiters whose condition fails on `pre`. */
  lemma {:induction false} StillBlockedMembers(ws: seq<Waiter>, pre: Bits)
    ensures forall w :: w in StillBlocked(ws, pre) <==> w in ws && !Unblocks(w, pre)
  {
    if ws != [] {
      StillBlockedMembers(ws[..|ws| - 1], pre);
      LastSplit(ws);
    }
  }

  /** The released and kept lists together have one entry per waiter. */
  lemma {:induction false} ScanCount(ws: seq<Waiter>, pre: Bits)
    ensures |Released(ws, pre)| + |StillBlocked(ws, pre)| == |ws|
  {
    if ws != [] {
      ScanCount(ws[..|ws| - 1], pre);
    }
  }

  /** With one waiter per task, every waiter is either released (its task
      woken with `pre`) or kept, never both and never neither, and the two
      lists together have one entry per waiter. */
  lemma ScanPartitions(ws: seq<Waiter>, pre: Bits)
    requires DistinctTasks(ws)
    ensures |Released(ws, pre)| + |StillBlocked(ws, pre)| == |ws|
    ensures forall w | w in ws :: (w in StillBlocked(ws, pre)) != (Wakeup(w.task, pre) in Released(ws, pre))
  {
    ScanCount(ws, pre);
    ReleasedMembers(ws, pre);
    StillBlockedMembers(ws, pre);
    forall w | w in ws
      ensures (w in StillBlocked(ws, pre)) != (Wakeup(w.task, pre) in Released(ws, pre))
    {
      if Wakeup(w.task, pre) in Released(ws, pre) {
        var v :| v in ws && Unblocks(v, pre) && v.task == w.task;
        SameTaskSameWaiter(ws, v, w);
      }
    }
  }

  /** With one waiter per task, a task identifies its waiter. */
  lemma SameTaskSameWaiter(ws: seq<Waiter>, v: Waiter, w: Waiter)
    requires DistinctTasks(ws) && v in ws && w in ws && v.task == w.task
    ensures v == w
  {
    var i :| 0 <= i < |ws| && ws[i] == v;
    var j :| 0 <= j < |ws| && ws[j] == w;
    if i < j {
      assert ws[i].task != ws[j].task;
    } else if j < i {
      assert ws[j].task != ws[i].task;
    }
  }

  /** Keeping a subsequence of the waiters keeps their task identities distinct. */
  lemma {:induction false} StillBlockedDistinct(ws: seq<Waiter>, pre: Bits)
    requires DistinctTasks(ws)
    ensures DistinctTasks(StillBlocked(ws, pre))
  {
    if ws != [] {
      var init, w := ws[..|ws| - 1], ws[|ws| - 1];
      StillBlockedDistinct(init, pre);
      StillBlockedMembers(init, pre);
      if !Unblocks(w, pre) {
        var kept := StillBlocked(init, pre);
        forall i | 0 <= i < |kept| ensures kept[i].task != w.task {
          assert kept[i] in init;
          var j :| 0 <= j < |init| && init[j] == kept[i];
          assert ws[j] == kept[i];
        }
      }
    }
  }

  /** Every bit of the clear mask is waited for by a released clear-on-exit waiter. */
  lemma {:induction false} ClearMaskSound(ws: seq<Waiter>, pre: Bits, k: nat)
    requires k in BitSet(ClearMask(ws, pre))
    ensures exists w :: w in ws && Unblocks(w, pre) && w.clearOnExit && k in BitSet(w.bitsToWaitFor)
  {
    if ws == [] {
      ZeroIffNoBits(0);
    } else {
      var init, last := ws[..|ws| - 1], ws[|ws| - 1];
      ClearMaskLast(ws, pre);
      if Unblocks(last, pre) && last.clearOnExit {
        OrMember(ClearMask(init, pre), last.bitsToWaitFor, k);
      }
      if k in BitSet(ClearMask(init, pre)) {
        ClearMaskSound(init, pre, k);
        var w :| w in init && Unblocks(w, pre) && w.clearOnExit && k in BitSet(w.bitsToWaitFor);
        assert w in ws by { LastSplit(ws); }
      } else {
        assert last in ws;
      }
    }
  }

  /** The clear mask keeps every bit of the clear mask of all but the last waiter. */
  lemma ClearMaskKeepsInit(ws: seq<Waiter>, pre: Bits, k: nat)
    requires ws != [] && k in BitSet(ClearMask(ws[..|ws| - 1], pre))
    ensures k in BitSet(ClearMask(ws, pre))
  {
    var last := ws[|ws| - 1];
    ClearMaskLast(ws, pre);
    if Unblocks(last, pre) && last.clearOnExit {
      OrMember(ClearMask(ws[..|ws| - 1], pre), last.bitsToWaitFor, k);
    }
  }

  /** The clear mask holds the bits of a released clear-on-exit last waiter. */
  lemma ClearMaskHasLast(ws: seq<Waiter>, pre: Bits, k: nat)
    requires ws != []
    requires Unblocks(ws[|ws| - 1], pre) && ws[|ws| - 1].clearOnExit
    requires k in BitSet(ws[|ws| - 1].bitsToWaitFor)
    ensures k in BitSet(ClearMask(ws, pre))
  {
    ClearMaskLast(ws, pre);
    OrMember(ClearMask(ws[..|ws| - 1], pre), ws[|ws| - 1].bitsToWaitFor, k);
  }

  /** Every bit a released clear-on-exit waiter waits for is in the clear mask. */
  lemma {:induction false} ClearMaskComplete(ws: seq<Waiter>, pre: Bits, w: Waiter, k: nat)
    requires w in ws && Unblocks(w, pre) && w.clearOnExit && k in BitSet(w.bitsToWaitFor)
    ensures k in BitSet(ClearMask(ws, pre))
  {
    if w == ws[|ws| - 1] {
      ClearMaskHasLast(ws, pre, k);
    } else {
      assert w in ws[..|ws| - 1] by { LastSplit(ws); }
      ClearMaskComplete(ws[..|ws| - 1], pre, w, k);
      ClearMaskKeepsInit(ws, pre, k);
    }
  }

  /** A bit is in the clear mask exactly when a released clear-on-exit waiter
      waits for it. */
  lemma ClearMaskBits(ws: seq<Waiter>, pre: Bits)
    ensures forall k :: k in BitSet(ClearMask(ws, pre)) <==>
      exists w :: w in ws && Unblocks(w, pre) && w.clearOnExit && k in BitSet(w.bitsToWaitFor)
  {
    forall k | k in BitSet(ClearMask(ws, pre))
      ensures exists w :: w in ws && Unblocks(w, pre) && w.clearOnExit && k in BitSet(w.bitsToWaitFor)
    {
      ClearMaskSound(ws, pre, k);
    }
    forall k, w | w in ws && Unblocks(w, pre) && w.clearOnExit && k in BitSet(w.bitsToWaitFor)
      ensures k in BitSet(ClearMask(ws, pre))
    {
      ClearMaskComplete(ws, pre, w, k);
    }
  }

  /** The value left by a set-then-clear step, on the BitSet view. */
  lemma SetThenClearBits(value: Bits, toSet: Bits, clear: Bits)
    ensures BitSet((value | toSet) & !clear) == (BitSet(value) + BitSet(toSet)) - BitSet(clear)
  {
    OrBitSet(value, toSet);
    AndNotBitSet(value | toSet, clear);
  }

  /** The value xEventGroupSetBits leaves holds no bit outside the old
      value and the bits set. */
  lemma SetBitsBound(ws: seq<Waiter>, value: Bits, toSet: Bits)
    ensures BitSet(SetValue(ws, value, toSet)) <= BitSet(value) + BitSet(toSet)
  {
    var pre := value | toSet;
    SetThenClearBits(value, toSet, ClearMask(ws, pre));
  }

  /** A bit the caller set is missing from the value xEventGroupSetBits
      leaves only when a released clear-on-exit waiter asked for it. */
  lemma SetBitsLostBits(ws: seq<Waiter>, value: Bits, toSet: Bits)
    ensures forall k | k in BitSet(toSet) && k !in BitSet(SetValue(ws, value, toSet)) ::
      exists w :: w in ws && Unblocks(w, value | toSet) && w.clearOnExit && k in BitSet(w.bitsToWaitFor)
  {
    var pre := value | toSet;
    var clear := ClearMask(ws, pre);
    SetThenClearBits(value, toSet, clear);
    ClearMaskBits(ws, pre);
    forall k | k in BitSet(toSet) && k !in BitSet(pre & !clear)
      ensures exists w :: w in ws && Unblocks(w, pre) && w.clearOnExit && k in BitSet(w.bitsToWaitFor)
    {
      assert k in BitSet(clear);
    }
  }

  /** On a block-time expiry the waiter's condition is false of the value
      returned: not all waited-for bits are set (for a non-empty mask), and
      when waiting for any bit, none of them is set. */
  lemma TimedOutMeaning(w: Waiter, value: Bits)
    requires !Unblocks(w, value)
    ensures w.bitsToWaitFor != 0 ==> !(BitSet(w.bitsToWaitFor) <= BitSet(value))
    ensures !w.waitForAllBits ==> BitSet(w.bitsToWaitFor) * BitSet(value) == {}
  {
    var mask := w.bitsToWaitFor;
    AnyMeaning(value, mask);
    if !w.waitForAllBits {
      assert value & mask == 0;
    }
    if mask != 0 {
      ZeroIffNoBits(mask);
      if w.waitForAllBits {
        AllMeaning(value, mask);
      } else {
        var k :| k in BitSet(mask);
        assert k !in BitSet(value);
      }
    }
  }

  /** The release scan of xEventGroupSetBits: one pass over the waiters in
      registration order, releasing every task whose condition holds of
      `pre`, keeping the others, and accumulating the bits of the released
      clear-on-exit waiters. */
  method ReleaseScan(ws: seq<Waiter>, pre: Bits) returns (released: seq<Wakeup>, kept: seq<Waiter>, clear: Bits)
    ensures released == Released(ws, pre)
    ensures kept == StillBlocked(ws, pre)
    ensures clear == ClearMask(ws, pre)
  {
    clear := 0;
    kept := [];
    released := [];
    var i := 0;
    while i < |ws|
      invariant 0 <= i <= |ws|
      invariant released == Released(ws[..i], pre)
      invariant kept == StillBlocked(ws[..i], pre)
      invariant clear == ClearMask(ws[..i], pre)
    {
      var w := ws[i];
      ScanStep(ws, i, pre);
      ghost var next := ClearMask(ws[..i + 1], pre);
      if Unblocks(w, pre) {
        released := released + [Wakeup(w.task, pre)];
        if w.clearOnExit {
          ClearMaskGrows(ws, i, pre);
          clear := clear | w.bitsToWaitFor;
        } else {
          ClearMaskSame(ws, i, pre);
        }
      } else {
        ClearMaskSame(ws, i, pre);
        kept := kept + [w];
      }
      assert clear == next;
      i := i + 1;
    }
    assert ws[..i] == ws;
  }

  /** xEventGroupSetBits on values: the union, the release scan, then one
      clear of the bits of the released clear-on-exit waiters. */
  method SetStep(ws: seq<Waiter>, value: Bits, toSet: Bits) returns (released: seq<Wakeup>, kept: seq<Waiter>, result: Bits)
    ensures released == Released(ws, value | toSet)
    ensures kept == StillBlocked(ws, value | toSet)
    ensures result == SetValue(ws, value, toSet)
  {
    var pre := value | toSet;
    var clear;
    released, kept, clear := ReleaseScan(ws, pre);
    result := pre & !clear;
  }

  /** w waits only for allowed bits, and its condition fails on `bits`. */
  predicate Parked(allowed: Bits, bits: Bits, w: Waiter)
  {
    Within(w.bitsToWaitFor, allowed) && !Unblocks(w, bits)
  }

  /** The invariant of a live group with value `bits` and blocked tasks ws:
      only usable bits are set or waited for, no blocked task's wait
      condition holds of the current value (a satisfied waiter never stays
      blocked), and a task blocks at most once. */
  ghost predicate Consistent(allowed: Bits, bits: Bits, ws: seq<Waiter>)
  {
    && Within(bits, allowed)
    && (forall w | w in ws :: Parked(allowed, bits, w))
    && DistinctTasks(ws)
  }

  /** Clearing bits keeps the invariant: it can release no blocked task. */
  lemma ClearKeepsConsistent(allowed: Bits, value: Bits, mask: Bits, ws: seq<Waiter>)
    requires Consistent(allowed, value, ws)
    ensures Consistent(allowed, value & !mask, ws)
  {
    forall w | w in ws ensures !Unblocks(w, value & !mask) {
      if Unblocks(w, value & !mask) {
        SatisfiedMonotone(value & !mask, value, w.bitsToWaitFor, w.waitForAllBits);
      }
    }
  }

  /** Blocking a task whose condition fails keeps the invariant. */
  lemma BlockKeepsConsistent(allowed: Bits, value: Bits, ws: seq<Waiter>, w: Waiter)
    requires Consistent(allowed, value, ws)
    requires Within(w.bitsToWaitFor, allowed) && !Unblocks(w, value) && w.task !in Tasks(ws)
    ensures Consistent(allowed, value, ws + [w])
  {
    assert forall v | v in ws :: v.task != w.task;
  }

  /** Removing the waiter at index i keeps the invariant, and its task is
      no longer blocked afterwards. */
  lemma RemoveKeepsConsistent(allowed: Bits, value: Bits, ws: seq<Waiter>, i: nat)
    requires Consistent(allowed, value, ws) && i < |ws|
    ensures Consistent(allowed, value, ws[..i] + ws[i + 1..])
    ensures ws[i].task !in Tasks(ws[..i] + ws[i + 1..])
  {
    var rest := ws[..i] + ws[i + 1..];
    forall a, b | 0 <= a < b < |rest| ensures rest[a].task != rest[b].task {
      var a', b' := if a < i then a else a + 1, if b < i then b else b + 1;
      assert rest[a] == ws[a'] && rest[b] == ws[b'];
    }
    forall w | w in rest ensures w in ws && w.task != ws[i].task {
      var j :| 0 <= j < |rest| && rest[j] == w;
      var j' := if j < i then j else j + 1;
      assert ws[j'] == w;
    }
  }

  /** The union of two usable words, less any bits, is usable. */
  lemma WithinUnionLess(allowed: Bits, x: Bits, y: Bits, z: Bits)
    requires Within(x, allowed) && Within(y, allowed)
    ensures Within((x | y) & !z, allowed)
  {
  }

  /** The set-bits step keeps the invariant: the waiters it leaves blocked
      are exactly those whose condition fails on the union `pre`, and
      clearing any bits afterwards cannot satisfy them. */
  lemma SetKeepsConsistent(allowed: Bits, value: Bits, toSet: Bits, clear: Bits, ws: seq<Waiter>)
    requires Consistent(allowed, value, ws) && Within(toSet, allowed)
    ensures Consistent(allowed, (value | toSet) & !clear, StillBlocked(ws, value | toSet))
  {
    WithinUnionLess(allowed, value, toSet, clear);
    KeptStayParked(allowed, value, value | toSet, clear, ws);
    StillBlockedDistinct(ws, value | toSet);
  }

  /** The set-bits step keeps the invariant, stated on SetValue. */
  lemma SetValueConsistent(allowed: Bits, value: Bits, toSet: Bits, ws: seq<Waiter>)
    requires Consistent(allowed, value, ws) && Within(toSet, allowed)
    ensures Consistent(allowed, SetValue(ws, value, toSet), StillBlocked(ws, value | toSet))
  {
    SetKeepsConsistent(allowed, value, toSet, ClearMask(ws, value | toSet), ws);
  }

  /** Each waiter the set-bits step keeps fails its condition on the union,
      so also on the union less any bits. */
  lemma KeptStayParked(allowed: Bits, value: Bits, pre: Bits, clear: Bits, ws: seq<Waiter>)
    requires Consistent(allowed, value, ws)
    ensures forall w | w in StillBlocked(ws, pre) :: Parked(allowed, pre & !clear, w)
  {
    StillBlockedMembers(ws, pre);
    forall w | w in StillBlocked(ws, pre) ensures Parked(allowed, pre & !clear, w) {
      if Unblocks(w, pre & !clear) {
        SatisfiedMonotone(pre & !clear, pre, w.bitsToWaitFor, w.waitForAllBits);
      }
    }
  }

  /** One event group (the object an EventGroupHandle_t refers to). */
  class EventGroup {
    /** The configUSE_16_BIT_TICKS setting the group was built with. */
    const config: TickConfig
    /** The bits an application may use: UsableMask(config). */
    const usableBits: Bits
    /** The event bits. */
    var bits: Bits
    /** The tasks blocked on the group, in registration order. */
    var waiters: seq<Waiter>
    /** False once the group has been deleted. */
    var alive: bool

    /** The usable bits are those of the group's tick setting, the group
        invariant holds, and a deleted group has no waiters. */
    ghost predicate Valid()
      reads this
    {
      && usableBits == UsableMask(config)
      && Consistent(usableBits, bits, waiters)
      && (!alive ==> waiters == [])
    }

    /** The group a successful xEventGroupCreate returns: all bits clear and
        no task blocked. */
    constructor (config: TickConfig)
      ensures Valid()
      ensures this.config == config && usableBits == UsableMask(config)
      ensures bits == 0 && waiters == [] && alive
    {
      this.config := config;
      usableBits := UsableMask(config);
      bits := 0;
      waiters := [];
      alive := true;
    }

    /** xEventGroupWaitBits called by `task`.  If the condition already holds
        it returns the value at once (then clearing the waited-for bits when
        clearOnExit is set); if not and ticksToWait is 0 it returns the value
        at once and changes nothing; otherwise the task blocks. */
    method WaitBits(task: TaskId, bitsToWaitFor: Bits, clearOnExit: bool, waitForAllBits: bool,
                    ticksToWait: nat) returns (outcome: WaitOutcome)
      requires Valid() && alive
      requires Within(bitsToWaitFor, usableBits)
      requires task !in Tasks(waiters)
      modifies this
      ensures Valid() && alive
      ensures Satisfied(old(bits), bitsToWaitFor, waitForAllBits) ==>
        && outcome == Returned(old(bits))
        && waiters == old(waiters)
        && (clearOnExit ==> bits == old(bits) & !bitsToWaitFor)
        && (!clearOnExit ==> bits == old(bits))
      ensures !Satisfied(old(bits), bitsToWaitFor, waitForAllBits) && ticksToWait == 0 ==>
        outcome == Returned(old(bits)) && unchanged(this)
      ensures !Satisfied(old(bits), bitsToWaitFor, waitForAllBits) && ticksToWait > 0 ==>
        && outcome == Blocked
        && waiters == old(waiters) + [Waiter(task, bitsToWaitFor, clearOnExit, waitForAllBits)]
        && bits == old(bits)
    {
      var value := bits;
      if Satisfied(value, bitsToWaitFor, waitForAllBits) {
        outcome := Returned(value);
        if clearOnExit {
          ClearKeepsConsistent(usableBits, value, bitsToWaitFor, waiters);
          bits := value & !bitsToWaitFor;
        }
      } else if ticksToWait == 0 {
        outcome := Returned(value);
      } else {
        Block(Waiter(task, bitsToWaitFor, clearOnExit, waitForAllBits));
        outcome := Blocked;
      }
    }

    /** The calling task enters the Blocked state, registered after every
        task already blocked. */
    method Block(w: Waiter)
      requires Valid() && alive
      requires Within(w.bitsToWaitFor, usableBits) && !Unblocks(w, bits) && w.task !in Tasks(waiters)
      modifies this
      ensures Valid() && alive
      ensures waiters == old(waiters) + [w] && bits == old(bits)
    {
      ghost var before := waiters;
      waiters := waiters + [w];
      BlockKeepsConsistent(usableBits, bits, before, w);
    }

    /** The block time of `task` expires: the task leaves the Blocked state
        with the current value, and no bit is cleared whatever its
        clearOnExit was. */
    method Timeout(task: TaskId) returns (value: Bits)
      requires Valid() && alive
      requires task in Tasks(waiters)
      modifies this
      ensures Valid() && alive
      ensures bits == old(bits) && value == bits
      ensures var i := Position(old(waiters), task);
        && waiters == old(waiters)[..i] + old(waiters)[i + 1..]
        && !Unblocks(old(waiters)[i], value)
      ensures task !in Tasks(waiters)
    {
      ghost var target := Position(waiters, task);
      var i := 0;
      while waiters[i].task != task
        invariant 0 <= i <= target
        decreases target - i
      {
        i := i + 1;
      }
      RemoveKeepsConsistent(usableBits, bits, waiters, i);
      var rest := waiters[..i] + waiters[i + 1..];
      waiters := rest;
      value := bits;
    }

    /** xEventGroupClearBits: returns the value before clearing; the bits of
        bitsToClear are then clear and no blocked task is released. */
    method ClearBits(bitsToClear: Bits) returns (previous: Bits)
      requires Valid() && alive
      requires Within(bitsToClear, usableBits)
      modifies this
      ensures Valid() && alive
      ensures previous == old(bits)
      ensures bits == old(bits) & !bitsToClear
      ensures BitSet(bits) == BitSet(old(bits)) - BitSet(bitsToClear)
      ensures waiters == old(waiters)
    {
      previous := bits;
      ClearKeepsConsistent(usableBits, previous, bitsToClear, waiters);
      AndNotBitSet(previous, bitsToClear);
      bits := previous & !bitsToClear;
    }

    /** xEventGroupSetBits: sets the bits, releases in one pass every blocked
        task whose condition holds after the union (each observing that
        same pre-clear value), clears once the bits of the released
        clear-on-exit waiters, and returns the resulting value. */
    method SetBits(bitsToSet: Bits) returns (result: Bits, released: seq<Wakeup>)
      requires Valid() && alive
      requires Within(bitsToSet, usableBits)
      modifies this
      ensures Valid() && alive
      ensures released == Released(old(waiters), old(bits) | bitsToSet)
      ensures waiters == StillBlocked(old(waiters), old(bits) | bitsToSet)
      ensures bits == SetValue(old(waiters), old(bits), bitsToSet) && result == bits
    {
      var ws, before := waiters, bits;
      var kept;
      released, kept, result := SetStep(ws, before, bitsToSet);
      SetValueConsistent(usableBits, before, bitsToSet, ws);
      bits, waiters := result, kept;
    }

    /** vEventGroupDelete: every blocked task leaves the Blocked state with 0
        as the group's value, and the group is no longer alive. */
    method Delete() returns (released: seq<Wakeup>)
      requires Valid() && alive
      modifies this
      ensures Valid() && !alive
      ensures waiters == [] && bits == old(bits)
      ensures |released| == |old(waiters)|
      ensures forall i | 0 <= i < |released| :: released[i] == Wakeup(old(waiters)[i].task, 0)
    {
      released := [];
      while waiters != []
        invariant |released| + |waiters| == |old(waiters)|
        invariant waiters == old(waiters)[|released|..]
        invariant forall i | 0 <= i < |released| :: released[i] == Wakeup(old(waiters)[i].task, 0)
        invariant bits == old(bits)
        decreases |waiters|
      {
        released := released + [Wakeup(waiters[0].task, 0)];
        waiters := waiters[1..];
      }
      alive := false;
    }
  }

  /** xEventGroupCreate: a new group, or null when the heap cannot supply one
      (the allocator's answer is the parameter heapAvailable). */
  method Create(config: TickConfig, heapAvailable: bool) returns (group: EventGroup?)
    ensures group == null <==> !heapAvailable
    ensures group != null ==>
      && fresh(group) && group.Valid()
      && group.config == config && group.usableBits == UsableMask(config) && group.bits == 0 && group.waiters == [] && group.alive
  {
    if heapAvailable {
      group := new EventGroup(config);
    } else {
      group := null;
    }
  }
}
