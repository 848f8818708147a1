/** The single debounce slot `debounce_unsub`: every arm cancels the pending timer first,
    and firing empties the slot. Timer activity is kept as a log of operations so the
    number of timers still able to fire can be stated. */
module Debounce {
  import opened Common

  /** Delay of each debounced sync, in seconds (line 38). */
  const DEBOUNCE_SECONDS: nat := 1

  /** A timer created by `async_call_later`; each arm uses a new handle. */
  type Handle = nat

  datatype TimerOp =
    | Arm(handle: Handle, seconds: nat)
    | Cancel(handle: Handle)
    | Fire(handle: Handle)

  /** The timers that are armed and have been neither cancelled nor fired. */
  function Live(ops: seq<TimerOp>): set<Handle>
    decreases |ops|
  {
    if ops == [] then {}
    else
      var before := Live(ops[..|ops| - 1]);
      match ops[|ops| - 1]
      case Arm(h, _) => before + {h}
      case Cancel(h) => before - {h}
      case Fire(h) => before - {h}
  }

  /** The handles a slot holds: none or one. */
  function Slot(pending: Option<Handle>): set<Handle> {
    if pending.Some? then {pending.value} else {}
  }

  /** One rearm of the slot: cancel the pending timer if there is one, then arm a fresh
      timer for the debounced sync and keep its handle. */
  function Rearm(pending: Option<Handle>, h: Handle): seq<TimerOp> {
    (if pending.Some? then [Cancel(pending.value)] else []) + [Arm(h, DEBOUNCE_SECONDS)]
  }

  /** `n` rearms in a row, with the fresh handles h, h + 1, ... */
  function Rearms(pending: Option<Handle>, h: Handle, n: nat): seq<TimerOp>
    decreases n
  {
    if n == 0 then [] else Rearm(pending, h) + Rearms(Some(h), h + 1, n - 1)
  }

  /** The slot after `n` rearms starting from handle `h`. */
  function SlotAfter(pending: Option<Handle>, h: Handle, n: nat): Option<Handle> {
    if n == 0 then pending else Some(h + n - 1)
  }

  /** Every handle mentioned in `ops` is below `next`, so `next` is fresh. */
  ghost predicate HandlesBelow(ops: seq<TimerOp>, next: Handle) {
    forall i :: 0 <= i < |ops| ==> ops[i].handle < next
  }

  /** At most one timer is live and it is the one in the slot, and `next` is fresh. */
  ghost predicate SlotInvariant(ops: seq<TimerOp>, pending: Option<Handle>, next: Handle) {
    && Live(ops) == Slot(pending)
    && HandlesBelow(ops, next)
    && (pending.Some? ==> pending.value < next)
  }

  lemma LiveSnoc(ops: seq<TimerOp>, op: TimerOp)
    ensures Live(ops + [op]) == if op.Arm? then Live(ops) + {op.handle} else Live(ops) - {op.handle}
  {
    assert (ops + [op])[..|ops|] == ops;
  }

  /** One rearm leaves exactly the new timer live: the old one is cancelled first. */
  lemma RearmLeavesOneLive(ops: seq<TimerOp>, pending: Option<Handle>, h: Handle)
    requires Live(ops) == Slot(pending)
    ensures Live(ops + Rearm(pending, h)) == {h}
  {
    if pending.Some? {
      LiveSnoc(ops, Cancel(pending.value));
      LiveSnoc(ops + [Cancel(pending.value)], Arm(h, DEBOUNCE_SECONDS));
      assert ops + Rearm(pending, h) == ops + [Cancel(pending.value)] + [Arm(h, DEBOUNCE_SECONDS)];
    } else {
      LiveSnoc(ops, Arm(h, DEBOUNCE_SECONDS));
    }
  }

  /** A burst of arms leaves one live timer, the last one armed: however many events
      arrive, at most one debounced sync is pending. */
  lemma {:induction false} BurstLeavesOneLive(ops: seq<TimerOp>, pending: Option<Handle>, h: Handle, n: nat)
    requires Live(ops) == Slot(pending)
    ensures Live(ops + Rearms(pending, h, n)) == Slot(SlotAfter(pending, h, n))
    decreases n
  {
    if n == 0 {
      assert ops + Rearms(pending, h, n) == ops;
    } else {
      RearmLeavesOneLive(ops, pending, h);
      var ops' := ops + Rearm(pending, h);
      assert Live(ops') == Slot(Some(h));
      BurstLeavesOneLive(ops', Some(h), h + 1, n - 1);
      var rest := Rearms(Some(h), h + 1, n - 1);
      assert Rearms(pending, h, n) == Rearm(pending, h) + rest;
      assert ops + Rearms(pending, h, n) == ops' + rest;
      assert SlotAfter(Some(h), h + 1, n - 1) == SlotAfter(pending, h, n);
    }
  }

  /** Rearming with fresh handles keeps every handle below the next fresh one. */
  lemma {:induction false} RearmsFresh(ops: seq<TimerOp>, pending: Option<Handle>, h: Handle, n: nat)
    requires HandlesBelow(ops, h) && (pending.Some? ==> pending.value < h)
    ensures HandlesBelow(ops + Rearms(pending, h, n), h + n)
    ensures SlotAfter(pending, h, n).Some? ==> SlotAfter(pending, h, n).value < h + n
    decreases n
  {
    if n > 0 {
      var ops' := ops + Rearm(pending, h);
      assert HandlesBelow(ops', h + 1);
      RearmsFresh(ops', Some(h), h + 1, n - 1);
      assert ops + Rearms(pending, h, n) == ops' + Rearms(Some(h), h + 1, n - 1);
    }
  }

  /** One more rearm after `n` of them arms the next handle on the slot they left. */
  lemma {:induction false} RearmsSnoc(pending: Option<Handle>, h: Handle, n: nat)
    ensures Rearms(pending, h, n + 1) == Rearms(pending, h, n) + Rearm(SlotAfter(pending, h, n), h + n)
    decreases n
  {
    if n > 0 {
      RearmsSnoc(Some(h), h + 1, n - 1);
      assert SlotAfter(Some(h), h + 1, n - 1) == SlotAfter(pending, h, n);
    }
  }

  /** `m` rearms followed by `n` more are `m + n` rearms. */
  lemma {:induction false} RearmsAppend(pending: Option<Handle>, h: Handle, m: nat, n: nat)
    ensures Rearms(pending, h, m + n) == Rearms(pending, h, m) + Rearms(SlotAfter(pending, h, m), h + m, n)
    ensures SlotAfter(pending, h, m + n) == SlotAfter(SlotAfter(pending, h, m), h + m, n)
    decreases m
  {
    if m == 0 {
      assert Rearms(pending, h, 0) == [];
    } else {
      RearmsAppend(Some(h), h + 1, m - 1, n);
      assert SlotAfter(Some(h), h + 1, m - 1) == SlotAfter(pending, h, m);
      assert Rearms(pending, h, m + n) == Rearm(pending, h) + Rearms(Some(h), h + 1, m - 1 + n);
      AppendAssoc(Rearm(pending, h), Rearms(Some(h), h + 1, m - 1), Rearms(SlotAfter(pending, h, m), h + m, n));
    }
  }

  /** Firing the one pending timer leaves none live. */
  lemma FireEmptiesSlot(ops: seq<TimerOp>, h: Handle)
    requires Live(ops) == {h}
    ensures Live(ops + [Fire(h)]) == {}
  {
    LiveSnoc(ops, Fire(h));
  }

  /** Any number of rearms with fresh handles keeps the invariant. */
  lemma RearmsKeepInvariant(ops: seq<TimerOp>, pending: Option<Handle>, h: Handle, n: nat)
    requires SlotInvariant(ops, pending, h)
    ensures SlotInvariant(ops + Rearms(pending, h, n), SlotAfter(pending, h, n), h + n)
  {
    BurstLeavesOneLive(ops, pending, h, n);
    RearmsFresh(ops, pending, h, n);
  }

  /** Firing the timer in the slot keeps the invariant once the slot is emptied. */
  lemma FireKeepsInvariant(ops: seq<TimerOp>, h: Handle, next: Handle)
    requires SlotInvariant(ops, Some(h), next)
    ensures SlotInvariant(ops + [Fire(h)], None, next)
  {
    FireEmptiesSlot(ops, h);
  }

  /** A log extended by `m` rearms and then by `n` more equals the log extended by `m + n`. */
  lemma RearmsCompose(ops: seq<TimerOp>, pending: Option<Handle>, h: Handle, m: nat, n: nat)
    ensures ops + Rearms(pending, h, m) + Rearms(SlotAfter(pending, h, m), h + m, n)
            == ops + Rearms(pending, h, m + n)
    ensures SlotAfter(SlotAfter(pending, h, m), h + m, n) == SlotAfter(pending, h, m + n)
  {
    RearmsAppend(pending, h, m, n);
    AppendAssoc(ops, Rearms(pending, h, m), Rearms(SlotAfter(pending, h, m), h + m, n));
  }
}
