/** The arithmetic of core/collection/timingwheel.go: slots, circles and diffs as a number of ticks to go. */
module TimingWheelSpec {
  import opened Arithmetic

  /** The ticks until an item fires. */
  function Remaining(slot: nat, ticked: nat, n: nat, circle: nat, diff: nat): (ticks: nat)
    requires slot < n && ticked < n
    ensures ticks >= 1
  {
    Ahead(slot, ticked, n) + circle * n + diff
  }

  function TargetSlot(ticked: nat, n: nat, steps: nat): (slot: nat)
    requires n > 0
    ensures slot < n
  {
    (ticked + steps) % n
  }

  /** What moving a timer to `steps` ticks really gives it, by the slot it sits in. */
  function MovedTicks(slot: nat, ticked: nat, n: nat, steps: nat): (r: int)
    requires slot < n && ticked < n
  {
    var target := TargetSlot(ticked, n, steps);
    if slot <= ticked < target then steps + n
    else if target <= ticked < slot && steps > n then steps - n
    else steps
  }

  lemma TargetSlotIs(ticked: nat, n: nat, steps: nat, q: nat, r: nat)
    requires ticked < n && r < n && steps == q * n + r + 1
    ensures TargetSlot(ticked, n, steps) == if ticked + r + 1 < n then ticked + r + 1 else ticked + r + 1 - n
  {
    if ticked + r + 1 < n {
      QuotientIs(ticked + steps, n, q, ticked + r + 1);
    } else {
      assert (q + 1) * n == q * n + n;
      QuotientIs(ticked + steps, n, q + 1, ticked + r + 1 - n);
    }
  }

  lemma Division(x: nat, n: nat)
    requires n > 0
    ensures x == (x / n) * n + x % n
    ensures x / n > 0 <==> x >= n
  {
  }

  /** The placement of a fresh item makes it fire after exactly `steps` ticks. */
  lemma PlacementIsExact(ticked: nat, n: nat, steps: nat)
    requires ticked < n && steps >= 1
    ensures Remaining(TargetSlot(ticked, n, steps), ticked, n, (steps - 1) / n, 0) == steps
    ensures (steps - 1) / n > 0 <==> steps > n
  {
    hide TargetSlot;
    Division(steps - 1, n);
    TargetSlotIs(ticked, n, steps, (steps - 1) / n, (steps - 1) % n);
  }

  /** Moving forward from the item's slot. */
  lemma MoveForward(slot: nat, ticked: nat, n: nat, steps: nat)
    requires slot < n && ticked < n && steps >= 1 && TargetSlot(ticked, n, steps) >= slot
    ensures Remaining(slot, ticked, n, (steps - 1) / n, TargetSlot(ticked, n, steps) - slot)
         == MovedTicks(slot, ticked, n, steps)
  {
    PlacementIsExact(ticked, n, steps);
  }

  /** Moving backward from the item's slot by giving up a circle. */
  lemma MoveBackward(slot: nat, ticked: nat, n: nat, steps: nat)
    requires slot < n && ticked < n && steps >= 1 && TargetSlot(ticked, n, steps) < slot && (steps - 1) / n > 0
    ensures Remaining(slot, ticked, n, (steps - 1) / n - 1, n + TargetSlot(ticked, n, steps) - slot)
         == MovedTicks(slot, ticked, n, steps)
  {
    PlacementIsExact(ticked, n, steps);
    var q := (steps - 1) / n;
    assert (q - 1) * n == q * n - n;
  }

  /** Otherwise a fresh item takes the place, exactly. */
  lemma MoveByRequeue(slot: nat, ticked: nat, n: nat, steps: nat)
    requires slot < n && ticked < n && steps >= 1 && TargetSlot(ticked, n, steps) < slot && (steps - 1) / n == 0
    ensures Remaining(TargetSlot(ticked, n, steps), ticked, n, 0, 0) == MovedTicks(slot, ticked, n, steps) == steps
  {
    PlacementIsExact(ticked, n, steps);
  }

  /** So a timer moves to exactly `steps` ticks if and only if its slot and the target lie on the same side of the
      slot scanned last, or the move is one that needs a fresh item. */
  lemma MoveIsExactWhen(slot: nat, ticked: nat, n: nat, steps: nat)
    requires slot < n && ticked < n && steps >= 1
    ensures var target := TargetSlot(ticked, n, steps);
            var sameSide := (slot <= ticked) == (target <= ticked);
            var requeued := target < slot && (steps - 1) / n == 0;
            MovedTicks(slot, ticked, n, steps) == steps <==> sameSide || requeued
  {
    PlacementIsExact(ticked, n, steps);
  }

  function Steps(delay: nat, interval: nat): (r: nat)
    requires interval > 0
  {
    delay / interval
  }

  lemma AtLeastOneStep(delay: nat, interval: nat)
    requires 0 < interval <= delay
    ensures Steps(delay, interval) >= 1
  {
    Division(delay, interval);
  }

  /** The delays that are set: at least one step, rounded down. */
  lemma StepsSet(delay: nat, interval: nat)
    requires interval > 0
    ensures Steps(if delay < interval then interval else delay, interval)
         == if delay < interval then 1 else delay / interval
  {
  }

  function NextSlot(ticked: nat, n: nat): (next: nat)
    requires ticked < n
    ensures next < n
  {
    (ticked + 1) % n
  }

  /** A tick brings every slot one nearer, except the scanned one, which is a full revolution away again. */
  lemma TickAhead(slot: nat, ticked: nat, n: nat)
    requires slot < n && ticked < n
    ensures var next := NextSlot(ticked, n);
            if slot == next then Ahead(slot, ticked, n) == 1 && Ahead(slot, next, n) == n
            else Ahead(slot, next, n) == Ahead(slot, ticked, n) - 1
  {
    NextSlotIs(ticked, n);
    hide NextSlot;
  }

  lemma NextSlotIs(ticked: nat, n: nat)
    requires ticked < n
    ensures NextSlot(ticked, n) == if ticked + 1 == n then 0 else ticked + 1
  {
    if ticked + 1 == n {
      QuotientIs(n, n, 1, 0);
    } else {
      QuotientIs(ticked + 1, n, 0, ticked + 1);
    }
  }

  /** Scanning an item with circles left. */
  lemma LowerCircle(ticked: nat, n: nat, circle: nat, diff: nat)
    requires ticked < n && circle > 0
    ensures var next := NextSlot(ticked, n);
            Remaining(next, next, n, circle - 1, diff) == Remaining(next, ticked, n, circle, diff) - 1
  {
    TickAhead(NextSlot(ticked, n), ticked, n);
    assert (circle - 1) * n == circle * n - n;
  }

  /** Scanning an item that still has to move on by diff slots; it never lands in the slot being scanned. */
  lemma MoveOn(ticked: nat, n: nat, diff: nat)
    requires ticked < n && 0 < diff < n
    ensures var next := NextSlot(ticked, n);
            TargetSlot(next, n, diff) != next &&
            Remaining(TargetSlot(next, n, diff), next, n, 0, 0) == Remaining(next, ticked, n, 0, diff) - 1
  {
    var next := NextSlot(ticked, n);
    TickAhead(next, ticked, n);
    if next + diff < n {
      QuotientIs(next + diff, n, 0, next + diff);
    } else {
      QuotientIs(next + diff, n, 1, next + diff - n);
    }
  }
}
