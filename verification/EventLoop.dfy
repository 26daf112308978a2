/** The event loop's timer table: fixed slots and a count, swept in place. */
module EventLoop {
  import opened Timers

  class EventLoop {
    const slots: array<Timer>
    var timerCount: nat
    var nextTimerId: nat

    ghost predicate Valid()
      reads this, slots
    {
      slots.Length == MAX_TIMERS && timerCount <= MAX_TIMERS && Timers.Valid(Loop(slots[..timerCount], nextTimerId))
    }

    ghost function Abs(): ValidLoop
      requires Valid()
      reads this, slots
    {
      Loop(slots[..timerCount], nextTimerId)
    }

    constructor ()
      ensures Valid() && Abs() == Loop([], 1) && fresh(slots)
    {
      slots := new Timer[8](_ => Timer(0, 0, 0));
      timerCount, nextTimerId := 0, 1;
    }

    /** set_timer, with the time its clock reads. */
    method SetTimer(clock: nat, delay: nat, callback: nat) returns (id: nat)
      requires Valid()
      modifies this, slots
      ensures Valid() && Abs() == Timers.SetTimer(old(Abs()), clock, delay, callback)
      ensures id == if old(timerCount) >= MAX_TIMERS then 0 else old(nextTimerId)
    {
      if timerCount >= MAX_TIMERS {
        return 0;
      }
      id := nextTimerId;
      nextTimerId := (nextTimerId + 1) % 0x1_0000_0000;
      if nextTimerId == 0 {
        nextTimerId := 1;
      }
      slots[timerCount] := Timer(id, clock + delay, callback);
      timerCount := timerCount + 1;
    }

    /** The last timer moves to the slot. */
    method RemoveSlot(i: nat)
      requires Valid() && i < timerCount
      modifies this, slots
      ensures Valid() && Abs() == Removed(old(Abs()), i)
    {
      ghost var l := Abs();
      slots[i] := slots[timerCount - 1];
      timerCount := timerCount - 1;
      assert slots[..timerCount] == SwapRemove(l.timers, i);
    }

    /** cancel_timer: the first timer with the id leaves its slot to the last one. */
    method CancelTimer(id: nat)
      requires Valid()
      modifies this, slots
      ensures Valid() && Abs() == Timers.CancelTimer(old(Abs()), id)
    {
      for i := 0 to timerCount
        invariant timerCount == old(timerCount) && slots[..] == old(slots[..]) && Valid() && Abs() == old(Abs())
        invariant forall j :: 0 <= j < i ==> slots[j].id != id
      {
        if slots[i].id == id {
          FirstAt(Abs().timers, id, i);
          RemoveSlot(i);
          return;
        }
      }
      FirstAt(Abs().timers, id, timerCount);
    }

    /** The callback runs and makes its calls. */
    method RunCallback(calls: seq<Call>, ghost g: Ledger)
      requires Valid() && g.loop == Abs()
      modifies this, slots
      ensures Valid() && Abs() == PerformAll(g, calls).loop
    {
      ghost var h := g;
      assert calls[0..] == calls;
      for j := 0 to |calls|
        invariant Valid() && h.loop == Abs() && PerformAll(h, calls[j..]) == PerformAll(g, calls)
      {
        assert calls[j..][1..] == calls[j + 1..];
        h := Perform(h, calls[j]);
        match calls[j]
        case Set(clock, delay, callback) => var id := SetTimer(clock, delay, callback);
        case Cancel(id) => CancelTimer(id);
      }
    }

    /** The due timer in slot i leaves its slot to the last one, and its callback runs. */
    method FireSlot(i: nat, calls: seq<Call>, ghost g: Ledger) returns (fired: Timer)
      requires Valid() && g.loop == Abs() && i < timerCount
      modifies this, slots
      ensures Valid() && fired == old(Abs()).timers[i]
      ensures var l := old(Abs());
              Abs() == PerformAll(g.(loop := Removed(l, i)), calls).loop
    {
      ghost var l := Abs();
      fired := slots[i];
      RemoveSlot(i);
      RunCallback(calls, g.(loop := Removed(l, i)));
    }

    /** The timer part of step, with the callbacks it runs in order. */
    method RunTimers(now: nat, b: Behaviour) returns (fired: seq<Timer>)
      requires Valid() && Ends(Abs(), now, b)
      modifies this, slots
      ensures Valid()
      ensures var s := End(old(Abs()), now, b);
              Abs() == s.ledger.loop && fired == s.fired
    {
      hide PerformAll, SwapRemove;
      fired := [];
      var i, k := 0, 0;
      ghost var s, n := Begin(Abs()), 0;
      ghost var last: nat :| Done(Turns(Begin(Abs()), now, b, last));
      while i < timerCount
        invariant Valid() && s.ledger.loop == Abs() && s.i == i && s.k == k && s.fired == fired
        invariant Turns(Begin(old(Abs())), now, b, n) == s
        invariant n <= last
        decreases last - n
      {
        assert n < last;
        TurnsNext(Begin(old(Abs())), now, b, n);
        if now >= slots[i].expire {
          var t := FireSlot(i, b(k), s.ledger);
          fired := fired + [t];
          k := k + 1;
        } else {
          i := i + 1;
        }
        s, n := Turn(s, now, b), n + 1;
      }
      EndIs(old(Abs()), now, b, n);
    }
  }
}
