/** Timers of the event loop (core/event_loop.hpp): arming, cancelling, and the sweep that fires the due ones. */
module Timers {

  const MAX_TIMERS: nat := 8
  const ID_LIMIT: nat := 0x1_0000_0000

  datatype Timer = Timer(id: nat, expire: nat, callback: nat)

  datatype Loop = Loop(timers: seq<Timer>, nextId: nat)

  predicate IsId(id: nat) { 1 <= id < ID_LIMIT }

  predicate Valid(l: Loop) {
    && |l.timers| <= MAX_TIMERS
    && IsId(l.nextId)
    && (forall i :: 0 <= i < |l.timers| ==> IsId(l.timers[i].id))
  }

  type ValidLoop = l: Loop | Valid(l) witness Loop([], 1)

  /** What a callback may call: set_timer, with the time its clock reads, and cancel_timer. */
  datatype Call = Set(clock: nat, delay: nat, callback: nat) | Cancel(id: nat)

  /** The calls of the k-th callback fired in a sweep; any callback behaviour is one of these. */
  type Behaviour = nat -> seq<Call>

  predicate Due(t: Timer, now: nat) { now >= t.expire }

  /** set_timer: nothing when all slots are taken; ids go round and leave out 0. */
  function SetTimer(l: ValidLoop, clock: nat, delay: nat, callback: nat): ValidLoop {
    if |l.timers| >= MAX_TIMERS then l
    else
      Loop(l.timers + [Timer(l.nextId, clock + delay, callback)],
           if l.nextId + 1 == ID_LIMIT then 1 else l.nextId + 1)
  }

  /** Slot i takes the last timer, and the count goes down. */
  function SwapRemove(ts: seq<Timer>, i: nat): (r: seq<Timer>)
    requires i < |ts|
    ensures |r| == |ts| - 1
  {
    ts[i := ts[|ts| - 1]][..|ts| - 1]
  }

  function Removed(l: ValidLoop, i: nat): ValidLoop
    requires i < |l.timers|
  {
    l.(timers := SwapRemove(l.timers, i))
  }

  /** The slot of the first timer with an id. */
  function FirstWith(ts: seq<Timer>, id: nat): (i: nat)
    ensures i <= |ts|
  {
    if ts == [] || ts[0].id == id then 0 else FirstWith(ts[1..], id) + 1
  }

  lemma {:induction false} FirstAt(ts: seq<Timer>, id: nat, i: nat)
    requires i <= |ts| && (forall j :: 0 <= j < i ==> ts[j].id != id) && (i < |ts| ==> ts[i].id == id)
    ensures FirstWith(ts, id) == i
  {
    if i > 0 {
      FirstAt(ts[1..], id, i - 1);
    }
  }

  /** cancel_timer */
  function CancelTimer(l: ValidLoop, id: nat): ValidLoop {
    var i := FirstWith(l.timers, id);
    if i < |l.timers| then Removed(l, i) else l
  }

  /** The timers after some calls, with those armed and those cancelled by them. */
  datatype Ledger = Ledger(loop: ValidLoop, armed: seq<Timer>, cancelled: seq<Timer>)

  function Perform(g: Ledger, c: Call): Ledger {
    var l := g.loop;
    match c
    case Set(clock, delay, callback) =>
      var l' := SetTimer(l, clock, delay, callback);
      g.(loop := l',
         armed := g.armed + if |l.timers| < MAX_TIMERS then [Timer(l.nextId, clock + delay, callback)] else [])
    case Cancel(id) =>
      var i := FirstWith(l.timers, id);
      g.(loop := CancelTimer(l, id), cancelled := g.cancelled + if i < |l.timers| then [l.timers[i]] else [])
  }

  function PerformAll(g: Ledger, calls: seq<Call>): Ledger
    decreases |calls|
  {
    if calls == [] then g else PerformAll(Perform(g, calls[0]), calls[1..])
  }

  /** The sweep after some turns: where it stands, how many callbacks have run, and its past. */
  datatype Sweep = Sweep(ledger: Ledger, i: nat, k: nat, fired: seq<Timer>)

  function Begin(l: ValidLoop): Sweep { Sweep(Ledger(l, [], []), 0, 0, []) }

  predicate Done(s: Sweep) { s.i >= |s.ledger.loop.timers| }

  /** A due timer leaves its slot to the last one, and its callback makes its calls. */
  function Fire(s: Sweep, b: Behaviour): Sweep
    requires !Done(s)
  {
    var l := s.ledger.loop;
    Sweep(PerformAll(s.ledger.(loop := Removed(l, s.i)), b(s.k)), s.i, s.k + 1,
          s.fired + [l.timers[s.i]])
  }

  /** One turn of the loop. */
  function Turn(s: Sweep, now: nat, b: Behaviour): Sweep {
    if Done(s) then s
    else if Due(s.ledger.loop.timers[s.i], now) then Fire(s, b)
    else s.(i := s.i + 1)
  }

  function Turns(s: Sweep, now: nat, b: Behaviour, n: nat): Sweep
    decreases n
  {
    if n == 0 then s else Turns(Turn(s, now, b), now, b, n - 1)
  }

  // Every timer is accounted for.

  /** How often t occurs. */
  ghost function Count(ts: seq<Timer>, t: Timer): nat { multiset(ts)[t] }

  lemma CountConcat(a: seq<Timer>, c: seq<Timer>, t: Timer)
    ensures Count(a + c, t) == Count(a, t) + Count(c, t)
  {
  }

  lemma CountOne(u: Timer, t: Timer)
    ensures Count([u], t) == if t == u then 1 else 0
    ensures Count([], t) == 0
  {
  }

  lemma CountSwapRemove(ts: seq<Timer>, i: nat, t: Timer)
    requires i < |ts|
    ensures Count(SwapRemove(ts, i), t) + Count([ts[i]], t) == Count(ts, t)
  {
    hide Count;
    var last, front := ts[|ts| - 1], ts[..|ts| - 1];
    CountConcat(front, [last], t);
    assert front + [last] == ts;
    if i < |front| {
      assert front == front[..i] + ([front[i]] + front[i + 1..]);
      assert SwapRemove(ts, i) == front[..i] + ([last] + front[i + 1..]);
      CountConcat(front[..i], [front[i]] + front[i + 1..], t);
      CountConcat([front[i]], front[i + 1..], t);
      CountConcat(front[..i], [last] + front[i + 1..], t);
      CountConcat([last], front[i + 1..], t);
    } else {
      assert SwapRemove(ts, i) == front;
    }
  }

  /** What is there and what was cancelled is what was there and what was armed. */
  ghost predicate Balanced(start: seq<Timer>, fired: seq<Timer>, g: Ledger, t: Timer) {
    Count(fired, t) + Count(g.cancelled, t) + Count(g.loop.timers, t) == Count(start, t) + Count(g.armed, t)
  }

  lemma PerformBalances(start: seq<Timer>, fired: seq<Timer>, g: Ledger, c: Call, t: Timer)
    requires Balanced(start, fired, g, t)
    ensures Balanced(start, fired, Perform(g, c), t)
  {
    hide Count, SwapRemove;
    var l := g.loop;
    CountOne(Timer(0, 0, 0), t);
    match c
    case Set(clock, delay, callback) =>
      var u := Timer(l.nextId, clock + delay, callback);
      CountConcat(l.timers, [u], t);
      CountConcat(g.armed, [u], t);
      assert g.armed + [] == g.armed;
    case Cancel(id) =>
      var i := FirstWith(l.timers, id);
      assert g.cancelled + [] == g.cancelled;
      if i < |l.timers| {
        CountSwapRemove(l.timers, i, t);
        CountConcat(g.cancelled, [l.timers[i]], t);
      }
  }

  lemma {:induction false} PerformAllBalances(start: seq<Timer>, fired: seq<Timer>, g: Ledger, calls: seq<Call>,
                                              t: Timer)
    requires Balanced(start, fired, g, t)
    ensures Balanced(start, fired, PerformAll(g, calls), t)
    decreases |calls|
  {
    hide Perform, Balanced;
    if calls != [] {
      PerformBalances(start, fired, g, calls[0], t);
      PerformAllBalances(start, fired, Perform(g, calls[0]), calls[1..], t);
    }
  }

  /** The accounts of a sweep: they balance, and only due timers have been fired. */
  ghost predicate Accounts(start: seq<Timer>, now: nat, s: Sweep, t: Timer) {
    Balanced(start, s.fired, s.ledger, t) && (Count(s.fired, t) > 0 ==> Due(t, now))
  }

  lemma TurnAccounts(start: seq<Timer>, now: nat, b: Behaviour, s: Sweep, t: Timer)
    requires Accounts(start, now, s, t)
    ensures Accounts(start, now, Turn(s, now, b), t)
  {
    hide Count, SwapRemove, PerformAll;
    if !Done(s) && Due(s.ledger.loop.timers[s.i], now) {
      var l := s.ledger.loop;
      var u := l.timers[s.i];
      CountSwapRemove(l.timers, s.i, t);
      CountConcat(s.fired, [u], t);
      CountOne(u, t);
      PerformAllBalances(start, s.fired + [u], s.ledger.(loop := Removed(l, s.i)), b(s.k), t);
    }
  }

  /**
    Whatever the callbacks do, after any number of turns: the timers fired, cancelled and left are those there
    at the start and those armed since, each as often, and every one fired was due.
    */
  lemma {:induction false} TurnsAccount(start: seq<Timer>, now: nat, b: Behaviour, s: Sweep, n: nat, t: Timer)
    requires Accounts(start, now, s, t)
    ensures Accounts(start, now, Turns(s, now, b, n), t)
    decreases n
  {
    hide Turn, Accounts;
    if n > 0 {
      TurnAccounts(start, now, b, s, t);
      TurnsAccount(start, now, b, Turn(s, now, b), n - 1, t);
    }
  }

  /** The k-th callback is that of the k-th timer fired. */
  lemma {:induction false} TurnsCount(now: nat, b: Behaviour, s: Sweep, n: nat)
    requires s.k == |s.fired|
    ensures Turns(s, now, b, n).k == |Turns(s, now, b, n).fired|
    decreases n
  {
    hide PerformAll;
    if n > 0 {
      TurnsCount(now, b, Turn(s, now, b), n - 1);
    }
  }

  lemma BeginAccounts(l: ValidLoop, now: nat, t: Timer)
    ensures Accounts(l.timers, now, Begin(l), t)
  {
  }

  // When the sweep ends.

  /** A timer the call arms is not due in this sweep. */
  predicate Later(c: Call, now: nat) { c.Set? ==> c.clock + c.delay > now }

  ghost predicate ArmsLater(b: Behaviour, now: nat) {
    forall k: nat, c :: c in b(k) ==> Later(c, now)
  }

  /** The sweep ends after some turns. */
  ghost predicate Ends(l: ValidLoop, now: nat, b: Behaviour) {
    exists n: nat :: Done(Turns(Begin(l), now, b, n))
  }

  ghost function End(l: ValidLoop, now: nat, b: Behaviour): Sweep
    requires Ends(l, now, b)
  {
    var n: nat :| Done(Turns(Begin(l), now, b, n));
    Turns(Begin(l), now, b, n)
  }

  function DueCount(ts: seq<Timer>, now: nat): nat {
    if ts == [] then 0 else DueCount(ts[..|ts| - 1], now) + if Due(ts[|ts| - 1], now) then 1 else 0
  }

  /** The due timers not scanned yet. */
  function DueFrom(ts: seq<Timer>, i: nat, now: nat): nat {
    if i < |ts| then DueCount(ts[i..], now) else 0
  }

  /** The turns left, at most. */
  function Left(s: Sweep, now: nat): nat {
    var ts := s.ledger.loop.timers;
    if Done(s) then 0 else DueFrom(ts, s.i, now) * (MAX_TIMERS + 1) + |ts| - s.i
  }

  lemma {:induction false} DueConcat(a: seq<Timer>, c: seq<Timer>, now: nat)
    ensures DueCount(a + c, now) == DueCount(a, now) + DueCount(c, now)
    decreases |c|
  {
    if c == [] {
      assert a + c == a;
    } else {
      assert (a + c)[..|a + c| - 1] == a + c[..|c| - 1];
      DueConcat(a, c[..|c| - 1], now);
    }
  }

  lemma DueOne(t: Timer, now: nat)
    ensures DueCount([t], now) == if Due(t, now) then 1 else 0
    ensures DueCount([], now) == 0
  {
    assert [t][..0] == [];
  }

  lemma DueSwapRemove(ts: seq<Timer>, i: nat, now: nat)
    requires i < |ts|
    ensures DueCount(SwapRemove(ts, i), now) + DueCount([ts[i]], now) == DueCount(ts, now)
  {
    hide DueCount;
    var last, front := ts[|ts| - 1], ts[..|ts| - 1];
    DueConcat(front, [last], now);
    assert front + [last] == ts;
    if i < |front| {
      assert front == front[..i] + ([front[i]] + front[i + 1..]);
      assert SwapRemove(ts, i) == front[..i] + ([last] + front[i + 1..]);
      DueConcat(front[..i], [front[i]] + front[i + 1..], now);
      DueConcat([front[i]], front[i + 1..], now);
      DueConcat(front[..i], [last] + front[i + 1..], now);
      DueConcat([last], front[i + 1..], now);
    } else {
      assert SwapRemove(ts, i) == front;
    }
  }

  /** Removing a timer from any slot leaves no more due ones to scan; from slot i on it leaves that one less. */
  lemma RemoveLeavesFewer(ts: seq<Timer>, i: nat, j: nat, now: nat)
    requires j < |ts|
    ensures DueFrom(SwapRemove(ts, j), i, now) <= DueFrom(ts, i, now)
    ensures i == j && Due(ts[j], now) ==> DueFrom(SwapRemove(ts, j), i, now) + 1 == DueFrom(ts, i, now)
  {
    hide DueCount;
    DueOne(ts[j], now);
    if i < |ts| {
      if j >= i {
        DueSwapRemove(ts[i..], j - i, now);
        assert SwapRemove(ts, j)[i..] == SwapRemove(ts[i..], j - i);
      } else {
        var rest := ts[i..];
        DueConcat(rest[..|rest| - 1], [rest[|rest| - 1]], now);
        assert rest[..|rest| - 1] + [rest[|rest| - 1]] == rest;
        assert SwapRemove(ts, j)[i..] == rest[..|rest| - 1];
      }
    }
  }

  lemma AppendLater(ts: seq<Timer>, i: nat, t: Timer, now: nat)
    requires !Due(t, now)
    ensures DueFrom(ts + [t], i, now) == DueFrom(ts, i, now)
  {
    hide DueCount;
    DueOne(t, now);
    if i < |ts| {
      DueConcat(ts[i..], [t], now);
      assert (ts + [t])[i..] == ts[i..] + [t];
    } else if i == |ts| {
      assert (ts + [t])[i..] == [t];
    }
  }

  predicate Late(calls: seq<Call>, now: nat) {
    forall c :: c in calls ==> Later(c, now)
  }

  lemma {:induction false} CallsLeaveFewer(g: Ledger, calls: seq<Call>, i: nat, now: nat)
    requires Late(calls, now)
    ensures DueFrom(PerformAll(g, calls).loop.timers, i, now) <= DueFrom(g.loop.timers, i, now)
    decreases |calls|
  {
    hide DueFrom, SwapRemove;
    if calls != [] {
      var c, l := calls[0], g.loop;
      assert Later(c, now) by { assert c in calls; }
      if c.Set? {
        AppendLater(l.timers, i, Timer(l.nextId, c.clock + c.delay, c.callback), now);
      } else if FirstWith(l.timers, c.id) < |l.timers| {
        RemoveLeavesFewer(l.timers, i, FirstWith(l.timers, c.id), now);
      }
      CallsLeaveFewer(Perform(g, c), calls[1..], i, now);
    }
  }

  lemma TurnLeavesFewer(s: Sweep, now: nat, b: Behaviour)
    requires !Done(s) && ArmsLater(b, now)
    ensures Left(Turn(s, now, b), now) < Left(s, now)
  {
    hide SwapRemove, PerformAll, DueCount;
    var l := s.ledger.loop;
    if Due(l.timers[s.i], now) {
      RemoveLeavesFewer(l.timers, s.i, s.i, now);
      CallsLeaveFewer(s.ledger.(loop := Removed(l, s.i)), b(s.k), s.i, now);
    } else {
      DueAt(l.timers, s.i, now);
    }
  }

  lemma DueAt(ts: seq<Timer>, i: nat, now: nat)
    requires i < |ts| && !Due(ts[i], now)
    ensures DueFrom(ts, i + 1, now) == DueFrom(ts, i, now)
  {
    hide DueCount;
    DueOne(ts[i], now);
    DueConcat([ts[i]], ts[i + 1..], now);
    assert ts[i..] == [ts[i]] + ts[i + 1..];
  }

  lemma {:induction false} DueBound(ts: seq<Timer>, now: nat)
    ensures DueCount(ts, now) <= |ts|
  {
    if ts != [] {
      DueBound(ts[..|ts| - 1], now);
    }
  }

  /** No sweep whose callbacks arm only later timers takes more than 80 turns, whatever they cancel. */
  lemma {:induction false} SweepEnds(s: Sweep, now: nat, b: Behaviour, n: nat)
    requires ArmsLater(b, now) && n >= Left(s, now)
    ensures Done(Turns(s, now, b, n))
    ensures Left(s, now) <= 80
    decreases n
  {
    hide Turn;
    DueBound(s.ledger.loop.timers[if Done(s) then 0 else s.i..], now);
    if !Done(s) {
      TurnLeavesFewer(s, now, b);
      SweepEnds(Turn(s, now, b), now, b, n - 1);
    } else if n > 0 {
      DoneStays(s, now, b);
      SweepEnds(s, now, b, n - 1);
    }
  }

  lemma DoneStays(s: Sweep, now: nat, b: Behaviour)
    requires Done(s)
    ensures Turn(s, now, b) == s
  {
  }

  lemma {:induction false} TurnsNext(s: Sweep, now: nat, b: Behaviour, n: nat)
    ensures Turns(s, now, b, n + 1) == Turn(Turns(s, now, b, n), now, b)
    decreases n
  {
    hide Turn;
    if n > 0 {
      TurnsNext(Turn(s, now, b), now, b, n - 1);
    }
  }

  lemma {:induction false} TurnsAgain(s: Sweep, now: nat, b: Behaviour, n: nat, m: nat)
    requires Done(Turns(s, now, b, n)) && m >= n
    ensures Turns(s, now, b, m) == Turns(s, now, b, n)
    decreases m - n
  {
    hide Turn, Turns;
    if m > n {
      TurnsAgain(s, now, b, n, m - 1);
      TurnsNext(s, now, b, m - 1);
      DoneStays(Turns(s, now, b, n), now, b);
    }
  }

  /** However many turns a sweep took, it ended in the same place. */
  lemma EndIs(l: ValidLoop, now: nat, b: Behaviour, n: nat)
    requires Done(Turns(Begin(l), now, b, n))
    ensures Ends(l, now, b) && End(l, now, b) == Turns(Begin(l), now, b, n)
  {
    hide Turn, Turns;
    var m: nat :| Done(Turns(Begin(l), now, b, m)) && End(l, now, b) == Turns(Begin(l), now, b, m);
    if m <= n {
      TurnsAgain(Begin(l), now, b, m, n);
    } else {
      TurnsAgain(Begin(l), now, b, n, m);
    }
  }

  /** Every call comes from ok. */
  ghost predicate From(b: Behaviour, ok: Call -> bool) {
    forall k: nat, c :: c in b(k) ==> ok(c)
  }

  /** Every callback makes the one call. */
  function Always(c: Call): Behaviour { k => [c] }

  lemma FireAlways(s: Sweep, c: Call)
    requires !Done(s)
    ensures var l := s.ledger.loop;
            Fire(s, Always(c)).ledger == Perform(s.ledger.(loop := Removed(l, s.i)), c)
  {
    var l := s.ledger.loop;
    var g := Perform(s.ledger.(loop := Removed(l, s.i)), c);
    assert Always(c)(s.k) == [c] && [c][1..] == [] && PerformAll(g, []) == g;
  }

  /** A callback that each time arms a timer due at once keeps the sweep going through any number of turns. */
  lemma {:induction false} DueArmedNeverEnds(s: Sweep, now: nat, c: Call, n: nat)
    requires !Later(c, now)
    requires s.i == 0 && |s.ledger.loop.timers| == 1 && Due(s.ledger.loop.timers[0], now)
    ensures !Done(Turns(s, now, Always(c), n)) && |Turns(s, now, Always(c), n).fired| == |s.fired| + n
    decreases n
  {
    if n > 0 {
      FireAlways(s, c);
      DueArmedNeverEnds(Turn(s, now, Always(c)), now, c, n - 1);
    }
  }

  /**
    The sweep ends, from every loop and for all callbacks that make such calls, if and only if none of the calls
    arms a timer that is due.
    */
  lemma EndsExactly(ok: Call -> bool, now: nat)
    ensures (forall l: ValidLoop, b :: From(b, ok) ==> Ends(l, now, b)) <==> (forall c :: ok(c) ==> Later(c, now))
  {
    hide Turn, Turns, Later;
    forall l: ValidLoop, b | From(b, ok) && (forall c :: ok(c) ==> Later(c, now)) ensures Ends(l, now, b) {
      SweepEnds(Begin(l), now, b, Left(Begin(l), now));
    }
    forall c | ok(c) && !Later(c, now) ensures exists l: ValidLoop, b :: From(b, ok) && !Ends(l, now, b) {
      var l: ValidLoop := Loop([Timer(1, now, 0)], 2);
      forall n: nat ensures !Done(Turns(Begin(l), now, Always(c), n)) {
        DueArmedNeverEnds(Begin(l), now, c, n);
      }
      assert From(Always(c), ok) && !Ends(l, now, Always(c));
    }
  }

  // What a sweep fires.

  /** The call names an id a timer can have; set_timer never gives out 0. */
  predicate Cancels(c: Call) { c.Cancel? && IsId(c.id) }

  ghost predicate CancelsNothing(b: Behaviour) {
    forall k: nat, c :: c in b(k) ==> !Cancels(c)
  }

  /** Nothing armed is due. */
  ghost predicate ArmedLater(g: Ledger, now: nat) {
    forall t :: t in g.armed ==> !Due(t, now)
  }

  lemma {:induction false} CallsArmLater(g: Ledger, calls: seq<Call>, now: nat)
    requires Late(calls, now) && ArmedLater(g, now)
    ensures ArmedLater(PerformAll(g, calls), now)
    decreases |calls|
  {
    hide SwapRemove;
    if calls != [] {
      assert Later(calls[0], now) by { assert calls[0] in calls; }
      CallsArmLater(Perform(g, calls[0]), calls[1..], now);
    }
  }

  lemma {:induction false} TurnsArmLater(s: Sweep, now: nat, b: Behaviour, n: nat)
    requires ArmsLater(b, now) && ArmedLater(s.ledger, now)
    ensures ArmedLater(Turns(s, now, b, n).ledger, now)
    decreases n
  {
    hide ArmedLater, PerformAll;
    if n > 0 {
      if !Done(s) && Due(s.ledger.loop.timers[s.i], now) {
        var l := s.ledger.loop;
        var g := s.ledger.(loop := Removed(l, s.i));
        assert ArmedLater(g, now) by { SameArmed(s.ledger, g, now); }
        CallsArmLater(g, b(s.k), now);
      }
      TurnsArmLater(Turn(s, now, b), now, b, n - 1);
    }
  }

  lemma SameArmed(g: Ledger, h: Ledger, now: nat)
    requires ArmedLater(g, now) && h.armed == g.armed
    ensures ArmedLater(h, now)
  {
  }

  /** Nothing scanned is due, and nothing was cancelled. */
  ghost predicate ScannedNotDue(s: Sweep, now: nat) {
    && s.i <= |s.ledger.loop.timers|
    && (forall j :: 0 <= j < s.i ==> !Due(s.ledger.loop.timers[j], now))
    && s.ledger.cancelled == []
  }

  lemma {:induction false} SetsKeep(g: Ledger, calls: seq<Call>)
    requires forall c :: c in calls ==> !Cancels(c)
    ensures g.loop.timers <= PerformAll(g, calls).loop.timers
    ensures PerformAll(g, calls).cancelled == g.cancelled
    decreases |calls|
  {
    if calls != [] {
      if calls[0].Cancel? {
        assert !Cancels(calls[0]) by { assert calls[0] in calls; }
        FirstAt(g.loop.timers, calls[0].id, |g.loop.timers|);
      }
      SetsKeep(Perform(g, calls[0]), calls[1..]);
    }
  }

  lemma TurnKeepsScanned(s: Sweep, now: nat, b: Behaviour)
    requires CancelsNothing(b) && ScannedNotDue(s, now)
    ensures ScannedNotDue(Turn(s, now, b), now)
  {
    hide PerformAll;
    if !Done(s) && Due(s.ledger.loop.timers[s.i], now) {
      var l := s.ledger.loop;
      var g := s.ledger.(loop := Removed(l, s.i));
      SetsKeep(g, b(s.k));
      assert forall j :: 0 <= j < s.i ==> g.loop.timers[j] == l.timers[j];
    }
  }

  lemma {:induction false} TurnsKeepScanned(s: Sweep, now: nat, b: Behaviour, n: nat)
    requires CancelsNothing(b) && ScannedNotDue(s, now)
    ensures ScannedNotDue(Turns(s, now, b, n), now)
    decreases n
  {
    hide Turn, ScannedNotDue;
    if n > 0 {
      TurnKeepsScanned(s, now, b);
      TurnsKeepScanned(Turn(s, now, b), now, b, n - 1);
    }
  }

  lemma CountIn(ts: seq<Timer>, t: Timer)
    ensures Count(ts, t) > 0 <==> t in ts
  {
  }

  /**
    With callbacks that cancel nothing, a sweep that ends has fired exactly the due timers and leaves exactly the
    others, of those there at its start and those armed, each as often; none armed is due when all lie later.
    */
  lemma SweepIsExact(l: ValidLoop, now: nat, b: Behaviour, t: Timer)
    requires CancelsNothing(b) && Ends(l, now, b)
    ensures var s := End(l, now, b);
            && Count(s.fired, t) == (if Due(t, now) then Count(l.timers, t) + Count(s.ledger.armed, t) else 0)
            && Count(s.ledger.loop.timers, t) ==
                 (if Due(t, now) then 0 else Count(l.timers, t) + Count(s.ledger.armed, t))
            && (ArmsLater(b, now) && Due(t, now) ==> Count(s.ledger.armed, t) == 0)
  {
    hide Turn, Turns, Count;
    var s := End(l, now, b);
    SweepWithCancels(l, now, b, t);
    NoneDueLeft(l, now, b);
    CountIn(s.fired, t);
    CountIn(s.ledger.loop.timers, t);
    CountOne(t, t);
  }

  /** No due timer is left. */
  ghost predicate NoneDue(ts: seq<Timer>, now: nat) {
    forall t :: t in ts ==> !Due(t, now)
  }

  lemma NoneDueLeft(l: ValidLoop, now: nat, b: Behaviour)
    requires CancelsNothing(b) && Ends(l, now, b)
    ensures NoneDue(End(l, now, b).ledger.loop.timers, now) && End(l, now, b).ledger.cancelled == []
  {
    hide Turn, Turns;
    var n: nat :| Done(Turns(Begin(l), now, b, n)) && End(l, now, b) == Turns(Begin(l), now, b, n);
    TurnsKeepScanned(Begin(l), now, b, n);
  }

  /**
    With callbacks that also cancel, a sweep that ends has fired only due timers, and what it fired, cancelled and
    left is what was there and what was armed; none armed is due when all lie later.
    */
  lemma SweepWithCancels(l: ValidLoop, now: nat, b: Behaviour, t: Timer)
    requires Ends(l, now, b)
    ensures var s := End(l, now, b);
            && (Count(s.fired, t) > 0 ==> Due(t, now))
            && Count(s.fired, t) + Count(s.ledger.cancelled, t) + Count(s.ledger.loop.timers, t) ==
                 Count(l.timers, t) + Count(s.ledger.armed, t)
            && (ArmsLater(b, now) && Due(t, now) ==> Count(s.ledger.armed, t) == 0)
  {
    hide Turn, Turns, Count;
    var n: nat :| Done(Turns(Begin(l), now, b, n)) && End(l, now, b) == Turns(Begin(l), now, b, n);
    BeginAccounts(l, now, t);
    TurnsAccount(l.timers, now, b, Begin(l), n, t);
    CountIn(End(l, now, b).ledger.armed, t);
    if ArmsLater(b, now) {
      TurnsArmLater(Begin(l), now, b, n);
    }
  }

  /** Three timers armed one after the other, with the next id at first, of which the last two are due. */
  function ThreeArmed(now: nat, id: nat): ValidLoop
    requires IsId(id)
  {
    SetTimer(SetTimer(SetTimer(Loop([], id), now, 1, 0), now, 0, 0), now, 0, 0)
  }

  /**
    A callback that cancels the first of the three moves the last one to a slot already scanned: due, it is left
    for the next sweep.
    */
  lemma CancelSkipsDue(now: nat, id: nat)
    requires IsId(id)
    ensures var l := ThreeArmed(now, id);
            && |l.timers| == 3 && Due(l.timers[1], now) && Due(l.timers[2], now)
            && var s := Turns(Begin(l), now, Always(Cancel(id)), 2);
            Done(s) && s.fired == [l.timers[1]] && s.ledger.loop.timers == [l.timers[2]]
  {
    var l, b := ThreeArmed(now, id), Always(Cancel(id));
    var kept, second := l.timers[0], l.timers[2];
    var s1 := Turn(Begin(l), now, b);
    assert l.timers == [kept, l.timers[1], second] && !Due(kept, now);
    assert SwapRemove(l.timers, 1) == [kept, second] && SwapRemove([kept, second], 0) == [second];
    FireAlways(s1, Cancel(id));
    assert Turns(Begin(l), now, b, 2) == Turn(s1, now, b) by { assert Turns(s1, now, b, 1) == Turn(s1, now, b); }
  }

  /**
    A sweep that ends leaves no due timer, from every loop and for all callbacks that make such calls, if and only
    if none of them cancels a timer.
    */
  lemma NoneLeftExactly(ok: Call -> bool, now: nat)
    ensures (forall l: ValidLoop, b :: From(b, ok) && Ends(l, now, b) ==>
                                         NoneDue(End(l, now, b).ledger.loop.timers, now))
            <==> (forall c :: ok(c) ==> !Cancels(c))
  {
    hide Turn, Turns, ThreeArmed;
    forall l: ValidLoop, b | From(b, ok) && Ends(l, now, b) && (forall c :: ok(c) ==> !Cancels(c))
      ensures NoneDue(End(l, now, b).ledger.loop.timers, now)
    {
      NoneDueLeft(l, now, b);
    }
    forall c | ok(c) && Cancels(c)
      ensures exists l: ValidLoop, b ::
                From(b, ok) && Ends(l, now, b) && !NoneDue(End(l, now, b).ledger.loop.timers, now)
    {
      var l := ThreeArmed(now, c.id);
      CancelSkipsDue(now, c.id);
      EndIs(l, now, Always(c), 2);
      assert l.timers[2] in End(l, now, Always(c)).ledger.loop.timers;
      assert From(Always(c), ok) && !NoneDue(End(l, now, Always(c)).ledger.loop.timers, now);
    }
  }

  /** There is room for eight timers. */
  lemma RoomForEight(l: ValidLoop, clock: nat, delay: nat, callback: nat)
    ensures SetTimer(l, clock, delay, callback).timers ==
            l.timers + if |l.timers| < 8 then [Timer(l.nextId, clock + delay, callback)] else []
  {
  }

  // Ids.

  /** The id of the k-th timer armed, counting from 0: they go round and leave out 0. */
  function IdAt(k: nat): (id: nat)
    ensures IsId(id)
  {
    k % (ID_LIMIT - 1) + 1
  }

  lemma NextIdAt(k: nat)
    ensures IdAt(k + 1) == if IdAt(k) + 1 == ID_LIMIT then 1 else IdAt(k) + 1
  {
  }

  /** From an empty loop on, set_timer has given out the ids in turn, whatever was cancelled in between. */
  ghost predicate IdsInTurn(g: Ledger) {
    && g.loop.nextId == IdAt(|g.armed|)
    && (forall k :: 0 <= k < |g.armed| ==> g.armed[k].id == IdAt(k))
    && (forall t :: t in g.loop.timers ==> t in g.armed)
  }

  lemma {:induction false} CallsKeepIds(g: Ledger, calls: seq<Call>)
    requires IdsInTurn(g)
    ensures IdsInTurn(PerformAll(g, calls))
    decreases |calls|
  {
    hide IdAt, SwapRemove, FirstWith;
    if calls != [] {
      NextIdAt(|g.armed|);
      RemovedIn(g.loop);
      CallsKeepIds(Perform(g, calls[0]), calls[1..]);
    }
  }

  lemma RemovedIn(l: ValidLoop)
    ensures forall i: nat, t :: i < |l.timers| && t in SwapRemove(l.timers, i) ==> t in l.timers
  {
  }

  /** So among any 2^32 - 1 timers armed in a row no two have the same id. */
  lemma IdsDiffer(i: nat, k: nat)
    requires i < k < i + ID_LIMIT - 1
    ensures IdAt(i) != IdAt(k)
  {
  }

  /** While ids differ, cancelling one removes the timer that has it and no other. */
  lemma CancelRemoves(l: ValidLoop, id: nat, t: Timer)
    requires forall i, j :: 0 <= i < j < |l.timers| ==> l.timers[i].id != l.timers[j].id
    ensures t in CancelTimer(l, id).timers <==> t in l.timers && t.id != id
  {
    FirstIs(l.timers, id);
    var i := FirstWith(l.timers, id);
    if i < |l.timers| {
      var r := SwapRemove(l.timers, i);
      var last := |l.timers| - 1;
      if t in l.timers && t.id != id {
        var j :| 0 <= j < |l.timers| && l.timers[j] == t;
        assert r[if j == last then i else j] == t;
      }
    }
  }

  lemma {:induction false} FirstIs(ts: seq<Timer>, id: nat)
    ensures var i := FirstWith(ts, id);
            (forall j :: 0 <= j < i ==> ts[j].id != id) && (i < |ts| ==> ts[i].id == id)
  {
    if ts != [] && ts[0].id != id {
      FirstIs(ts[1..], id);
    }
  }
}
