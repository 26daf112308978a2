/** What the refresh manager (graphics/eink_display.hpp) does: its region, its updates, and what they show. */
module RefreshPolicy {
  import opened Geometry
  import opened Options
  import opened Pixmaps

  /**
    The refresh policy. `tooLarge` says for which areas the share of the display reaches the threshold; it is
    any criterion, so that the rounding of the code's float division plays no part.
    */
  datatype RefreshConfig = RefreshConfig(partialLimit: nat, tooLarge: Rect -> bool, autoFull: bool)

  datatype Update = Full | Partial(area: Rect)

  /**
    The manager's state. `marks` (the rectangles marked since the last flush or full refresh) and `log` (every
    driver call) record the past; the code does not keep them.
    */
  datatype Display = Display(
    bounds: Rect, config: RefreshConfig,
    region: Option<Rect>, partials: nat,
    marks: seq<Rect>, log: seq<Update>)

  function Initial(width: nat, height: nat, config: RefreshConfig): Display {
    Display(Rect(0, 0, width, height), config, None, 0, [], [])
  }

  /** mark_dirty */
  function MarkDirty(d: Display, box: Rect): Display {
    var clipped := Intersection(box, d.bounds);
    var d' := d.(marks := d.marks + [box]);
    if clipped.IsEmpty() then d'
    else if d.region.None? then d'.(region := Some(Aligned(clipped)))
    else d'.(region := Some(Hull(d.region.value, Aligned(clipped))))
  }

  /** should_escalate_to_full */
  predicate Escalates(d: Display, area: Rect) {
    && d.config.autoFull
    && (d.partials + 1 >= d.config.partialLimit || (!d.bounds.IsEmpty() && d.config.tooLarge(area)))
  }

  /** Nothing is marked. */
  predicate Idle(d: Display) { d.region.None? && d.marks == [] }

  /** flush */
  function Flush(d: Display): (r: Display)
    ensures Idle(r) && r.bounds == d.bounds
  {
    if d.region.None? then d.(marks := [])
    else if Escalates(d, d.region.value) then
      d.(region := None, partials := 0, marks := [], log := d.log + [Full])
    else
      d.(region := None, partials := d.partials + 1, marks := [], log := d.log + [Partial(d.region.value)])
  }

  /** refresh_full */
  function RefreshFull(d: Display): (r: Display)
    ensures Idle(r) && r.bounds == d.bounds
  {
    d.(region := None, partials := 0, marks := [], log := d.log + [Full])
  }

  datatype Call = MarkCall(box: Rect) | FlushCall | RefreshFullCall

  function Step(d: Display, c: Call): Display {
    match c
    case MarkCall(box) => MarkDirty(d, box)
    case FlushCall => Flush(d)
    case RefreshFullCall => RefreshFull(d)
  }

  function Run(d: Display, calls: seq<Call>): Display
    decreases |calls|
  {
    if calls == [] then d else Run(Step(d, calls[0]), calls[1..])
  }

  /** A rectangle covers a list of marks: their parts on the display lie in it. */
  ghost predicate Covers(r: Rect, marks: seq<Rect>, bounds: Rect) {
    forall m :: m in marks ==> Within(Intersection(m, bounds), r)
  }

  /** The pending region is the least rectangle with even x edges that covers the marks. */
  ghost predicate RegionIsLeast(d: Display) {
    match d.region
    case None => forall m :: m in d.marks ==> Intersection(m, d.bounds).IsEmpty()
    case Some(r) =>
      && !r.IsEmpty() && EvenEdges(r) && Covers(r, d.marks, d.bounds)
      && forall r2 :: EvenEdges(r2) && Covers(r2, d.marks, d.bounds) ==> Within(r, r2)
  }

  /** The number of partial updates since the last full one. */
  function TrailingPartials(log: seq<Update>): (n: nat)
    ensures n <= |log|
    ensures forall i :: |log| - n <= i < |log| ==> log[i].Partial?
  {
    if log == [] || log[|log| - 1].Full? then 0 else TrailingPartials(log[..|log| - 1]) + 1
  }

  /** One of the updates number i, i+1, ..., to-1 is a full one. */
  ghost predicate HasFull(log: seq<Update>, i: nat, to: nat) {
    exists j :: i <= j < to && j < |log| && log[j].Full?
  }

  /** No L updates in a row are all partial. */
  ghost predicate FullEvery(log: seq<Update>, limit: nat) {
    forall i: nat, to: nat :: to == i + limit && to <= |log| ==> HasFull(log, i, to)
  }

  ghost predicate Inv(d: Display) {
    && RegionIsLeast(d)
    && d.partials == TrailingPartials(d.log)
    && (d.config.autoFull && d.config.partialLimit >= 1 ==>
          d.partials < d.config.partialLimit && FullEvery(d.log, d.config.partialLimit))
  }

  lemma InitialInv(width: nat, height: nat, config: RefreshConfig)
    ensures Inv(Initial(width, height, config))
  {
  }

  /** On a display of even width the least aligned box stays on the display. */
  lemma RegionOnDisplay(d: Display)
    requires RegionIsLeast(d) && d.region.Some? && EvenEdges(d.bounds)
    ensures Within(d.region.value, d.bounds)
  {
    assert Covers(d.bounds, d.marks, d.bounds);
  }

  lemma MarkKeepsRegion(d: Display, box: Rect)
    requires RegionIsLeast(d)
    ensures RegionIsLeast(MarkDirty(d, box))
  {
    hide Aligned, Hull, Intersection;
    var clipped := Intersection(box, d.bounds);
    var d' := MarkDirty(d, box);
    if clipped.IsEmpty() {
      forall r | Covers(r, d.marks, d.bounds) ensures Covers(r, d'.marks, d.bounds) {
      }
      forall r | Covers(r, d'.marks, d.bounds) ensures Covers(r, d.marks, d.bounds) {
        CoversPrefix(r, d.marks, box, d.bounds);
      }
    } else {
      MarkCovered(d, box);
      forall r2 | EvenEdges(r2) && Covers(r2, d'.marks, d.bounds) ensures Within(d'.region.value, r2) {
        CoversPrefix(r2, d.marks, box, d.bounds);
        AlignedIsLeast(clipped, r2);
        if d.region.Some? {
          AlignedNotEmpty(clipped);
          HullIsLeast(d.region.value, Aligned(clipped), r2);
        }
      }
    }
  }

  lemma CoversPrefix(r: Rect, marks: seq<Rect>, box: Rect, bounds: Rect)
    ensures Covers(r, marks + [box], bounds) <==> Covers(r, marks, bounds) && Within(Intersection(box, bounds), r)
  {
    assert forall m :: m in marks + [box] <==> m in marks || m == box;
  }

  lemma AlignedNotEmpty(a: Rect)
    requires !a.IsEmpty()
    ensures !Aligned(a).IsEmpty() && EvenEdges(Aligned(a)) && Within(a, Aligned(a))
  {
  }

  lemma HullOfEven(a: Rect, b: Rect)
    requires !a.IsEmpty() && !b.IsEmpty() && EvenEdges(a) && EvenEdges(b)
    ensures !Hull(a, b).IsEmpty() && EvenEdges(Hull(a, b)) && Within(a, Hull(a, b)) && Within(b, Hull(a, b))
  {
  }

  /** The new region is aligned and covers the old marks and the new one. */
  lemma MarkCovered(d: Display, box: Rect)
    requires RegionIsLeast(d) && !Intersection(box, d.bounds).IsEmpty()
    ensures var d' := MarkDirty(d, box);
            d'.region.Some? && !d'.region.value.IsEmpty() && EvenEdges(d'.region.value)
            && Covers(d'.region.value, d'.marks, d.bounds)
  {
    hide Aligned, Hull, Intersection;
    var clipped := Intersection(box, d.bounds);
    var r' := MarkDirty(d, box).region.value;
    AlignedNotEmpty(clipped);
    if d.region.Some? {
      HullOfEven(d.region.value, Aligned(clipped));
    }
    CoversPrefix(r', d.marks, box, d.bounds);
  }

  lemma LogGrows(log: seq<Update>, u: Update, limit: nat)
    requires FullEvery(log, limit) && limit >= 1
    requires u.Full? || TrailingPartials(log) + 1 < limit
    ensures FullEvery(log + [u], limit)
  {
    hide TrailingPartials;
    var log' := log + [u];
    forall i: nat, to: nat | to == i + limit && to <= |log'| ensures HasFull(log', i, to) {
      if to <= |log| {
        assert HasFull(log, i, to);
        var j :| i <= j < to && log[j].Full?;
        assert log'[j].Full?;
      } else if u.Full? {
        assert log'[|log|].Full?;
      } else {
        NotAllPartial(log, i, limit - 1);
        var j :| i <= j < |log| && log[j].Full?;
        assert log'[j].Full?;
      }
    }
  }

  /** A tail of the log longer than its trailing partial updates holds a full one. */
  lemma {:induction false} NotAllPartial(log: seq<Update>, i: nat, n: nat)
    requires i + n == |log| && TrailingPartials(log) < n
    ensures HasFull(log, i, |log|)
    decreases |log|
  {
    if log[|log| - 1].Partial? {
      var rest := log[..|log| - 1];
      NotAllPartial(rest, i, n - 1);
      var j :| i <= j < |rest| && rest[j].Full?;
      assert log[j].Full?;
    }
  }

  /** With nothing pending, marking a rectangle makes its part of the display the region. */
  lemma MarkWhenIdle(d: Display, box: Rect)
    requires Idle(d)
    ensures RegionIsLeast(MarkDirty(d, box)) && MarkDirty(d, box).marks == [box] && MarkDirty(d, box).bounds == d.bounds
  {
    MarkKeepsRegion(d, box);
  }

  lemma TrailingAppend(log: seq<Update>, u: Update)
    ensures TrailingPartials(log + [u]) == if u.Full? then 0 else TrailingPartials(log) + 1
  {
    assert (log + [u])[..|log|] == log;
  }

  lemma StepKeepsInv(d: Display, c: Call)
    requires Inv(d)
    ensures Inv(Step(d, c))
  {
    hide RegionIsLeast, FullEvery, TrailingPartials, MarkDirty;
    match c
    case MarkCall(box) =>
      MarkKeepsRegion(d, box);
      MarkKeepsRest(d, box);
    case FlushCall =>
      if d.region.Some? {
        var u := if Escalates(d, d.region.value) then Full else Partial(d.region.value);
        UpdateKeepsInv(d, u, Flush(d));
      } else {
        IdleIsLeast(Flush(d));
      }
    case RefreshFullCall => UpdateKeepsInv(d, Full, RefreshFull(d));
  }

  lemma IdleIsLeast(d: Display)
    requires Idle(d)
    ensures RegionIsLeast(d)
  {
  }

  lemma MarkKeepsRest(d: Display, box: Rect)
    ensures MarkDirty(d, box) == d.(marks := MarkDirty(d, box).marks, region := MarkDirty(d, box).region)
  {
  }

  lemma UpdateKeepsInv(d: Display, u: Update, d': Display)
    requires Inv(d)
    requires d' == d.(region := None, marks := [], log := d.log + [u],
                      partials := if u.Full? then 0 else d.partials + 1)
    requires u.Partial? && d.config.autoFull ==> d.partials + 1 < d.config.partialLimit
    ensures Inv(d')
  {
    hide FullEvery, TrailingPartials;
    TrailingAppend(d.log, u);
    if d.config.autoFull && d.config.partialLimit >= 1 {
      LogGrows(d.log, u, d.config.partialLimit);
    }
  }

  /**
    Over any run: the pending region is the least aligned box around the marks, and with automatic refresh
    and a limit of at least 1, every `limit` driver updates in a row include a full one.
    */
  lemma {:induction false} RunKeepsInv(d: Display, calls: seq<Call>)
    requires Inv(d)
    ensures Inv(Run(d, calls))
    decreases |calls|
  {
    if calls != [] {
      StepKeepsInv(d, calls[0]);
      RunKeepsInv(Step(d, calls[0]), calls[1..]);
    }
  }

  // What a flush does.

  lemma {:induction false} RunThen(d: Display, calls: seq<Call>, c: Call)
    ensures Run(d, calls + [c]) == Step(Run(d, calls), c)
    decreases |calls|
  {
    hide Step;
    if calls == [] {
      assert [] + [c] == [c] && [c][1..] == [];
    } else {
      assert (calls + [c])[1..] == calls[1..] + [c];
      RunThen(Step(d, calls[0]), calls[1..], c);
    }
  }

  /** The rectangles marked since the last flush or full refresh. */
  function MarkedSince(calls: seq<Call>): seq<Rect> {
    if calls == [] || !calls[|calls| - 1].MarkCall? then []
    else MarkedSince(calls[..|calls| - 1]) + [calls[|calls| - 1].box]
  }

  /** The manager knows the marks, its display and its configuration. */
  lemma {:induction false} RunRemembers(d: Display, calls: seq<Call>)
    requires d.marks == []
    ensures var e := Run(d, calls); e.marks == MarkedSince(calls) && e.bounds == d.bounds && e.config == d.config
    decreases |calls|
  {
    if calls != [] {
      var before, c := calls[..|calls| - 1], calls[|calls| - 1];
      assert calls == before + [c];
      RunRemembers(d, before);
      RunThen(d, before, c);
    }
  }

  /** The least rectangle with even x edges around the marks, where some mark reaches the display. */
  ghost predicate IsLeastBox(box: Rect, marks: seq<Rect>, bounds: Rect) {
    && !box.IsEmpty() && EvenEdges(box) && Covers(box, marks, bounds)
    && forall r2 :: EvenEdges(r2) && Covers(r2, marks, bounds) ==> Within(box, r2)
  }

  lemma LeastBoxIsOne(a: Rect, b: Rect, marks: seq<Rect>, bounds: Rect)
    requires IsLeastBox(a, marks, bounds) && IsLeastBox(b, marks, bounds)
    ensures a == b
  {
    assert Within(a, b) && Within(b, a);
    assert a.Contains(a.x, a.y) && b.Contains(b.x, b.y);
    assert a.Contains(a.Right() - 1, a.Bottom() - 1) && b.Contains(b.Right() - 1, b.Bottom() - 1);
  }

  lemma NoMarkNoBox(box: Rect, marks: seq<Rect>, bounds: Rect)
    requires IsLeastBox(box, marks, bounds)
    ensures exists m :: m in marks && !Intersection(m, bounds).IsEmpty()
  {
    var none := Rect(0, 0, 0, 0);
    assert Within(box, none) ==> !box.Contains(box.x, box.y);
    assert !Covers(none, marks, bounds);
  }

  /**
    A flush after any run, from its calls alone. With no mark on the display it updates nothing. Otherwise it makes
    one update: a full one when automatic refresh is on and the limit is reached, or the least aligned box around
    the marks is too large for a display that is not empty; else a partial one of that box.
    */
  lemma FlushDecides(width: nat, height: nat, config: RefreshConfig, calls: seq<Call>)
    ensures var d, marks := Run(Initial(width, height, config), calls), MarkedSince(calls);
            var bounds := Rect(0, 0, width, height);
            && ((forall m :: m in marks ==> Intersection(m, bounds).IsEmpty()) ==> Flush(d).log == d.log)
            && ((exists m :: m in marks && !Intersection(m, bounds).IsEmpty()) ==>
                 exists box :: IsLeastBox(box, marks, bounds)
                   && Flush(d).log == d.log +
                        [if config.autoFull && (TrailingPartials(d.log) + 1 >= config.partialLimit
                                                || (width > 0 && height > 0 && config.tooLarge(box)))
                         then Full else Partial(box)])
  {
    hide TrailingPartials, Intersection, MarkedSince, Run, FullEvery;
    var d0 := Initial(width, height, config);
    var d := Run(d0, calls);
    InitialInv(width, height, config);
    RunKeepsInv(d0, calls);
    RunRemembers(d0, calls);
    if d.region.Some? {
      assert IsLeastBox(d.region.value, d.marks, d.bounds);
      NoMarkNoBox(d.region.value, d.marks, d.bounds);
    }
  }

  /** A full refresh updates the whole display, whatever is pending, and nothing is pending after it. */
  lemma RefreshFullLogs(d: Display)
    ensures RefreshFull(d).log == d.log + [Full]
    ensures Inv(d) ==> Inv(RefreshFull(d))
  {
    hide FullEvery, TrailingPartials;
    if Inv(d) {
      StepKeepsInv(d, RefreshFullCall);
      assert Step(d, RefreshFullCall) == RefreshFull(d);
    }
  }

  // The panel.

  /** The pixels the panel shows. */
  type Picture = (int, int) -> bv8

  /** An update of a succeeding driver: it brings the pixels of its area to the panel. */
  function Refreshed(panel: Picture, surface: Raster, u: Update): Picture
    requires surface.Valid()
  {
    match u
    case Full => (x, y) => Get(surface, x, y)
    case Partial(area) => (x, y) => if area.Contains(x, y) then Get(surface, x, y) else panel(x, y)
  }

  /** The update flush makes, if any. */
  function FlushUpdate(d: Display): (u: Option<Update>)
    ensures Flush(d).log == d.log + (if u.None? then [] else [u.value])
  {
    if d.region.None? then None
    else if Escalates(d, d.region.value) then Some(Full)
    else Some(Partial(d.region.value))
  }

  /** The panel after flush. */
  function Flushed(panel: Picture, surface: Raster, d: Display): Picture
    requires surface.Valid()
  {
    if FlushUpdate(d).None? then panel else Refreshed(panel, surface, FlushUpdate(d).value)
  }

  /**
    A flush brings every marked pixel of the display to the panel, whether it is a partial or a full one;
    any other pixel it either brings too or leaves.
    */
  lemma FlushedPixel(panel: Picture, surface: Raster, d: Display, x: int, y: int)
    requires surface.Valid() && RegionIsLeast(d)
    ensures Flushed(panel, surface, d)(x, y) == Get(surface, x, y) || Flushed(panel, surface, d)(x, y) == panel(x, y)
    ensures (exists m :: m in d.marks && m.Contains(x, y)) && d.bounds.Contains(x, y) ==>
              Flushed(panel, surface, d)(x, y) == Get(surface, x, y)
  {
    hide Escalates, Get;
    if m :| m in d.marks && m.Contains(x, y) && d.bounds.Contains(x, y) {
      assert Intersection(m, d.bounds).Contains(x, y);
    }
  }

  /** The panel after a flush is what the update in the log brings: all of the display, its area, or nothing. */
  lemma FlushShowsUpdate(panel: Picture, surface: Surface, d: Display, x: int, y: int)
    ensures var p, log := Flushed(panel, surface, d)(x, y), Flush(d).log;
            && (log == d.log || exists u :: log == d.log + [u])
            && (log == d.log ==> p == panel(x, y))
            && (log == d.log + [Full] ==> p == Get(surface, x, y))
            && (forall a :: log == d.log + [Partial(a)] ==>
                  p == if a.Contains(x, y) then Get(surface, x, y) else panel(x, y))
  {
    hide Escalates, Get;
    var u := FlushUpdate(d);
    assert u.Some? ==> (d.log + [u.value])[|d.log|] == u.value;
    assert (d.log + [Full])[|d.log|] == Full;
    assert forall a {:trigger Partial(a)} :: (d.log + [Partial(a)])[|d.log|] == Partial(a);
  }
}
