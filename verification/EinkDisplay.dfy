/** The driver and the refresh manager as objects, every method proved against RefreshPolicy. */
module EinkDisplay {
  import opened Blocks
  import opened Numbers
  import opened Options
  import opened Geometry
  import opened Nibbles
  import opened Pixmaps
  import opened RefreshPolicy

  /** The driver: the surface it maps and the panel, which an update brings up to date. */
  class Driver {
    const width: nat
    const height: nat
    var surface: seq<bv8>
    var panel: Picture

    ghost function Surface(): Raster
      reads this
    {
      Raster(width, height, surface)
    }

    ghost predicate Valid()
      reads this
    {
      Surface().Valid()
    }

    constructor (w: nat, h: nat, panel: Picture)
      requires w % 2 == 0
      ensures Valid() && Surface() == Raster(w, h, Fill(RowStart(h, Stride(w)), 0xFF)) && this.panel == panel
    {
      CopyFits(w, h);
      width, height := w, h;
      surface := Fill(w * h / 2, 0xFF);
      this.panel := panel;
    }

    method UpdateFull() returns (ok: bool)
      requires Valid()
      modifies this`panel
      ensures ok && panel == Refreshed(old(panel), Surface(), Full)
    {
      panel := Refreshed(panel, Raster(width, height, surface), Full);
      return true;
    }

    method UpdateArea(area: Rect) returns (ok: bool)
      requires Valid()
      modifies this`panel
      ensures ok && panel == Refreshed(old(panel), Surface(), Partial(area))
    {
      panel := Refreshed(panel, Raster(width, height, surface), Partial(area));
      return true;
    }
  }

  /**
    The driver's surface takes width * height / 2 bytes, the canvas copied into it Stride(width) a row. The
    copy fits exactly when the width is even (or there are no rows at all), and then fills the surface.
    */
  lemma CopyFits(w: nat, h: nat)
    ensures RowStart(h, Stride(w)) <= w * h / 2 <==> w % 2 == 0 || h == 0
    ensures w % 2 == 0 ==> RowStart(h, Stride(w)) == w * h / 2
  {
    hide RowStart;
    var k := w / 2;
    RowStartIsProduct(h, Stride(w));
    Distribute(k, w - k, h);
    if w % 2 == 1 {
      Distribute(k, 1, h);
      assert Stride(w) == k + 1;
    } else {
      assert Stride(w) == k;
    }
    HalfOf(k * h, w * h - 2 * (k * h));
  }

  lemma HalfOf(p: nat, h: nat)
    ensures p + h <= (2 * p + h) / 2 <==> h == 0
    ensures h == 0 ==> (2 * p + h) / 2 == p
  {
  }

  lemma Distribute(a: nat, b: nat, h: nat)
    ensures (a + b) * h == a * h + b * h
  {
  }

  /** The refresh manager. */
  class EinkDisplay {
    const bounds: Rect
    const driver: Driver
    const config: RefreshConfig
    var dirtyRegion: Option<Rect>
    var partialUpdatesCount: nat
    ghost var marks: seq<Rect>
    ghost var log: seq<Update>

    ghost function Abs(): Display
      reads this
    {
      Display(bounds, config, dirtyRegion, partialUpdatesCount, marks, log)
    }

    constructor (width: nat, height: nat, driver: Driver, config: RefreshConfig)
      ensures Abs() == Initial(width, height, config) && this.driver == driver
    {
      bounds, this.driver, this.config := Rect(0, 0, width, height), driver, config;
      dirtyRegion, partialUpdatesCount := None, 0;
      marks, log := [], [];
    }

    method MarkDirty(box: Rect)
      modifies this`dirtyRegion, this`marks
      ensures Abs() == RefreshPolicy.MarkDirty(old(Abs()), box)
    {
      hide Intersection;
      marks := marks + [box];
      var clipped := Clip(box, bounds);
      if clipped.IsEmpty() {
        return;
      }
      var x1 := EvenDown(clipped.x);
      var x2 := EvenUp(clipped.x + clipped.width);
      var y1 := clipped.y;
      var y2 := clipped.y + clipped.height;
      var alignedBox := Rect(x1, y1, x2 - x1, y2 - y1);
      if dirtyRegion.None? {
        dirtyRegion := Some(alignedBox);
        return;
      }
      var region := dirtyRegion.value;
      var ux1 := Min(region.x, alignedBox.x);
      var uy1 := Min(region.y, alignedBox.y);
      var ux2 := Max(region.x + region.width, alignedBox.x + alignedBox.width);
      var uy2 := Max(region.y + region.height, alignedBox.y + alignedBox.height);
      dirtyRegion := Some(Rect(ux1, uy1, ux2 - ux1, uy2 - uy1));
    }

    method ShouldEscalateToFull(area: Rect) returns (full: bool)
      requires bounds.width >= 0 && bounds.height >= 0
      ensures full == Escalates(Abs(), area)
    {
      if !config.autoFull {
        return false;
      }
      if partialUpdatesCount + 1 >= config.partialLimit {
        return true;
      }
      var totalPixels := bounds.width * bounds.height;
      if totalPixels <= 0 {
        return false;
      }
      return config.tooLarge(area);
    }

    method Flush() returns (ok: bool)
      requires driver.Valid() && bounds.width >= 0 && bounds.height >= 0
      modifies this, driver`panel
      ensures ok && Abs() == RefreshPolicy.Flush(old(Abs()))
      ensures driver.panel == Flushed(old(driver.panel), driver.Surface(), old(Abs()))
    {
      hide Escalates, Refreshed;
      if dirtyRegion.None? {
        marks := [];
        return true;
      }
      var area := dirtyRegion.value;
      var full := ShouldEscalateToFull(area);
      dirtyRegion := None;
      marks := [];
      if full {
        partialUpdatesCount := 0;
        log := log + [Full];
        ok := driver.UpdateFull();
      } else {
        partialUpdatesCount := partialUpdatesCount + 1;
        log := log + [Partial(area)];
        ok := driver.UpdateArea(area);
      }
    }

    method RefreshFull() returns (ok: bool)
      requires driver.Valid()
      modifies this, driver`panel
      ensures ok && Abs() == RefreshPolicy.RefreshFull(old(Abs()))
      ensures driver.panel == Refreshed(old(driver.panel), driver.Surface(), Full)
    {
      dirtyRegion := None;
      marks := [];
      partialUpdatesCount := 0;
      log := log + [Full];
      ok := driver.UpdateFull();
    }
  }
}
