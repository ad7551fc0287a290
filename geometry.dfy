/**
 * Projection of track coordinates onto the 240x135 display, whose left
 * 180 columns hold the map and whose right 60 columns hold the sidebar, and
 * the static background layer baked from the track and pit-lane polylines.
 */
module Geometry {

  const ScreenWidth: int := 240
  const ScreenHeight: int := 135
  /** Width of the map area, left of the sidebar. */
  const MapAreaWidth: int := 180

  /** RGB565 colours of the baked layer. */
  const Background: int := 0x0000
  const TrackColour: int := 0x3186
  const PitColour: int := 0x7BEF
  const Accent: int := 0xFD20
  const PanelColour: int := 0x10A2

  datatype Point = Point(x: real, y: real)

  /** The globals `minX`, `minY`, `scale`, `offX` and `offY`. */
  datatype Projection = Projection(minX: real, minY: real, scale: real, offX: int, offY: int)

  /** A float stored into an `int`: truncation toward zero. */
  function Trunc(x: real): (n: int)
    ensures x >= 0.0 ==> n as real <= x < n as real + 1.0
    ensures x < 0.0 ==> n as real - 1.0 < x <= n as real
  {
    if x >= 0.0 then x.Floor else -((-x).Floor)
  }

  lemma TruncMonotonic(x: real, y: real)
    requires x <= y
    ensures Trunc(x) <= Trunc(y)
  {
  }

  /** An integer range survives truncation. */
  lemma TruncWithin(x: real, lo: int, hi: int)
    requires lo as real <= x <= hi as real
    ensures lo <= Trunc(x) <= hi
  {
    TruncMonotonic(lo as real, x);
    TruncMonotonic(x, hi as real);
  }

  /** A world distance in pixels. */
  function Scaled(d: real, scale: real): real
  {
    d * scale
  }

  lemma ScaledMonotonic(a: real, b: real, scale: real)
    requires a <= b && scale >= 0.0
    ensures Scaled(a, scale) <= Scaled(b, scale)
  {
  }

  /**
   * The fit of `loadSessionData`: the larger scale at which the track's
   * bounding box fits the 180x135 map area with a 10-pixel margin on every
   * side, centred. There is no guard against an empty extent, so the box
   * must have positive width and height.
   */
  function Fit(minX: real, maxX: real, minY: real, maxY: real): Projection
    requires maxX - minX > 0.0 && maxY - minY > 0.0
  {
    var scale := FitRatio(maxX - minX, maxY - minY);
    Projection(minX, minY, scale,
               Centre(180.0, Scaled(maxX - minX, scale)), Centre(135.0, Scaled(maxY - minY, scale)))
  }

  /** The smaller of the two axis ratios `(180 - 20) / mapW` and `(135 - 20) / mapH`. */
  function FitRatio(mapW: real, mapH: real): real
    requires mapW > 0.0 && mapH > 0.0
  {
    var scaleX := (180.0 - 20.0) / mapW;
    var scaleY := (135.0 - 20.0) / mapH;
    if scaleX < scaleY then scaleX else scaleY
  }

  /** The offset that centres a span of `used` pixels in `extent` pixels. */
  function Centre(extent: real, used: real): int
  {
    Trunc((extent - used) / 2.0)
  }

  /** `worldToScreen`: X grows rightwards, Y is flipped against the 135-pixel height, both truncated. */
  function WorldToScreen(p: Projection, wx: real, wy: real): (int, int)
  {
    (ScreenX(p, wx), ScreenY(p, wy))
  }

  function ScreenX(p: Projection, wx: real): int
  {
    Trunc(p.offX as real + Scaled(wx - p.minX, p.scale))
  }

  function ScreenY(p: Projection, wy: real): int
  {
    Trunc(ScreenHeight as real - (p.offY as real + Scaled(wy - p.minY, p.scale)))
  }

  /** The cull test of `drawReplay`: a dot is drawn only inside 0..240 x 0..135. */
  predicate OnScreen(s: (int, int))
  {
    !(s.0 < 0 || s.0 > ScreenWidth || s.1 < 0 || s.1 > ScreenHeight)
  }

  /**
   * The fitted ratio is positive, the scaled box overflows neither usable
   * axis (160 by 115 pixels) and fills at least one of them.
   */
  lemma FitRatioFills(mapW: real, mapH: real)
    requires mapW > 0.0 && mapH > 0.0
    ensures var s := FitRatio(mapW, mapH);
      && 0.0 < s
      && 0.0 < Scaled(mapW, s) <= 160.0 && 0.0 < Scaled(mapH, s) <= 115.0
      && (Scaled(mapW, s) == 160.0 || Scaled(mapH, s) == 115.0)
  {
    var scaleX, scaleY := 160.0 / mapW, 115.0 / mapH;
    assert mapW * scaleX == 160.0 && mapH * scaleY == 115.0;
    if scaleX < scaleY {
      assert mapH * scaleX <= mapH * scaleY;
    } else {
      assert mapW * scaleY <= mapW * scaleX;
    }
  }

  /** No larger scale fits: any scale above the fitted one overflows an axis. */
  lemma FitRatioLargest(mapW: real, mapH: real, bigger: real)
    requires mapW > 0.0 && mapH > 0.0 && bigger > FitRatio(mapW, mapH)
    ensures Scaled(mapW, bigger) > 160.0 || Scaled(mapH, bigger) > 115.0
  {
    var s := FitRatio(mapW, mapH);
    FitRatioFills(mapW, mapH);
    if Scaled(mapW, s) == 160.0 {
      assert mapW * s < mapW * bigger;
    } else {
      assert mapH * s < mapH * bigger;
    }
  }

  /** A span that leaves at least the two margins is centred at least one margin in. */
  lemma CentreWithin(extent: real, used: real)
    requires 0.0 <= used <= extent - 20.0
    ensures 10 <= Centre(extent, used)
    ensures Centre(extent, used) as real <= (extent - used) / 2.0 <= extent / 2.0
  {
    TruncMonotonic(10.0, (extent - used) / 2.0);
  }

  /**
   * The fitted projection: the box fills one usable axis and overflows
   * neither, and both offsets are at least the 10-pixel margin and less
   * than half the map area.
   */
  lemma FitScale(minX: real, maxX: real, minY: real, maxY: real)
    requires maxX - minX > 0.0 && maxY - minY > 0.0
    ensures var p := Fit(minX, maxX, minY, maxY);
      && 0.0 < p.scale
      && Scaled(maxX - minX, p.scale) <= 160.0 && Scaled(maxY - minY, p.scale) <= 115.0
      && (Scaled(maxX - minX, p.scale) == 160.0 || Scaled(maxY - minY, p.scale) == 115.0)
      && 10 <= p.offX < 90 && 10 <= p.offY < 68
  {
    FitRatioFills(maxX - minX, maxY - minY);
    CentreWithin(180.0, Scaled(maxX - minX, FitRatio(maxX - minX, maxY - minY)));
    CentreWithin(135.0, Scaled(maxY - minY, FitRatio(maxX - minX, maxY - minY)));
  }

  /** A column offset by at least the margin, within a span that leaves room for it, lies in 10..170. */
  lemma ColumnBound(off: int, d: real, used: real)
    requires 0.0 <= d <= used <= 160.0 && 10 <= off && off as real <= (180.0 - used) / 2.0
    ensures 10 <= Trunc(off as real + d) <= 170
  {
    TruncWithin(off as real + d, 10, 170);
  }

  /** A flipped row offset by at least the margin, within a span that leaves room for it, lies in 10..125. */
  lemma RowBound(off: int, d: real, used: real)
    requires 0.0 <= d <= used <= 115.0 && 10 <= off && off as real <= (135.0 - used) / 2.0
    ensures 10 <= Trunc(ScreenHeight as real - (off as real + d)) <= 125
  {
    TruncWithin(ScreenHeight as real - (off as real + d), 10, 125);
  }

  /**
   * Every point of the bounding box lands inside the map area with its
   * margin: columns 10..170 (left of the sidebar at 180) and rows 10..125.
   * In particular no such point is culled.
   */
  lemma BoxLandsInMapArea(minX: real, maxX: real, minY: real, maxY: real, wx: real, wy: real)
    requires maxX - minX > 0.0 && maxY - minY > 0.0
    requires minX <= wx <= maxX && minY <= wy <= maxY
    ensures var s := WorldToScreen(Fit(minX, maxX, minY, maxY), wx, wy);
      10 <= s.0 <= 170 && 10 <= s.1 <= 125 && OnScreen(s)
  {
    var scale := FitRatio(maxX - minX, maxY - minY);
    FitRatioFills(maxX - minX, maxY - minY);
    CentreWithin(180.0, Scaled(maxX - minX, scale));
    CentreWithin(135.0, Scaled(maxY - minY, scale));
    ScaledMonotonic(0.0, wx - minX, scale);
    ScaledMonotonic(wx - minX, maxX - minX, scale);
    ScaledMonotonic(0.0, wy - minY, scale);
    ScaledMonotonic(wy - minY, maxY - minY, scale);
    ColumnBound(Centre(180.0, Scaled(maxX - minX, scale)), Scaled(wx - minX, scale), Scaled(maxX - minX, scale));
    RowBound(Centre(135.0, Scaled(maxY - minY, scale)), Scaled(wy - minY, scale), Scaled(maxY - minY, scale));
  }

  /**
   * With a non-negative scale, screen X never decreases as world X grows and
   * screen Y never increases as world Y grows (north is up). Truncation can
   * map two different points to the same pixel, so neither is strict.
   */
  lemma ProjectionMonotonic(p: Projection, x1: real, y1: real, x2: real, y2: real)
    requires p.scale >= 0.0 && x1 <= x2 && y1 <= y2
    ensures WorldToScreen(p, x1, y1).0 <= WorldToScreen(p, x2, y2).0
    ensures WorldToScreen(p, x2, y2).1 <= WorldToScreen(p, x1, y1).1
  {
    ScaledMonotonic(x1 - p.minX, x2 - p.minX, p.scale);
    TruncMonotonic(p.offX as real + Scaled(x1 - p.minX, p.scale), p.offX as real + Scaled(x2 - p.minX, p.scale));
    ScaledMonotonic(y1 - p.minY, y2 - p.minY, p.scale);
    TruncMonotonic(ScreenHeight as real - (p.offY as real + Scaled(y2 - p.minY, p.scale)),
                   ScreenHeight as real - (p.offY as real + Scaled(y1 - p.minY, p.scale)));
  }

  /**
   * The flip is not strict: two points of the default fit whose heights
   * differ by less than a pixel's worth land on the same row.
   */
  lemma FlipNotStrict()
    ensures var p := Projection(0.0, 0.0, 1.0, 10, 10);
      ScreenY(p, 0.25) == ScreenY(p, 0.5) == 124
  {
    var p := Projection(0.0, 0.0, 1.0, 10, 10);
    assert ScreenHeight as real - (p.offY as real + Scaled(0.25 - p.minY, p.scale)) == 124.75;
    assert ScreenHeight as real - (p.offY as real + Scaled(0.5 - p.minY, p.scale)) == 124.5;
  }

  // ---------------------------------------------------------------------
  // The baked background

  /** The drawing calls `bakeTrack` issues. */
  datatype Draw =
    | FillScreen(colour: int)
    | Line(x1: int, y1: int, x2: int, y2: int, colour: int)
    | FillRect(x: int, y: int, w: int, h: int, colour: int)
    | VLine(x: int, y: int, h: int, colour: int)

  function Segment(p: Projection, a: Point, b: Point, colour: int): (d: Draw)
    ensures d.Line? && d.colour == colour
  {
    var s := WorldToScreen(p, a.x, a.y);
    var e := WorldToScreen(p, b.x, b.y);
    Line(s.0, s.1, e.0, e.1, colour)
  }

  /**
   * The segments of a polyline: one per pair of consecutive points, none for
   * fewer than two points, each joining the projections of its two points,
   * so consecutive segments share an end point.
   */
  function PathLines(p: Projection, path: seq<Point>, colour: int): (ls: seq<Draw>)
    ensures |ls| == if |path| > 1 then |path| - 1 else 0
    ensures forall i :: 0 <= i < |ls| ==> ls[i] == Segment(p, path[i], path[i + 1], colour)
  {
    if |path| <= 1 then []
    else [Segment(p, path[0], path[1], colour)] + PathLines(p, path[1..], colour)
  }

  /** Consecutive segments of a polyline meet: each starts where the previous one ends. */
  lemma PathLinesJoin(p: Projection, path: seq<Point>, colour: int, i: int)
    requires 0 <= i < |path| - 2
    ensures var ls := PathLines(p, path, colour);
      ls[i].Line? && ls[i + 1].Line? && ls[i].x2 == ls[i + 1].x1 && ls[i].y2 == ls[i + 1].y1
  {
    var ls := PathLines(p, path, colour);
    assert ls[i] == Segment(p, path[i], path[i + 1], colour);
    assert ls[i + 1] == Segment(p, path[i + 1], path[i + 2], colour);
  }

  /** The sidebar backdrop and its divider. */
  const Chrome: seq<Draw> := [FillRect(180, 0, 60, 135, PanelColour), VLine(180, 0, 135, Accent)]

  /** One of the two polyline loops of `bakeTrack`. */
  method DrawPath(cmds: seq<Draw>, p: Projection, path: seq<Point>, colour: int) returns (out: seq<Draw>)
    ensures out == cmds + PathLines(p, path, colour)
  {
    out := cmds;
    ghost var lines := PathLines(p, path, colour);
    if |path| > 1 {
      var i := 0;
      while i < |path| - 1
        invariant 0 <= i <= |path| - 1
        invariant out == cmds + lines[..i]
      {
        assert lines[..i + 1] == lines[..i] + [lines[i]];
        out := out + [Segment(p, path[i], path[i + 1], colour)];
        i := i + 1;
      }
      assert lines[..|path| - 1] == lines;
    } else {
      assert lines == [];
    }
  }

  /**
   * `bakeTrack`: clear the layer, draw the pit lane, then the track over it,
   * then the sidebar chrome. The layer is cleared first and the result
   * depends only on the projection and the two paths, so baking again
   * replaces the previous layer.
   */
  method BakeTrack(p: Projection, pit: seq<Point>, track: seq<Point>) returns (cmds: seq<Draw>)
    ensures cmds == [FillScreen(Background)] + PathLines(p, pit, PitColour)
                    + PathLines(p, track, TrackColour) + Chrome
  {
    cmds := [FillScreen(Background)];
    cmds := DrawPath(cmds, p, pit, PitColour);
    cmds := DrawPath(cmds, p, track, TrackColour);
    cmds := cmds + Chrome;
  }
}
