/**
 The bounding-box background compositor of script.js.

 One pass over the person mask finds the tight box around every person pixel;
 the box is grown 1.3 times about its centre; a second pass refreshes every
 pixel of the background estimate `data` that lies outside the grown box (or
 every pixel, when the mask holds no person) from the live frame, forcing
 alpha to opaque. Pixels inside the grown box keep their last known value.
 */
module BoundingBox {
  import opened Frame

  /** Starting value of the running minimum of x and of y. */
  const Sentinel := 100000

  /** Growth factor of the box, exact rather than a double. */
  const Scale: real := 1.3

  /** Result of the mask scan: `found` and the running bounds. */
  datatype Bounds = Bounds(found: bool, minX: int, minY: int, maxX: int, maxY: int)

  /** The scan's state before it has looked at any pixel. */
  const Initial := Bounds(false, Sentinel, Sentinel, 0, 0)

  /** The grown box: top-left corner and size, in exact arithmetic. */
  datatype Box = Box(xMin: real, yMin: real, width: real, height: real)

  /**
   What the scan of the mask must produce: `found` holds exactly when some
   pixel is a person pixel; without one the bounds keep their starting values;
   with one, every person pixel lies within the bounds, the maxima are attained,
   each minimum is at most the sentinel, and it is attained unless it never
   dropped below the sentinel.
   */
  ghost predicate IsScanOf(mask: seq<int>, w: int, h: int, b: Bounds)
    requires |mask| == w * h
  {
    && (b.found <==> exists x, y :: IsBody(mask, w, h, x, y))
    && (!b.found ==> b == Initial)
    && (b.found ==>
          && (forall x, y :: IsBody(mask, w, h, x, y) ==>
                b.minX <= x <= b.maxX && b.minY <= y <= b.maxY)
          && (exists y :: IsBody(mask, w, h, b.maxX, y))
          && (exists x :: IsBody(mask, w, h, x, b.maxY))
          && b.minX <= Sentinel && b.minY <= Sentinel
          && (b.minX == Sentinel || exists y :: IsBody(mask, w, h, b.minX, y))
          && (b.minY == Sentinel || exists x :: IsBody(mask, w, h, x, b.minY)))
  }

  /**
   The first pass: visits column by column, row by row within a column, and
   widens the running bounds at every person pixel.
   */
  method ScanBounds(mask: array<int>, w: int, h: int) returns (b: Bounds)
    requires 0 <= w && 0 <= h && mask.Length == w * h
    ensures IsScanOf(mask[..], w, h, b)
  {
    ghost var m := mask[..];
    var minX, minY, maxX, maxY := Sentinel, Sentinel, 0, 0;
    var foundBody := false;
    // pixels at which each bound is attained
    ghost var yAtMinX, yAtMaxX, xAtMinY, xAtMaxY := 0, 0, 0, 0;
    var x := 0;
    while x < w
      invariant 0 <= x <= w
      invariant !foundBody ==> minX == Sentinel && minY == Sentinel && maxX == 0 && maxY == 0
      invariant !foundBody ==> forall i, j :: i < x && IsBody(m, w, h, i, j) ==> false
      invariant foundBody ==> forall i, j :: i < x && IsBody(m, w, h, i, j) ==>
        minX <= i <= maxX && minY <= j <= maxY
      invariant foundBody ==> IsBody(m, w, h, maxX, yAtMaxX) && IsBody(m, w, h, xAtMaxY, maxY)
      invariant minX <= Sentinel && minY <= Sentinel
      invariant minX == Sentinel || IsBody(m, w, h, minX, yAtMinX)
      invariant minY == Sentinel || IsBody(m, w, h, xAtMinY, minY)
    {
      var y := 0;
      while y < h
        invariant 0 <= y <= h
        invariant !foundBody ==> minX == Sentinel && minY == Sentinel && maxX == 0 && maxY == 0
        invariant !foundBody ==> forall i, j :: (i < x || (i == x && j < y)) && IsBody(m, w, h, i, j) ==> false
        invariant foundBody ==> forall i, j :: (i < x || (i == x && j < y)) && IsBody(m, w, h, i, j) ==>
          minX <= i <= maxX && minY <= j <= maxY
        invariant foundBody ==> IsBody(m, w, h, maxX, yAtMaxX) && IsBody(m, w, h, xAtMaxY, maxY)
        invariant minX <= Sentinel && minY <= Sentinel
        invariant minX == Sentinel || IsBody(m, w, h, minX, yAtMinX)
        invariant minY == Sentinel || IsBody(m, w, h, xAtMinY, minY)
      {
        var n := Offset(w, h, x, y);
        if mask[n] != 0 {
          if x < minX {
            minX := x;
          }
          if y < minY {
            minY := y;
          }
          if x > maxX {
            maxX := x;
          }
          if y > maxY {
            maxY := y;
          }
          foundBody := true;
          yAtMinX := if minX == x then y else yAtMinX;
          xAtMinY := if minY == y then x else xAtMinY;
          yAtMaxX := if maxX == x then y else yAtMaxX;
          xAtMaxY := if maxY == y then x else xAtMaxY;
        }
        y := y + 1;
      }
      x := x + 1;
    }
    b := Bounds(foundBody, minX, minY, maxX, maxY);
  }

  /**
   The scan specification pins the result down completely: two results that
   both meet it are the same, whatever the frame size.
   */
  lemma ScanIsUnique(mask: seq<int>, w: int, h: int, b1: Bounds, b2: Bounds)
    requires |mask| == w * h
    requires IsScanOf(mask, w, h, b1) && IsScanOf(mask, w, h, b2)
    ensures b1 == b2
  {
    if b1.found {
      var y1 :| IsBody(mask, w, h, b1.maxX, y1);
      var y2 :| IsBody(mask, w, h, b2.maxX, y2);
      var x1 :| IsBody(mask, w, h, x1, b1.maxY);
      var x2 :| IsBody(mask, w, h, x2, b2.maxY);
      if b1.minX != Sentinel {
        var j :| IsBody(mask, w, h, b1.minX, j);
      }
      if b2.minX != Sentinel {
        var j :| IsBody(mask, w, h, b2.minX, j);
      }
      if b1.minY != Sentinel {
        var i :| IsBody(mask, w, h, i, b1.minY);
      }
      if b2.minY != Sentinel {
        var i :| IsBody(mask, w, h, i, b2.minY);
      }
    }
  }

  /**
   The scan is tight on frames narrower and shorter than the sentinel: when a
   person is found, each of the four bounds is attained by a person pixel.
   */
  lemma ScanIsTight(mask: seq<int>, w: int, h: int, b: Bounds)
    requires 0 <= w <= Sentinel && 0 <= h <= Sentinel && |mask| == w * h
    requires IsScanOf(mask, w, h, b) && b.found
    ensures exists y :: IsBody(mask, w, h, b.minX, y)
    ensures exists x :: IsBody(mask, w, h, x, b.minY)
    ensures exists y :: IsBody(mask, w, h, b.maxX, y)
    ensures exists x :: IsBody(mask, w, h, x, b.maxY)
  {
    var x, y :| IsBody(mask, w, h, x, y);
    assert b.minX <= x < Sentinel && b.minY <= y < Sentinel;
  }

  /**
   The box grown 1.3 times about the centre of the tight box (script.js:101-116):
   same centre, each edge moved outwards by 3/20 of the tight extent.
   */
  function Grow(b: Bounds): (g: Box)
    ensures g.xMin + g.width / 2.0 == (b.minX + b.maxX) as real / 2.0
    ensures g.yMin + g.height / 2.0 == (b.minY + b.maxY) as real / 2.0
    ensures g.width == Scale * (b.maxX - b.minX) as real
    ensures g.height == Scale * (b.maxY - b.minY) as real
    ensures g.xMin == b.minX as real - 3.0 * (b.maxX - b.minX) as real / 20.0
    ensures g.xMin + g.width == b.maxX as real + 3.0 * (b.maxX - b.minX) as real / 20.0
    ensures g.yMin == b.minY as real - 3.0 * (b.maxY - b.minY) as real / 20.0
    ensures g.yMin + g.height == b.maxY as real + 3.0 * (b.maxY - b.minY) as real / 20.0
  {
    var width := (b.maxX - b.minX) as real;
    var height := (b.maxY - b.minY) as real;
    var newWidth := width * Scale;
    var newHeight := height * Scale;
    var offsetX := (newWidth - width) / 2.0;
    var offsetY := (newHeight - height) / 2.0;
    Box(b.minX as real - offsetX, b.minY as real - offsetY, newWidth, newHeight)
  }

  /** Whether (x, y) lies in the closed grown box. */
  predicate InsideBox(g: Box, x: int, y: int)
  {
    g.xMin <= x as real <= g.xMin + g.width && g.yMin <= y as real <= g.yMin + g.height
  }

  /**
   The condition of the first branch at script.js:124, with JavaScript's
   precedence: `(foundBody && xOutside) || yOutside`.
   */
  predicate FirstBranch(b: Bounds, x: int, y: int)
  {
    var g := Grow(b);
    (b.found && (x as real < g.xMin || x as real > g.xMin + g.width))
    || (y as real < g.yMin || y as real > g.yMin + g.height)
  }

  /** Whether the second pass refreshes pixel (x, y): the first branch or the `!foundBody` branch. */
  predicate Refreshes(b: Bounds, x: int, y: int)
  {
    FirstBranch(b, x, y) || !b.found
  }

  /**
   The two branches together refresh exactly the pixels outside the grown box,
   or every pixel when no person was found.
   */
  lemma RefreshesOutsideGrownBox(b: Bounds, x: int, y: int)
    ensures Refreshes(b, x, y) <==> !b.found || !InsideBox(Grow(b), x, y)
  {
  }

  /**
   With no person found, the sentinels give the grown box a top edge at 115000
   and a bottom edge at -15000, so every row lies above it or below it and the
   first branch alone already refreshes every pixel, whatever the frame size.
   */
  lemma NoBodyFirstBranchRefreshes(x: int, y: int)
    ensures Grow(Initial).yMin == 115000.0
    ensures Grow(Initial).yMin + Grow(Initial).height == -15000.0
    ensures FirstBranch(Initial, x, y)
  {
  }

  /**
   The second pass: refreshes each pixel the condition at script.js:124/133
   selects and leaves every other pixel as it was.
   */
  method RefreshOutside(data: array<int>, live: array<int>, w: int, h: int, b: Bounds)
    requires 0 <= w && 0 <= h && data.Length == 4 * w * h && live.Length == data.Length
    requires data != live
    modifies data
    ensures forall x, y :: 0 <= x < w && 0 <= y < h ==>
      PixelAt(data[..], Offset(w, h, x, y)) ==
        if Refreshes(b, x, y) then Refreshed(live[..], Offset(w, h, x, y))
        else PixelAt(old(data[..]), Offset(w, h, x, y))
  {
    ghost var prior := data[..];
    var g := Grow(b);
    var newXMin, newYMin, newWidth, newHeight := g.xMin, g.yMin, g.width, g.height;
    var foundBody := b.found;
    var x := 0;
    while x < w
      invariant 0 <= x <= w
      invariant live[..] == old(live[..])
      invariant forall i, j :: 0 <= i < w && 0 <= j < h ==>
        PixelAt(data[..], Offset(w, h, i, j)) ==
          if i < x && Refreshes(b, i, j) then Refreshed(live[..], Offset(w, h, i, j))
          else PixelAt(prior, Offset(w, h, i, j))
    {
      var y := 0;
      while y < h
        invariant 0 <= y <= h
        invariant live[..] == old(live[..])
        invariant forall i, j :: 0 <= i < w && 0 <= j < h ==>
          PixelAt(data[..], Offset(w, h, i, j)) ==
            if (i < x || (i == x && j < y)) && Refreshes(b, i, j) then Refreshed(live[..], Offset(w, h, i, j))
            else PixelAt(prior, Offset(w, h, i, j))
      {
        var n := Offset(w, h, x, y);
        OtherOffsets(w, h, x, y);
        // JavaScript binds && tighter than ||
        if (foundBody && (x as real < newXMin || x as real > newXMin + newWidth))
           || (y as real < newYMin || y as real > newYMin + newHeight) {
          RefreshPixel(data, live, n);
        } else if !foundBody {
          RefreshPixel(data, live, n);
        }
        y := y + 1;
      }
      x := x + 1;
    }
  }

  /**
   processSegmentation of script.js: scan the mask, then refresh the
   background estimate outside the grown box. `b` is the scan's result.
   */
  method ProcessSegmentation(mask: array<int>, live: array<int>, data: array<int>, w: int, h: int)
    returns (ghost b: Bounds)
    requires 0 <= w && 0 <= h && mask.Length == w * h
    requires data.Length == 4 * w * h && live.Length == data.Length
    requires data != live && data != mask
    modifies data
    ensures IsScanOf(mask[..], w, h, b)
    ensures forall x, y :: 0 <= x < w && 0 <= y < h ==>
      PixelAt(data[..], Offset(w, h, x, y)) ==
        if Refreshes(b, x, y) then Refreshed(live[..], Offset(w, h, x, y))
        else PixelAt(old(data[..]), Offset(w, h, x, y))
  {
    var bounds := ScanBounds(mask, w, h);
    b := bounds;
    RefreshOutside(data, live, w, h, bounds);
  }

  /** A person pixel lies inside the grown box, so it is never refreshed. */
  lemma BodyNeverRefreshed(mask: seq<int>, w: int, h: int, b: Bounds, x: int, y: int)
    requires |mask| == w * h && IsScanOf(mask, w, h, b)
    requires IsBody(mask, w, h, x, y)
    ensures b.found && InsideBox(Grow(b), x, y)
    ensures !Refreshes(b, x, y)
  {
  }

  /** With an all-zero mask every pixel is refreshed. */
  lemma NoBodyRefreshesAll(mask: seq<int>, w: int, h: int, b: Bounds, x: int, y: int)
    requires |mask| == w * h && IsScanOf(mask, w, h, b)
    requires forall i, j :: !IsBody(mask, w, h, i, j)
    ensures Refreshes(b, x, y)
  {
  }

  /**
   A mask with a single person pixel gives a zero-area box at that pixel; the
   inclusive inside test keeps exactly that pixel and refreshes all others.
   */
  lemma SinglePixelKeptAlone(mask: seq<int>, w: int, h: int, b: Bounds, px: int, py: int, x: int, y: int)
    requires 0 <= w <= Sentinel && 0 <= h <= Sentinel && |mask| == w * h
    requires IsScanOf(mask, w, h, b)
    requires forall i, j :: IsBody(mask, w, h, i, j) <==> i == px && j == py
    requires 0 <= x < w && 0 <= y < h
    ensures b == Bounds(true, px, py, px, py)
    ensures Refreshes(b, x, y) <==> (x != px || y != py)
  {
    assert IsBody(mask, w, h, px, py);
    ScanIsTight(mask, w, h, b);
  }

  /**
   A 4 x 4 frame whose mask marks only pixel (2, 2): the tight box is that
   single pixel, the grown box has zero area, and exactly pixel (2, 2) keeps
   its old value while its neighbours are refreshed.
   */
  lemma SinglePixelFourByFour(mask: seq<int>, b: Bounds)
    requires |mask| == 16 && mask[10] != 0
    requires forall k :: 0 <= k < 16 && k != 10 ==> mask[k] == 0
    requires IsScanOf(mask, 4, 4, b)
    ensures b == Bounds(true, 2, 2, 2, 2)
    ensures Grow(b) == Box(2.0, 2.0, 0.0, 0.0)
    ensures !Refreshes(b, 2, 2)
    ensures Refreshes(b, 1, 2) && Refreshes(b, 3, 2) && Refreshes(b, 2, 1) && Refreshes(b, 2, 3)
  {
    forall i, j
      ensures IsBody(mask, 4, 4, i, j) <==> i == 2 && j == 2
    {
      if 0 <= i < 4 && 0 <= j < 4 {
        assert Offset(4, 4, i, j) == 4 * j + i;
      }
    }
    SinglePixelKeptAlone(mask, 4, 4, b, 2, 2, 2, 2);
  }
}
