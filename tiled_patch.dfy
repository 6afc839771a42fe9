/**
 The tiled-patch background compositor of script_original.js.

 Tile centres sit on every multiple of `ResolutionMin` inside the frame,
 starting at (`ResolutionMin`, `ResolutionMin`). Each centre owns a square
 search window of half-width `SearchOffset`, clamped to the frame. A window
 holding no person pixel is clean and is copied from the live frame, with
 alpha forced to opaque; a dirty window is left alone.
 */
module TiledPatch {
  import opened Frame

  /** Side of the square searched around each tile centre; must be even. */
  const SearchRadius := 300

  /** Half-width of a search window. */
  const SearchOffset := SearchRadius / 2

  /** Distance between neighbouring tile centres. */
  const ResolutionMin := 20

  /** Whether `t` is a tile-centre coordinate along an axis of length `dim`. */
  predicate IsTileCentre(t: int, dim: int)
  {
    ResolutionMin <= t < dim && t % ResolutionMin == 0
  }

  /** Inclusive lower end of the window around centre `t`, clamped at 0. */
  function WindowLo(t: int): (lo: int)
    requires 0 <= t
    ensures 0 <= lo <= t
    ensures lo == 0 || lo == t - SearchOffset
    ensures t - SearchOffset <= lo
  {
    var lo := t - SearchOffset;
    if lo < 0 then 0 else lo
  }

  /** Exclusive upper end of the window around centre `t`, clamped at `dim`. */
  function WindowHi(t: int, dim: int): (hi: int)
    requires 0 <= t < dim
    ensures t < hi <= dim
    ensures hi == dim || hi == t + SearchOffset
    ensures hi <= t + SearchOffset
  {
    var hi := t + SearchOffset;
    if hi > dim then dim else hi
  }

  /** Whether coordinate `p` lies in the window around centre `t`. */
  predicate InWindow(t: int, dim: int, p: int)
    requires 0 <= t < dim
  {
    WindowLo(t) <= p < WindowHi(t, dim)
  }

  /** A tile is clean when no pixel of its window is a person pixel. */
  ghost predicate TileClean(mask: seq<int>, w: int, h: int, tx: int, ty: int)
    requires |mask| == w * h && 0 <= tx < w && 0 <= ty < h
  {
    forall i, j :: InWindow(tx, w, i) && InWindow(ty, h, j) ==> !IsBody(mask, w, h, i, j)
  }

  /** Whether the clean tile centred at (tx, ty) covers pixel (x, y). */
  ghost predicate CleanTileCovers(mask: seq<int>, w: int, h: int, tx: int, ty: int, x: int, y: int)
    requires |mask| == w * h
  {
    && IsTileCentre(tx, w) && IsTileCentre(ty, h)
    && InWindow(tx, w, x) && InWindow(ty, h, y)
    && TileClean(mask, w, h, tx, ty)
  }

  /** A pixel is refreshed when the window of at least one clean tile holds it. */
  ghost predicate TiledRefreshes(mask: seq<int>, w: int, h: int, x: int, y: int)
    requires |mask| == w * h
  {
    exists tx, ty :: CleanTileCovers(mask, w, h, tx, ty, x, y)
  }

  /**
   Whether a clean tile visited before tile (x, y) covers pixel (px, py);
   tiles are visited column by column, row by row within a column.
   */
  ghost predicate CoveredBefore(mask: seq<int>, w: int, h: int, x: int, y: int, px: int, py: int)
    requires |mask| == w * h
  {
    exists tx, ty :: (tx < x || (tx == x && ty < y)) && CleanTileCovers(mask, w, h, tx, ty, px, py)
  }

  /** Two multiples of `ResolutionMin` less than `ResolutionMin` apart are equal. */
  lemma SameMultiple(a: int, b: int)
    requires a % ResolutionMin == 0 && b % ResolutionMin == 0
    requires a <= b < a + ResolutionMin
    ensures a == b
  {
  }

  lemma CoveredBeforeNextRowAt(mask: seq<int>, w: int, h: int, x: int, y: int, px: int, py: int)
    requires |mask| == w * h && IsTileCentre(x, w) && IsTileCentre(y, h)
    ensures CoveredBefore(mask, w, h, x, y + ResolutionMin, px, py) <==>
      CoveredBefore(mask, w, h, x, y, px, py) || CleanTileCovers(mask, w, h, x, y, px, py)
  {
    if CoveredBefore(mask, w, h, x, y + ResolutionMin, px, py) {
      var tx, ty :| (tx < x || (tx == x && ty < y + ResolutionMin)) && CleanTileCovers(mask, w, h, tx, ty, px, py);
      if tx == x && y <= ty {
        SameMultiple(y, ty);
      }
    }
    if CleanTileCovers(mask, w, h, x, y, px, py) {
      assert (x == x && y < y + ResolutionMin) && CleanTileCovers(mask, w, h, x, y, px, py);
    }
  }

  /** Visiting tile (x, y) adds exactly the pixels its window covers, when it is clean. */
  lemma CoveredBeforeNextRow(mask: seq<int>, w: int, h: int, x: int, y: int)
    requires |mask| == w * h && IsTileCentre(x, w) && IsTileCentre(y, h)
    ensures forall px, py ::
      CoveredBefore(mask, w, h, x, y + ResolutionMin, px, py) <==>
        CoveredBefore(mask, w, h, x, y, px, py) || CleanTileCovers(mask, w, h, x, y, px, py)
  {
    forall px, py
      ensures CoveredBefore(mask, w, h, x, y + ResolutionMin, px, py) <==>
        CoveredBefore(mask, w, h, x, y, px, py) || CleanTileCovers(mask, w, h, x, y, px, py)
    {
      CoveredBeforeNextRowAt(mask, w, h, x, y, px, py);
    }
  }

  lemma CoveredBeforeNextColumnAt(mask: seq<int>, w: int, h: int, x: int, y: int, px: int, py: int)
    requires |mask| == w * h && x % ResolutionMin == 0 && h <= y
    ensures CoveredBefore(mask, w, h, x, y, px, py) <==>
      CoveredBefore(mask, w, h, x + ResolutionMin, ResolutionMin, px, py)
  {
    if CoveredBefore(mask, w, h, x + ResolutionMin, ResolutionMin, px, py) {
      var tx, ty :| (tx < x + ResolutionMin || (tx == x + ResolutionMin && ty < ResolutionMin))
        && CleanTileCovers(mask, w, h, tx, ty, px, py);
      if x < tx {
        SameMultiple(x, tx);
      }
      assert (tx < x || (tx == x && ty < y)) && CleanTileCovers(mask, w, h, tx, ty, px, py);
    }
    if CoveredBefore(mask, w, h, x, y, px, py) {
      var tx, ty :| (tx < x || (tx == x && ty < y)) && CleanTileCovers(mask, w, h, tx, ty, px, py);
      assert tx < x + ResolutionMin && CleanTileCovers(mask, w, h, tx, ty, px, py);
    }
  }

  /** Once a whole column of tiles is visited, the tiles before the next column are the same. */
  lemma CoveredBeforeNextColumn(mask: seq<int>, w: int, h: int, x: int, y: int)
    requires |mask| == w * h && x % ResolutionMin == 0 && h <= y
    ensures forall px, py ::
      CoveredBefore(mask, w, h, x, y, px, py) <==>
        CoveredBefore(mask, w, h, x + ResolutionMin, ResolutionMin, px, py)
  {
    forall px, py
      ensures CoveredBefore(mask, w, h, x, y, px, py) <==>
        CoveredBefore(mask, w, h, x + ResolutionMin, ResolutionMin, px, py)
    {
      CoveredBeforeNextColumnAt(mask, w, h, x, y, px, py);
    }
  }

  /**
   The test at script_original.js:100-111: whether some pixel of the window
   [xMin, xMax) x [yMin, yMax) is a person pixel. The `break` leaves only the
   inner loop; later columns are still scanned, and the answer is the same.
   */
  method WindowHasBody(mask: array<int>, w: int, h: int, xMin: int, xMax: int, yMin: int, yMax: int)
    returns (foundBodyPartNearby: bool)
    requires mask.Length == w * h
    requires 0 <= xMin <= xMax <= w && 0 <= yMin <= yMax <= h
    ensures foundBodyPartNearby <==>
      exists i, j :: xMin <= i < xMax && yMin <= j < yMax && IsBody(mask[..], w, h, i, j)
  {
    ghost var m := mask[..];
    foundBodyPartNearby := false;
    ghost var bi, bj := 0, 0;  // a person pixel, once one is found
    var i := xMin;
    while i < xMax
      invariant xMin <= i <= xMax
      invariant foundBodyPartNearby ==> xMin <= bi < xMax && yMin <= bj < yMax && IsBody(m, w, h, bi, bj)
      invariant !foundBodyPartNearby ==>
        forall i', j :: xMin <= i' < i && yMin <= j < yMax ==> !IsBody(m, w, h, i', j)
    {
      var j := yMin;
      while j < yMax
        invariant yMin <= j <= yMax
        invariant foundBodyPartNearby ==> xMin <= bi < xMax && yMin <= bj < yMax && IsBody(m, w, h, bi, bj)
        invariant !foundBodyPartNearby ==>
          forall i', j' :: (xMin <= i' < i || i' == i) && yMin <= j' < j ==> !IsBody(m, w, h, i', j')
      {
        var offset := Offset(w, h, i, j);
        if mask[offset] != 0 {
          foundBodyPartNearby := true;
          bi, bj := i, j;
          break;
        }
        j := j + 1;
      }
      i := i + 1;
    }
  }

  /**
   The update at script_original.js:115-124: refreshes every pixel of the
   window [xMin, xMax) x [yMin, yMax) and no other.
   */
  method RefreshWindow(data: array<int>, live: array<int>, w: int, h: int,
                       xMin: int, xMax: int, yMin: int, yMax: int)
    requires 0 <= w && 0 <= h && data.Length == 4 * w * h && live.Length == data.Length
    requires data != live
    requires 0 <= xMin <= xMax <= w && 0 <= yMin <= yMax <= h
    modifies data
    ensures forall x, y :: 0 <= x < w && 0 <= y < h ==>
      PixelAt(data[..], Offset(w, h, x, y)) ==
        if xMin <= x < xMax && yMin <= y < yMax then Refreshed(live[..], Offset(w, h, x, y))
        else PixelAt(old(data[..]), Offset(w, h, x, y))
  {
    ghost var prior := data[..];
    var i := xMin;
    while i < xMax
      invariant xMin <= i <= xMax
      invariant live[..] == old(live[..])
      invariant forall x, y :: 0 <= x < w && 0 <= y < h ==>
        PixelAt(data[..], Offset(w, h, x, y)) ==
          if xMin <= x < i && yMin <= y < yMax then Refreshed(live[..], Offset(w, h, x, y))
          else PixelAt(prior, Offset(w, h, x, y))
    {
      var j := yMin;
      while j < yMax
        invariant yMin <= j <= yMax
        invariant live[..] == old(live[..])
        invariant forall x, y :: 0 <= x < w && 0 <= y < h ==>
          PixelAt(data[..], Offset(w, h, x, y)) ==
            if ((xMin <= x < i && yMin <= y < yMax) || (x == i && yMin <= y < j))
            then Refreshed(live[..], Offset(w, h, x, y))
            else PixelAt(prior, Offset(w, h, x, y))
      {
        var offset := Offset(w, h, i, j);
        OtherOffsets(w, h, i, j);
        RefreshPixel(data, live, offset);
        j := j + 1;
      }
      i := i + 1;
    }
  }

  /**
   One iteration of the tile loop of script_original.js:83-140 for the tile
   centred at (x, y): clamp its window, test it, and refresh it when clean.
   */
  method ProcessTile(mask: array<int>, live: array<int>, data: array<int>, w: int, h: int, x: int, y: int)
    requires 0 <= w && 0 <= h && mask.Length == w * h
    requires data.Length == 4 * w * h && live.Length == data.Length
    requires data != live && data != mask
    requires IsTileCentre(x, w) && IsTileCentre(y, h)
    modifies data
    ensures forall px, py :: 0 <= px < w && 0 <= py < h ==>
      PixelAt(data[..], Offset(w, h, px, py)) ==
        if CleanTileCovers(mask[..], w, h, x, y, px, py) then Refreshed(live[..], Offset(w, h, px, py))
        else PixelAt(old(data[..]), Offset(w, h, px, py))
  {
    var yMin := y - SearchOffset;
    yMin := if yMin < 0 then 0 else yMin;
    var yMax := y + SearchOffset;
    yMax := if yMax > h then h else yMax;
    var xMin := x - SearchOffset;
    xMin := if xMin < 0 then 0 else xMin;
    var xMax := x + SearchOffset;
    xMax := if xMax > w then w else xMax;
    assert xMin == WindowLo(x) && xMax == WindowHi(x, w);
    assert yMin == WindowLo(y) && yMax == WindowHi(y, h);

    var foundBodyPartNearby := WindowHasBody(mask, w, h, xMin, xMax, yMin, yMax);
    assert !foundBodyPartNearby <==> TileClean(mask[..], w, h, x, y);
    if !foundBodyPartNearby {
      RefreshWindow(data, live, w, h, xMin, xMax, yMin, yMax);
    }
  }

  /** After the last column every tile has been visited. */
  lemma CoveredBeforeEnd(mask: seq<int>, w: int, h: int, x: int)
    requires |mask| == w * h && w <= x
    ensures forall px, py ::
      CoveredBefore(mask, w, h, x, ResolutionMin, px, py) <==> TiledRefreshes(mask, w, h, px, py)
  {
  }

  /**
   The buffer `buf` holds the live colour at every pixel that a clean tile
   visited before tile (x, y) covers, and its `prior` value everywhere else.
   */
  ghost predicate RefreshedBefore(buf: seq<int>, prior: seq<int>, live: seq<int>, mask: seq<int>,
                                  w: int, h: int, x: int, y: int)
    requires 0 <= w && 0 <= h && |mask| == w * h
    requires |buf| == |prior| == |live| == 4 * w * h
  {
    forall px, py :: 0 <= px < w && 0 <= py < h ==>
      PixelAt(buf, Offset(w, h, px, py)) ==
        if CoveredBefore(mask, w, h, x, y, px, py) then Refreshed(live, Offset(w, h, px, py))
        else PixelAt(prior, Offset(w, h, px, py))
  }

  lemma RefreshedBeforeNextRow(buf: seq<int>, next: seq<int>, prior: seq<int>, live: seq<int>, mask: seq<int>,
                               w: int, h: int, x: int, y: int)
    requires 0 <= w && 0 <= h && |mask| == w * h
    requires |buf| == |next| == |prior| == |live| == 4 * w * h
    requires IsTileCentre(x, w) && IsTileCentre(y, h)
    requires RefreshedBefore(buf, prior, live, mask, w, h, x, y)
    requires forall px, py :: 0 <= px < w && 0 <= py < h ==>
      PixelAt(next, Offset(w, h, px, py)) ==
        if CleanTileCovers(mask, w, h, x, y, px, py) then Refreshed(live, Offset(w, h, px, py))
        else PixelAt(buf, Offset(w, h, px, py))
    ensures RefreshedBefore(next, prior, live, mask, w, h, x, y + ResolutionMin)
  {
    CoveredBeforeNextRow(mask, w, h, x, y);
  }

  /**
   processSegmentation of script_original.js: visits every tile, tests its
   window and refreshes the window when it is clean. A pixel ends up refreshed
   exactly when some clean tile's window holds it, whatever the visiting order.
   */
  method ProcessSegmentation(mask: array<int>, live: array<int>, data: array<int>, w: int, h: int)
    requires 0 <= w && 0 <= h && mask.Length == w * h
    requires data.Length == 4 * w * h && live.Length == data.Length
    requires data != live && data != mask
    modifies data
    ensures forall x, y :: 0 <= x < w && 0 <= y < h ==>
      PixelAt(data[..], Offset(w, h, x, y)) ==
        if TiledRefreshes(mask[..], w, h, x, y) then Refreshed(live[..], Offset(w, h, x, y))
        else PixelAt(old(data[..]), Offset(w, h, x, y))
    ensures w <= ResolutionMin || h <= ResolutionMin ==> data[..] == old(data[..])
  {
    ghost var m := mask[..];
    ghost var prior := data[..];
    ghost var l := live[..];
    var x := ResolutionMin;
    while x < w
      invariant ResolutionMin <= x && x % ResolutionMin == 0
      invariant mask[..] == m && live[..] == l
      invariant RefreshedBefore(data[..], prior, l, m, w, h, x, ResolutionMin)
    {
      var y := ResolutionMin;
      while y < h
        invariant ResolutionMin <= y && y % ResolutionMin == 0
        invariant mask[..] == m && live[..] == l
        invariant RefreshedBefore(data[..], prior, l, m, w, h, x, y)
      {
        ghost var before := data[..];
        ProcessTile(mask, live, data, w, h, x, y);
        RefreshedBeforeNextRow(before, data[..], prior, l, m, w, h, x, y);
        y := y + ResolutionMin;
      }
      CoveredBeforeNextColumn(m, w, h, x, y);
      x := x + ResolutionMin;
    }
    CoveredBeforeEnd(m, w, h, x);
    if w <= ResolutionMin || h <= ResolutionMin {
      forall px, py | 0 <= px < w && 0 <= py < h
        ensures PixelAt(data[..], Offset(w, h, px, py)) == PixelAt(prior, Offset(w, h, px, py))
      {
        NoTilesNoRefresh(m, w, h, px, py);
      }
      PixelsDetermineBuffer(w, h, data[..], prior);
    }
  }

  /** A person pixel lies in the window of every tile that covers it, so it is never refreshed. */
  lemma BodyNeverRefreshed(mask: seq<int>, w: int, h: int, x: int, y: int)
    requires |mask| == w * h && IsBody(mask, w, h, x, y)
    ensures !TiledRefreshes(mask, w, h, x, y)
  {
  }

  /** A frame no wider or no taller than `ResolutionMin` has no tiles: nothing is refreshed. */
  lemma NoTilesNoRefresh(mask: seq<int>, w: int, h: int, x: int, y: int)
    requires |mask| == w * h && (w <= ResolutionMin || h <= ResolutionMin)
    ensures !TiledRefreshes(mask, w, h, x, y)
  {
  }

  /**
   With an all-zero mask on a frame wider and taller than `ResolutionMin`,
   the windows cover the frame (`SearchOffset` is at least `ResolutionMin`),
   so every pixel is refreshed.
   */
  lemma {:induction false} CleanFrameRefreshesAll(mask: seq<int>, w: int, h: int, x: int, y: int)
    requires |mask| == w * h && ResolutionMin < w && ResolutionMin < h
    requires forall i, j :: !IsBody(mask, w, h, i, j)
    requires 0 <= x < w && 0 <= y < h
    ensures TiledRefreshes(mask, w, h, x, y)
  {
    var tx := if x < ResolutionMin then ResolutionMin else x - x % ResolutionMin;
    var ty := if y < ResolutionMin then ResolutionMin else y - y % ResolutionMin;
    assert CleanTileCovers(mask, w, h, tx, ty, x, y);
  }
}
