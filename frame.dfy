/**
 Pixel geometry shared by both background compositors.

 A frame of `w` by `h` pixels is stored row-major. The person mask holds one
 entry per pixel (pixel (x, y) at offset `y * w + x`, non-zero meaning
 "person"); an RGBA buffer holds four channels per pixel, pixel `n` at
 `4 * n .. 4 * n + 3`.
 */
module Frame {

  /** Alpha value written into every refreshed pixel: fully opaque. */
  const Opaque := 255

  /** The four channels of one pixel. */
  datatype Rgba = Rgba(r: int, g: int, b: int, a: int)

  lemma MulMonotone(a: int, b: int, c: int)
    requires a <= b && 0 <= c
    ensures a * c <= b * c
  {
  }

  /** Row-major offset of pixel (x, y); it is always a valid pixel index. */
  function Offset(w: int, h: int, x: int, y: int): (n: int)
    requires 0 <= x < w && 0 <= y < h
    ensures 0 <= n < w * h
    ensures 4 * n + 4 <= 4 * w * h
  {
    MulMonotone(y, h - 1, w);
    y * w + x
  }

  /** Two in-frame pixels share an offset only if they are the same pixel. */
  lemma OffsetInjective(w: int, h: int, x1: int, y1: int, x2: int, y2: int)
    requires 0 <= x1 < w && 0 <= y1 < h && 0 <= x2 < w && 0 <= y2 < h
    requires Offset(w, h, x1, y1) == Offset(w, h, x2, y2)
    ensures x1 == x2 && y1 == y2
  {
    if y1 < y2 {
      MulMonotone(y1 + 1, y2, w);
    } else if y2 < y1 {
      MulMonotone(y2 + 1, y1, w);
    }
  }

  /** Every pixel other than (x, y) lives at a different offset. */
  lemma OtherOffsets(w: int, h: int, x: int, y: int)
    requires 0 <= x < w && 0 <= y < h
    ensures forall i, j :: 0 <= i < w && 0 <= j < h && (i != x || j != y) ==>
      Offset(w, h, i, j) != Offset(w, h, x, y)
  {
    forall i, j | 0 <= i < w && 0 <= j < h && Offset(w, h, i, j) == Offset(w, h, x, y)
      ensures i == x && j == y
    {
      OffsetInjective(w, h, i, j, x, y);
    }
  }

  /** Every pixel index below `w * h` is the offset of some in-frame (x, y). */
  lemma {:induction false} EveryIndexIsAPixel(w: int, h: int, n: int)
    requires 0 <= w && 0 <= h && 0 <= n < w * h
    ensures exists x, y :: 0 <= x < w && 0 <= y < h && Offset(w, h, x, y) == n
  {
    assert w != 0;
    var x, y := n % w, n / w;
    if h <= y {
      MulMonotone(h, y, w);
      assert false;
    }
    assert Offset(w, h, x, y) == n;
  }

  /** Whether the mask marks in-frame pixel (x, y) as part of a person. */
  predicate IsBody(mask: seq<int>, w: int, h: int, x: int, y: int)
    requires |mask| == w * h
  {
    0 <= x < w && 0 <= y < h && mask[Offset(w, h, x, y)] != 0
  }

  /** The channels of pixel `n` in an RGBA buffer. */
  function PixelAt(buf: seq<int>, n: int): Rgba
    requires 0 <= n && 4 * n + 4 <= |buf|
  {
    Rgba(buf[4 * n], buf[4 * n + 1], buf[4 * n + 2], buf[4 * n + 3])
  }

  /** What a refresh stores in pixel `n`: the live colour, made opaque. */
  function Refreshed(live: seq<int>, n: int): Rgba
    requires 0 <= n && 4 * n + 4 <= |live|
  {
    Rgba(live[4 * n], live[4 * n + 1], live[4 * n + 2], Opaque)
  }

  /** Two RGBA buffers of `w * h` pixels that agree on every pixel are equal. */
  lemma {:induction false} PixelsDetermineBuffer(w: int, h: int, s: seq<int>, t: seq<int>)
    requires 0 <= w && 0 <= h && |s| == |t| == 4 * w * h
    requires forall x, y :: 0 <= x < w && 0 <= y < h ==>
      PixelAt(s, Offset(w, h, x, y)) == PixelAt(t, Offset(w, h, x, y))
    ensures s == t
  {
    forall k | 0 <= k < |s|
      ensures s[k] == t[k]
    {
      var n := k / 4;
      assert 4 * n <= k < 4 * n + 4;
      assert n < w * h;
      EveryIndexIsAPixel(w, h, n);
      var x, y :| 0 <= x < w && 0 <= y < h && Offset(w, h, x, y) == n;
      assert PixelAt(s, n) == PixelAt(t, n);
    }
  }

  /**
   Copies the live colour of pixel `n` into `data` and makes it opaque; no
   other pixel of `data` changes.
   */
  method RefreshPixel(data: array<int>, live: array<int>, n: int)
    requires data != live && data.Length == live.Length
    requires 0 <= n && 4 * n + 4 <= data.Length
    modifies data
    ensures PixelAt(data[..], n) == Refreshed(live[..], n)
    ensures forall m :: 0 <= m && 4 * m + 4 <= data.Length && m != n ==>
      PixelAt(data[..], m) == PixelAt(old(data[..]), m)
  {
    data[4 * n] := live[4 * n];
    data[4 * n + 1] := live[4 * n + 1];
    data[4 * n + 2] := live[4 * n + 2];
    data[4 * n + 3] := Opaque;
  }
}
