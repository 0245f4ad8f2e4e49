/** Flat RGBA pixel buffers as p5.js lays them out: pixel (x, y) of a
    W x H image occupies the four bytes starting at (y * W + x) * 4,
    in the order red, green, blue, alpha. */
module Raster {

  /** One channel value of a Uint8ClampedArray. */
  type Byte = b: int | 0 <= b < 256

  /** A pixel as the sort works on it: the four channels read from a buffer. */
  datatype Pixel = Pixel(r: Byte, g: Byte, b: Byte, a: Byte)

  /** Number of bytes in a W x H RGBA buffer. */
  function Size(w: nat, h: nat): nat
  {
    4 * (w * h)
  }

  /** Byte index of channel c of pixel (x, y). */
  function Idx(w: nat, x: nat, y: nat, c: nat): nat
  {
    (y * w + x) * 4 + c
  }

  /** Column, row and channel that a byte index belongs to. */
  function Col(w: nat, i: nat): nat
  {
    if w == 0 then 0 else (i / 4) % w
  }

  function Row(w: nat, i: nat): nat
  {
    if w == 0 then 0 else (i / 4) / w
  }

  function Chan(i: nat): nat
  {
    i % 4
  }

  /** Euclidean division is determined by quotient and remainder. */
  lemma DivModUnique(n: int, d: int, q: int, r: int)
    requires d > 0 && 0 <= r < d && n == q * d + r
    ensures n / d == q && n % d == r
  {
    var q0, r0 := n / d, n % d;
    assert n == q0 * d + r0;
    if q > q0 {
      MulMonotone(q - q0, 1, d);
    } else if q < q0 {
      MulMonotone(q0 - q, 1, d);
    }
  }

  lemma MulMonotone(a: int, b: int, d: int)
    requires a >= b && d >= 0
    ensures a * d >= b * d
  {
    assert a * d - b * d == (a - b) * d;
  }

  /** Idx is injective on in-bounds coordinates: Col, Row and Chan take an
      index back to the pixel and channel it was computed from. */
  lemma Decompose(w: nat, x: nat, y: nat, c: nat)
    requires x < w && c < 4
    ensures Col(w, Idx(w, x, y, c)) == x
    ensures Row(w, Idx(w, x, y, c)) == y
    ensures Chan(Idx(w, x, y, c)) == c
  {
    var i := Idx(w, x, y, c);
    DivModUnique(i, 4, y * w + x, c);
    DivModUnique(y * w + x, w, y, x);
  }

  /** Every byte of a W x H buffer is channel Chan(i) of pixel (Col(i), Row(i)). */
  lemma Compose(w: nat, h: nat, i: nat)
    requires i < Size(w, h)
    ensures w > 0 && Col(w, i) < w && Row(w, i) < h && Chan(i) < 4
    ensures Idx(w, Col(w, i), Row(w, i), Chan(i)) == i
  {
    var p := i / 4;
    assert i == p * 4 + i % 4;
    var q := p / w;
    assert p == q * w + p % w;
    if q >= h {
      MulMonotone(q, h, w);
    }
  }

  /** Every in-bounds index lies below the buffer size. */
  lemma IdxInBounds(w: nat, h: nat, x: nat, y: nat, c: nat)
    requires x < w && y < h && c < 4
    ensures Idx(w, x, y, c) < Size(w, h)
  {
    MulMonotone(h - 1, y, w);
    assert y * w + x <= (h - 1) * w + w - 1;
    assert (h - 1) * w + w == h * w;
  }

  /** The pixel at (x, y) of a W x H buffer. */
  function PixelAt(buf: seq<Byte>, w: nat, h: nat, x: nat, y: nat): Pixel
    requires |buf| == Size(w, h) && x < w && y < h
  {
    IdxInBounds(w, h, x, y, 0);
    IdxInBounds(w, h, x, y, 1);
    IdxInBounds(w, h, x, y, 2);
    IdxInBounds(w, h, x, y, 3);
    Pixel(buf[Idx(w, x, y, 0)], buf[Idx(w, x, y, 1)], buf[Idx(w, x, y, 2)], buf[Idx(w, x, y, 3)])
  }

  /** Column x of a W x H buffer, top to bottom. */
  function Column(buf: seq<Byte>, w: nat, h: nat, x: nat): (col: seq<Pixel>)
    requires |buf| == Size(w, h) && x < w
    ensures |col| == h
    ensures forall y :: 0 <= y < h ==> col[y] == PixelAt(buf, w, h, x, y)
  {
    seq(h, y requires 0 <= y < h => PixelAt(buf, w, h, x, y))
  }

  /** A column depends only on the bytes that belong to it. */
  lemma ColumnFrame(a: seq<Byte>, b: seq<Byte>, w: nat, h: nat, x: nat)
    requires |a| == |b| == Size(w, h) && x < w
    requires forall i :: 0 <= i < |a| && Col(w, i) == x ==> a[i] == b[i]
    ensures Column(a, w, h, x) == Column(b, w, h, x)
  {
    forall y | 0 <= y < h
      ensures PixelAt(a, w, h, x, y) == PixelAt(b, w, h, x, y)
    {
      forall c | 0 <= c < 4
        ensures Idx(w, x, y, c) < |a| && a[Idx(w, x, y, c)] == b[Idx(w, x, y, c)]
      {
        Decompose(w, x, y, c);
        IdxInBounds(w, h, x, y, c);
      }
    }
  }
}
