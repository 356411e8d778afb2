/**
  The raster layout shared by both implementations: a flat byte buffer in
  row-major, channel-interleaved order, where channel `c` of pixel `(x, y)`
  lives at offset `(y * width + x) * channels + c`.
 */
module Raster {

  /** One 8-bit sample (`unsigned char`). */
  type Byte = b: int | 0 <= b < 256

  /** Saturation to the byte range, `min(max(v, 0), 255)`. */
  function Clamp(v: int): Byte
  {
    if v < 0 then 0 else if v > 255 then 255 else v
  }

  /** The geometry of an image as the decoder reports it. */
  datatype Shape = Shape(width: nat, height: nat, channels: nat)
  {
    /** Length of the interleaved buffer, `width * height * channels`. */
    function Size(): nat { width * height * channels }

    /** Bytes per row. */
    function RowBytes(): nat { width * channels }

    predicate Has(x: int, y: int, c: int)
    {
      0 <= x < width && 0 <= y < height && 0 <= c < channels
    }

    /** Offset of channel `c` of pixel `(x, y)`. */
    function Idx(x: int, y: int, c: int): int
    {
      (y * width + x) * channels + c
    }

    /** Decoding an offset back into its row, column and channel. */
    function RowOf(i: int): int
    {
      if RowBytes() == 0 then 0 else i / RowBytes()
    }

    function ColOf(i: int): int
    {
      if RowBytes() == 0 then 0 else (i % RowBytes()) / channels
    }

    function ChanOf(i: int): int
    {
      if channels == 0 then 0 else i % channels
    }

    /** A pixel whose whole 3x3 neighbourhood lies inside the image. */
    predicate Interior(x: int, y: int)
    {
      1 <= x < width - 1 && 1 <= y < height - 1
    }
  }

  /** The rows `[lo, hi)` as a set. */
  function RowSpan(lo: int, hi: int): (rows: set<int>)
    ensures forall y :: y in rows <==> lo <= y < hi
    decreases hi - lo
  {
    if hi <= lo then {} else RowSpan(lo, hi - 1) + {hi - 1}
  }

  /**
    Byte `i` comes before position `(x, y, c)` of a row-major scan that
    started at row `start`.
   */
  predicate Visited(s: Shape, i: int, start: int, y: int, x: int, c: int)
  {
    var row, col := s.RowOf(i), s.ColOf(i);
    start <= row &&
    (row < y || (row == y && (col < x || (col == x && s.ChanOf(i) < c))))
  }

  /** Every byte holds the colour of its channel: a flat image. */
  predicate ChannelUniform(img: seq<Byte>, s: Shape, colour: seq<Byte>)
  {
    |colour| == s.channels && |img| == s.Size() &&
    forall i :: 0 <= i < |img| ==> img[i] == colour[s.ChanOf(i)]
  }

  lemma DivModUnique(i: int, d: int, q: int, r: int)
    requires d > 0 && 0 <= r < d && i == q * d + r
    ensures i / d == q && i % d == r
  {
    var q', r' := i / d, i % d;
    assert i == q' * d + r';
    if q' > q {
      MulLeq(q + 1, q', d);
    } else if q' < q {
      MulLeq(q' + 1, q, d);
    }
  }

  lemma MulLeq(a: int, b: int, m: int)
    requires a <= b && m >= 0
    ensures a * m <= b * m
  {
    assert b * m - a * m == (b - a) * m;
  }

  /** A non-negative value below `n * d` has a quotient by `d` in `[0, n)`. */
  lemma QuotientBelow(i: int, d: int, n: int)
    requires 0 <= i < n * d && d > 0
    ensures 0 <= i / d < n
  {
    var q := i / d;
    assert i == q * d + i % d;
    if q < 0 {
      MulLeq(q, -1, d);
    } else if q >= n {
      MulLeq(n, q, d);
    }
  }

  lemma PositiveFactors(a: nat, b: nat)
    requires a * b > 0
    ensures a > 0 && b > 0
  {
  }

  /** An offset is a whole number of rows plus an offset inside the row. */
  lemma IdxSplit(s: Shape, x: int, y: int, c: int)
    ensures s.Idx(x, y, c) == y * s.RowBytes() + (x * s.channels + c)
    ensures s.Size() == s.height * s.RowBytes()
  {
    var w, ch := s.width, s.channels;
    assert (y * w + x) * ch == y * w * ch + x * ch;
    assert y * w * ch == y * (w * ch);
    assert w * s.height * ch == s.height * (w * ch);
  }

  /** The offset of a pixel byte lies in the buffer and decodes back. */
  lemma IdxDecode(s: Shape, x: int, y: int, c: int)
    requires s.Has(x, y, c)
    ensures 0 <= s.Idx(x, y, c) < s.Size()
    ensures s.RowOf(s.Idx(x, y, c)) == y
    ensures s.ColOf(s.Idx(x, y, c)) == x
    ensures s.ChanOf(s.Idx(x, y, c)) == c
  {
    var ch, rb := s.channels, s.RowBytes();
    var i, t := s.Idx(x, y, c), x * ch + c;
    IdxSplit(s, x, y, c);
    assert t < rb by {
      MulLeq(x + 1, s.width, ch);
      assert (x + 1) * ch == x * ch + ch;
    }
    DivModUnique(i, rb, y, t);
    DivModUnique(t, ch, x, c);
    DivModUnique(i, ch, y * s.width + x, c);
    assert i < s.Size() by {
      MulLeq(y + 1, s.height, rb);
      assert (y + 1) * rb == y * rb + rb;
    }
  }

  /** Every offset of the buffer is the offset of some pixel byte. */
  lemma IdxEncode(s: Shape, i: int)
    requires 0 <= i < s.Size()
    ensures s.Has(s.ColOf(i), s.RowOf(i), s.ChanOf(i))
    ensures s.Idx(s.ColOf(i), s.RowOf(i), s.ChanOf(i)) == i
  {
    var w, h, ch, rb := s.width, s.height, s.channels, s.RowBytes();
    IdxSplit(s, 0, 0, 0);
    PositiveFactors(h, rb);
    PositiveFactors(w, ch);
    var y, t := i / rb, i % rb;
    QuotientBelow(i, rb, h);
    var x, c := t / ch, t % ch;
    QuotientBelow(t, ch, w);
    assert i == y * rb + t && t == x * ch + c;
    IdxSplit(s, x, y, c);
    assert s.Idx(x, y, c) == i;
    DivModUnique(i, ch, y * w + x, c);
    assert s.RowOf(i) == y && s.ColOf(i) == x && s.ChanOf(i) == c;
  }

  /** `IdxEncode` for all offsets at once. */
  lemma AllEncode(s: Shape)
    ensures forall i :: 0 <= i < s.Size() ==>
      s.Has(s.ColOf(i), s.RowOf(i), s.ChanOf(i)) &&
      s.Idx(s.ColOf(i), s.RowOf(i), s.ChanOf(i)) == i
  {
    forall i | 0 <= i < s.Size()
      ensures s.Has(s.ColOf(i), s.RowOf(i), s.ChanOf(i))
      ensures s.Idx(s.ColOf(i), s.RowOf(i), s.ChanOf(i)) == i
    {
      IdxEncode(s, i);
    }
  }
}
