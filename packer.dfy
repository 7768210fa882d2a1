/** The tensor packer: TransposeAndCast turns the letterboxed canvas, four
    bytes per pixel with the alpha byte last, into the planar, normalised
    tensor the orientation model reads. */
module Packer {
  import opened Layout

  newtype byte = b: int | 0 <= b < 256

  /** Why packing refuses a canvas. */
  datatype PackError = InvalidBufferSize(expected: nat, actual: nat)

  datatype Result<T> = Success(value: T) | Failure(error: PackError)

  /** One colour sample scaled to the unit interval (the source divides by 255). */
  function ToUnit(b: byte): (r: real)
    ensures 0.0 <= r <= 1.0
    ensures r * 255.0 == b as real
  {
    b as real / 255.0
  }

  /** The tensor packed from the canvas bytes src: colour channel c of pixel
      (y, x) lands in plane c at row y, column x; the alpha byte is dropped. */
  function Packed(s: nat, src: seq<byte>): (t: seq<real>)
    requires |src| == 4 * s * s
    ensures |t| == 3 * s * s
    ensures forall k | 0 <= k < |t| :: 0.0 <= t[k] <= 1.0
  {
    if s == 0 then []
    else
      seq(3 * s * s, k requires 0 <= k < 3 * s * s =>
        DecodeInRange(s, k);
        ToUnit(src[PixelOffset(s, Row(s, k), Col(s, k)) + Plane(s, k)]))
  }

  /** Where each sample of the canvas goes: channel c of pixel (y, x) is
      element c*s*s + y*s + x of the tensor. */
  lemma PackedAt(s: nat, src: seq<byte>, c: nat, y: nat, x: nat)
    requires |src| == 4 * s * s && c < 3 && y < s && x < s
    ensures PlaneIndex(s, c, y, x) < |Packed(s, src)|
    ensures Packed(s, src)[PlaneIndex(s, c, y, x)] == ToUnit(src[PixelOffset(s, y, x) + c])
  {
    PlaneIndexDecodes(s, c, y, x);
  }

  /** The alpha byte of a pixel is never read: canvases that agree on every
      colour byte pack to the same tensor. */
  lemma PackedIgnoresAlpha(s: nat, a: seq<byte>, b: seq<byte>)
    requires |a| == 4 * s * s && |b| == 4 * s * s
    requires forall k | 0 <= k < |a| && k % 4 != 3 :: a[k] == b[k]
    ensures Packed(s, a) == Packed(s, b)
  {
    forall k | 0 <= k < 3 * s * s
      ensures Packed(s, a)[k] == Packed(s, b)[k]
    {
      var at := SampleOf(s, k);
      assert a[at] == b[at];
    }
  }

  /** The canvas byte that element k of the tensor is packed from: a colour
      byte, never an alpha byte. */
  function SampleOf(s: nat, k: nat): (at: nat)
    requires s > 0 && k < 3 * s * s
    ensures at < 4 * s * s && at % 4 != 3
    ensures forall src: seq<byte> | |src| == 4 * s * s :: Packed(s, src)[k] == ToUnit(src[at])
  {
    DecodeInRange(s, k);
    var c, y, x := Plane(s, k), Row(s, k), Col(s, k);
    assert (PixelOffset(s, y, x) + c) % 4 == c;
    PixelOffset(s, y, x) + c
  }

  /** No colour byte is lost: canvases that pack to the same tensor agree on
      every colour byte. */
  lemma PackedKeepsColour(s: nat, a: seq<byte>, b: seq<byte>)
    requires |a| == 4 * s * s && |b| == 4 * s * s
    requires Packed(s, a) == Packed(s, b)
    ensures forall k | 0 <= k < |a| && k % 4 != 3 :: a[k] == b[k]
  {
    forall k | 0 <= k < |a| && k % 4 != 3
      ensures a[k] == b[k]
    {
      assert k < (s * s) * 4;
      QuotientBelow(k, 4, s * s);
      var m, c := k / 4, k % 4;
      QuotientBelow(m, s, s);
      var y, x := m / s, m % s;
      RowStartIsProduct(s, y);
      assert k == PixelOffset(s, y, x) + c;
      PackedAt(s, a, c, y, x);
      PackedAt(s, b, c, y, x);
    }
  }

  /** Two canvases pack to the same tensor exactly when they agree on every
      colour byte. */
  lemma PackedEqualIff(s: nat, a: seq<byte>, b: seq<byte>)
    requires |a| == 4 * s * s && |b| == 4 * s * s
    ensures Packed(s, a) == Packed(s, b) <==>
      forall k | 0 <= k < |a| && k % 4 != 3 :: a[k] == b[k]
  {
    if forall k | 0 <= k < |a| && k % 4 != 3 :: a[k] == b[k] {
      PackedIgnoresAlpha(s, a, b);
    }
    if Packed(s, a) == Packed(s, b) {
      PackedKeepsColour(s, a, b);
    }
  }

  /** The packing loop, converting samples with f, has filled every sample of
      the pixels before (y, x) in row-major order with its packed value. */
  ghost predicate FilledUpTo<T>(s: nat, src: seq<byte>, dst: seq<T>, f: byte -> T, y: nat, x: nat)
    requires |src| == 4 * s * s && |dst| == 3 * s * s
  {
    forall c: nat, i: nat, j: nat | c < 3 && i < s && j < s && (i < y || (i == y && j < x)) ::
      dst[PlaneIndex(s, c, i, j)] == f(src[PixelOffset(s, i, j) + c])
  }

  /** The tensor after the loop body of TransposeAndCast has run for pixel (y, x). */
  function Pixel<T>(s: nat, src: seq<byte>, dst: seq<T>, f: byte -> T, y: nat, x: nat): seq<T>
    requires |src| == 4 * s * s && |dst| == 3 * s * s && y < s && x < s
  {
    var offset := PixelOffset(s, y, x);
    dst[PlaneIndex(s, 0, y, x) := f(src[offset + 0])]
       [PlaneIndex(s, 1, y, x) := f(src[offset + 1])]
       [PlaneIndex(s, 2, y, x) := f(src[offset + 2])]
  }

  /** One step of the packing loop: writing the three colour samples of pixel
      (y, x) extends the filled prefix by that pixel and disturbs nothing else. */
  lemma FillPixel<T>(s: nat, src: seq<byte>, before: seq<T>, f: byte -> T, y: nat, x: nat)
    requires |src| == 4 * s * s && |before| == 3 * s * s && y < s && x < s
    requires FilledUpTo(s, src, before, f, y, x)
    ensures FilledUpTo(s, src, Pixel(s, src, before, f, y, x), f, y, x + 1)
  {
    var after := Pixel(s, src, before, f, y, x);
    forall c: nat, i: nat, j: nat | c < 3 && i < s && j < s && (i < y || (i == y && j <= x))
      ensures after[PlaneIndex(s, c, i, j)] == f(src[PixelOffset(s, i, j) + c])
    {
      PlaneIndexInjective(s, c, i, j, 0, y, x);
      PlaneIndexInjective(s, c, i, j, 1, y, x);
      PlaneIndexInjective(s, c, i, j, 2, y, x);
    }
  }

  /** TransposeAndCast: refuse a canvas that is not exactly s*s pixels of four
      bytes; otherwise fill a fresh tensor row by row, pixel by pixel. */
  method TransposeAndCast(s: nat, src: array<byte>) returns (r: Result<array<real>>)
    ensures r.Failure? <==> src.Length != 4 * s * s
    ensures r.Failure? ==> r.error == InvalidBufferSize(4 * s * s, src.Length)
    ensures r.Success? ==> fresh(r.value) && r.value[..] == Packed(s, src[..])
  {
    if src.Length != s * s * 4 {
      return Failure(InvalidBufferSize(4 * s * s, src.Length));
    }
    assert src.Length == 4 * s * s;
    TensorSize(s);
    var dst := new real[3 * s * s];
    for y := 0 to s
      invariant FilledUpTo(s, src[..], dst[..], ToUnit, y, 0)
    {
      for x := 0 to s
        invariant FilledUpTo(s, src[..], dst[..], ToUnit, y, x)
      {
        ghost var before := dst[..];
        var offset := PixelOffset(s, y, x);
        dst[PlaneIndex(s, 0, y, x)] := ToUnit(src[offset + 0]);
        dst[PlaneIndex(s, 1, y, x)] := ToUnit(src[offset + 1]);
        dst[PlaneIndex(s, 2, y, x)] := ToUnit(src[offset + 2]);
        assert dst[..] == Pixel(s, src[..], before, ToUnit, y, x);
        FillPixel(s, src[..], before, ToUnit, y, x);
      }
    }
    forall k | 0 <= k < 3 * s * s
      ensures dst[k] == Packed(s, src[..])[k]
    {
      DecodeInRange(s, k);
      assert FilledUpTo(s, src[..], dst[..], ToUnit, s, 0);
    }
    return Success(dst);
  }
}
