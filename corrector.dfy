/** The decision logic of Correct: centre the scaled photo on the square
    canvas, score the packed tensor under each of the four quarter turns, and
    pick the turn to apply, if any. */
module Corrector {
  import opened Layout
  import opened Packer
  import opened Rotator

  /** Integer division as C# does it: the quotient is rounded toward zero. */
  function TruncDiv(a: int, b: int): (q: int)
    requires b > 0
    ensures 0 <= a ==> 0 <= q && q * b <= a < q * b + b
    ensures a < 0 ==> q <= 0 && q * b - b < a <= q * b
  {
    if a >= 0 then a / b else -((-a) / b)
  }

  /** The offset that centres an extent on a side of s pixels.  When the
      extent fits, both margins are non-negative and the far margin is the
      near one or one more; when it does not, the offset is not positive,
      and an overhang of one pixel still gives offset zero because the
      division truncates. */
  function CenterOffset(s: nat, extent: nat): (off: int)
    ensures extent <= s ==> 0 <= off && off + extent <= s && 0 <= (s - extent - off) - off <= 1
    ensures s < extent ==> off <= 0 && (off == 0 <==> extent == s + 1)
  {
    TruncDiv(s - extent, 2)
  }

  /** The byte offset handed to the copy of the scaled photo: column ox, row
      oy, with a stride of four bytes per pixel of the canvas. */
  function CopyOffset(s: nat, ox: int, oy: int): (k: int)
    ensures 0 <= ox < s && 0 <= oy < s ==> k == PixelOffset(s, oy, ox)
  {
    var k := ox * 4 + oy * (s * 4);
    if 0 <= oy then RowStartIsProduct(s, oy); k else k
  }

  /** A scaled photo of w by h pixels, w and h at most s, lands inside the
      canvas: pixel (r, q) of the photo, which the copy writes at the offset
      plus r strides plus q pixels, is canvas pixel (oy + r, ox + q). */
  lemma LetterboxPlacement(s: nat, w: nat, h: nat)
    requires w <= s && h <= s
    ensures var ox, oy := CenterOffset(s, w), CenterOffset(s, h);
      0 <= ox && 0 <= oy &&
      forall r: nat, q: nat | r < h && q < w ::
        oy + r < s && ox + q < s &&
        CopyOffset(s, ox, oy) + r * (s * 4) + q * 4 == PixelOffset(s, oy + r, ox + q)
  {
    var ox, oy := CenterOffset(s, w), CenterOffset(s, h);
    forall r: nat, q: nat | r < h && q < w
      ensures oy + r < s && ox + q < s
      ensures CopyOffset(s, ox, oy) + r * (s * 4) + q * 4 == PixelOffset(s, oy + r, ox + q)
    {
      BlockPixel(s, ox, oy, r, q);
    }
  }

  /** Moving r rows and q pixels on from the byte offset of pixel (oy, ox)
      reaches the byte offset of pixel (oy + r, ox + q). */
  lemma BlockPixel(s: nat, ox: nat, oy: nat, r: nat, q: nat)
    requires oy + r < s && ox + q < s
    ensures CopyOffset(s, ox, oy) + r * (s * 4) + q * 4 == PixelOffset(s, oy + r, ox + q)
  {
    // the two products every offset here is made of
    var above, down := oy * s, r * s;
    StrideRows(s, oy);
    StrideRows(s, r);
    assert CopyOffset(s, ox, oy) == ox * 4 + above * 4;
    assert PixelOffset(s, oy + r, ox + q) == (above + down + ox + q) * 4 by {
      RowStartIsProduct(s, oy + r);
      assert (oy + r) * s == above + down;
    }
  }

  /** n strides of a canvas of side s are n rows of s pixels of four bytes. */
  lemma StrideRows(s: nat, n: int)
    ensures n * (s * 4) == (n * s) * 4
  {
  }

  /** The tensor scored for hypothesis k is the packed tensor turned k times. */
  function Scores(s: nat, t: seq<real>, score: seq<real> -> real): (p: seq<real>)
    requires |t| >= 3 * s * s
    ensures |p| == 4
  {
    seq(4, k requires 0 <= k < 4 => score(RotatedN(s, t, k)))
  }

  /** The rotate-and-score loop: hypothesis 0 is scored on the tensor as
      packed, and each later one after one more quarter turn in place, so
      hypothesis k sees k turns and the tensor ends up turned three times. */
  method ScoreRotations(s: nat, source: array<real>, score: seq<real> -> real) returns (probs: array<real>)
    requires s > 0 && s % 2 == 0 && source.Length == 3 * s * s
    modifies source
    ensures fresh(probs) && probs[..] == Scores(s, old(source[..]), score)
    ensures source[..] == RotatedN(s, old(source[..]), 3)
  {
    ghost var t := source[..];
    probs := new real[4];
    for rot := 0 to 4
      invariant source[..] == RotatedN(s, t, if rot == 0 then 0 else rot - 1)
      invariant forall k | 0 <= k < rot :: probs[k] == score(RotatedN(s, t, k))
    {
      if rot != 0 {
        Rotate90(s, source);
      }
      probs[rot] := score(source[..]);
    }
  }

  /** The largest score of a non-empty sequence. */
  function MaxOf(p: seq<real>): (m: real)
    requires |p| > 0
    ensures m in p
    ensures forall i | 0 <= i < |p| :: p[i] <= m
  {
    if |p| == 1 then p[0]
    else
      var m := MaxOf(p[..|p| - 1]);
      if p[|p| - 1] > m then p[|p| - 1] else m
  }

  /** The last index at which v occurs in p, or -1 when it does not occur. */
  function LastIndexOf(p: seq<real>, v: real): (a: int)
    ensures -1 <= a < |p|
    ensures a == -1 <==> v !in p
    ensures 0 <= a ==> p[a] == v && forall j | a < j < |p| :: p[j] != v
  {
    if |p| == 0 then -1
    else if p[|p| - 1] == v then |p| - 1
    else LastIndexOf(p[..|p| - 1], v)
  }

  /** What Correct does with a photo. */
  datatype Decision = Keep | Rotate(angle: int)

  /** The decision for the four scores: keep the photo when hypothesis 0
      scores the maximum, ties included; otherwise turn it by 90 degrees times
      the last hypothesis that scores the maximum. */
  function Choose(p: seq<real>): (d: Decision)
    requires |p| == 4
    ensures d == Keep <==> forall i | 0 <= i < 4 :: p[i] <= p[0]
    ensures d.Rotate? ==> d.angle in {90, 180, 270}
    ensures d.Rotate? ==>
      (forall i | 0 <= i < 4 :: p[i] <= p[d.angle / 90]) &&
      (forall j | d.angle / 90 < j < 4 :: p[j] < p[d.angle / 90])
  {
    var maxval := MaxOf(p);
    if p[0] != maxval then Rotate(LastIndexOf(p, maxval) * 90) else Keep
  }

  /** The maximum, then the scan that overwrites the angle at every index
      attaining it. */
  method Decide(probs: array<real>) returns (d: Decision)
    requires probs.Length == 4
    ensures d == Choose(probs[..])
  {
    var maxval := probs[0];
    for i := 1 to probs.Length
      invariant maxval == MaxOf(probs[..i])
    {
      assert probs[..i + 1][..i] == probs[..i];
      if probs[i] > maxval {
        maxval := probs[i];
      }
    }
    assert probs[..probs.Length] == probs[..];
    if probs[0] != maxval {
      var angle := 0;
      for a := 0 to 4
        invariant angle == if LastIndexOf(probs[..a], maxval) < 0 then 0 else LastIndexOf(probs[..a], maxval) * 90
      {
        assert probs[..a + 1][..a] == probs[..a];
        if probs[a] == maxval {
          angle := a * 90;
        }
      }
      d := Rotate(angle);
    } else {
      d := Keep;
    }
  }

  /** The canvas of s by s pixels with every byte zero. */
  function Blank(s: nat): (b: seq<byte>)
    ensures |b| == 4 * s * s && forall k | 0 <= k < |b| :: b[k] == 0
  {
    seq(4 * s * s, _ => 0)
  }

  /** Correct for one photo whose scaled size is scaledW by scaledH: centre
      it on a blank canvas with copyPixels (the bitmap copy, taking the
      buffer, the stride and the byte offset), pack the canvas, score the four
      quarter turns and decide.  The decision is the choice over the scores of
      the packed canvas turned 0, 1, 2 and 3 times. */
  method Correct(s: nat, scaledW: nat, scaledH: nat,
                 copyPixels: (seq<byte>, nat, int) -> seq<byte>, score: seq<real> -> real)
    returns (d: Decision)
    requires s > 0 && s % 2 == 0
    requires forall buffer, stride, offset :: |copyPixels(buffer, stride, offset)| == |buffer|
    ensures var canvas := copyPixels(Blank(s), s * 4, CopyOffset(s, CenterOffset(s, scaledW), CenterOffset(s, scaledH)));
      d == Choose(Scores(s, Packed(s, canvas), score))
  {
    assert s * s * 4 == 4 * s * s;
    var blank := Blank(s);
    var stride := s * 4;
    var offsetX := CenterOffset(s, scaledW);
    var offsetY := CenterOffset(s, scaledH);
    assert offsetX * 4 + offsetY * stride == CopyOffset(s, offsetX, offsetY);
    var canvas := copyPixels(blank, stride, offsetX * 4 + offsetY * stride);
    assert canvas == copyPixels(Blank(s), s * 4, CopyOffset(s, offsetX, offsetY));
    // the pixel buffer that the copy filled, handed on to the packer
    var data := new byte[s * s * 4](k requires 0 <= k < s * s * 4 => canvas[k]);
    assert data[..] == canvas;
    var packed := TransposeAndCast(s, data);
    if packed.Failure? {
      assert false;
      return Keep;
    }
    var source := packed.value;
    assert source[..] == Packed(s, canvas);
    var probs := ScoreRotations(s, source, score);
    assert probs[..] == Scores(s, Packed(s, canvas), score);
    d := Decide(probs);
  }

  /** Scores 0.5, 0.9, 0.9, 0.1: hypotheses 1 and 2 tie for the maximum and
      the later one wins, a half turn. */
  lemma TieGoesToLaterTurn()
    ensures Choose([0.5, 0.9, 0.9, 0.1]) == Rotate(180)
  {
    var p := [0.5, 0.9, 0.9, 0.1];
    assert MaxOf(p) == 0.9 by {
      assert p[..3][..2][..1] == [0.5];
      assert p[..3][..2] == [0.5, 0.9];
      assert p[..3] == [0.5, 0.9, 0.9];
    }
    assert LastIndexOf(p, 0.9) == 2 by {
      assert p[..3] == [0.5, 0.9, 0.9];
    }
  }

  /** When hypothesis 0 ties with a later one the photo is kept. */
  lemma TieWithNoTurnKeeps()
    ensures Choose([0.7, 0.7, 0.2, 0.7]) == Keep
  {
  }
}
