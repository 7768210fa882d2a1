# VRCPhotoRotationCorrector — a verified model of the orientation core

VRCPhotoRotationCorrector straightens photos taken in VRChat. For each photo it
does four things:

- it scales the photo so its longer side is S pixels and centres it on an S×S
  canvas of four bytes per pixel, colour channels 0, 1 and 2 and alpha at
  byte 3 (the letterbox);
- it packs the canvas into a planar tensor of three S×S colour planes with
  samples in [0, 1] (`TransposeAndCast`);
- it asks an orientation model to score the tensor as packed and after one,
  two and three quarter turns clockwise, turning the tensor in place between
  scores (`Rotate90`);
- it picks the turn to apply: none when hypothesis 0 scores the maximum, ties
  included; otherwise the last hypothesis that scores the maximum.

This project models that core in Dafny and proves what it promises. There are
four modules:

- `Layout` (`layout.dfy`) holds the flat-index arithmetic shared by the packer
  and the rotator:
  - byte offset `(y*S + x)*4` of a canvas pixel;
  - flat index `c*S*S + y*S + x` of a tensor cell;
  - decoding a flat index back to plane, row and column.

  Row and plane starts are defined by repeated addition and proved equal to
  the products once. This keeps products out of the other proofs.
- `Packer` (`packer.dfy`) holds `TransposeAndCast`. It is a method that fills a
  fresh array in the source's nested y/x loops and is proved equal to the
  function `Packed`. It fails with `InvalidBufferSize` exactly when the canvas
  is not 4·S·S bytes. The lemmas say:
  - where each sample goes;
  - that the alpha byte is never read;
  - that no colour byte is lost.
- `Rotator` (`rotator.dfy`) holds `Rotate90`, the in-place quarter turn by
  4-cycles over the quadrant orbits, in the source's c/y/x loops. It is
  generic in the element type and proved equal to the function `Rotated`. It
  also keeps the multiset of each plane. The loop invariant `Progress` says
  that:
  - handled cells hold their turned value and the rest their old value;
  - every plane keeps its values;
  - nothing past the planes moves.

  The lemmas prove that four turns restore the tensor and that turning is
  periodic.
- `Corrector` (`corrector.dfy`) holds the rest of `Correct`:
  - the letterbox offsets with C#'s truncating division;
  - the cumulative rotate-and-score loop (`ScoreRotations`);
  - the maximum and the overwriting scan that picks the angle (`Decide`);
  - `Correct` itself, which composes them.

The canvas side S (480 in the source) is a parameter `s`. The rotator needs
`s` even and positive, as the quadrant loops do.

## Model

All source paths are relative to the repository root.

| member | source | states |
|---|---|---|
| Layout.RowStartIsProduct | VRCPhotoRotationCorrector/MainWindow.xaml.cs:70 | the start of row y of a plane is y*S, the term in the source's index expressions |
| Layout.PlaneStartIsProduct | VRCPhotoRotationCorrector/MainWindow.xaml.cs:83 | the start of plane c is c*S*S, the source's baseOffset |
| Layout.PlaneIndex | VRCPhotoRotationCorrector/MainWindow.xaml.cs:71-73 | the index c*S*S + y*S + x of a cell lies inside plane c and, for c < 3, inside the 3*S*S tensor |
| Layout.PixelOffset | VRCPhotoRotationCorrector/MainWindow.xaml.cs:70 | the bytes offset .. offset+3 of pixel (y, x) lie inside the 4*S*S canvas |
| Layout.PlaneIndexDecodes | VRCPhotoRotationCorrector/MainWindow.xaml.cs:71-73 | dividing a cell's flat index gives back its plane, row and column |
| Layout.PlaneIndexInjective | VRCPhotoRotationCorrector/MainWindow.xaml.cs:71-73 | distinct cells have distinct flat indices, so no write of the packer overwrites another |
| Layout.DecodeInRange | VRCPhotoRotationCorrector/MainWindow.xaml.cs:65 | every index below 3*S*S decodes to a cell of the three planes whose flat index it is |
| Packer.ToUnit | VRCPhotoRotationCorrector/MainWindow.xaml.cs:71-73 | a sample byte b becomes the real r with r*255 = b, and r lies in [0, 1] |
| Packer.Packed | VRCPhotoRotationCorrector/MainWindow.xaml.cs:65-76 | the packed tensor has 3*S*S samples, each in [0, 1] |
| Packer.PackedAt | VRCPhotoRotationCorrector/MainWindow.xaml.cs:70-73 | channel c of pixel (y, x) is tensor element c*S*S + y*S + x and equals byte (y*S + x)*4 + c over 255 |
| Packer.SampleOf | VRCPhotoRotationCorrector/MainWindow.xaml.cs:70-73 | each tensor element is read from one canvas byte, and that byte is never an alpha byte |
| Packer.PackedIgnoresAlpha | VRCPhotoRotationCorrector/MainWindow.xaml.cs:70-73 | canvases that differ only in alpha bytes pack to the same tensor |
| Packer.PackedKeepsColour | VRCPhotoRotationCorrector/MainWindow.xaml.cs:70-73 | canvases that pack to the same tensor agree on every colour byte |
| Packer.PackedEqualIff | VRCPhotoRotationCorrector/MainWindow.xaml.cs:65-76 | two canvases pack equally if and only if they agree on every colour byte |
| Packer.FillPixel | VRCPhotoRotationCorrector/MainWindow.xaml.cs:70-73 | one pass of the inner loop extends the filled prefix, in row-major pixel order, by pixel (y, x) |
| Packer.TransposeAndCast | VRCPhotoRotationCorrector/MainWindow.xaml.cs:58-77 | fails, with the expected and actual sizes, exactly when the canvas is not 4*S*S bytes; otherwise returns a fresh array equal to Packed of the canvas, and the canvas is not modified |
| Rotator.Rotated | VRCPhotoRotationCorrector/MainWindow.xaml.cs:79-105 | the quarter turn keeps the length and every cell past the three planes |
| Rotator.RotatedAt | VRCPhotoRotationCorrector/MainWindow.xaml.cs:88-101 | after the turn, cell (y, x) of plane c holds the old value of cell (S-1-x, y) of the same plane: a clockwise quarter turn |
| Rotator.FourTurnsRestore | VRCPhotoRotationCorrector/MainWindow.xaml.cs:79-105 | four quarter turns give back the tensor exactly |
| Rotator.FourTurnsRestoreCell | VRCPhotoRotationCorrector/MainWindow.xaml.cs:88-101 | one cell followed through four turns comes back to its own value |
| Rotator.RotatedN | VRCPhotoRotationCorrector/MainWindow.xaml.cs:127-129 | n cumulative turns keep the length of the tensor |
| Rotator.RotatedNPeriodic | VRCPhotoRotationCorrector/MainWindow.xaml.cs:127-129 | n+4 cumulative turns equal n turns |
| Rotator.PlaneOf | VRCPhotoRotationCorrector/MainWindow.xaml.cs:83 | plane c is the S*S cells starting at its baseOffset |
| Rotator.QuadrantRow | VRCPhotoRotationCorrector/MainWindow.xaml.cs:84-86 | the quadrant cell whose orbit holds a given cell lies in the rows the middle loop visits |
| Rotator.QuadrantCol | VRCPhotoRotationCorrector/MainWindow.xaml.cs:84-86 | the same for the columns the inner loop visits |
| Rotator.OrbitsPartitionPlane | VRCPhotoRotationCorrector/MainWindow.xaml.cs:84-93 | for even S every cell of a plane is in the orbit of exactly one quadrant cell, so the loops touch each cell once |
| Rotator.OrbitCells | VRCPhotoRotationCorrector/MainWindow.xaml.cs:88-93 | offset0 .. offset3 are the cells (y, x), (x, yi), (yi, xi) and (xi, y) of the plane |
| Rotator.OrbitDistinct | VRCPhotoRotationCorrector/MainWindow.xaml.cs:88-93 | the four cells of a quadrant cell's orbit are distinct |
| Rotator.OrbitOffsets | VRCPhotoRotationCorrector/MainWindow.xaml.cs:83-101 | the offsets plus baseOffset are the orbit's flat indices and lie inside the tensor, so every read and write is in bounds |
| Rotator.OrbitPosition | VRCPhotoRotationCorrector/MainWindow.xaml.cs:88-93 | a cell of an orbit is one of its four members, and the cell a quarter turn back from it is the member before it |
| Rotator.Cycle4InSlice | VRCPhotoRotationCorrector/MainWindow.xaml.cs:94-101 | the four writes through temporaries, a 4-cycle of distinct cells, keep the multiset of any slice that holds them |
| Rotator.Cycle4OutsideSlice | VRCPhotoRotationCorrector/MainWindow.xaml.cs:94-101 | the 4-cycle leaves a slice that holds none of its cells unchanged |
| Rotator.CycleMovesOrbit | VRCPhotoRotationCorrector/MainWindow.xaml.cs:94-101 | offset1 gets v0, offset2 gets v1, offset3 gets v2 and offset0 gets v3 |
| Rotator.CycleTurnsOrbitCell | VRCPhotoRotationCorrector/MainWindow.xaml.cs:94-101 | each cell of the orbit receives the value a quarter turn back |
| Rotator.CycleKeepsOthers | VRCPhotoRotationCorrector/MainWindow.xaml.cs:94-101 | every cell outside the orbit keeps its value |
| Rotator.CycleKeepsPlane | VRCPhotoRotationCorrector/MainWindow.xaml.cs:94-101 | one inner iteration keeps the multiset of every plane |
| Rotator.CycleKeepsOwnPlane | VRCPhotoRotationCorrector/MainWindow.xaml.cs:94-101 | the multiset of the orbit's own plane is kept |
| Rotator.CycleKeepsOtherPlane | VRCPhotoRotationCorrector/MainWindow.xaml.cs:94-101 | the other planes are not touched at all |
| Rotator.PlaneStartsOrdered | VRCPhotoRotationCorrector/MainWindow.xaml.cs:83 | the three planes follow each other without overlap |
| Rotator.HandledStep | VRCPhotoRotationCorrector/MainWindow.xaml.cs:86-101 | handling quadrant cell (y, x) adds exactly its orbit to the handled cells |
| Rotator.CycleStepCells | VRCPhotoRotationCorrector/MainWindow.xaml.cs:86-101 | after an inner iteration, the handled cells hold their turned values and the others their old values |
| Rotator.CycleStepPlanes | VRCPhotoRotationCorrector/MainWindow.xaml.cs:86-101 | after an inner iteration, each plane keeps its values and nothing past the planes has moved |
| Rotator.CycleStep | VRCPhotoRotationCorrector/MainWindow.xaml.cs:86-101 | one inner iteration keeps the loop invariant |
| Rotator.NextRow | VRCPhotoRotationCorrector/MainWindow.xaml.cs:84-102 | the invariant at the end of a row is the invariant at the start of the next |
| Rotator.NextPlane | VRCPhotoRotationCorrector/MainWindow.xaml.cs:81-103 | the invariant at the end of a plane is the invariant at the start of the next |
| Rotator.Finished | VRCPhotoRotationCorrector/MainWindow.xaml.cs:81-104 | once all three planes are handled, the array is the quarter turn of the original |
| Rotator.Rotate90 | VRCPhotoRotationCorrector/MainWindow.xaml.cs:79-105 | the array becomes the clockwise quarter turn of its old contents, and every plane keeps the multiset of its values |
| Corrector.TruncDiv | VRCPhotoRotationCorrector/MainWindow.xaml.cs:121-122 | C# integer division: the quotient is rounded toward zero, for negative dividends too |
| Corrector.CenterOffset | VRCPhotoRotationCorrector/MainWindow.xaml.cs:121-122 | when the extent fits, the offset is non-negative, the extent fits after it, and the far margin is the near one or one more; when it does not fit, the offset is not positive and is zero exactly for an overhang of one pixel |
| Corrector.CopyOffset | VRCPhotoRotationCorrector/MainWindow.xaml.cs:120-123 | the byte offset handed to CopyPixels is the byte offset of canvas pixel (offsetY, offsetX) |
| Corrector.LetterboxPlacement | VRCPhotoRotationCorrector/MainWindow.xaml.cs:119-123 | for a scaled photo no larger than S×S, both offsets are non-negative and pixel (r, q) of the photo lands on canvas pixel (offsetY + r, offsetX + q), inside the canvas |
| Corrector.BlockPixel | VRCPhotoRotationCorrector/MainWindow.xaml.cs:123 | r strides and q pixels on from pixel (oy, ox) is pixel (oy + r, ox + q) |
| Corrector.Scores | VRCPhotoRotationCorrector/MainWindow.xaml.cs:126-142 | there are exactly four hypotheses |
| Corrector.ScoreRotations | VRCPhotoRotationCorrector/MainWindow.xaml.cs:126-142 | hypothesis k scores the packed tensor turned k times, and the tensor ends up turned three times |
| Corrector.MaxOf | VRCPhotoRotationCorrector/MainWindow.xaml.cs:143 | the maximum is one of the scores and no score exceeds it |
| Corrector.LastIndexOf | VRCPhotoRotationCorrector/MainWindow.xaml.cs:146-150 | the overwriting scan yields the last index holding the value, or none exactly when the value does not occur |
| Corrector.Choose | VRCPhotoRotationCorrector/MainWindow.xaml.cs:143-150 | the photo is kept exactly when hypothesis 0 scores the maximum, ties included; otherwise the angle is 90, 180 or 270, its hypothesis scores the maximum, and every later hypothesis scores strictly less |
| Corrector.Decide | VRCPhotoRotationCorrector/MainWindow.xaml.cs:143-150 | the maximum loop and the overwriting scan compute Choose of the four scores |
| Corrector.Blank | VRCPhotoRotationCorrector/MainWindow.xaml.cs:119 | a new canvas is 4*S*S zero bytes |
| Corrector.Correct | VRCPhotoRotationCorrector/MainWindow.xaml.cs:119-150 | the decision is Choose over the scores of the centred, packed canvas turned 0, 1, 2 and 3 times |
| Corrector.TieGoesToLaterTurn | VRCPhotoRotationCorrector/MainWindow.xaml.cs:144-150 | scores 0.5, 0.9, 0.9, 0.1 give a half turn: the later of the tied hypotheses wins |
| Corrector.TieWithNoTurnKeeps | VRCPhotoRotationCorrector/MainWindow.xaml.cs:144 | scores 0.7, 0.7, 0.2, 0.7 keep the photo, because hypothesis 0 ties for the maximum |

## Left out

- Image decoding, the `double` scale factor and `ScaleTransform`
  (MainWindow.xaml.cs:109-118) are WPF library calls. The scaled width and
  height are inputs of `Correct`.
- `CopyPixels` (MainWindow.xaml.cs:123) is a library call. It is the
  parameter `copyPixels`, a function of the buffer, the stride and the byte
  offset, assumed only to keep the buffer's length. What it does with a
  negative offset or an overhanging photo is not modelled.
- The ONNX session, the tensor wrapping and the softmax with `Math.Exp`
  (MainWindow.xaml.cs:130-141) are a foreign model and floating point. They
  are the parameter `score`, a function from the tensor to a real.
- Single-precision floats are modelled as reals, so rounding is not
  modelled:
  - `/ 255.0f` is exact real division in `ToUnit`;
  - NaN scores and their effect on `probs.Max()` and `!=` are out of scope;
  - the `double` angle `a * 90.0` is the integer `a * 90`.
- Writing the turned image (`RotateTransform`, PNG encoding, the temporary
  file, `File.Delete`, `File.Move`; MainWindow.xaml.cs:151-161) is I/O. The
  model stops at the decision: `Keep`, or `Rotate(angle)` with the angle
  passed to `RotateTransform`.
- The folder dialog, the directory scan with its `.png` filter, the progress
  bar and the `async` hand-off are UI and concurrency plumbing.
- Packer.TransposeAndCast: the `ArgumentException` and its message are a
  `Failure(InvalidBufferSize(expected, actual))` result. In `Correct` that
  branch cannot be taken, because the canvas always has 4*S*S bytes.
- Rotator.Rotate90 accepts an array at least 3*S*S long and keeps the cells
  past the planes. The source only ever passes exactly 3*S*S, so this is more
  general than needed, not weaker.
- Rotator.Rotate90 needs S even. For odd S the quadrant loops skip the middle
  row and column, which is not modelled. The source's S is 480.
