/**
 * Images as the OpenCV calls of the services see them: a decoded page is an H x W numpy array of
 * BGR pixels with 8-bit channels; cropping is numpy slicing; signature detection is cvtColor to grey,
 * a global threshold at 128 and countNonZero; background removal masks the colour crop with the
 * non-inverted threshold. The BGR-to-grey weighting of cvtColor is a parameter `grey`.
 */
module Pixels {
  import opened Builtins

  newtype byte = x: int | 0 <= x < 256

  datatype Pixel = Bgr(b: byte, g: byte, r: byte)

  const Black: Pixel := Bgr(0, 0, 0)

  /** The intensity threshold passed to cv2.threshold. */
  const Thresh: byte := 128

  /** The value written by cv2.threshold where the result is "on". */
  const MaxVal: byte := 255

  /** countNonZero must exceed this for a signature to be present. */
  const MinInkPixels: nat := 500

  /** Every row has the same width, as in a numpy array. */
  predicate Rectangular<T>(m: seq<seq<T>>) {
    forall i :: 0 <= i < |m| ==> |m[i]| == |m[0]|
  }

  type Image = m: seq<seq<Pixel>> | Rectangular(m)

  /** A single-channel 8-bit image (the result of cvtColor or threshold). */
  type Plane = seq<seq<byte>>

  function Width<T>(m: seq<seq<T>>): nat {
    if m == [] then 0 else |m[0]|
  }

  /** The array has no pixels (a zero in its shape): OpenCV refuses such an input. */
  predicate IsEmpty(img: Image) {
    |img| == 0 || |img[0]| == 0
  }

  /** A rectangle (x1, y1, x2, y2) in pixel coordinates; x is the column, y the row. */
  datatype Rect = Rect(x1: nat, y1: nat, x2: nat, y2: nat)

  /** row[x1:x2] for every row. */
  function CropColumns(rows: seq<seq<Pixel>>, x1: nat, x2: nat): (c: seq<seq<Pixel>>)
    ensures |c| == |rows|
  {
    if rows == [] then [] else [Slice(rows[0], x1, x2)] + CropColumns(rows[1..], x1, x2)
  }

  lemma {:induction false} CropColumnsSpec(rows: seq<seq<Pixel>>, x1: nat, x2: nat)
    ensures forall i :: 0 <= i < |rows| ==> CropColumns(rows, x1, x2)[i] == Slice(rows[i], x1, x2)
  {
    if rows != [] {
      CropColumnsSpec(rows[1..], x1, x2);
    }
  }

  /** image[y1:y2, x1:x2]. */
  function Crop(img: Image, rect: Rect): Image {
    var rows := Slice(img, rect.y1, rect.y2);
    CropShape(img, rect);
    CropColumns(rows, rect.x1, rect.x2)
  }

  lemma CropShape(img: Image, rect: Rect)
    ensures Rectangular(CropColumns(Slice(img, rect.y1, rect.y2), rect.x1, rect.x2))
  {
    var rows := Slice(img, rect.y1, rect.y2);
    SliceSpec(img, rect.y1, rect.y2);
    CropColumnsSpec(rows, rect.x1, rect.x2);
    forall i | 0 <= i < |rows| {
      SliceSpec(rows[i], rect.x1, rect.x2);
    }
  }

  /** image[y1:y2, x1:x2] keeps the rows y1..y2 and the columns x1..x2, each range clamped to the image. */
  lemma CropSpec(img: Image, rect: Rect)
    ensures |Crop(img, rect)| == SliceLength(|img|, rect.y1, rect.y2)
    ensures forall i :: 0 <= i < |Crop(img, rect)| ==> |Crop(img, rect)[i]| == SliceLength(Width(img), rect.x1, rect.x2)
    ensures forall i, j :: 0 <= i < |Crop(img, rect)| && 0 <= j < |Crop(img, rect)[i]| ==>
      rect.y1 + i < |img| && rect.x1 + j < Width(img) && Crop(img, rect)[i][j] == img[rect.y1 + i][rect.x1 + j]
  {
    var rows := Slice(img, rect.y1, rect.y2);
    SliceSpec(img, rect.y1, rect.y2);
    CropColumnsSpec(rows, rect.x1, rect.x2);
    assert forall i :: 0 <= i < |rows| ==> |rows[i]| == Width(img);
    forall i | 0 <= i < |rows| {
      SliceSpec(rows[i], rect.x1, rect.x2);
    }
  }

  /** A rectangle that lies within the image is cut out exactly: (y2-y1) rows of (x2-x1) pixels, offset by (y1, x1). */
  lemma CropWithinBounds(img: Image, rect: Rect)
    requires rect.y1 <= rect.y2 <= |img| && rect.x1 <= rect.x2 <= Width(img)
    ensures |Crop(img, rect)| == rect.y2 - rect.y1
    ensures forall i :: 0 <= i < rect.y2 - rect.y1 ==> |Crop(img, rect)[i]| == rect.x2 - rect.x1
    ensures forall i, j :: 0 <= i < rect.y2 - rect.y1 && 0 <= j < rect.x2 - rect.x1 ==>
      Crop(img, rect)[i][j] == img[rect.y1 + i][rect.x1 + j]
  {
    CropSpec(img, rect);
  }

  /** cv2.cvtColor(img, COLOR_BGR2GRAY), with the conversion of one pixel given as `grey`. */
  function CvtGrey(img: seq<seq<Pixel>>, grey: Pixel -> byte): Plane {
    seq(|img|, i requires 0 <= i < |img| => seq(|img[i]|, j requires 0 <= j < |img[i]| => grey(img[i][j])))
  }

  datatype ThresholdType = ThreshBinary | ThreshBinaryInv

  /** cv2.threshold(m, thresh, maxval, kind)[1]: THRESH_BINARY gives maxval above thresh and 0 elsewhere;
      THRESH_BINARY_INV the other way round. */
  function Threshold(m: Plane, thresh: byte, maxval: byte, kind: ThresholdType): Plane {
    seq(|m|, i requires 0 <= i < |m| => seq(|m[i]|, j requires 0 <= j < |m[i]| =>
      if (m[i][j] > thresh) == (kind == ThreshBinary) then maxval else 0))
  }

  /** Non-zero entries of one row. */
  function RowNonZero(v: seq<byte>): nat {
    if v == [] then 0 else RowNonZero(v[..|v| - 1]) + (if v[|v| - 1] != 0 then 1 else 0)
  }

  /** cv2.countNonZero. */
  function CountNonZero(m: Plane): nat {
    if m == [] then 0 else CountNonZero(m[..|m| - 1]) + RowNonZero(m[|m| - 1])
  }

  /** The columns of a row whose grey value is at most the threshold: the ink. */
  function InkColumns(row: seq<Pixel>, grey: Pixel -> byte): set<nat> {
    set j: nat | j < |row| && grey(row[j]) <= Thresh
  }

  /** Number of pixels whose grey value is at most 128, row by row. */
  function InkCount(img: seq<seq<Pixel>>, grey: Pixel -> byte): nat {
    if img == [] then 0 else InkCount(img[..|img| - 1], grey) + |InkColumns(img[|img| - 1], grey)|
  }

  /** The signature detector: grey conversion, inverted threshold at 128, then more than 500 non-zero pixels. */
  predicate SignaturePresent(crop: seq<seq<Pixel>>, grey: Pixel -> byte) {
    CountNonZero(Threshold(CvtGrey(crop, grey), Thresh, MaxVal, ThreshBinaryInv)) > MinInkPixels
  }

  /** countNonZero on a row counts exactly its non-zero positions. */
  lemma {:induction false} RowNonZeroPositions(v: seq<byte>)
    ensures RowNonZero(v) == |set j: nat | j < |v| && v[j] != 0|
  {
    if v != [] {
      var n := |v| - 1;
      RowNonZeroPositions(v[..n]);
      var prefix := set j: nat | j < n && v[..n][j] != 0;
      var all := set j: nat | j < |v| && v[j] != 0;
      assert prefix == set j: nat | j < n && v[j] != 0;
      if v[n] != 0 {
        assert all == prefix + {n};
      } else {
        assert all == prefix;
      }
    }
  }

  /** Inverted thresholding followed by countNonZero counts the ink pixels: those with grey value <= 128. */
  lemma {:induction false} DetectorCountsInk(img: seq<seq<Pixel>>, grey: Pixel -> byte)
    ensures CountNonZero(Threshold(CvtGrey(img, grey), Thresh, MaxVal, ThreshBinaryInv)) == InkCount(img, grey)
  {
    if img != [] {
      var n := |img| - 1;
      var m := Threshold(CvtGrey(img, grey), Thresh, MaxVal, ThreshBinaryInv);
      DetectorCountsInk(img[..n], grey);
      assert m[..n] == Threshold(CvtGrey(img[..n], grey), Thresh, MaxVal, ThreshBinaryInv);
      RowNonZeroPositions(m[n]);
      assert (set j: nat | j < |m[n]| && m[n][j] != 0) == InkColumns(img[n], grey);
    }
  }

  /** A signature is present iff more than 500 pixels of the crop have grey value <= 128. */
  lemma SignaturePresentIff(crop: seq<seq<Pixel>>, grey: Pixel -> byte)
    ensures SignaturePresent(crop, grey) <==> InkCount(crop, grey) > MinInkPixels
  {
    DetectorCountsInk(crop, grey);
  }

  /** Bitwise and of two naturals, bit by bit from the lowest. */
  function BitAnd(x: nat, y: nat): (r: nat)
    ensures r <= x && r <= y
  {
    if x == 0 || y == 0 then 0
    else 2 * BitAnd(x / 2, y / 2) + (if x % 2 == 1 && y % 2 == 1 then 1 else 0)
  }

  lemma {:induction false} BitAndSelf(x: nat)
    ensures BitAnd(x, x) == x
  {
    if x > 0 {
      BitAndSelf(x / 2);
    }
  }

  function AndPixel(p: Pixel, q: Pixel): Pixel {
    Bgr(BitAnd(p.b as nat, q.b as nat) as byte, BitAnd(p.g as nat, q.g as nat) as byte, BitAnd(p.r as nat, q.r as nat) as byte)
  }

  /** cv2.bitwise_and(a, b, mask=mask) into a fresh array: a & b where the mask is non-zero, zero elsewhere. */
  function BitwiseAnd(a: seq<seq<Pixel>>, b: seq<seq<Pixel>>, mask: Plane): seq<seq<Pixel>>
    requires |b| == |a| && |mask| == |a|
    requires forall i :: 0 <= i < |a| ==> |b[i]| == |a[i]| && |mask[i]| == |a[i]|
  {
    seq(|a|, i requires 0 <= i < |a| => seq(|a[i]|, j requires 0 <= j < |a[i]| =>
      if mask[i][j] != 0 then AndPixel(a[i][j], b[i][j]) else Black))
  }

  /** remove_background: same dimensions; a pixel keeps its colour iff its grey value is above 128, else it is zeroed. */
  function RemoveBackground(img: Image, grey: Pixel -> byte): (r: Image)
    ensures |r| == |img| && forall i :: 0 <= i < |img| ==> |r[i]| == |img[i]|
    ensures forall i, j :: 0 <= i < |img| && 0 <= j < |img[i]| ==>
      r[i][j] == if grey(img[i][j]) > Thresh then img[i][j] else Black
  {
    var mask := Threshold(CvtGrey(img, grey), Thresh, MaxVal, ThreshBinary);
    var r := BitwiseAnd(img, img, mask);
    forall i, j | 0 <= i < |img| && 0 <= j < |img[i]| && mask[i][j] != 0
      ensures AndPixel(img[i][j], img[i][j]) == img[i][j]
    {
      var p := img[i][j];
      BitAndSelf(p.b as nat);
      BitAndSelf(p.g as nat);
      BitAndSelf(p.r as nat);
    }
    r
  }

  /** The pixels the detector counts as ink are exactly those remove_background zeroes; the rest keep their colour. */
  lemma InkIsZeroed(img: Image, grey: Pixel -> byte, i: nat, j: nat)
    requires i < |img| && j < |img[i]|
    ensures Threshold(CvtGrey(img, grey), Thresh, MaxVal, ThreshBinaryInv)[i][j] != 0 ==> RemoveBackground(img, grey)[i][j] == Black
    ensures Threshold(CvtGrey(img, grey), Thresh, MaxVal, ThreshBinaryInv)[i][j] == 0 ==> RemoveBackground(img, grey)[i][j] == img[i][j]
  {
  }
}
