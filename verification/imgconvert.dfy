/**
 * The RGB565 conversion loop of imgconvert.py. The image is an OpenCV
 * array of `height` rows of `width` pixels, each pixel three 8-bit channels
 * in the order blue, green, red. The loop reduces every pixel to the top
 * 5 bits of blue and red and the top 6 bits of green, writes the reduced
 * channels back into the preview copy `cvt`, and appends the pixel to the
 * output file as two bytes, high byte first, row by row. The file is the
 * sequence of bytes written; the arithmetic is numpy's on `uint8` values.
 */
module ImgConvert {
  import opened Arith
  import PiLcd

  /** One pixel as OpenCV stores it: channel 0 is blue, 1 green, 2 red. */
  datatype Bgr = Bgr(blue: bv8, green: bv8, red: bv8)

  /** An image as its rows of pixels, top row first. */
  type Image = seq<seq<Bgr>>

  /** Every row holds `w` pixels. */
  predicate Rectangular(im: Image, w: nat)
  {
    forall y :: 0 <= y < |im| ==> |im[y]| == w
  }

  /** The reduced colour: the low 3 bits of blue and red and the low 2 bits of green cleared. */
  function Mask(p: Bgr): (m: Bgr)
    ensures m.blue & 0x07 == 0 && m.green & 0x03 == 0 && m.red & 0x07 == 0
    ensures m.blue >> 3 == p.blue >> 3 && m.green >> 2 == p.green >> 2 && m.red >> 3 == p.red >> 3
  {
    Bgr(p.blue & 0xF8, p.green & 0xFC, p.red & 0xF8)
  }

  /** The high and the low byte written for a pixel. */
  function Pack(p: Bgr): (bytes: (bv8, bv8))
  {
    var m := Mask(p);
    (m.red + (m.green >> 5), ((m.green << 3) & 0xE0) + (m.blue >> 3))
  }

  /**
   * The two sums of `Pack` add values with no bit in common: each equals
   * the bitwise OR of its parts, so neither carries or wraps past bit 7
   * (each sum is at least as large as both its parts), and the green shift
   * gives the same low byte whether numpy makes it on 8 bits or on more.
   */
  lemma {:induction false} PackNoCarry(p: Bgr)
    ensures var m := Mask(p);
      && m.red & (m.green >> 5) == 0
      && Pack(p).0 == m.red | (m.green >> 5)
      && Pack(p).0 >= m.red && Pack(p).0 >= m.green >> 5
      && ((m.green << 3) & 0xE0) & (m.blue >> 3) == 0
      && Pack(p).1 == ((m.green << 3) & 0xE0) | (m.blue >> 3)
      && Pack(p).1 >= (m.green << 3) & 0xE0 && Pack(p).1 >= m.blue >> 3
      && ((m.green as bv16 << 3) & 0xE0) as bv8 == (m.green << 3) & 0xE0
  {
  }

  /** The two bytes are those `lcdColor565` gives for the same channels, high byte first. */
  lemma {:induction false} PackIsColor565(p: Bgr)
    ensures Pack(p) == (PiLcd.Hi(PiLcd.Color565(p.red, p.green, p.blue)), PiLcd.Lo(PiLcd.Color565(p.red, p.green, p.blue)))
  {
  }

  /** Reducing a pixel first changes nothing in its bytes: only the kept bits are written. */
  lemma {:induction false} PackMasked(p: Bgr)
    ensures Pack(Mask(p)) == Pack(p)
  {
  }

  // ---------------------------------------------------------------------
  // The output file

  /** The bytes written for a run of pixels, two per pixel, in order. */
  function EncodePixels(ps: seq<Bgr>): (bytes: seq<bv8>)
    ensures |bytes| == 2 * |ps|
  {
    if ps == [] then []
    else
      var last := Pack(ps[|ps| - 1]);
      EncodePixels(ps[..|ps| - 1]) + [last.0, last.1]
  }

  /** Pixel `i` of the run is written at bytes `2i` (high) and `2i + 1` (low). */
  lemma {:induction false} EncodeAt(ps: seq<Bgr>, i: nat)
    requires i < |ps|
    ensures EncodePixels(ps)[2 * i] == Pack(ps[i]).0 && EncodePixels(ps)[2 * i + 1] == Pack(ps[i]).1
    decreases |ps|
  {
    if i < |ps| - 1 {
      EncodeAt(ps[..|ps| - 1], i);
    }
  }

  /** Encoding a run of runs is encoding each in turn. */
  lemma {:induction false} EncodeAppend(a: seq<Bgr>, b: seq<Bgr>)
    ensures EncodePixels(a + b) == EncodePixels(a) + EncodePixels(b)
    decreases |b|
  {
    if b == [] {
      assert a + b == a;
    } else {
      var b' := b[..|b| - 1];
      assert (a + b)[..|a + b| - 1] == a + b';
      assert (a + b)[|a + b| - 1] == b[|b| - 1];
      EncodeAppend(a, b');
    }
  }

  /** The pixels of an image row by row, top row first. */
  function Flat(im: Image): (ps: seq<Bgr>)
  {
    if im == [] then [] else Flat(im[..|im| - 1]) + im[|im| - 1]
  }

  /** In a rectangular image, pixel (x, y) is pixel `Cells(w, y) + x` of the row-by-row run. */
  lemma {:induction false} FlatAt(im: Image, w: nat, y: nat, x: nat)
    requires Rectangular(im, w) && y < |im| && x < w
    ensures |Flat(im)| == Cells(w, |im|) && 0 <= Cells(w, y) && Cells(w, y) + x < |Flat(im)|
    ensures Flat(im)[Cells(w, y) + x] == im[y][x]
    decreases |im|
  {
    var front := im[..|im| - 1];
    assert Rectangular(front, w);
    FlatLength(front, w);
    CellsBelow(x, y, w, |im|);
    if y < |im| - 1 {
      FlatAt(front, w, y, x);
    } else {
      assert Flat(im) == Flat(front) + im[y];
    }
  }

  lemma {:induction false} FlatLength(im: Image, w: nat)
    requires Rectangular(im, w)
    ensures |Flat(im)| == Cells(w, |im|)
    decreases |im|
  {
    if im != [] {
      var front := im[..|im| - 1];
      assert Rectangular(front, w);
      FlatLength(front, w);
    }
  }

  /** The output file for an image. */
  function Encode(im: Image): seq<bv8>
  {
    EncodePixels(Flat(im))
  }

  /**
   * The file of a `height`-by-`w` image holds `2 * height * w` bytes, and
   * pixel (x, y) is written at offset `2 * (y * w + x)`, high byte first.
   */
  lemma {:induction false} EncodeLayout(im: Image, w: nat, y: nat, x: nat)
    requires Rectangular(im, w) && y < |im| && x < w
    ensures |Encode(im)| == 2 * (|im| * w)
    ensures 2 * (y * w + x) + 1 < |Encode(im)|
    ensures Encode(im)[2 * (y * w + x)] == Pack(im[y][x]).0
    ensures Encode(im)[2 * (y * w + x) + 1] == Pack(im[y][x]).1
  {
    FlatAt(im, w, y, x);
    CellsProduct(w, y);
    CellsProduct(w, |im|);
    EncodeAt(Flat(im), Cells(w, y) + x);
  }

  // ---------------------------------------------------------------------
  // The loop over the image arrays

  /** Pixel (x, y) of an image array of shape (height, width, 3). */
  function PixelOf(a: array3<bv8>, y: int, x: int): Bgr
    requires a.Length2 == 3 && 0 <= y < a.Length0 && 0 <= x < a.Length1
    reads a
  {
    Bgr(a[y, x, 0], a[y, x, 1], a[y, x, 2])
  }

  /** The image an array holds. */
  ghost function Picture(a: array3<bv8>): (im: Image)
    requires a.Length2 == 3
    reads a
    ensures |im| == a.Length0 && Rectangular(im, a.Length1)
    ensures forall y, x :: 0 <= y < a.Length0 && 0 <= x < a.Length1 ==> im[y][x] == PixelOf(a, y, x)
  {
    seq(a.Length0, y requires 0 <= y < a.Length0 reads a =>
      seq(a.Length1, x requires 0 <= x < a.Length1 reads a => PixelOf(a, y, x)))
  }

  /** Pixel (xx, yy) comes before pixel (x, y) in row-by-row order. */
  predicate Before(yy: int, xx: int, y: int, x: int)
  {
    yy < y || (yy == y && xx < x)
  }

  /**
   * The preview copy while the loop is at pixel (x, y): the pixels before
   * it are reduced, the others are as in the image `im`.
   */
  ghost predicate Preview(cvt: array3<bv8>, im: Image, y: int, x: int)
    reads cvt
  {
    && cvt.Length2 == 3 && |im| == cvt.Length0 && Rectangular(im, cvt.Length1)
    && forall yy, xx :: 0 <= yy < cvt.Length0 && 0 <= xx < cvt.Length1 ==>
         PixelOf(cvt, yy, xx) == if Before(yy, xx, y, x) then Mask(im[yy][xx]) else im[yy][xx]
  }

  /**
   * The conversion loop: `cvt` starts as a copy of `img`, ends with every
   * pixel reduced, and `out` holds the file written; `img` is only read.
   */
  method Convert(img: array3<bv8>) returns (cvt: array3<bv8>, out: seq<bv8>)
    requires img.Length2 == 3
    ensures fresh(cvt) && cvt.Length0 == img.Length0 && cvt.Length1 == img.Length1 && cvt.Length2 == 3
    ensures forall y, x :: 0 <= y < img.Length0 && 0 <= x < img.Length1 ==> PixelOf(cvt, y, x) == Mask(PixelOf(img, y, x))
    ensures out == Encode(Picture(img))
  {
    ghost var im := Picture(img);
    cvt := new bv8[img.Length0, img.Length1, 3]((y, x, c) reads img
      requires 0 <= y < img.Length0 && 0 <= x < img.Length1 && 0 <= c < 3 => img[y, x, c]);
    out := [];
    var y := 0;
    while y < cvt.Length0
      invariant 0 <= y <= cvt.Length0
      invariant Preview(cvt, im, y, 0)
      invariant out == Encode(im[..y])
    {
      out := ConvertRow(cvt, y, im, out);
      assert im[..y + 1][..y] == im[..y];
      EncodeAppend(Flat(im[..y]), im[y]);
      y := y + 1;
    }
    assert im[..y] == im;
  }

  /** The inner loop: row `y`, pixel by pixel, left to right. */
  method ConvertRow(cvt: array3<bv8>, y: int, ghost im: Image, out0: seq<bv8>) returns (out: seq<bv8>)
    requires 0 <= y < cvt.Length0 && Preview(cvt, im, y, 0)
    modifies cvt
    ensures Preview(cvt, im, y + 1, 0)
    ensures out == out0 + EncodePixels(im[y])
  {
    out := out0;
    var x := 0;
    while x < cvt.Length1
      invariant 0 <= x <= cvt.Length1
      invariant Preview(cvt, im, y, x)
      invariant out == out0 + EncodePixels(im[y][..x])
    {
      var highByte, lowByte := ConvertPixel(cvt, y, x);
      assert im[y][..x + 1][..x] == im[y][..x];
      out := out + [highByte, lowByte];
      x := x + 1;
    }
    assert im[y][..x] == im[y];
  }

  /** The body of the inner loop: pixel (x, y) reduced in place, and its two bytes. */
  method ConvertPixel(cvt: array3<bv8>, y: int, x: int) returns (highByte: bv8, lowByte: bv8)
    requires cvt.Length2 == 3 && 0 <= y < cvt.Length0 && 0 <= x < cvt.Length1
    modifies cvt
    ensures PixelOf(cvt, y, x) == Mask(old(PixelOf(cvt, y, x)))
    ensures forall yy, xx :: 0 <= yy < cvt.Length0 && 0 <= xx < cvt.Length1 && (yy != y || xx != x) ==>
      PixelOf(cvt, yy, xx) == old(PixelOf(cvt, yy, xx))
    ensures (highByte, lowByte) == Pack(old(PixelOf(cvt, y, x)))
  {
    var blue, green, red := ReducePixel(cvt, y, x);
    highByte := red + (green >> 5);
    lowByte := ((green << 3) & 0xE0) + (blue >> 3);
  }

  /** The three channels of pixel (x, y) masked and stored back. */
  method ReducePixel(cvt: array3<bv8>, y: int, x: int) returns (blue: bv8, green: bv8, red: bv8)
    requires cvt.Length2 == 3 && 0 <= y < cvt.Length0 && 0 <= x < cvt.Length1
    modifies cvt
    ensures Bgr(blue, green, red) == Mask(old(PixelOf(cvt, y, x))) == PixelOf(cvt, y, x)
    ensures forall yy, xx :: 0 <= yy < cvt.Length0 && 0 <= xx < cvt.Length1 && (yy != y || xx != x) ==>
      PixelOf(cvt, yy, xx) == old(PixelOf(cvt, yy, xx))
  {
    blue := cvt[y, x, 0] & 0xF8;
    green := cvt[y, x, 1] & 0xFC;
    red := cvt[y, x, 2] & 0xF8;
    cvt[y, x, 0] := blue;
    cvt[y, x, 1] := green;
    cvt[y, x, 2] := red;
  }
}
