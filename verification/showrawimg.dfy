/**
 * The RGB565 reading loop of showrawimg.py. The raw file is read two bytes
 * per pixel, high byte first, for an image of 128 rows of 160 pixels, row
 * by row; each pair is spread back into 8-bit blue, green and red channels
 * (Python integers, stored into a `uint8` array first filled with zeros).
 * A file that ends early makes `ord` of an empty read raise, which ends
 * the loop at the pixel that could not be read.
 */
module ShowRawImg {
  import opened Arith
  import opened ImgConvert
  import PiLcd

  const ImgHeight := 128
  const ImgWidth := 160

  /**
   * The red, green and blue values the script computes from a byte pair,
   * on integers wide enough that no step of the computation wraps. Each
   * fits a byte, so storing it into the `uint8` image keeps it whole.
   */
  function Channels(hi: bv8, lo: bv8): (c: (bv16, bv16, bv16))
    ensures c.0 < 256 && c.1 < 256 && c.2 < 256
  {
    var red := hi as bv16 & 0xF8;
    var green := ((hi as bv16 & 0x07) << 5) + ((lo as bv16 & 0xE0) >> 3);
    var blue := (lo as bv16 & 0x1F) << 3;
    (red, green, blue)
  }

  /**
   * The pixel a byte pair gives. Its channels carry the three fields of the
   * RGB565 word `hi:lo` in their top bits (red the top 5 bits of `hi`, green
   * the next 6, blue the low 5 bits of `lo`) and zeros below.
   */
  function Unpack(hi: bv8, lo: bv8): (p: Bgr)
    ensures p.red & 0x07 == 0 && p.green & 0x03 == 0 && p.blue & 0x07 == 0
    ensures p.red >> 3 == hi >> 3
    ensures p.green >> 2 == ((hi & 0x07) << 3) | (lo >> 5)
    ensures p.blue >> 3 == lo & 0x1F
  {
    var c := Channels(hi, lo);
    Bgr(c.2 as bv8, c.1 as bv8, c.0 as bv8)
  }

  /** Reading back the bytes imgconvert writes for a pixel gives the reduced pixel. */
  lemma {:induction false} UnpackPack(p: Bgr)
    ensures Unpack(Pack(p).0, Pack(p).1) == Mask(p)
  {
  }

  /** Every byte pair is what imgconvert writes for the pixel read from it: no two pairs read alike. */
  lemma {:induction false} PackUnpack(hi: bv8, lo: bv8)
    ensures Pack(Unpack(hi, lo)) == (hi, lo)
  {
  }

  /** The pixel read from a pair has the pair, as one word, for its `lcdColor565`. */
  lemma {:induction false} UnpackColor565(hi: bv8, lo: bv8)
    ensures var p := Unpack(hi, lo);
      PiLcd.Color565(p.red, p.green, p.blue) == (hi as bv16 << 8) | lo as bv16
  {
  }

  // ---------------------------------------------------------------------
  // The file, read pixel by pixel

  /** The first `n` pixels read from the bytes, in order. */
  function DecodePixels(bytes: seq<bv8>, n: nat): (ps: seq<Bgr>)
    requires 2 * n <= |bytes|
    ensures |ps| == n
  {
    if n == 0 then [] else DecodePixels(bytes, n - 1) + [Unpack(bytes[2 * n - 2], bytes[2 * n - 1])]
  }

  /** Pixel `i` is read from bytes `2i` (high) and `2i + 1` (low). */
  lemma {:induction false} DecodeAt(bytes: seq<bv8>, n: nat, i: nat)
    requires 2 * n <= |bytes| && i < n
    ensures DecodePixels(bytes, n)[i] == Unpack(bytes[2 * i], bytes[2 * i + 1])
    decreases n
  {
    if i < n - 1 {
      DecodeAt(bytes, n - 1, i);
    }
  }

  /** Reading a file written by imgconvert gives back every pixel, reduced. */
  lemma {:induction false} DecodeEncode(ps: seq<Bgr>)
    ensures |DecodePixels(EncodePixels(ps), |ps|)| == |ps|
    ensures forall i :: 0 <= i < |ps| ==> DecodePixels(EncodePixels(ps), |ps|)[i] == Mask(ps[i])
  {
    forall i | 0 <= i < |ps|
      ensures DecodePixels(EncodePixels(ps), |ps|)[i] == Mask(ps[i])
    {
      DecodeAt(EncodePixels(ps), |ps|, i);
      EncodeAt(ps, i);
      UnpackPack(ps[i]);
    }
  }

  /** Writing back the pixels read from a file gives the bytes read. */
  lemma {:induction false} EncodeDecode(bytes: seq<bv8>, n: nat)
    requires 2 * n <= |bytes|
    ensures EncodePixels(DecodePixels(bytes, n)) == bytes[..2 * n]
    decreases n
  {
    if n > 0 {
      var ps := DecodePixels(bytes, n);
      EncodeDecode(bytes, n - 1);
      assert ps[..n - 1] == DecodePixels(bytes, n - 1);
      PackUnpack(bytes[2 * n - 2], bytes[2 * n - 1]);
      assert bytes[..2 * n] == bytes[..2 * n - 2] + [bytes[2 * n - 2], bytes[2 * n - 1]];
    }
  }

  // ---------------------------------------------------------------------
  // The loop over the image array

  /** What pixel `k` of the image shows: its byte pair when the file holds it, else black. */
  function ShownPixel(file: seq<bv8>, k: int): Bgr
  {
    if 0 <= k && 2 * k + 2 <= |file| then Unpack(file[2 * k], file[2 * k + 1]) else Bgr(0, 0, 0)
  }

  /** Pixel (xx, yy) of a `w`-wide grid comes before pixel (x, y) exactly when its row-by-row index is smaller. */
  lemma {:induction false} BeforeIndex(w: int, yy: int, xx: int, y: int, x: int)
    requires 0 <= xx < w && 0 <= x < w && 0 <= yy && 0 <= y
    ensures Before(yy, xx, y, x) <==> Cells(w, yy) + xx < Cells(w, y) + x
  {
    if yy < y {
      CellsRow(w, yy, y);
    } else if y < yy {
      CellsRow(w, y, yy);
    }
  }

  /** The image while the loop is at pixel (x, y): the pixels before it read, the others still zero. */
  ghost predicate Shown(img: array3<bv8>, file: seq<bv8>, y: int, x: int)
    reads img
  {
    && img.Length0 == ImgHeight && img.Length1 == ImgWidth && img.Length2 == 3
    && forall yy, xx :: 0 <= yy < ImgHeight && 0 <= xx < ImgWidth ==>
         PixelOf(img, yy, xx) == if Before(yy, xx, y, x) then ShownPixel(file, Cells(ImgWidth, yy) + xx) else Bgr(0, 0, 0)
  }

  /**
   * The reading loop. `complete` is false when the file ends before the
   * last pixel (the script raises there). Every pixel the file holds is
   * read from its pair, in row-by-row order; the pixels after the end of
   * the file stay black.
   */
  method Show(file: seq<bv8>) returns (img: array3<bv8>, complete: bool)
    ensures fresh(img) && img.Length0 == ImgHeight && img.Length1 == ImgWidth && img.Length2 == 3
    ensures complete <==> 2 * Cells(ImgWidth, ImgHeight) <= |file|
    ensures forall y, x :: 0 <= y < ImgHeight && 0 <= x < ImgWidth ==>
      PixelOf(img, y, x) == ShownPixel(file, Cells(ImgWidth, y) + x)
  {
    img := new bv8[ImgHeight, ImgWidth, 3]((y, x, c) => 0);
    var pos := 0;
    var y := 0;
    while y < ImgHeight
      invariant 0 <= y <= ImgHeight && pos == 2 * Cells(ImgWidth, y) <= |file|
      invariant Shown(img, file, y, 0)
    {
      var ok;
      ok, pos := ShowRow(img, file, y, pos);
      if !ok {
        ShownRest(img, file, pos);
        return img, false;
      }
      y := y + 1;
    }
    CellsNonNegative(ImgWidth, ImgHeight);
    complete := true;
  }

  /** The inner loop over row `y`; `ok` is false when the file ends inside the row. */
  method ShowRow(img: array3<bv8>, file: seq<bv8>, y: int, pos0: int) returns (ok: bool, pos: int)
    requires 0 <= y < ImgHeight && pos0 == 2 * Cells(ImgWidth, y) <= |file| && Shown(img, file, y, 0)
    modifies img
    ensures ok ==> pos == 2 * Cells(ImgWidth, y + 1) <= |file| && Shown(img, file, y + 1, 0)
    ensures !ok ==> exists x :: (0 <= x < ImgWidth && pos == 2 * (Cells(ImgWidth, y) + x)
      && |file| < pos + 2 && Shown(img, file, y, x))
  {
    pos := pos0;
    var x := 0;
    while x < ImgWidth
      invariant 0 <= x <= ImgWidth && pos == 2 * (Cells(ImgWidth, y) + x) <= |file|
      invariant Shown(img, file, y, x)
    {
      if |file| < pos + 2 {
        return false, pos;
      }
      ShowPixel(img, file, y, x, pos);
      pos := pos + 2;
      x := x + 1;
    }
    assert Shown(img, file, y + 1, 0) by {
      assert forall yy, xx :: 0 <= xx < ImgWidth ==> (Before(yy, xx, y, x) <==> Before(yy, xx, y + 1, 0));
    }
    ok := true;
  }

  /** The body of the inner loop: pixel (x, y) read from the pair at `pos`. */
  method ShowPixel(img: array3<bv8>, file: seq<bv8>, y: int, x: int, pos: int)
    requires 0 <= y < ImgHeight && 0 <= x < ImgWidth && pos == 2 * (Cells(ImgWidth, y) + x) && pos + 2 <= |file|
    requires img.Length0 == ImgHeight && img.Length1 == ImgWidth && img.Length2 == 3
    modifies img
    ensures PixelOf(img, y, x) == ShownPixel(file, Cells(ImgWidth, y) + x)
    ensures forall yy, xx :: 0 <= yy < ImgHeight && 0 <= xx < ImgWidth && (yy != y || xx != x) ==>
      PixelOf(img, yy, xx) == old(PixelOf(img, yy, xx))
  {
    CellsNonNegative(ImgWidth, y);
    var highByte := file[pos];
    var lowByte := file[pos + 1];
    var red, green, blue := SplitPair(highByte, lowByte);
    StorePixel(img, y, x, Bgr(blue as bv8, green as bv8, red as bv8));
  }

  /** The channel arithmetic of the loop body, on the pair just read. */
  method SplitPair(highByte: bv8, lowByte: bv8) returns (red: bv16, green: bv16, blue: bv16)
    ensures (red, green, blue) == Channels(highByte, lowByte)
  {
    red := highByte as bv16 & 0xF8;
    var grn1 := (highByte as bv16 & 0x07) << 5;
    var grn2 := (lowByte as bv16 & 0xE0) >> 3;
    green := grn1 + grn2;
    blue := (lowByte as bv16 & 0x1F) << 3;
  }

  /** The three channel stores of pixel (x, y), blue first. */
  method StorePixel(img: array3<bv8>, y: int, x: int, p: Bgr)
    requires img.Length2 == 3 && 0 <= y < img.Length0 && 0 <= x < img.Length1
    modifies img
    ensures PixelOf(img, y, x) == p
    ensures forall yy, xx :: 0 <= yy < img.Length0 && 0 <= xx < img.Length1 && (yy != y || xx != x) ==>
      PixelOf(img, yy, xx) == old(PixelOf(img, yy, xx))
  {
    img[y, x, 0] := p.blue;
    img[y, x, 1] := p.green;
    img[y, x, 2] := p.red;
  }

  /** When the file ends at pixel (x, y), no later pixel is held by it: the image is what the file shows. */
  lemma {:induction false} ShownRest(img: array3<bv8>, file: seq<bv8>, pos: int)
    requires exists y, x :: (0 <= y < ImgHeight && 0 <= x < ImgWidth && pos == 2 * (Cells(ImgWidth, y) + x)
      && |file| < pos + 2 && Shown(img, file, y, x))
    ensures 2 * Cells(ImgWidth, ImgHeight) > |file|
    ensures forall yy, xx :: 0 <= yy < ImgHeight && 0 <= xx < ImgWidth ==>
      PixelOf(img, yy, xx) == ShownPixel(file, Cells(ImgWidth, yy) + xx)
  {
    var y, x :| 0 <= y < ImgHeight && 0 <= x < ImgWidth && pos == 2 * (Cells(ImgWidth, y) + x)
      && |file| < pos + 2 && Shown(img, file, y, x);
    CellsBelow(x, y, ImgWidth, ImgHeight);
    forall yy, xx | 0 <= yy < ImgHeight && 0 <= xx < ImgWidth
      ensures PixelOf(img, yy, xx) == ShownPixel(file, Cells(ImgWidth, yy) + xx)
    {
      CellsNonNegative(ImgWidth, yy);
      BeforeIndex(ImgWidth, yy, xx, y, x);
    }
  }

  /**
   * A 128-by-160 image converted by imgconvert and read back by showrawimg
   * shows every pixel reduced, and the whole file is read.
   */
  lemma {:induction false} RoundTrip(im: Image, y: nat, x: nat)
    requires |im| == ImgHeight && Rectangular(im, ImgWidth) && y < ImgHeight && x < ImgWidth
    ensures 2 * Cells(ImgWidth, ImgHeight) <= |Encode(im)|
    ensures ShownPixel(Encode(im), Cells(ImgWidth, y) + x) == Mask(im[y][x])
  {
    FlatAt(im, ImgWidth, y, x);
    var k := Cells(ImgWidth, y) + x;
    EncodeAt(Flat(im), k);
    UnpackPack(im[y][x]);
  }
}
