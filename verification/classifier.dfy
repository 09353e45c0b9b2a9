/** The white-background classifier: the pixel loop of `removeWhiteBackgroundLocally`.
    The buffer is the flat RGBA byte array of the decoded image, four bytes per pixel. */
module Classifier {
  import opened Color
  import opened Hex

  /** One element of the `Uint8ClampedArray` the canvas hands out. */
  type byte = x: int | 0 <= x < 256

  /** The fixed target colour, given to the parser as a string. */
  const TargetHex: string := "#FFFFFF"
  const White: RGB := RGB(255, 255, 255)
  /** The fixed, inclusive L1 tolerance. */
  const Tolerance: nat := 30

  /** A pixel is background when its colour lies within the tolerance of white. */
  predicate IsBackground(c: RGB) {
    ColorDifference(c, White) <= Tolerance
  }

  /** The colour of a whole pixel that ends at alpha index `k` of buffer `s`. */
  function ColorBefore(s: seq<byte>, k: nat): RGB
    requires 3 <= k < |s|
  {
    RGB(s[k - 3], s[k - 2], s[k - 1])
  }

  /** One whole pixel through the classifier: a background pixel keeps its colour and
      loses its alpha, any other pixel is left as it was. */
  function ClassifyPixel(px: seq<byte>): (q: seq<byte>)
    requires |px| == 4
  {
    if IsBackground(RGB(px[0], px[1], px[2])) then px[..3] + [0] else px
  }

  /** The buffer after the loop, pixel after pixel. A trailing partial pixel, which a
      canvas never produces, is left alone: in the source one of its channels reads as
      `undefined`, so the comparison fails, or its alpha lies past the end, where a typed
      array ignores the write. */
  function RemoveBackground(s: seq<byte>): (r: seq<byte>)
    ensures |r| == |s|
    decreases |s|
  {
    if |s| < 4 then s else ClassifyPixel(s[..4]) + RemoveBackground(s[4..])
  }

  /** What the classifier leaves at index `k` of buffer `s`, by the per-pixel rule alone:
      only the alpha byte of a background pixel changes, and it becomes 0. */
  function ByteAfter(s: seq<byte>, k: nat): byte
    requires k < |s|
  {
    if k % 4 == 3 && IsBackground(ColorBefore(s, k)) then 0 else s[k]
  }

  /** The pixel-by-pixel definition agrees with the per-byte rule everywhere. */
  lemma {:induction false} RemoveBackgroundAt(s: seq<byte>, k: nat)
    requires k < |s|
    ensures RemoveBackground(s)[k] == ByteAfter(s, k)
  {
    if |s| >= 4 {
      var rest := s[4..];
      if k >= 4 {
        RemoveBackgroundAt(rest, k - 4);
        assert (k - 4) % 4 == k % 4;
        if k % 4 == 3 {
          assert ColorBefore(rest, k - 4) == ColorBefore(s, k);
        }
      }
    }
  }

  /** The three colour bytes of every whole pixel come through unchanged. */
  lemma PixelColorKept(s: seq<byte>, k: nat)
    requires 3 <= k < |s| && k % 4 == 3
    ensures forall j :: k - 3 <= j < k ==> RemoveBackground(s)[j] == s[j]
  {
    ColorBytesOfPixel(k);
    forall j | k - 3 <= j < k
      ensures RemoveBackground(s)[j] == s[j]
    {
      OnlyAlphaWritten(s, j);
    }
  }

  /** The rule on one whole pixel that starts at index `i`, in the loop's own terms:
      its alpha becomes 0 when its distance from white is within the tolerance. */
  lemma PixelStep(s: seq<byte>, i: nat, p: nat)
    requires i == 4 * p && i + 3 < |s|
    ensures ByteAfter(s, i) == s[i] && ByteAfter(s, i + 1) == s[i + 1]
    ensures ByteAfter(s, i + 2) == s[i + 2]
    ensures ByteAfter(s, i + 3)
         == if ColorDifference(RGB(s[i], s[i + 1], s[i + 2]), White) <= Tolerance
            then 0 else s[i + 3]
  {
    assert i % 4 != 3 && (i + 1) % 4 != 3 && (i + 2) % 4 != 3 && (i + 3) % 4 == 3;
  }

  /** The bytes of a trailing partial pixel that starts at index `i` keep their values. */
  lemma TailStep(s: seq<byte>, i: nat, p: nat)
    requires i == 4 * p && i < |s| <= i + 3
    ensures forall k :: i <= k < |s| ==> ByteAfter(s, k) == s[k]
  {
    assert i % 4 != 3 && (i + 1) % 4 != 3 && (i + 2) % 4 != 3;
  }

  /** A buffer that follows the per-byte rule everywhere is the processed buffer. */
  lemma ByteRuleIsRemoveBackground(s: seq<byte>, r: seq<byte>)
    requires |r| == |s|
    requires forall k :: 0 <= k < |s| ==> r[k] == ByteAfter(s, k)
    ensures r == RemoveBackground(s)
  {
    forall k | 0 <= k < |s|
      ensures r[k] == RemoveBackground(s)[k]
    {
      RemoveBackgroundAt(s, k);
    }
  }

  /** The three bytes before an alpha index are colour bytes, not alpha bytes. */
  lemma ColorBytesOfPixel(k: nat)
    requires 3 <= k && k % 4 == 3
    ensures (k - 3) % 4 == 0 && (k - 2) % 4 == 1 && (k - 1) % 4 == 2
  {
  }

  /** Every pixel whose colour is within the tolerance of white ends with alpha 0, and
      keeps its colour. */
  lemma BackgroundBecomesTransparent(s: seq<byte>, k: nat)
    requires 3 <= k < |s| && k % 4 == 3
    requires IsBackground(ColorBefore(s, k))
    ensures RemoveBackground(s)[k] == 0
    ensures ColorBefore(RemoveBackground(s), k) == ColorBefore(s, k)
  {
    RemoveBackgroundAt(s, k);
    PixelColorKept(s, k);
  }

  /** Every other pixel is unchanged in all four bytes. */
  lemma ForegroundUnchanged(s: seq<byte>, k: nat)
    requires 3 <= k < |s| && k % 4 == 3
    requires !IsBackground(ColorBefore(s, k))
    ensures forall j :: k - 3 <= j <= k ==> RemoveBackground(s)[j] == s[j]
  {
    RemoveBackgroundAt(s, k);
    PixelColorKept(s, k);
  }

  /** Only alpha bytes are ever written: red, green and blue bytes, and the bytes of a
      trailing partial pixel, are never changed. */
  lemma OnlyAlphaWritten(s: seq<byte>, k: nat)
    requires k < |s| && k % 4 != 3
    ensures RemoveBackground(s)[k] == s[k]
  {
    RemoveBackgroundAt(s, k);
  }

  /** Running the classifier a second time changes nothing: colours are never written,
      so every pixel is classified as before, and a zero alpha stays zero. */
  lemma {:induction false} RemoveBackgroundIdempotent(s: seq<byte>)
    ensures RemoveBackground(RemoveBackground(s)) == RemoveBackground(s)
    decreases |s|
  {
    if |s| >= 4 {
      var r := RemoveBackground(s);
      RemoveBackgroundIdempotent(s[4..]);
      assert r[..4] == ClassifyPixel(s[..4]);
      assert r[4..] == RemoveBackground(s[4..]);
    }
  }

  /** The rule has no cross-pixel dependency: a buffer split at a pixel boundary may be
      processed in two chunks, in either order, with the same result. */
  lemma {:induction false} RemoveBackgroundChunks(a: seq<byte>, b: seq<byte>)
    requires |a| % 4 == 0
    ensures RemoveBackground(a + b) == RemoveBackground(a) + RemoveBackground(b)
    decreases |a|
  {
    if |a| >= 4 {
      RemoveBackgroundChunks(a[4..], b);
      assert (a + b)[..4] == a[..4];
      assert (a + b)[4..] == a[4..] + b;
    } else {
      assert a == [];
      assert a + b == b;
    }
  }

  /** The threshold is inclusive: distance 30 is background, distance 31 is not, and the
      light grey (240, 240, 240), at distance 45, is not. */
  lemma ThresholdInclusive()
    ensures IsBackground(RGB(245, 245, 245))
    ensures !IsBackground(RGB(245, 245, 244))
    ensures !IsBackground(RGB(240, 240, 240))
    ensures !IsBackground(RGB(0, 0, 0))
  {
  }

  /** Near-white in channel-sum terms: an 8-bit pixel is background exactly when its
      red, green and blue add up to at least 735. */
  lemma BackgroundIffBrightEnough(c: RGB)
    requires InRange(c)
    ensures IsBackground(c) <==> c.r + c.g + c.b >= 735
  {
    DistanceFromWhite(c);
  }

  /** One opaque white pixel, and the same pixel made fully transparent. */
  const OpaqueWhite: seq<byte> := [255, 255, 255, 255]
  const TransparentWhite: seq<byte> := [255, 255, 255, 0]

  /** An all-white 2 x 2 image becomes four fully transparent white pixels. */
  lemma AllWhiteScenario()
    ensures RemoveBackground(OpaqueWhite + OpaqueWhite + OpaqueWhite + OpaqueWhite)
         == TransparentWhite + TransparentWhite + TransparentWhite + TransparentWhite
  {
    var w, c := OpaqueWhite, TransparentWhite;
    assert IsBackground(RGB(255, 255, 255));
    assert RemoveBackground(w) == c;
    RemoveBackgroundChunks(w, w);
    RemoveBackgroundChunks(w + w, w);
    RemoveBackgroundChunks(w + w + w, w);
  }

  /** An opaque black pixel and an opaque light-grey pixel are left as they were. */
  lemma OpaqueScenarios()
    ensures RemoveBackground([0, 0, 0, 255]) == [0, 0, 0, 255]
    ensures RemoveBackground([240, 240, 240, 255]) == [240, 240, 240, 255]
  {
    ThresholdInclusive();
  }

  /** The pixel loop. It parses the fixed target colour, then walks the buffer four bytes
      at a time and zeroes the alpha of every pixel within the tolerance of the target. */
  method RemoveWhiteBackground(data: array<byte>)
    modifies data
    ensures data[..] == RemoveBackground(old(data[..]))
  {
    var parsed := HexToRgb(TargetHex);
    // The source reports an internal error when the parse fails; it cannot fail.
    WhiteHexParses();
    var targetRgb := parsed.value;
    assert targetRgb == White;
    var actualTolerance := 30;
    ghost var original := data[..];
    var i := 0;
    ghost var p := 0;
    while i < data.Length
      invariant i == 4 * p && i < data.Length + 4
      invariant forall k :: 0 <= k < data.Length && k < i ==> data[k] == ByteAfter(original, k)
      invariant forall k :: i <= k < data.Length ==> data[k] == original[k]
    {
      if i + 3 < data.Length {
        PixelStep(original, i, p);
        var diff := ColorDifference(RGB(data[i], data[i + 1], data[i + 2]), targetRgb);
        if diff <= actualTolerance {
          data[i + 3] := 0;
        }
      } else {
        TailStep(original, i, p);
      }
      i, p := i + 4, p + 1;
    }
    ByteRuleIsRemoveBackground(original, data[..]);
  }
}
