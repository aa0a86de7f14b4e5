/** The average-hash signature (`pic_code`) and the fraction-of-agreeing-bits
    score used to compare two signatures. */
module Signature {
  import opened Grid
  import Config

  /** An 8x8 grayscale thumbnail, as produced for every tile and block. */
  type Thumbnail = t: Image<nat> | IsRect(t, Config.ThumbSide, Config.ThumbSide)
    witness seq(8, _ => seq(8, _ => 0))

  /** The arithmetic mean of a non-empty sequence of intensities. */
  function Mean(s: seq<nat>): real
    requires |s| > 0
  {
    Sum(s) as real / |s| as real
  }

  /** `p` is strictly brighter than the mean of `pixels`. */
  predicate AboveMean(p: nat, pixels: seq<nat>) {
    |pixels| > 0 && p as real > Mean(pixels)
  }

  /** The mean comparison needs no division: `p > sum/n` iff `n*p > sum`. */
  lemma AboveMeanIff(p: nat, pixels: seq<nat>)
    requires |pixels| > 0
    ensures AboveMean(p, pixels) <==> |pixels| * p > Sum(pixels)
  {
    var n := |pixels| as real;
    var s := Sum(pixels) as real;
    assert (|pixels| * p) as real == n * (p as real);
    assert Mean(pixels) * n == s;
    if p as real > Mean(pixels) {
      assert n * (p as real) > n * Mean(pixels);
    } else {
      assert n * (p as real) <= n * Mean(pixels);
    }
  }

  /** One bit per pixel: 1 when the pixel is above the mean of all pixels. */
  function Bits(pixels: seq<nat>): (bits: seq<nat>)
    ensures |bits| == |pixels|
    ensures forall k :: 0 <= k < |pixels| ==>
              bits[k] == (if AboveMean(pixels[k], pixels) then 1 else 0)
  {
    var n := |pixels|;
    var total := Sum(pixels);
    AllAboveMeanIff(pixels);
    seq(n, k requires 0 <= k < n => if n * pixels[k] > total then 1 else 0)
  }

  lemma AllAboveMeanIff(pixels: seq<nat>)
    ensures forall k :: 0 <= k < |pixels| ==>
              (AboveMean(pixels[k], pixels) <==> |pixels| * pixels[k] > Sum(pixels))
  {
    forall k | 0 <= k < |pixels|
      ensures AboveMean(pixels[k], pixels) <==> |pixels| * pixels[k] > Sum(pixels)
    {
      AboveMeanIff(pixels[k], pixels);
    }
  }

  /** `pic_code`: the signature of a 2-D array, one bit per pixel in
      row-major order, 1 exactly when the pixel exceeds the array mean. */
  function PicCode(img: Image<nat>): (code: seq<nat>)
    requires Rectangular(img)
    ensures |code| == |img| * Width(img) == |Flatten(img)|
    ensures forall k :: 0 <= k < |code| ==> code[k] == 0 || code[k] == 1
    ensures forall k :: 0 <= k < |code| ==>
              (code[k] == 1 <==> AboveMean(Flatten(img)[k], Flatten(img)))
  {
    FlattenLength(img, |img|, Width(img));
    Bits(Flatten(img))
  }

  /** Bit `i*w + j` of the signature of a `h` by `w` array is the bit of
      pixel `(i, j)`. */
  lemma PicCodeRowMajor(img: Image<nat>, i: nat, j: nat)
    requires Rectangular(img)
    requires i < |img| && j < Width(img)
    ensures i * Width(img) + j < |PicCode(img)|
    ensures PicCode(img)[i * Width(img) + j] == (if AboveMean(img[i][j], Flatten(img)) then 1 else 0)
  {
    FlattenAt(img, |img|, Width(img), i, j);
  }

  /** Every signature of an 8x8 thumbnail has the common code length. */
  lemma ThumbnailCodeLength(t: Thumbnail)
    ensures |PicCode(t)| == Config.CodeLength
  {
  }

  /** Every pixel of an array whose pixels are all `v` flattens to `v`. */
  lemma {:induction false} FlattenConstant(img: Image<nat>, v: nat)
    requires forall r, c :: 0 <= r < |img| && 0 <= c < |img[r]| ==> img[r][c] == v
    ensures forall k :: 0 <= k < |Flatten(img)| ==> Flatten(img)[k] == v
  {
    if |img| > 0 {
      FlattenConstant(img[1..], v);
      assert Flatten(img) == img[0] + Flatten(img[1..]);
    }
  }

  /** A flat image has no pixel above its mean, so its signature is all
      zeros. */
  lemma ConstantImageCodeIsZero(img: Image<nat>, v: nat)
    requires Rectangular(img)
    requires forall r, c :: 0 <= r < |img| && 0 <= c < |img[r]| ==> img[r][c] == v
    ensures forall k :: 0 <= k < |PicCode(img)| ==> PicCode(img)[k] == 0
  {
    var pixels := Flatten(img);
    FlattenConstant(img, v);
    SumConstant(pixels, v);
    forall k | 0 <= k < |pixels|
      ensures !AboveMean(pixels[k], pixels)
    {
      AboveMeanIff(pixels[k], pixels);
    }
  }

  /** Position of a smallest element. */
  function MinIndex(s: seq<nat>): (m: nat)
    requires |s| > 0
    ensures m < |s|
    ensures forall k :: 0 <= k < |s| ==> s[m] <= s[k]
  {
    if |s| == 1 then 0
    else
      var m' := MinIndex(s[1..]);
      if s[0] <= s[m' + 1] then 0 else m' + 1
  }

  /** The darkest pixel is never above the mean, so no non-empty signature
      is all ones. */
  lemma CodeNeverAllOnes(img: Image<nat>)
    requires Rectangular(img)
    requires |img| > 0 && Width(img) > 0
    ensures exists k :: 0 <= k < |PicCode(img)| && PicCode(img)[k] == 0
  {
    var pixels := Flatten(img);
    FlattenLength(img, |img|, Width(img));
    IndexBound(0, 0, |img|, Width(img));
    var m := MinIndex(pixels);
    SumLowerBound(pixels, pixels[m]);
    AboveMeanIff(pixels[m], pixels);
    assert PicCode(img)[m] == 0;
  }

  /** Number of positions at which two signatures agree. */
  function MatchCount(a: seq<nat>, b: seq<nat>): (n: nat)
    requires |a| == |b|
    ensures n <= |a|
    ensures n == |a| <==> a == b
  {
    if |a| == 0 then 0
    else
      var rest := MatchCount(a[1..], b[1..]);
      assert a == [a[0]] + a[1..] && b == [b[0]] + b[1..];
      (if a[0] == b[0] then 1 else 0) + rest
  }

  /** `np.equal(a, b).mean()`: the fraction of positions at which the two
      signatures agree. */
  function Score(a: seq<nat>, b: seq<nat>): (s: real)
    requires |a| == |b| > 0
    ensures 0.0 <= s <= 1.0
    ensures s == 1.0 <==> a == b
  {
    FractionBounds(MatchCount(a, b), |a|);
    MatchCount(a, b) as real / |a| as real
  }

  /** A count out of `d` is a fraction in [0, 1] that is 1 only when the
      count is `d`. */
  lemma FractionBounds(n: nat, d: nat)
    requires 0 < d && n <= d
    ensures 0.0 <= n as real / d as real <= 1.0
    ensures n as real / d as real == 1.0 <==> n == d
  {
    var x := n as real / d as real;
    var dr := d as real;
    assert x * dr == n as real;
    assert 0.0 <= x by {
      MulCancel(0.0, x, dr);
    }
    assert x <= 1.0 by {
      assert x * dr <= 1.0 * dr;
      MulCancel(x, 1.0, dr);
    }
    if n == d {
      assert x * dr == 1.0 * dr;
      MulCancel(x, 1.0, dr);
      MulCancel(1.0, x, dr);
    }
    if x == 1.0 {
      assert n as real == dr;
    }
  }
}
