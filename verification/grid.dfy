/** Pixel arrays as row-major sequences of rows, and the array operations the
    pipeline relies on: flattening in row-major order, summing, and slicing a
    square region out of an array or writing one into it. */
module Grid {

  /** An image as a sequence of rows; a pixel is `img[row][column]`. */
  type Image<T> = seq<seq<T>>

  /** `img` has exactly `h` rows of exactly `w` pixels each. */
  predicate IsRect<T>(img: Image<T>, h: nat, w: nat) {
    |img| == h && forall r :: 0 <= r < h ==> |img[r]| == w
  }

  /** Number of columns, read off the first row. */
  function Width<T>(img: Image<T>): nat {
    if |img| == 0 then 0 else |img[0]|
  }

  /** Every row has the same length, as for any 2-D array. */
  predicate Rectangular<T>(img: Image<T>) {
    IsRect(img, |img|, Width(img))
  }

  /** The pixels of `img`, row after row. */
  function Flatten<T>(img: Image<T>): seq<T> {
    if |img| == 0 then [] else img[0] + Flatten(img[1..])
  }

  /** Flattening `h` rows of `w` pixels yields `h*w` pixels. */
  lemma {:induction false} FlattenLength<T>(img: Image<T>, h: nat, w: nat)
    requires IsRect(img, h, w)
    ensures |Flatten(img)| == h * w
  {
    if h > 0 {
      assert IsRect(img[1..], h - 1, w);
      FlattenLength(img[1..], h - 1, w);
      MulStep(h, w);
    }
  }

  /** Flattening an array with rows of `w` pixels puts pixel `(i, j)` at
      position `i*w + j`. */
  lemma {:induction false} FlattenAt<T>(img: Image<T>, h: nat, w: nat, i: nat, j: nat)
    requires IsRect(img, h, w)
    requires i < h && j < w
    ensures i * w + j < |Flatten(img)|
    ensures Flatten(img)[i * w + j] == img[i][j]
  {
    FlattenLength(img, h, w);
    IndexBound(i, j, h, w);
    assert Flatten(img) == img[0] + Flatten(img[1..]);
    if i > 0 {
      var rest := img[1..];
      assert IsRect(rest, h - 1, w);
      FlattenAt(rest, h - 1, w, i - 1, j);
      MulStep(i, w);
      assert rest[i - 1][j] == img[i][j];
    }
  }

  lemma MulStep(a: nat, w: nat)
    requires a > 0
    ensures a * w == (a - 1) * w + w
  {
  }

  /** Row-major positions of an `h` by `w` array stay below `h*w`. */
  lemma IndexBound(i: nat, j: nat, h: nat, w: nat)
    requires i < h && j < w
    ensures i * w + j < h * w
  {
    assert (i + 1) * w == i * w + w;
    assert (i + 1) * w <= h * w by {
      MulMono(i + 1, h, w);
    }
  }

  lemma MulMono(a: nat, b: nat, w: nat)
    requires a <= b
    ensures a * w <= b * w
  {
    assert b * w == a * w + (b - a) * w;
  }

  function Sum(s: seq<nat>): nat {
    if |s| == 0 then 0 else s[0] + Sum(s[1..])
  }

  /** A sum of `|s|` values each at least `lo` is at least `|s| * lo`. */
  lemma {:induction false} SumLowerBound(s: seq<nat>, lo: nat)
    requires forall k :: 0 <= k < |s| ==> lo <= s[k]
    ensures |s| * lo <= Sum(s)
  {
    if |s| > 0 {
      SumLowerBound(s[1..], lo);
      MulStep(|s|, lo);
    }
  }

  /** A sum of `|s|` copies of `v` is `|s| * v`. */
  lemma {:induction false} SumConstant(s: seq<nat>, v: nat)
    requires forall k :: 0 <= k < |s| ==> s[k] == v
    ensures Sum(s) == |s| * v
  {
    if |s| > 0 {
      SumConstant(s[1..], v);
      MulStep(|s|, v);
    }
  }

  /** Row and column bounds that make the square `[top, top+size) x
      [left, left+size)` lie inside `img`. */
  predicate Holds<T>(img: Image<T>, top: nat, left: nat, size: nat) {
    top + size <= |img| && forall r :: top <= r < top + size ==> left + size <= |img[r]|
  }

  /** The square region `img[top:top+size, left:left+size]`. */
  function Crop<T>(img: Image<T>, top: nat, left: nat, size: nat): (sec: Image<T>)
    requires Holds(img, top, left, size)
    ensures IsRect(sec, size, size)
    ensures forall i, j :: 0 <= i < size && 0 <= j < size ==> sec[i][j] == img[top + i][left + j]
  {
    seq(size, i requires 0 <= i < size => img[top + i][left .. left + size])
  }

  /** `img` with the square region at `(top, left)` overwritten by `tile`
      (the slice assignment `img[top:top+n, left:left+n] = tile`). */
  function Paste<T>(img: Image<T>, top: nat, left: nat, tile: Image<T>): (out: Image<T>)
    requires IsRect(tile, |tile|, |tile|)
    requires Holds(img, top, left, |tile|)
    ensures |out| == |img|
    ensures forall r :: 0 <= r < |img| ==> |out[r]| == |img[r]|
    ensures forall r, c :: 0 <= r < |img| && 0 <= c < |img[r]| ==>
              out[r][c] == (if top <= r < top + |tile| && left <= c < left + |tile|
                            then tile[r - top][c - left] else img[r][c])
  {
    var n := |tile|;
    seq(|img|, r requires 0 <= r < |img| =>
      if top <= r < top + n then img[r][..left] + tile[r - top] + img[r][left + n..] else img[r])
  }

  /** Scaling by a positive factor preserves order. */
  lemma MulCancel(u: real, v: real, b: real)
    requires b > 0.0
    ensures u * b <= v * b <==> u <= v
    ensures u * b < v * b <==> u < v
  {
    if u <= v {
      assert (v - u) * b >= 0.0;
    } else {
      assert (u - v) * b > 0.0;
    }
  }
}
