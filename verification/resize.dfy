/** The target geometry of `resize_pic`: the picture is scaled to a fixed
    width of `Num` blocks and to the height that keeps its aspect ratio,
    rounded down to whole blocks. The pixel resampling itself is the image
    library's work. */
module Resize {
  import opened Errors
  import opened Config
  import Mosaic
  import opened Grid

  datatype Size = Size(width: nat, height: nat)

  /** `to_width`: `Num` blocks of `CorpSize` pixels. */
  const TargetWidth: nat := CorpSize * Num

  /** `to_height`: the proportional height `TargetWidth * height / width`
      rounded down to a multiple of `CorpSize`, in exact arithmetic. */
  function TargetHeight(width: nat, height: nat): nat
    requires width > 0
  {
    (TargetWidth * height) / (width * CorpSize) * CorpSize
  }

  /** The size `resize_pic` resizes to. A zero source width makes the
      division `to_width / width` raise, and a picture so wide that the
      target height rounds down to zero makes the image library's resize
      reject the size. */
  function ResizeDims(width: nat, height: nat): (r: Result<Size>)
    ensures r.Err? <==> width == 0 || TargetWidth * height < width * CorpSize
    ensures width == 0 ==> r == Err(ZeroWidth)
    ensures width > 0 && r.Err? ==> r.error == EmptyTarget
    ensures r.Ok? ==> r.value.width == TargetWidth && r.value.height == TargetHeight(width, height)
    ensures r.Ok? ==> r.value.height % CorpSize == 0 && r.value.height >= CorpSize
  {
    if width == 0 then Err(ZeroWidth)
    else
      QuotientZero(TargetWidth * height, width * CorpSize);
      var h := TargetHeight(width, height);
      if h == 0 then Err(EmptyTarget) else Ok(Size(TargetWidth, h))
  }

  /** The quotient is zero exactly when the dividend is below the divisor. */
  lemma QuotientZero(a: nat, b: nat)
    requires b > 0
    ensures a / b == 0 <==> a < b
    ensures (a / b) * CorpSize == 0 <==> a / b == 0
  {
    if a >= b {
      assert a == (a / b) * b + a % b;
      assert a % b < b;
    }
  }

  /** Integer division rounds the real quotient down. */
  lemma DivBracket(a: nat, b: nat)
    requires b > 0
    ensures ((a / b) as real) <= (a as real) / (b as real) < ((a / b + 1) as real)
  {
    var q, rem := a / b, a % b;
    assert a == q * b + rem && 0 <= rem < b;
    var x := (a as real) / (b as real);
    var br := b as real;
    assert x * br == a as real;
    assert (q * b) as real == (q as real) * br;
    assert ((q + 1) * b) as real == ((q + 1) as real) * br;
    assert q * b <= a < (q + 1) * b;
    MulCancel(q as real, x, br);
    MulCancel(x, (q + 1) as real, br);
  }

  /** The new height is the exact proportional height
      `TargetWidth * height / width`, rounded down to a multiple of
      `CorpSize`: it never exceeds it and falls short by less than a block. */
  lemma ResizeKeepsAspect(width: nat, height: nat)
    requires width > 0
    ensures var exact := (TargetWidth as real) * (height as real) / (width as real);
            var h := TargetHeight(width, height);
            (h as real) <= exact < (h + CorpSize) as real
  {
    var a := TargetWidth * height;
    var b := width * CorpSize;
    DivBracket(a, b);
    var q := a / b;
    var h := q * CorpSize;
    assert TargetHeight(width, height) == h;
    var exact := (TargetWidth as real) * (height as real) / (width as real);
    assert (a as real) / (b as real) == exact / (CorpSize as real);
    assert (q as real) <= exact / (CorpSize as real) < (q + 1) as real by {
      assert ((q * b) as real) / (b as real) == q as real;
    }
  }

  /** The resized picture is covered by the block grid exactly: `Num`
      block columns, and every pixel in some block, so `merge` replaces
      all of it. */
  lemma ResizedIsTiled(width: nat, height: nat, r: nat, c: nat)
    requires width > 0
    requires r < TargetHeight(width, height) && c < TargetWidth
    ensures Mosaic.BlockCols(TargetWidth) == Num
    ensures Mosaic.InGrid(r, c, TargetHeight(width, height), TargetWidth)
  {
    Mosaic.GridCovers(r, c, TargetHeight(width, height), TargetWidth);
  }
}
