/** Block matching and mosaic assembly (`merge`), and the target geometry
    fixed by `resize_pic`. */
module Mosaic {
  import opened Errors
  import opened Grid
  import opened Signature
  import opened Catalogue
  import opened Coarse
  import opened Fine
  import opened Config

  /** What a colour mode contributes to matching: the coarse distance between
      a tile and a block, and the image library's 8x8 grayscale thumbnail of
      a block. */
  datatype Matcher<!T> = Matcher(distance: (Image<T>, Image<T>) -> nat, thumb: Image<T> -> Thumbnail)

  /** L mode: brightness gap. */
  function GrayMatcher(thumb: Image<nat> -> Thumbnail): Matcher<nat> {
    Matcher(GrayDistance, thumb)
  }

  /** RGB mode: average-colour distance. */
  function ColorMatcher(thumb: Image<Rgb> -> Thumbnail): Matcher<Rgb> {
    Matcher(ColorDistance, thumb)
  }

  /** The coarse filter's shortlist for a block. */
  function Shortlist<T>(section: Image<T>, cat: Catalogue<T>, m: Matcher<T>): (s: seq<Scored>)
    ensures |s| == Min(FilterSize, |cat|)
    ensures FromCatalogue(cat, s)
  {
    var all := Distances(cat, tile => m.distance(tile, section));
    var s := TopN(all, FilterSize);
    forall k | 0 <= k < |s| ensures s[k].id in Ids(cat) {
      assert s[k] in multiset(all);
      var q :| 0 <= q < |all| && all[q] == s[k];
      assert cat[q].id == s[k].id;
    }
    s
  }

  /** The shortlist is ordered by distance and then by catalogue order, so
      no key appears in it twice. */
  lemma ShortlistOrdered<T>(section: Image<T>, cat: Catalogue<T>, m: Matcher<T>)
    requires IdsIncreasing(cat)
    ensures LexSorted(Shortlist(section, cat, m))
    ensures forall a, b :: 0 <= a < b < |Shortlist(section, cat, m)| ==>
              Shortlist(section, cat, m)[a].id != Shortlist(section, cat, m)[b].id
  {
    var all := Distances(cat, tile => m.distance(tile, section));
    DistancesAscending(cat, tile => m.distance(tile, section));
    TopNLex(all, FilterSize);
  }

  /** The signature of a block, from its thumbnail. */
  function BlockCode<T>(section: Image<T>, m: Matcher<T>): (code: seq<nat>)
    ensures |code| == CodeLength
  {
    ThumbnailCodeLength(m.thumb(section));
    PicCode(m.thumb(section))
  }

  /** The tile that replaces a block: coarse shortlist, then fine choice.
      With an empty catalogue the shortlist is empty and `max` raises. */
  function MatchBlock<T>(section: Image<T>, cat: Catalogue<T>, m: Matcher<T>): (r: Result<Image<T>>)
    requires WellFormed(cat)
    ensures r.Ok? <==> |cat| > 0
    ensures r.Err? ==> r.error == EmptyMax
    ensures r.Ok? ==> r.value in Tiles(cat) && IsRect(r.value, CorpSize, CorpSize)
  {
    TilesAreSquare(cat);
    StructureSimilarity(BlockCode(section, m), Shortlist(section, cat, m), cat)
  }

  lemma TilesAreSquare<T>(cat: Catalogue<T>)
    requires WellFormed(cat)
    ensures forall t :: t in Tiles(cat) ==> IsRect(t, CorpSize, CorpSize)
  {
    forall t | t in Tiles(cat) ensures IsRect(t, CorpSize, CorpSize) {
      var k :| 0 <= k < |cat| && Tiles(cat)[k] == t;
    }
  }

  /** With a single catalogue entry every block becomes that entry's tile. */
  lemma SingleCandidateChosen<T>(section: Image<T>, cat: Catalogue<T>, m: Matcher<T>)
    requires WellFormed(cat) && |cat| == 1
    ensures MatchBlock(section, cat, m) == Ok(cat[0].tile)
  {
    var r := MatchBlock(section, cat, m);
    var k :| 0 <= k < |cat| && Tiles(cat)[k] == r.value;
  }

  /** Number of whole blocks across the width (`w_times`). */
  function BlockCols(width: nat): (cols: nat)
    ensures cols * CorpSize <= width < (cols + 1) * CorpSize
  {
    width / CorpSize
  }

  /** Number of whole blocks down the height (`h_times`). */
  function BlockRows(height: nat): (rows: nat)
    ensures rows * CorpSize <= height < (rows + 1) * CorpSize
  {
    height / CorpSize
  }

  /** Pixel `(r, c)` lies in block `(bi, bj)`, the region
      `[bj*CorpSize, (bj+1)*CorpSize) x [bi*CorpSize, (bi+1)*CorpSize)`. */
  predicate InBlock(r: nat, c: nat, bi: nat, bj: nat) {
    bj * CorpSize <= r < (bj + 1) * CorpSize && bi * CorpSize <= c < (bi + 1) * CorpSize
  }

  /** Pixel `(r, c)` lies in some block of the grid. */
  predicate InGrid(r: nat, c: nat, height: nat, width: nat) {
    r < BlockRows(height) * CorpSize && c < BlockCols(width) * CorpSize
  }

  /** The only block holding a pixel is the one its coordinates divide
      into, so distinct blocks are disjoint. */
  lemma BlockOfPixel(r: nat, c: nat, bi: nat, bj: nat)
    ensures InBlock(r, c, bi, bj) <==> bi == c / CorpSize && bj == r / CorpSize
  {
  }

  /** Blocks with different indices share no pixel. */
  lemma BlocksDisjoint(r: nat, c: nat, bi: nat, bj: nat, bi': nat, bj': nat)
    requires InBlock(r, c, bi, bj) && InBlock(r, c, bi', bj')
    ensures bi == bi' && bj == bj'
  {
    BlockOfPixel(r, c, bi, bj);
    BlockOfPixel(r, c, bi', bj');
  }

  /** A pixel of the grid lies in a block of the grid, and when both sides
      are multiples of `CorpSize` every pixel does. */
  lemma GridCovers(r: nat, c: nat, height: nat, width: nat)
    requires r < height && c < width
    ensures InGrid(r, c, height, width) ==>
              c / CorpSize < BlockCols(width) && r / CorpSize < BlockRows(height)
              && InBlock(r, c, c / CorpSize, r / CorpSize)
    ensures height % CorpSize == 0 && width % CorpSize == 0 ==> InGrid(r, c, height, width)
  {
  }

  /** Block `(bi, bj)` of the grid lies inside the picture. */
  lemma BlockFits<T>(pic: Image<T>, height: nat, width: nat, bi: nat, bj: nat)
    requires IsRect(pic, height, width)
    requires bi < BlockCols(width) && bj < BlockRows(height)
    ensures Holds(pic, bj * CorpSize, bi * CorpSize, CorpSize)
  {
  }

  /** The block `(bi, bj)` of the picture before any block is replaced. */
  function Section<T>(pic: Image<T>, height: nat, width: nat, bi: nat, bj: nat): Image<T>
    requires IsRect(pic, height, width)
    requires bi < BlockCols(width) && bj < BlockRows(height)
  {
    BlockFits(pic, height, width, bi, bj);
    Crop(pic, bj * CorpSize, bi * CorpSize, CorpSize)
  }

  /** The tile `merge` writes over block `(bi, bj)`. */
  function ChosenTile<T>(pic: Image<T>, height: nat, width: nat, cat: Catalogue<T>, m: Matcher<T>,
                         bi: nat, bj: nat): (tile: Image<T>)
    requires IsRect(pic, height, width) && WellFormed(cat) && |cat| > 0
    requires bi < BlockCols(width) && bj < BlockRows(height)
    ensures tile in Tiles(cat) && IsRect(tile, CorpSize, CorpSize)
  {
    MatchBlock(Section(pic, height, width, bi, bj), cat, m).value
  }

  /** Blocks replaced before block `(i, j)` when columns are the outer loop
      and rows the inner loop. */
  predicate Before(bi: nat, bj: nat, i: nat, j: nat) {
    bi < i || (bi == i && bj < j)
  }

  /** Pixel `(r, c)` once every block before `(i, j)` has been replaced by
      the tile `pick` returns for it. */
  ghost function PartialMosaic<T>(pic: Image<T>, height: nat, width: nat, pick: Image<T> -> Result<Image<T>>,
                                  r: nat, c: nat, i: nat, j: nat): T
    requires IsRect(pic, height, width)
    requires r < height && c < width
  {
    var bi := c / CorpSize;
    var bj := r / CorpSize;
    if bi < BlockCols(width) && bj < BlockRows(height) && Before(bi, bj, i, j)
       && pick(Section(pic, height, width, bi, bj)).Ok?
       && IsRect(pick(Section(pic, height, width, bi, bj)).value, CorpSize, CorpSize)
    then pick(Section(pic, height, width, bi, bj)).value[r % CorpSize][c % CorpSize]
    else pic[r][c]
  }

  /** The working array agrees with the partial mosaic after the blocks
      before `(i, j)`, all of which were matched. */
  ghost predicate Reached<T>(out: Image<T>, pic: Image<T>, height: nat, width: nat,
                             pick: Image<T> -> Result<Image<T>>, i: nat, j: nat)
    requires IsRect(pic, height, width)
  {
    && IsRect(out, height, width)
    && (forall bi: nat, bj: nat :: bi < BlockCols(width) && bj < BlockRows(height) && Before(bi, bj, i, j) ==>
          pick(Section(pic, height, width, bi, bj)).Ok?)
    && forall r, c :: 0 <= r < height && 0 <= c < width ==>
         out[r][c] == PartialMosaic(pic, height, width, pick, r, c, i, j)
  }

  lemma SameImage<T>(a: Image<T>, b: Image<T>, h: nat, w: nat)
    requires IsRect(a, h, w) && IsRect(b, h, w)
    requires forall r, c :: 0 <= r < h && 0 <= c < w ==> a[r][c] == b[r][c]
    ensures a == b
  {
    forall r | 0 <= r < h ensures a[r] == b[r] {
      assert forall c :: 0 <= c < w ==> a[r][c] == b[r][c];
    }
  }

  /** A block not yet replaced still holds the picture's pixels. */
  lemma UntouchedSection<T>(out: Image<T>, pic: Image<T>, height: nat, width: nat,
                            pick: Image<T> -> Result<Image<T>>, i: nat, j: nat)
    requires IsRect(pic, height, width)
    requires i < BlockCols(width) && j < BlockRows(height)
    requires Reached(out, pic, height, width, pick, i, j)
    ensures Crop(out, j * CorpSize, i * CorpSize, CorpSize) == Section(pic, height, width, i, j)
  {
    var a := Crop(out, j * CorpSize, i * CorpSize, CorpSize);
    var b := Section(pic, height, width, i, j);
    forall x, y | 0 <= x < CorpSize && 0 <= y < CorpSize ensures a[x][y] == b[x][y] {
      var r := j * CorpSize + x;
      var c := i * CorpSize + y;
      assert r / CorpSize == j && c / CorpSize == i;
      assert out[r][c] == PartialMosaic(pic, height, width, pick, r, c, i, j);
    }
    SameImage(a, b, CorpSize, CorpSize);
  }

  /** Pasting a tile over block `(i, j)` sets the pixels of that block from
      the tile and leaves every other pixel alone. */
  lemma PastePixel<T>(out: Image<T>, height: nat, width: nat, i: nat, j: nat, r: nat, c: nat, tile: Image<T>)
    requires IsRect(out, height, width) && IsRect(tile, CorpSize, CorpSize)
    requires i < BlockCols(width) && j < BlockRows(height)
    requires r < height && c < width
    ensures InBlock(r, c, i, j) ==>
              Paste(out, j * CorpSize, i * CorpSize, tile)[r][c] == tile[r % CorpSize][c % CorpSize]
    ensures !InBlock(r, c, i, j) ==> Paste(out, j * CorpSize, i * CorpSize, tile)[r][c] == out[r][c]
  {
    var top, left := j * CorpSize, i * CorpSize;
    BlockFits(out, height, width, i, j);
    var p := Paste(out, top, left, tile);
    assert p[r][c] == (if top <= r < top + |tile| && left <= c < left + |tile|
                       then tile[r - top][c - left] else out[r][c]);
    if InBlock(r, c, i, j) {
      BlockOfPixel(r, c, i, j);
      assert r - top == r % CorpSize && c - left == c % CorpSize;
    }
  }

  /** Writing the picked tile over block `(i, j)` advances the partial
      mosaic by one block. */
  lemma PasteAdvances<T>(out: Image<T>, pic: Image<T>, height: nat, width: nat,
                         pick: Image<T> -> Result<Image<T>>, i: nat, j: nat)
    requires IsRect(pic, height, width)
    requires i < BlockCols(width) && j < BlockRows(height)
    requires Reached(out, pic, height, width, pick, i, j)
    requires pick(Section(pic, height, width, i, j)).Ok?
    requires IsRect(pick(Section(pic, height, width, i, j)).value, CorpSize, CorpSize)
    ensures Reached(Paste(out, j * CorpSize, i * CorpSize, pick(Section(pic, height, width, i, j)).value),
                    pic, height, width, pick, i, j + 1)
  {
    var tile := pick(Section(pic, height, width, i, j)).value;
    var next := Paste(out, j * CorpSize, i * CorpSize, tile);
    forall r, c | 0 <= r < height && 0 <= c < width
      ensures next[r][c] == PartialMosaic(pic, height, width, pick, r, c, i, j + 1)
    {
      BlockOfPixel(r, c, i, j);
      PastePixel(out, height, width, i, j, r, c, tile);
      assert out[r][c] == PartialMosaic(pic, height, width, pick, r, c, i, j);
    }
  }

  /** Block `(bi, bj)` is the first block, in loop order, the picker fails
      on. */
  ghost predicate FirstFailure<T>(pic: Image<T>, height: nat, width: nat,
                                  pick: Image<T> -> Result<Image<T>>, bi: nat, bj: nat)
    requires IsRect(pic, height, width)
  {
    && bi < BlockCols(width) && bj < BlockRows(height)
    && pick(Section(pic, height, width, bi, bj)).Err?
    && forall bi': nat, bj': nat :: bi' < BlockCols(width) && bj' < BlockRows(height) && Before(bi', bj', bi, bj) ==>
         pick(Section(pic, height, width, bi', bj')).Ok?
  }

  /** Blocks are visited in a total order, so there is at most one first
      failing block. */
  lemma FirstFailureUnique<T>(pic: Image<T>, height: nat, width: nat, pick: Image<T> -> Result<Image<T>>,
                              bi: nat, bj: nat, bi': nat, bj': nat)
    requires IsRect(pic, height, width)
    requires FirstFailure(pic, height, width, pick, bi, bj)
    requires FirstFailure(pic, height, width, pick, bi', bj')
    ensures bi == bi' && bj == bj'
  {
    // Neither block comes before the other, since each failing block would
    // then have to succeed.
    assert !Before(bi, bj, bi', bj');
    assert !Before(bi', bj', bi, bj);
  }

  /** The block loop of `merge` for any block picker: replace every block of
      the grid, columns outer and rows inner, by the tile picked for it,
      stopping at the first block the picker fails on. */
  method Assemble<T>(pic: Image<T>, height: nat, width: nat, pick: Image<T> -> Result<Image<T>>)
    returns (res: Result<Image<T>>)
    requires IsRect(pic, height, width)
    requires forall s :: pick(s).Ok? ==> IsRect(pick(s).value, CorpSize, CorpSize)
    ensures res.Ok? <==> forall bi: nat, bj: nat :: bi < BlockCols(width) && bj < BlockRows(height) ==>
                           pick(Section(pic, height, width, bi, bj)).Ok?
    ensures res.Err? ==> exists bi: nat, bj: nat :: FirstFailure(pic, height, width, pick, bi, bj)
                           && pick(Section(pic, height, width, bi, bj)) == Err(res.error)
    ensures res.Ok? ==> IsRect(res.value, height, width)
    ensures res.Ok? ==> forall r, c :: 0 <= r < height && 0 <= c < width ==>
              res.value[r][c] == PartialMosaic(pic, height, width, pick, r, c, BlockCols(width), 0)
  {
    var cols := BlockCols(width);
    var rows := BlockRows(height);
    var out := pic;
    var i := 0;
    while i < cols
      invariant 0 <= i <= cols
      invariant Reached(out, pic, height, width, pick, i, 0)
    {
      var j := 0;
      while j < rows
        invariant 0 <= j <= rows
        invariant Reached(out, pic, height, width, pick, i, j)
      {
        var section := Crop(out, j * CorpSize, i * CorpSize, CorpSize);
        UntouchedSection(out, pic, height, width, pick, i, j);
        var picked := pick(section);
        if picked.Err? {
          assert FirstFailure(pic, height, width, pick, i, j);
          return Err(picked.error);
        }
        PasteAdvances(out, pic, height, width, pick, i, j);
        out := Paste(out, j * CorpSize, i * CorpSize, picked.value);
        j := j + 1;
      }
      assert Reached(out, pic, height, width, pick, i + 1, 0) by {
        forall r, c | 0 <= r < height && 0 <= c < width
          ensures PartialMosaic(pic, height, width, pick, r, c, i, rows)
               == PartialMosaic(pic, height, width, pick, r, c, i + 1, 0)
        {
        }
      }
      i := i + 1;
    }
    return Ok(out);
  }

  /** Once every block has been matched, block `(bi, bj)` of the result is
      exactly the tile picked for it. */
  lemma AssembledBlock<T>(out: Image<T>, pic: Image<T>, height: nat, width: nat,
                          pick: Image<T> -> Result<Image<T>>, bi: nat, bj: nat)
    requires IsRect(pic, height, width) && IsRect(out, height, width)
    requires forall r, c :: 0 <= r < height && 0 <= c < width ==>
               out[r][c] == PartialMosaic(pic, height, width, pick, r, c, BlockCols(width), 0)
    requires bi < BlockCols(width) && bj < BlockRows(height)
    requires pick(Section(pic, height, width, bi, bj)).Ok?
    requires IsRect(pick(Section(pic, height, width, bi, bj)).value, CorpSize, CorpSize)
    ensures Crop(out, bj * CorpSize, bi * CorpSize, CorpSize) == pick(Section(pic, height, width, bi, bj)).value
  {
    var a := Crop(out, bj * CorpSize, bi * CorpSize, CorpSize);
    var b := pick(Section(pic, height, width, bi, bj)).value;
    forall x, y | 0 <= x < CorpSize && 0 <= y < CorpSize ensures a[x][y] == b[x][y] {
      var r := bj * CorpSize + x;
      var c := bi * CorpSize + y;
      assert r / CorpSize == bj && c / CorpSize == bi;
      assert r % CorpSize == x && c % CorpSize == y;
      assert out[r][c] == PartialMosaic(pic, height, width, pick, r, c, BlockCols(width), 0);
    }
    SameImage(a, b, CorpSize, CorpSize);
  }

  /** Pixels outside the block grid (the right and bottom margins narrower
      than a block) keep their original values. */
  lemma AssembledMargin<T>(out: Image<T>, pic: Image<T>, height: nat, width: nat,
                           pick: Image<T> -> Result<Image<T>>, r: nat, c: nat)
    requires IsRect(pic, height, width) && IsRect(out, height, width)
    requires r < height && c < width && !InGrid(r, c, height, width)
    requires out[r][c] == PartialMosaic(pic, height, width, pick, r, c, BlockCols(width), 0)
    ensures out[r][c] == pic[r][c]
  {
  }

  /** `merge`: every block of the grid is replaced by the tile matched to
      it, in column-major block order. An empty catalogue makes the first
      block's `max` raise; a picture smaller than one block is returned
      unchanged. */
  method Merge<T>(pic: Image<T>, height: nat, width: nat, cat: Catalogue<T>, m: Matcher<T>)
    returns (res: Result<Image<T>>)
    requires IsRect(pic, height, width) && WellFormed(cat)
    ensures res.Err? <==> |cat| == 0 && BlockCols(width) > 0 && BlockRows(height) > 0
    ensures res.Err? ==> res.error == EmptyMax
    ensures res.Ok? ==> IsRect(res.value, height, width)
    ensures res.Ok? && |cat| > 0 ==>
              forall bi: nat, bj: nat :: bi < BlockCols(width) && bj < BlockRows(height) ==>
                Crop(res.value, bj * CorpSize, bi * CorpSize, CorpSize) == ChosenTile(pic, height, width, cat, m, bi, bj)
    ensures res.Ok? ==> forall r, c :: 0 <= r < height && 0 <= c < width && !InGrid(r, c, height, width) ==>
              res.value[r][c] == pic[r][c]
  {
    var pick := s => if WellFormed(cat) then MatchBlock(s, cat, m) else Err(EmptyMax);
    res := Assemble(pic, height, width, pick);
    if |cat| == 0 && BlockCols(width) > 0 && BlockRows(height) > 0 {
      assert pick(Section(pic, height, width, 0, 0)).Err?;
    }
    if |cat| > 0 {
      forall bi: nat, bj: nat | bi < BlockCols(width) && bj < BlockRows(height)
        ensures pick(Section(pic, height, width, bi, bj)).Ok?
      {
      }
    }
    if res.Ok? {
      var out := res.value;
      if |cat| > 0 {
        forall bi: nat, bj: nat | bi < BlockCols(width) && bj < BlockRows(height)
          ensures Crop(out, bj * CorpSize, bi * CorpSize, CorpSize) == ChosenTile(pic, height, width, cat, m, bi, bj)
        {
          AssembledBlock(out, pic, height, width, pick, bi, bj);
        }
      }
      forall r, c | 0 <= r < height && 0 <= c < width && !InGrid(r, c, height, width)
        ensures out[r][c] == pic[r][c]
      {
        AssembledMargin(out, pic, height, width, pick, r, c);
      }
    } else {
      assert BlockCols(width) > 0 && BlockRows(height) > 0;
    }
  }
}
