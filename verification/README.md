# Photomosaic matching in Dafny

A model of the photomosaic pipeline of `pic.py` (`PicMerge`). The program
resizes a target picture to a width of 100 blocks of 40x40 pixels. It cuts
the picture into blocks and replaces every block with the catalogue tile that
resembles it most. There are two stages:

- a coarse filter keeps the 20 tiles whose average brightness (L mode) or
  average colour (RGB mode) is nearest to the block's;
- a fine filter picks, among those 20, the first tile whose 64-bit
  average-hash signature agrees with the block's signature in the most
  positions.

The catalogue is built from a folder. Each file with an accepted extension
that the image library can decode becomes one entry, keyed by its position in
the directory listing.

Modules, one per concern (one file each):

- `Errors` (`errors.dfy`): `Option`, `Result` and one `Error` constructor per
  exception the pipeline raises on its own inputs.
- `Config` (`config.dfy`): block size 40, shortlist size 20, 100 blocks
  across, 8x8 thumbnails, 64-bit signatures.
- `Grid` (`grid.dfy`): images as row sequences, row-major flattening, block
  crop and paste.
- `Signature` (`signature.dfy`): `pic_code` and the agreement score.
- `Catalogue` (`catalogue.dfy`): `mapping_table`, extension filtering and
  key lookup.
- `Coarse` (`coarse.dfy`): Python's stable `sorted(...)[:n]`, and the L and
  RGB distances.
- `Fine` (`fine.dfy`): `structure_similarity` with Python's first-wins
  `max`.
- `Mosaic` (`mosaic.dfy`): per-block matching, block geometry and the block
  loop of `merge`.
- `Resize` (`resize.dfy`): the target size chosen by `resize_pic`.
- `ColorMode` (`mode.dfy`): the constructor's mode check.
- `PicMerge` (`picmerge.dfy`): the constructor as a whole.

Calls into the image library (opening, resizing, grayscale conversion,
8x8 thumbnails) become parameters:

- a `load` oracle from file name to an optional tile and thumbnail, where
  `None` stands for the swallowed `OSError`;
- a `thumb` function in the `Matcher` for blocks.

Floating-point means are replaced by exact integer arithmetic, and a lemma
shows each replacement gives the same answer:

- a bit of the signature is set iff `n*p > sum`, which is equivalent to
  `p > mean`;
- the L-mode distance is `|sum(tile) - sum(block)|`, which is the gap between
  the two means times the pixel count;
- the RGB-mode distance is the squared Euclidean distance between channel
  totals, which is the squared mean-colour distance times `n*n`. The square
  root in `np.linalg.norm` keeps order, so ranking by this distance gives the
  same ranking.

The rejection message on pic.py:17 shows that a `ValueError` naming the
mode was intended for an invalid colour mode, but the code raises an
`AttributeError` (see Findings). The code has no dedicated error for an empty
catalogue, so `max` raises its `ValueError` at the first block. The model
follows the code: `PicMerge.Construct` fails with `AttributeError("mode")`,
`PicMerge.ConstructIntended` is the intended constructor, and an empty
catalogue yields `Err(EmptyMax)`.

## Model

| member | source | states |
|---|---|---|
| Signature.PicCode | pic.py:128-131 | the signature of a rows x cols array has rows*cols bits, each 0 or 1, and bit k is 1 exactly when the k-th pixel in row-major order is strictly above the array mean |
| Signature.AboveMeanIff | pic.py:129-130 | a pixel is above the real-valued mean iff `n*p > sum`, so the integer comparison decides the same bit |
| Signature.PicCodeRowMajor | pic.py:130 | bit `i*w + j` is the bit of pixel `(i, j)` |
| Grid.FlattenAt | pic.py:130 | row-major flattening puts pixel `(i, j)` of an h x w array at index `i*w + j` |
| Signature.ThumbnailCodeLength | pic.py:110 | the signature of any 8x8 thumbnail has exactly 64 bits |
| Signature.ConstantImageCodeIsZero | pic.py:129-130 | an image whose pixels are all equal has an all-zero signature |
| Signature.CodeNeverAllOnes | pic.py:129-130 | a non-empty image always has a 0 bit, because its darkest pixel is not above the mean |
| Signature.MatchCount | pic.py:66 | the number of agreeing positions is at most the length, and equals it iff the signatures are equal |
| Signature.Score | pic.py:66 | `np.equal(a, b).mean()` lies in [0, 1] and is 1 exactly when the signatures are equal |
| Catalogue.LastFieldShape | pic.py:106 | `split('.')[-1]` is a dot-free suffix of the name, preceded by a dot unless it is the whole name |
| Catalogue.LastFieldNoDot | pic.py:106 | a name without a dot is its own last field |
| Catalogue.LastFieldAfterDot | pic.py:106 | the last field of `stem.ext` is `ext` whenever `ext` has no dot |
| Catalogue.AcceptedIff | pic.py:98-106 | `stem.ext` is accepted iff `ext` is one of the eight case-sensitive suffixes, and a dotless name iff the whole name is one |
| Catalogue.AcceptedExamples | pic.py:98-106 | "cat.png" and the dotless "png" are accepted |
| Catalogue.RejectedExamples | pic.py:98-106 | "cat.Jpg", "cat.png.txt" and "cat." are rejected |
| Catalogue.Collect | pic.py:102-116 | the entries gathered from a listing prefix have strictly increasing ids, each id is the listing position of a qualifying file and carries that file's signature and tile, and the id set is exactly the set of qualifying positions |
| Catalogue.MappingTable | pic.py:99-117 | a missing folder raises `FolderMissing`; otherwise the table holds exactly one entry per qualifying file, keyed by listing position, in insertion order |
| Catalogue.MappingTableWellFormed | pic.py:109-114 | when the image library gives 40x40 tiles, every entry has a 64-bit signature and a 40x40 tile |
| Catalogue.Lookup | pic.py:66-68 | looking a key up finds an entry with that key, and fails exactly when the key is absent |
| Catalogue.LookupFinds | pic.py:66-68 | with increasing ids, looking up an entry's key returns that entry |
| Coarse.Insert | pic.py:74 | inserting into a distance-sorted list keeps it sorted and adds exactly the new element |
| Coarse.InsertTies | pic.py:74 | insertion puts the new element first among those at its distance and leaves every other distance's entries in order |
| Coarse.StableSort | pic.py:74 | `sorted(..., key=distance)` returns a permutation sorted by distance, with the entries at each distance in their input order |
| Coarse.StableSortUnique | pic.py:74 | any sorted list with the same entries in the same order at each distance equals the stable sort, so the sort is fully determined |
| Coarse.TopN | pic.py:74 | `sorted(...)[:n]` keeps min(n, len) entries of the input, sorted, none farther than any entry left out, with ties in input order |
| Coarse.TopNLex | pic.py:44-46 | for a list in catalogue order, the shortlist is ordered by distance then key, and no key appears twice |
| Coarse.Distances | pic.py:72-73 | one `(key, distance)` pair per catalogue entry, in catalogue order |
| Coarse.DistancesAscending | pic.py:72-73 | the pairs' keys are strictly increasing |
| Coarse.GrayDistance | pic.py:44 | the L-mode key is the absolute difference of the brightness totals of tile and block |
| Coarse.RgbMean | pic.py:78-86 | each component of the average colour times the pixel count is that channel's total |
| Coarse.ColorDistance | pic.py:72 | the RGB-mode key is zero exactly when tile and block have equal totals in every channel, i.e. equal average colours |
| Coarse.GrayDistanceIsMeanGap | pic.py:43-44 | the integer L-mode distance divided by the pixel count is `abs(tile.mean() - section.mean())` |
| Coarse.GrayOrderAgrees | pic.py:43-46 | for equal-size tiles, the integer L distance ranks tiles exactly as the mean-brightness gap does |
| Coarse.ColorDistanceIsMeanGap | pic.py:71-86 | the integer RGB distance divided by n*n is the squared distance between the `rgb_mean` vectors |
| Coarse.ColorOrderAgrees | pic.py:72-74 | for equal-size tiles, the integer RGB distance ranks tiles exactly as the mean-colour distance does |
| Fine.FirstArgMax | pic.py:67 | `max(..., key=score)` returns the first position holding the largest score |
| Fine.FirstBestUnique | pic.py:67 | the first best position is unique |
| Fine.Scores | pic.py:66 | one score in [0, 1] per shortlisted entry |
| Fine.BestSurvivor | pic.py:66-67 | an empty shortlist raises `EmptyMax`; otherwise the result is the first shortlist position with the top score |
| Fine.StructureSimilarity | pic.py:63-68 | the result is the tile of the first best-scoring shortlisted entry, so it is a catalogue tile; an empty shortlist is an error |
| Fine.PerfectMatchWins | pic.py:66-68 | if a shortlisted entry's signature equals the block's, the chosen entry's signature equals it too |
| Mosaic.Shortlist | pic.py:44-53 | the coarse shortlist has min(20, catalogue size) entries, all keys of the catalogue |
| Mosaic.ShortlistOrdered | pic.py:44-46 | the shortlist is ordered by distance then by catalogue order, and holds no key twice |
| Mosaic.BlockCode | pic.py:64-65 | a block's signature has 64 bits |
| Mosaic.MatchBlock | pic.py:44-54 | matching a block succeeds iff the catalogue is non-empty; the result is a 40x40 catalogue tile, and the failure is `EmptyMax` |
| Mosaic.SingleCandidateChosen | pic.py:63-68 | with a single catalogue entry, every block gets that entry's tile |
| Mosaic.BlockCols | pic.py:35 | `w_times` is the number of whole 40-pixel blocks across: `cols*40 <= width < (cols+1)*40` |
| Mosaic.BlockRows | pic.py:35 | `h_times` is the number of whole 40-pixel blocks down: `rows*40 <= height < (rows+1)*40` |
| Mosaic.BlockOfPixel | pic.py:41-42 | pixel `(r, c)` is in block `(bi, bj)` iff `bi = c div 40` and `bj = r div 40` |
| Mosaic.BlocksDisjoint | pic.py:41-42 | two blocks sharing a pixel are the same block |
| Mosaic.GridCovers | pic.py:35-42 | a pixel inside the block grid lies in the block its coordinates divide into, and with both sides multiples of 40 every pixel is inside the grid |
| Mosaic.BlockFits | pic.py:35-42 | every block of the grid lies inside the picture |
| Grid.Crop | pic.py:41-42 | the section is the 40x40 square at the block's offset, pixel for pixel |
| Grid.Paste | pic.py:48-49 | writing a tile sets exactly the block's pixels from the tile and leaves every other pixel unchanged |
| Mosaic.ChosenTile | pic.py:47-49 | the tile written over a block is a 40x40 catalogue tile |
| Mosaic.UntouchedSection | pic.py:41-42 | the section read from the array being overwritten still equals the original picture's block, because earlier writes hit other blocks |
| Mosaic.PasteAdvances | pic.py:48-49 | writing the chosen tile over block `(i, j)` turns the partial mosaic before `(i, j)` into the one before `(i, j+1)` |
| Mosaic.Assemble | pic.py:38-56 | the column-major block loop succeeds iff every block's match succeeds, otherwise returns the error of the first block in loop order whose match fails, and on success each grid pixel comes from its block's tile while every other pixel keeps its value |
| Mosaic.FirstFailureUnique | pic.py:38-39 | there is at most one first failing block, a first failing block being one in the grid whose match fails while every block before it in column-major loop order matches |
| Mosaic.AssembledBlock | pic.py:48-56 | after the loop, every block region equals its chosen tile verbatim |
| Mosaic.AssembledMargin | pic.py:34-39 | after the loop, pixels outside the block grid are unchanged |
| Mosaic.Merge | pic.py:33-56 | `merge` fails with `EmptyMax` iff the catalogue is empty and the grid has a block; on success the size is unchanged, every block region equals the catalogue tile matched to it, and the margins outside the grid are unchanged |
| Resize.ResizeDims | pic.py:27-30 | a zero source width fails with `ZeroWidth`; a picture so wide that the target height would be below one block fails with `EmptyTarget`, as the resize to a zero height does; otherwise the width is 4000 and the height a positive multiple of 40 |
| Resize.ResizeKeepsAspect | pic.py:28-30 | the target height is at most the aspect-exact height `4000*height/width` and falls short of it by less than 40 |
| Resize.ResizedIsTiled | pic.py:28-35 | the resized picture has exactly 100 block columns and every pixel lies in the block grid |
| ColorMode.Upper | pic.py:16 | `upper()` keeps the length and upper-cases each character |
| ColorMode.CheckMode | pic.py:16-19 | a mode is accepted iff its upper-case form is "RGB" or "L", is stored upper-cased, and is otherwise rejected with the offending mode |
| ColorMode.CheckModeAsWritten | pic.py:16-17 | the rejection message formats `self.mode` before it is assigned, so a rejected mode raises `AttributeError` | `PicMerge(pic_path, mode='rgba')` | raise the `ValueError` naming the rejected mode | not executed | ColorMode.CheckModeAsWritten, used by PicMerge.Construct (counterexample: ColorMode.RejectedModeMisreported) | ColorMode.CheckMode, used by PicMerge.ConstructIntended |
| ColorMode.AcceptedSpellings | pic.py:16 | the accepted spellings are exactly the eight case variants of "rgb" and the two of "l" |
| ColorMode.CheckModeIdempotent | pic.py:19 | the stored name passes the check again and yields the same mode |
| ColorMode.RejectedModeMisreported | pic.py:17 | "rgba" should be rejected as an invalid mode, but as written it reports the missing attribute |
| PicMerge.Prepare | pic.py:20-31 | after the mode check: a missing folder fails first, then an unreadable picture, then a size the resize rejects; on success the session holds the catalogue of exactly the qualifying files and a 4000-wide target whose height is the whole-block aspect height |
| PicMerge.Construct | pic.py:15-22 | as written, a rejected mode ends construction with `AttributeError("mode")`; an accepted mode continues with the later steps and is stored upper-cased |
| PicMerge.ConstructIntended | pic.py:15-22 | as intended, a rejected mode is reported as that invalid mode, and an accepted one behaves as `Construct` |
| PicMerge.VeryWidePictureRejected | pic.py:29-30 | a 1000x9 picture has a zero target height, so construction fails in the resize |
| PicMerge.ConstructReady | pic.py:21-22 | after a successful construction the catalogue is well formed and the block grid covers the target exactly |

## Left out

- Image library calls: opening, `resize(..., ANTIALIAS)`, `convert('L')` and `convert(mode)`, `fromarray`, `show` and `save`. The 40x40 tiles and the 8x8 thumbnails are inputs (`load`, `Matcher.thumb`), and the picture arrives already resized and converted.
- Floating point: means, `abs` and `np.linalg.norm` are computed exactly. Rounding can make two float distances tie or swap when their exact values do not, and the model does not capture that.
- Resize.ResizeDims: computes `((4000 / width) * height // 40) * 40` in exact rational arithmetic, so a float product one ulp below a multiple of 40 is not modelled. The pixel resampling is the image library's work. Opening the picture is an input: `src` is `None` when `Image.open` fails, and the model does not distinguish its kinds of failure.
- Directory access: `os.path.isdir` is the `isDir` flag and `os.listdir` is the `listing` sequence in whatever order the system returns. The `OSError` caught while decoding is the `load` oracle returning `None`.
- Progress bars (`tqdm`) and `print` output.
- A decode failure after a file's signature is stored but before its tile is converted would leave a signature without a tile. `load` treats each file as all-or-nothing, so this case is not modelled.
- `wechat-spider.py`: avatar download and file writes, which are I/O only. It is not part of this model.
- ColorMode.Upper: upper-cases ASCII letters only. Python's `str.upper` also maps other characters, but no non-ASCII character upper-cases to R, G, B or L, so the accepted set is unchanged.
- Pixel value range: intensities and channels are unbounded naturals. The source stores `uint8`, but it only averages, compares and copies them, so nothing wraps.
- Shape mismatches: `Merge`, `MatchBlock`, `Scores` and `StructureSimilarity` require a well-formed catalogue (64-bit signatures and 40x40 tiles). The source would raise a numpy broadcasting error otherwise. `MappingTableWellFormed` shows the table is well formed whenever the library resizes as asked.
- Mode dispatch in `merge`: the L and RGB branches differ only in the distance. The caller chooses the `Matcher` (`GrayMatcher` or `ColorMatcher`) for the pixel type, and the model does not read the mode string again.
- Mosaic.Shortlist: its contract gives only the size and that every key comes from the catalogue. The nearest-first and tie-order guarantees are stated on `Coarse.TopN` and `Mosaic.ShortlistOrdered`.

## Findings

| source | as written | input that shows it | evidently intended | confidence | as-written member | corrected member |
|---|---|---|---|---|---|---|
| pic.py:16-17 | the rejection message formats `self.mode` before it is assigned, so a rejected mode raises `AttributeError` | `PicMerge(pic_path, mode='rgba')` | raise the `ValueError` naming the rejected mode | not executed | ColorMode.CheckModeAsWritten (counterexample: ColorMode.RejectedModeMisreported) | ColorMode.CheckMode |
