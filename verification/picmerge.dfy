/** The `PicMerge` constructor: it checks the colour mode, builds the
    candidate catalogue from the folder, and fixes the size the picture is
    resized to. Opening and converting the picture are the image library's
    work; the picture's original size arrives as `src`, `None` when the
    library cannot open `picPath`. */
module PicMerge {
  import opened Errors
  import opened ColorMode
  import opened Catalogue
  import opened Resize
  import Config
  import opened Grid

  /** What construction leaves behind for `merge`. */
  datatype Session<T> = Session(mode: Mode, cat: Catalogue<T>, size: Size)

  /** The steps of the constructor after the mode check, in source order:
      build the catalogue, open the picture, size the target. */
  function Prepare<T>(m: Mode, isDir: bool, folder: string, listing: seq<string>,
                      load: string -> Option<Loaded<T>>, picPath: string, src: Option<Size>): (r: Result<Session<T>>)
    ensures r.Ok? <==> isDir && src.Some? && ResizeDims(src.value.width, src.value.height).Ok?
    ensures !isDir ==> r == Err(FolderMissing(folder))
    ensures isDir && src.None? ==> r == Err(PictureUnreadable(picPath))
    ensures isDir && src.Some? && ResizeDims(src.value.width, src.value.height).Err? ==>
              r == Err(ResizeDims(src.value.width, src.value.height).error)
    ensures r.Ok? ==> r.value.mode == m
    ensures r.Ok? ==> Ids(r.value.cat) == set k | 0 <= k < |listing| && Qualifies(listing, load, k)
    ensures r.Ok? ==> r.value.size.width == TargetWidth && r.value.size.height % Config.CorpSize == 0
                      && r.value.size.height == TargetHeight(src.value.width, src.value.height)
  {
    var cat :- MappingTable(isDir, folder, listing, load);
    if src.None? then Err(PictureUnreadable(picPath))
    else
      var size :- ResizeDims(src.value.width, src.value.height);
      Ok(Session(m, cat, size))
  }

  /** `PicMerge(...)` as written: a rejected mode ends construction with the
      `AttributeError` raised while formatting the rejection message. */
  function Construct<T>(mode: string, isDir: bool, folder: string, listing: seq<string>,
                        load: string -> Option<Loaded<T>>, picPath: string, src: Option<Size>): (r: Result<Session<T>>)
    ensures CheckMode(mode).Err? ==> r == Err(AttributeError("mode"))
    ensures CheckMode(mode).Ok? ==> r == Prepare(CheckMode(mode).value, isDir, folder, listing, load, picPath, src)
    ensures r.Ok? ==> Name(r.value.mode) == Upper(mode)
  {
    var m :- CheckModeAsWritten(mode);
    Prepare(m, isDir, folder, listing, load, picPath, src)
  }

  /** The constructor as evidently intended: a rejected mode is reported as
      the invalid mode received. */
  function ConstructIntended<T>(mode: string, isDir: bool, folder: string, listing: seq<string>,
                                load: string -> Option<Loaded<T>>, picPath: string, src: Option<Size>): (r: Result<Session<T>>)
    ensures CheckMode(mode).Err? ==> r == Err(InvalidMode(mode))
    ensures CheckMode(mode).Ok? ==> r == Construct(mode, isDir, folder, listing, load, picPath, src)
  {
    var m :- CheckMode(mode);
    Prepare(m, isDir, folder, listing, load, picPath, src)
  }

  /** A picture more than 100 times wider than tall, such as 1000x9, has a
      target height of zero, and construction fails in the resize. */
  lemma VeryWidePictureRejected<T>(folder: string, listing: seq<string>, load: string -> Option<Loaded<T>>)
    ensures Construct("rgb", true, folder, listing, load, "p.jpg", Some(Size(1000, 9))) == Err(EmptyTarget)
  {
    assert Upper("rgb") == "RGB";
  }

  /** When the image library resizes every decodable file to a square tile,
      a successful construction hands `merge` a well-formed catalogue and a
      picture size the block grid covers exactly. */
  lemma ConstructReady<T>(mode: string, folder: string, listing: seq<string>,
                          load: string -> Option<Loaded<T>>, picPath: string, src: Option<Size>)
    requires forall k :: 0 <= k < |listing| && load(listing[k]).Some? ==>
               IsRect(load(listing[k]).value.tile, Config.CorpSize, Config.CorpSize)
    requires Construct(mode, true, folder, listing, load, picPath, src).Ok?
    ensures var s := Construct(mode, true, folder, listing, load, picPath, src).value;
            WellFormed(s.cat)
            && forall r, c :: 0 <= r < s.size.height && 0 <= c < s.size.width ==>
                 Mosaic.InGrid(r, c, s.size.height, s.size.width)
  {
    var s := Construct(mode, true, folder, listing, load, picPath, src).value;
    MappingTableWellFormed(folder, listing, load);
    forall r, c | 0 <= r < s.size.height && 0 <= c < s.size.width
      ensures Mosaic.InGrid(r, c, s.size.height, s.size.width)
    {
      ResizedIsTiled(src.value.width, src.value.height, r, c);
    }
  }
}
