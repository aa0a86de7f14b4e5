/** The candidate catalogue built by `mapping_table`: one entry per directory
    entry whose extension is accepted and whose image decodes, keyed by the
    entry's position in the listing.  Decoding, resizing and grayscale
    conversion are the image library's work and arrive through `load`. */
module Catalogue {
  import opened Errors
  import opened Grid
  import opened Signature
  import Config

  /** A catalogue entry: its id, the signature of its 8x8 thumbnail and the
      `CorpSize` x `CorpSize` tile that replaces blocks. */
  datatype Candidate<T> = Candidate(id: nat, code: seq<nat>, tile: Image<T>)

  /** What the image library yields for a decodable file: the resized tile in
      the active colour mode and its 8x8 grayscale thumbnail. */
  datatype Loaded<T> = Loaded(tile: Image<T>, thumb: Thumbnail)

  /** Entries in dictionary iteration order, which is insertion order. */
  type Catalogue<T> = seq<Candidate<T>>

  /** Extensions accepted by `mapping_table`, compared case-sensitively. */
  const Suffixes: seq<string> := ["jpg", "jpeg", "JPG", "JPEG", "gif", "GIF", "png", "PNG"]

  /** `s.split('.')[-1]`: the text after the last dot, or all of `s` when it
      has no dot. */
  function LastField(s: string): string {
    if |s| == 0 || s[|s| - 1] == '.' then ""
    else LastField(s[..|s| - 1]) + [s[|s| - 1]]
  }

  /** The last field is a dot-free suffix of the name, preceded by a dot
      unless it is the whole name. */
  lemma {:induction false} LastFieldShape(s: string)
    ensures '.' !in LastField(s)
    ensures |LastField(s)| <= |s| && LastField(s) == s[|s| - |LastField(s)|..]
    ensures |LastField(s)| < |s| ==> s[|s| - |LastField(s)| - 1] == '.'
  {
    if |s| > 0 && s[|s| - 1] != '.' {
      var init := s[..|s| - 1];
      var f := LastField(init);
      LastFieldShape(init);
      assert LastField(s) == f + [s[|s| - 1]];
      var k := |init| - |f|;
      assert s == init + [s[|s| - 1]];
      assert s[k..] == init[k..] + [s[|s| - 1]];
      if k > 0 {
        assert s[k - 1] == init[k - 1];
      }
    }
  }

  /** A name without a dot is its own last field. */
  lemma {:induction false} LastFieldNoDot(s: string)
    requires '.' !in s
    ensures LastField(s) == s
  {
    if |s| > 0 {
      assert s[..|s| - 1] + [s[|s| - 1]] == s;
      LastFieldNoDot(s[..|s| - 1]);
    }
  }

  /** The last field of `stem.ext` is `ext` whenever `ext` has no dot. */
  lemma {:induction false} LastFieldAfterDot(stem: string, ext: string)
    requires '.' !in ext
    ensures LastField(stem + ['.'] + ext) == ext
  {
    var s := stem + ['.'] + ext;
    if |ext| > 0 {
      assert s[..|s| - 1] == stem + ['.'] + ext[..|ext| - 1];
      LastFieldAfterDot(stem, ext[..|ext| - 1]);
      assert ext[..|ext| - 1] + [ext[|ext| - 1]] == ext;
    }
  }

  /** The name's extension is one of the accepted suffixes. */
  predicate Accepted(name: string) {
    LastField(name) in Suffixes
  }

  /** A dotted name is accepted exactly when the text after its last dot is
      one of the suffixes, and a name without a dot exactly when the whole
      name is one. */
  lemma AcceptedIff(stem: string, ext: string)
    requires '.' !in ext
    ensures Accepted(stem + ['.'] + ext) <==> ext in Suffixes
    ensures '.' !in stem ==> (Accepted(stem) <==> stem in Suffixes)
  {
    LastFieldAfterDot(stem, ext);
    if '.' !in stem {
      LastFieldNoDot(stem);
    }
  }

  /** Names whose last field is an accepted suffix are accepted, dotted or
      not. */
  lemma AcceptedExamples()
    ensures Accepted("cat.png") && Accepted("png")
  {
    AcceptedIff("cat", "png");
    assert "cat" + ['.'] + "png" == "cat.png";
    AcceptedIff("png", "");
  }

  /** The suffix comparison is case-sensitive and looks only at the last
      field; a trailing dot leaves an empty last field, which is rejected. */
  lemma RejectedExamples()
    ensures !Accepted("cat.Jpg") && !Accepted("cat.png.txt") && !Accepted("cat.")
  {
    AcceptedIff("cat", "Jpg");
    assert "cat" + ['.'] + "Jpg" == "cat.Jpg";
    AcceptedIff("cat.png", "txt");
    assert "cat.png" + ['.'] + "txt" == "cat.png.txt";
    AcceptedIff("cat", "");
    assert "cat" + ['.'] + "" == "cat.";
  }

  /** Listing entry `k` has an accepted extension and decodes. */
  predicate Qualifies<T>(listing: seq<string>, load: string -> Option<Loaded<T>>, k: nat)
    requires k < |listing|
  {
    Accepted(listing[k]) && load(listing[k]).Some?
  }

  /** The catalogue entry that listing entry `k` yields. */
  function Entry<T>(listing: seq<string>, load: string -> Option<Loaded<T>>, k: nat): Candidate<T>
    requires k < |listing| && Qualifies(listing, load, k)
  {
    var l := load(listing[k]).value;
    Candidate(k, PicCode(l.thumb), l.tile)
  }

  predicate IdsIncreasing<T>(cat: Catalogue<T>) {
    forall a, b :: 0 <= a < b < |cat| ==> cat[a].id < cat[b].id
  }

  function Ids<T>(cat: Catalogue<T>): set<nat> {
    set k | 0 <= k < |cat| :: cat[k].id
  }

  /** The entries contributed by the first `n` names of the listing. */
  function Collect<T>(listing: seq<string>, load: string -> Option<Loaded<T>>, n: nat): (cat: Catalogue<T>)
    requires n <= |listing|
    ensures IdsIncreasing(cat)
    ensures forall k :: 0 <= k < |cat| ==>
              cat[k].id < n && Qualifies(listing, load, cat[k].id) && cat[k] == Entry(listing, load, cat[k].id)
    ensures Ids(cat) == set k | 0 <= k < n && Qualifies(listing, load, k)
  {
    if n == 0 then []
    else
      var prev := Collect(listing, load, n - 1);
      QualifyingStep(listing, load, n);
      if Qualifies(listing, load, n - 1) then
        var e := Entry(listing, load, n - 1);
        IdsAppend(prev, e);
        prev + [e]
      else prev
  }

  lemma IdsAppend<T>(cat: Catalogue<T>, e: Candidate<T>)
    ensures Ids(cat + [e]) == Ids(cat) + {e.id}
  {
    var ext := cat + [e];
    assert ext[|cat|] == e;
    forall x | x in Ids(ext) ensures x in Ids(cat) + {e.id} {
      var k :| 0 <= k < |ext| && ext[k].id == x;
      if k < |cat| { assert cat[k].id == x; }
    }
    forall x | x in Ids(cat) ensures x in Ids(ext) {
      var k :| 0 <= k < |cat| && cat[k].id == x;
      assert ext[k].id == x;
    }
  }

  lemma QualifyingStep<T>(listing: seq<string>, load: string -> Option<Loaded<T>>, n: nat)
    requires 0 < n <= |listing|
    ensures (set k | 0 <= k < n && Qualifies(listing, load, k))
         == (set k | 0 <= k < n - 1 && Qualifies(listing, load, k))
            + (if Qualifies(listing, load, n - 1) then {n - 1} else {})
  {
    var whole := set k | 0 <= k < n && Qualifies(listing, load, k);
    var prefix := set k | 0 <= k < n - 1 && Qualifies(listing, load, k);
    var last: set<nat> := if Qualifies(listing, load, n - 1) then {n - 1} else {};
    forall x | x in whole ensures x in prefix + last {
      if x < n - 1 { assert x in prefix; }
    }
    forall x | x in prefix + last ensures x in whole {
    }
  }

  /** `mapping_table`: fails when the folder is not a directory, otherwise
      collects every qualifying entry of the listing. */
  function MappingTable<T>(isDir: bool, folder: string, listing: seq<string>,
                           load: string -> Option<Loaded<T>>): (r: Result<Catalogue<T>>)
    ensures r.Err? <==> !isDir
    ensures r.Err? ==> r.error == FolderMissing(folder)
    ensures r.Ok? ==> IdsIncreasing(r.value)
    ensures r.Ok? ==> forall k :: 0 <= k < |r.value| ==>
              r.value[k].id < |listing| && Qualifies(listing, load, r.value[k].id)
              && r.value[k] == Entry(listing, load, r.value[k].id)
    ensures r.Ok? ==> Ids(r.value) == set k | 0 <= k < |listing| && Qualifies(listing, load, k)
  {
    if !isDir then Err(FolderMissing(folder)) else Ok(Collect(listing, load, |listing|))
  }

  /** The shape every catalogue the pipeline works with has: ids in
      insertion order, 64-bit signatures and square `CorpSize` tiles. */
  predicate WellFormed<T>(cat: Catalogue<T>) {
    && IdsIncreasing(cat)
    && forall k :: 0 <= k < |cat| ==>
         |cat[k].code| == Config.CodeLength && IsRect(cat[k].tile, Config.CorpSize, Config.CorpSize)
  }

  /** When the image library resizes every decodable file to a square
      `CorpSize` tile, the table `mapping_table` builds is well formed. */
  lemma MappingTableWellFormed<T>(folder: string, listing: seq<string>, load: string -> Option<Loaded<T>>)
    requires forall k :: 0 <= k < |listing| && load(listing[k]).Some? ==>
               IsRect(load(listing[k]).value.tile, Config.CorpSize, Config.CorpSize)
    ensures WellFormed(MappingTable(true, folder, listing, load).value)
  {
    var cat := MappingTable(true, folder, listing, load).value;
    forall k | 0 <= k < |cat|
      ensures |cat[k].code| == Config.CodeLength
    {
      ThumbnailCodeLength(load(listing[cat[k].id]).value.thumb);
    }
  }

  /** Dictionary lookup by id. */
  function Lookup<T>(cat: Catalogue<T>, id: nat): (r: Option<Candidate<T>>)
    ensures r.Some? ==> r.value in cat && r.value.id == id
    ensures r.None? <==> id !in Ids(cat)
  {
    if |cat| == 0 then None
    else if cat[0].id == id then Some(cat[0])
    else
      var r := Lookup(cat[1..], id);
      assert Ids(cat) == {cat[0].id} + Ids(cat[1..]) by {
        forall x | x in Ids(cat) ensures x in {cat[0].id} + Ids(cat[1..]) {
          var k :| 0 <= k < |cat| && cat[k].id == x;
          if k > 0 { assert cat[1..][k - 1].id == x; }
        }
      }
      r
  }

  /** With distinct ids, looking up an entry's id finds that entry. */
  lemma {:induction false} LookupFinds<T>(cat: Catalogue<T>, k: nat)
    requires IdsIncreasing(cat) && k < |cat|
    ensures Lookup(cat, cat[k].id) == Some(cat[k])
  {
    if k > 0 {
      assert cat[0].id < cat[k].id;
      assert cat[1..][k - 1] == cat[k];
      LookupFinds(cat[1..], k - 1);
    }
  }
}
