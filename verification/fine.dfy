/** The fine filter (`structure_similarity`): score every shortlisted entry by
    the fraction of signature bits it shares with the block and pick the
    first entry with the highest score, as Python's `max` does. */
module Fine {
  import opened Errors
  import opened Grid
  import opened Signature
  import opened Catalogue
  import opened Coarse
  import Config

  /** `k` is the first position holding the largest value of `s`. */
  predicate IsFirstBest(s: seq<real>, k: nat) {
    && k < |s|
    && (forall j :: 0 <= j < |s| ==> s[j] <= s[k])
    && (forall j :: 0 <= j < k ==> s[j] < s[k])
  }

  /** `max(range(len(s)), key=s.__getitem__)`: scanning left to right, a
      later value replaces the current best only when strictly larger. */
  function FirstArgMax(s: seq<real>): (k: nat)
    requires |s| > 0
    ensures IsFirstBest(s, k)
  {
    if |s| == 1 then 0
    else
      var init := s[..|s| - 1];
      var k := FirstArgMax(init);
      assert forall j :: 0 <= j < |init| ==> init[j] == s[j];
      if s[|s| - 1] > s[k] then |s| - 1 else k
  }

  /** There is only one first best position. */
  lemma FirstBestUnique(s: seq<real>, k1: nat, k2: nat)
    requires IsFirstBest(s, k1) && IsFirstBest(s, k2)
    ensures k1 == k2
  {
    var best1, best2 := s[k1], s[k2];
    assert best1 <= best2 && best2 <= best1;
  }

  /** Every shortlisted key is a key of the catalogue. */
  predicate FromCatalogue<T>(cat: Catalogue<T>, survivors: seq<Scored>) {
    forall k :: 0 <= k < |survivors| ==> survivors[k].id in Ids(cat)
  }

  /** The score of each shortlisted entry against the block's signature. */
  function Scores<T>(code: seq<nat>, survivors: seq<Scored>, cat: Catalogue<T>): (sc: seq<real>)
    requires WellFormed(cat) && |code| == Config.CodeLength
    requires FromCatalogue(cat, survivors)
    ensures |sc| == |survivors|
    ensures forall k :: 0 <= k < |sc| ==> 0.0 <= sc[k] <= 1.0
  {
    seq(|survivors|, k requires 0 <= k < |survivors| =>
      Score(code, Lookup(cat, survivors[k].id).value.code))
  }

  /** The position, in the shortlist, of the entry `structure_similarity`
      picks; `max` over an empty shortlist raises. */
  function BestSurvivor<T>(code: seq<nat>, survivors: seq<Scored>, cat: Catalogue<T>): (r: Result<nat>)
    requires WellFormed(cat) && |code| == Config.CodeLength
    requires FromCatalogue(cat, survivors)
    ensures r.Err? <==> |survivors| == 0
    ensures r.Err? ==> r.error == EmptyMax
    ensures r.Ok? ==> IsFirstBest(Scores(code, survivors, cat), r.value)
  {
    if |survivors| == 0 then Err(EmptyMax) else Ok(FirstArgMax(Scores(code, survivors, cat)))
  }

  /** `structure_similarity`: the tile of the first shortlisted entry whose
      signature agrees with the block's in the most positions. */
  function StructureSimilarity<T>(code: seq<nat>, survivors: seq<Scored>, cat: Catalogue<T>): (r: Result<Image<T>>)
    requires WellFormed(cat) && |code| == Config.CodeLength
    requires FromCatalogue(cat, survivors)
    ensures r.Err? <==> |survivors| == 0
    ensures r.Ok? ==> exists k: nat :: IsFirstBest(Scores(code, survivors, cat), k)
                                 && r.value == Lookup(cat, survivors[k].id).value.tile
    ensures r.Ok? ==> r.value in Tiles(cat)
  {
    var k :- BestSurvivor(code, survivors, cat);
    var c := Lookup(cat, survivors[k].id).value;
    TileOfEntry(cat, c);
    Ok(c.tile)
  }

  /** The tiles of the catalogue, in iteration order. */
  function Tiles<T>(cat: Catalogue<T>): seq<Image<T>> {
    seq(|cat|, k requires 0 <= k < |cat| => cat[k].tile)
  }

  lemma TileOfEntry<T>(cat: Catalogue<T>, c: Candidate<T>)
    requires c in cat
    ensures c.tile in Tiles(cat)
  {
    var k :| 0 <= k < |cat| && cat[k] == c;
    assert Tiles(cat)[k] == c.tile;
  }

  /** A shortlisted entry whose signature equals the block's scores 1, so the
      entry picked also scores 1. */
  lemma PerfectMatchWins<T>(code: seq<nat>, survivors: seq<Scored>, cat: Catalogue<T>, m: nat)
    requires WellFormed(cat) && |code| == Config.CodeLength
    requires FromCatalogue(cat, survivors)
    requires m < |survivors| && Lookup(cat, survivors[m].id).value.code == code
    ensures BestSurvivor(code, survivors, cat).Ok?
    ensures var k := BestSurvivor(code, survivors, cat).value;
            Lookup(cat, survivors[k].id).value.code == code
  {
    var sc := Scores(code, survivors, cat);
    var k := BestSurvivor(code, survivors, cat).value;
    assert sc[m] == 1.0;
    assert sc[k] == 1.0;
  }
}
