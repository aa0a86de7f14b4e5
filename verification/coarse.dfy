/** The coarse filter: rank every catalogue entry by how far its average
    colour (RGB mode, `color_similarity`) or average brightness (L mode, the
    inline filter of `merge`) is from the block's, with Python's stable
    `sorted`, and keep the first `FilterSize`. */
module Coarse {
  import opened Grid
  import opened Signature
  import opened Catalogue

  /** The `(key, distance)` pairs the filter sorts. */
  datatype Scored = Scored(id: nat, dist: nat)

  predicate SortedByDist(s: seq<Scored>) {
    forall i, j :: 0 <= i < j < |s| ==> s[i].dist <= s[j].dist
  }

  /** The entries of `s` at distance `d`, in their order in `s`. */
  function AtDist(s: seq<Scored>, d: nat): seq<Scored> {
    if |s| == 0 then [] else (if s[0].dist == d then [s[0]] else []) + AtDist(s[1..], d)
  }

  /** Insert `x` into a sorted sequence ahead of every entry at a distance no
      smaller than its own. */
  function Insert(x: Scored, t: seq<Scored>): (r: seq<Scored>)
    requires SortedByDist(t)
    ensures |r| == |t| + 1
    ensures SortedByDist(r)
    ensures multiset(r) == multiset(t) + multiset{x}
  {
    if |t| == 0 || x.dist <= t[0].dist then [x] + t
    else
      var rest := Insert(x, t[1..]);
      assert t == [t[0]] + t[1..];
      forall e | e in rest ensures t[0].dist <= e.dist {
        assert e in multiset(rest);
      }
      [t[0]] + rest
  }

  /** Inserting `x` puts it first among the entries at its distance and
      leaves the other distances' entries as they were. */
  lemma {:induction false} InsertTies(x: Scored, t: seq<Scored>, d: nat)
    requires SortedByDist(t)
    ensures AtDist(Insert(x, t), d) == (if x.dist == d then [x] + AtDist(t, d) else AtDist(t, d))
  {
    var r := Insert(x, t);
    if |t| == 0 || x.dist <= t[0].dist {
      assert r[1..] == t;
    } else {
      var rest := Insert(x, t[1..]);
      assert r[1..] == rest;
      InsertTies(x, t[1..], d);
      assert t[0].dist < x.dist;
    }
  }

  /** Python's `sorted(..., key=distance)`: a stable sort by distance. */
  function StableSort(s: seq<Scored>): (r: seq<Scored>)
    ensures |r| == |s|
    ensures SortedByDist(r)
    ensures multiset(r) == multiset(s)
    ensures forall d :: AtDist(r, d) == AtDist(s, d)
  {
    if |s| == 0 then []
    else
      var rest := StableSort(s[1..]);
      assert s == [s[0]] + s[1..];
      forall d ensures AtDist(Insert(s[0], rest), d) == AtDist(s, d) {
        InsertTies(s[0], rest, d);
      }
      Insert(s[0], rest)
  }

  /** Every entry `AtDist` picks out is an entry of `s` at distance `d`. */
  lemma {:induction false} AtDistMembers(s: seq<Scored>, d: nat)
    ensures forall e :: e in AtDist(s, d) ==> e in s && e.dist == d
  {
    if |s| > 0 {
      AtDistMembers(s[1..], d);
    }
  }

  lemma FirstAtOwnDist(s: seq<Scored>)
    requires |s| > 0
    ensures AtDist(s, s[0].dist) != []
  {
  }

  /** Two sorted sequences that agree on the order of the entries at every
      distance are equal. */
  lemma {:induction false} SortedTiesDetermine(a: seq<Scored>, b: seq<Scored>)
    requires SortedByDist(a) && SortedByDist(b)
    requires forall d :: AtDist(a, d) == AtDist(b, d)
    ensures a == b
    decreases |a| + |b|
  {
    if |a| == 0 && |b| > 0 {
      FirstAtOwnDist(b);
      assert false;
    } else if |b| == 0 && |a| > 0 {
      FirstAtOwnDist(a);
      assert false;
    } else if |a| > 0 {
      var da := a[0].dist;
      var db := b[0].dist;
      AtDistMembers(a, db);
      AtDistMembers(b, da);
      assert AtDist(a, da)[0] == a[0];
      assert AtDist(b, db)[0] == b[0];
      assert AtDist(b, da)[0] in b;
      assert AtDist(a, db)[0] in a;
      assert da == db;
      assert a[0] == b[0];
      forall d ensures AtDist(a[1..], d) == AtDist(b[1..], d) {
        var x := AtDist(a[1..], d);
        var y := AtDist(b[1..], d);
        if d == da {
          assert AtDist(a, d) == [a[0]] + x;
          assert AtDist(b, d) == [b[0]] + y;
          assert x == ([a[0]] + x)[1..];
          assert y == ([b[0]] + y)[1..];
        } else {
          assert AtDist(a, d) == AtDist(a[1..], d);
          assert AtDist(b, d) == AtDist(b[1..], d);
        }
      }
      SortedTiesDetermine(a[1..], b[1..]);
      assert a == [a[0]] + a[1..] && b == [b[0]] + b[1..];
    }
  }

  /** Stability characterises the sort: the only sorted rearrangement of
      `s` that keeps the entries at each distance in their order in `s` is
      `StableSort(s)`. */
  lemma StableSortUnique(r: seq<Scored>, s: seq<Scored>)
    requires SortedByDist(r)
    requires forall d :: AtDist(r, d) == AtDist(s, d)
    ensures r == StableSort(s)
  {
    SortedTiesDetermine(r, StableSort(s));
  }

  function Min(a: nat, b: nat): nat {
    if a <= b then a else b
  }

  /** Taking a prefix keeps, at each distance, a prefix of that distance's
      entries. */
  lemma {:induction false} AtDistOfPrefix(s: seq<Scored>, m: nat, d: nat)
    requires m <= |s|
    ensures AtDist(s[..m], d) <= AtDist(s, d)
  {
    if m > 0 {
      assert s[..m][1..] == s[1..][..m - 1];
      AtDistOfPrefix(s[1..], m - 1, d);
    }
  }

  /** `sorted(pairs, key=distance)[:n]`: the `n` nearest entries, nearest
      first, ties in their original order. */
  function TopN(s: seq<Scored>, n: nat): (r: seq<Scored>)
    ensures |r| == Min(n, |s|)
    ensures SortedByDist(r)
    ensures multiset(r) <= multiset(s)
    ensures forall i, e :: 0 <= i < |r| && e in multiset(s) - multiset(r) ==> r[i].dist <= e.dist
    ensures forall d :: AtDist(r, d) <= AtDist(s, d)
  {
    var sorted := StableSort(s);
    var m := Min(n, |s|);
    SortedPrefix(s, sorted, m);
    sorted[..m]
  }

  /** Every prefix of a stable sort of `s` has the properties of `TopN`. */
  lemma SortedPrefix(s: seq<Scored>, sorted: seq<Scored>, m: nat)
    requires SortedByDist(sorted) && multiset(sorted) == multiset(s)
    requires forall d :: AtDist(sorted, d) == AtDist(s, d)
    requires m <= |sorted|
    ensures SortedByDist(sorted[..m])
    ensures multiset(sorted[..m]) <= multiset(s)
    ensures forall i, e :: 0 <= i < m && e in multiset(s) - multiset(sorted[..m]) ==> sorted[..m][i].dist <= e.dist
    ensures forall d :: AtDist(sorted[..m], d) <= AtDist(s, d)
  {
    var r := sorted[..m];
    forall i, j | 0 <= i < j < |r| ensures r[i].dist <= r[j].dist {
      assert r[i] == sorted[i] && r[j] == sorted[j];
    }
    PrefixNearest(sorted, m);
    forall d ensures AtDist(r, d) <= AtDist(s, d) {
      AtDistOfPrefix(sorted, m, d);
    }
  }

  /** A prefix of a sorted sequence is no farther than anything left out. */
  lemma PrefixNearest(sorted: seq<Scored>, m: nat)
    requires SortedByDist(sorted) && m <= |sorted|
    ensures multiset(sorted[..m]) <= multiset(sorted)
    ensures forall i, e :: 0 <= i < m && e in multiset(sorted) - multiset(sorted[..m]) ==>
              sorted[i].dist <= e.dist
  {
    var r := sorted[..m];
    var tail := sorted[m..];
    assert sorted == r + tail;
    assert multiset(sorted) == multiset(r) + multiset(tail);
    forall i, e | 0 <= i < m && e in multiset(sorted) - multiset(r)
      ensures sorted[i].dist <= e.dist
    {
      assert e in multiset(tail);
      var k :| 0 <= k < |tail| && tail[k] == e;
      assert sorted[m + k] == e;
    }
  }

  /** Keys strictly increasing along the sequence, as in the catalogue. */
  predicate IdsAscending(s: seq<Scored>) {
    forall a, b :: 0 <= a < b < |s| ==> s[a].id < s[b].id
  }

  /** `a` comes before `b` by distance, then by key. */
  predicate LexLess(a: Scored, b: Scored) {
    a.dist < b.dist || (a.dist == b.dist && a.id < b.id)
  }

  /** Ordered by distance, then by key. */
  predicate LexSorted(s: seq<Scored>) {
    forall i, j :: 0 <= i < j < |s| ==> LexLess(s[i], s[j])
  }

  lemma PrependLex(y: Scored, t: seq<Scored>)
    requires LexSorted(t)
    requires forall e :: e in t ==> LexLess(y, e)
    ensures LexSorted([y] + t)
  {
    var r := [y] + t;
    forall i, j | 0 <= i < j < |r| ensures LexLess(r[i], r[j]) {
      assert r[j] == t[j - 1];
      if i > 0 {
        assert r[i] == t[i - 1];
      } else {
        assert t[j - 1] in t;
      }
    }
  }

  lemma {:induction false} InsertLex(x: Scored, t: seq<Scored>)
    requires SortedByDist(t) && LexSorted(t)
    requires forall e :: e in t ==> x.id < e.id
    ensures LexSorted(Insert(x, t))
  {
    if |t| == 0 || x.dist <= t[0].dist {
      forall e | e in t ensures LexLess(x, e) {
        var k :| 0 <= k < |t| && t[k] == e;
        assert t[0].dist <= t[k].dist;
      }
      PrependLex(x, t);
    } else {
      var t' := t[1..];
      forall e | e in t' ensures x.id < e.id {
        assert e in t;
      }
      InsertLex(x, t');
      var rest := Insert(x, t');
      forall e | e in rest ensures LexLess(t[0], e) {
        assert e in multiset(rest);
        if e != x {
          assert e in multiset(t');
          var k :| 0 <= k < |t'| && t'[k] == e;
          assert t[k + 1] == e;
        }
      }
      PrependLex(t[0], rest);
    }
  }

  /** When the keys arrive in increasing order, the stable sort orders by
      distance and then by key; in particular no key appears twice. */
  lemma {:induction false} StableSortLex(s: seq<Scored>)
    requires IdsAscending(s)
    ensures LexSorted(StableSort(s))
  {
    if |s| > 0 {
      var rest := StableSort(s[1..]);
      StableSortLex(s[1..]);
      forall e | e in rest ensures s[0].id < e.id {
        assert e in multiset(s[1..]);
      }
      InsertLex(s[0], rest);
    }
  }

  /** The shortlist of a catalogue-ordered list holds each key at most once
      and breaks distance ties by key. */
  lemma TopNLex(s: seq<Scored>, n: nat)
    requires IdsAscending(s)
    ensures LexSorted(TopN(s, n))
    ensures forall a, b :: 0 <= a < b < |TopN(s, n)| ==> TopN(s, n)[a].id != TopN(s, n)[b].id
  {
    StableSortLex(s);
    LexPrefix(StableSort(s), Min(n, |s|));
    LexDistinct(TopN(s, n), s);
  }

  lemma LexPrefix(sorted: seq<Scored>, m: nat)
    requires LexSorted(sorted) && m <= |sorted|
    ensures LexSorted(sorted[..m])
  {
    var r := sorted[..m];
    forall a, b | 0 <= a < b < |r| ensures LexLess(r[a], r[b]) {
      assert r[a] == sorted[a] && r[b] == sorted[b];
    }
  }

  /** Entries drawn from a list with distinct keys, ordered by distance
      and then key, carry distinct keys: two with one key would be the same
      entry of the list, hence at the same distance. */
  lemma LexDistinct(r: seq<Scored>, s: seq<Scored>)
    requires LexSorted(r) && IdsAscending(s) && multiset(r) <= multiset(s)
    ensures forall a, b :: 0 <= a < b < |r| ==> r[a].id != r[b].id
  {
    forall a, b | 0 <= a < b < |r| ensures r[a].id != r[b].id {
      assert r[a] in multiset(s) && r[b] in multiset(s);
      var p :| 0 <= p < |s| && s[p] == r[a];
      var q :| 0 <= q < |s| && s[q] == r[b];
      assert LexLess(r[a], r[b]);
      assert p != q ==> s[p].id != s[q].id;
    }
  }

  /** The `(key, distance)` list over the catalogue in iteration order. */
  function Distances<T>(cat: Catalogue<T>, key: Image<T> -> nat): (s: seq<Scored>)
    ensures |s| == |cat|
    ensures forall k :: 0 <= k < |cat| ==> s[k].id == cat[k].id && s[k].dist == key(cat[k].tile)
  {
    seq(|cat|, k requires 0 <= k < |cat| => Scored(cat[k].id, key(cat[k].tile)))
  }

  /** A catalogue's keys arrive in increasing order. */
  lemma DistancesAscending<T>(cat: Catalogue<T>, key: Image<T> -> nat)
    requires IdsIncreasing(cat)
    ensures IdsAscending(Distances(cat, key))
  {
  }

  function AbsDiff(a: nat, b: nat): nat {
    if a <= b then b - a else a - b
  }

  function AbsReal(x: real): real {
    if x < 0.0 then -x else x
  }

  /** L-mode distance, scaled by the pixel count: the gap between the
      brightness totals of a tile and of the block. */
  function GrayDistance(tile: Image<nat>, section: Image<nat>): (d: nat)
    ensures Sum(Flatten(tile)) <= Sum(Flatten(section)) + d && Sum(Flatten(section)) <= Sum(Flatten(tile)) + d
    ensures d == Sum(Flatten(tile)) - Sum(Flatten(section)) || d == Sum(Flatten(section)) - Sum(Flatten(tile))
  {
    AbsDiff(Sum(Flatten(tile)), Sum(Flatten(section)))
  }

  /** `x/n - y/n == (x - y)/n`. */
  lemma MeanGap(x: nat, y: nat, n: nat)
    requires n > 0
    ensures x as real / n as real - y as real / n as real == (x as int - y as int) as real / n as real
  {
  }

  /** For a tile and a block with the same number of pixels, the gap between
      their mean brightnesses is the integer distance divided by the pixel
      count. */
  lemma GrayDistanceIsMeanGap(tile: Image<nat>, section: Image<nat>)
    requires |Flatten(tile)| == |Flatten(section)| > 0
    ensures AbsReal(Mean(Flatten(tile)) - Mean(Flatten(section)))
         == GrayDistance(tile, section) as real / |Flatten(tile)| as real
  {
    var x := Sum(Flatten(tile));
    var y := Sum(Flatten(section));
    var n := |Flatten(tile)|;
    MeanGap(x, y, n);
    AbsOverCount(x as int - y as int, n);
  }

  lemma AbsOverCount(d: int, n: nat)
    requires n > 0
    ensures AbsReal(d as real / n as real) == (if d < 0 then -d else d) as real / n as real
  {
    var nr := n as real;
    if d < 0 {
      assert (-d) as real / nr == -(d as real / nr);
    } else {
      assert d as real / nr >= 0.0;
    }
  }

  /** So, among tiles of one size, ranking by the integer distance is ranking
      by the mean-brightness gap `abs(tile.mean() - section.mean())`. */
  lemma GrayOrderAgrees(t1: Image<nat>, t2: Image<nat>, section: Image<nat>)
    requires |Flatten(t1)| == |Flatten(t2)| == |Flatten(section)| > 0
    ensures AbsReal(Mean(Flatten(t1)) - Mean(Flatten(section)))
              <= AbsReal(Mean(Flatten(t2)) - Mean(Flatten(section)))
            <==> GrayDistance(t1, section) <= GrayDistance(t2, section)
  {
    GrayDistanceIsMeanGap(t1, section);
    GrayDistanceIsMeanGap(t2, section);
    DivMonotone(GrayDistance(t1, section), GrayDistance(t2, section), |Flatten(section)|);
  }

  lemma DivMonotone(a: nat, b: nat, n: nat)
    requires n > 0
    ensures a as real / n as real <= b as real / n as real <==> a <= b
  {
    var nr := n as real;
    assert (a as real / nr) * nr == a as real;
    assert (b as real / nr) * nr == b as real;
    if a as real / nr <= b as real / nr {
      assert (a as real / nr) * nr <= (b as real / nr) * nr;
    }
  }

  /** An RGB pixel. */
  datatype Rgb = Rgb(r: nat, g: nat, b: nat)

  datatype Channel = Red | Green | Blue

  function Component(p: Rgb, c: Channel): nat {
    match c
    case Red => p.r
    case Green => p.g
    case Blue => p.b
  }

  /** One channel of a sequence of pixels. */
  function Plane(pixels: seq<Rgb>, c: Channel): (plane: seq<nat>)
    ensures |plane| == |pixels|
  {
    seq(|pixels|, k requires 0 <= k < |pixels| => Component(pixels[k], c))
  }

  /** The average colour `[r_mean, g_mean, b_mean]`. */
  datatype MeanColor = MeanColor(r: real, g: real, b: real)

  /** `rgb_mean`: the mean of each channel over all pixels. */
  function RgbMean(img: Image<Rgb>): (m: MeanColor)
    requires |Flatten(img)| > 0
    ensures m.r * (|Flatten(img)| as real) == ChannelTotal(img, Red) as real
    ensures m.g * (|Flatten(img)| as real) == ChannelTotal(img, Green) as real
    ensures m.b * (|Flatten(img)| as real) == ChannelTotal(img, Blue) as real
  {
    var pixels := Flatten(img);
    MeanColor(Mean(Plane(pixels, Red)), Mean(Plane(pixels, Green)), Mean(Plane(pixels, Blue)))
  }

  /** Squared Euclidean distance between two average colours; its square
      root is `np.linalg.norm` of their difference. */
  function SquaredGap(a: MeanColor, b: MeanColor): real {
    (a.r - b.r) * (a.r - b.r) + (a.g - b.g) * (a.g - b.g) + (a.b - b.b) * (a.b - b.b)
  }

  function ChannelTotal(img: Image<Rgb>, c: Channel): nat {
    Sum(Plane(Flatten(img), c))
  }

  function Square(x: int): nat {
    x * x
  }

  lemma SquareZero(x: int)
    ensures Square(x) == 0 <==> x == 0
  {
    if x != 0 {
      assert x * x > 0 by {
        if x > 0 { assert x * x >= x; } else { assert x * x >= -x; }
      }
    }
  }

  /** RGB-mode distance, scaled by the squared pixel count: the squared
      Euclidean distance between the channel totals of a tile and of the
      block. */
  function ColorDistance(tile: Image<Rgb>, section: Image<Rgb>): (d: nat)
    ensures d == 0 <==> forall c: Channel :: ChannelTotal(tile, c) == ChannelTotal(section, c)
  {
    SquareZero(ChannelTotal(tile, Red) - ChannelTotal(section, Red));
    SquareZero(ChannelTotal(tile, Green) - ChannelTotal(section, Green));
    SquareZero(ChannelTotal(tile, Blue) - ChannelTotal(section, Blue));
    Square(ChannelTotal(tile, Red) - ChannelTotal(section, Red))
    + Square(ChannelTotal(tile, Green) - ChannelTotal(section, Green))
    + Square(ChannelTotal(tile, Blue) - ChannelTotal(section, Blue))
  }

  /** `(x/n - y/n)^2 == (x - y)^2 / n^2`. */
  lemma SquaredMeanGap(x: nat, y: nat, n: nat)
    requires n > 0
    ensures (x as real / n as real - y as real / n as real) * (x as real / n as real - y as real / n as real)
         == Square(x - y) as real / (n * n) as real
  {
    MeanGap(x, y, n);
    var d := (x as int - y as int) as real;
    var nr := n as real;
    assert (d / nr) * (d / nr) == (d * d) / (nr * nr);
    assert Square(x - y) as real == d * d;
    assert (n * n) as real == nr * nr;
  }

  /** For a tile and a block with the same number of pixels `n`, the squared
      distance between their average colours is the integer distance
      divided by `n*n`. */
  lemma ColorDistanceIsMeanGap(tile: Image<Rgb>, section: Image<Rgb>)
    requires |Flatten(tile)| == |Flatten(section)| > 0
    ensures SquaredGap(RgbMean(tile), RgbMean(section))
         == ColorDistance(tile, section) as real / (|Flatten(tile)| * |Flatten(tile)|) as real
  {
    var n := |Flatten(tile)|;
    SquaredMeanGap(ChannelTotal(tile, Red), ChannelTotal(section, Red), n);
    SquaredMeanGap(ChannelTotal(tile, Green), ChannelTotal(section, Green), n);
    SquaredMeanGap(ChannelTotal(tile, Blue), ChannelTotal(section, Blue), n);
    var nn := (n * n) as real;
    assert nn > 0.0;
    var sr := Square(ChannelTotal(tile, Red) - ChannelTotal(section, Red)) as real;
    var sg := Square(ChannelTotal(tile, Green) - ChannelTotal(section, Green)) as real;
    var sb := Square(ChannelTotal(tile, Blue) - ChannelTotal(section, Blue)) as real;
    DivAdd(sr, sg, nn);
    DivAdd(sr + sg, sb, nn);
  }

  lemma DivAdd(a: real, b: real, n: real)
    requires n > 0.0
    ensures a / n + b / n == (a + b) / n
  {
  }

  /** So, among tiles of one size, ranking by the integer distance is ranking
      by the colour distance `norm(section_mean - tile_mean)` (the square
      root preserves the order of non-negative values). */
  lemma ColorOrderAgrees(t1: Image<Rgb>, t2: Image<Rgb>, section: Image<Rgb>)
    requires |Flatten(t1)| == |Flatten(t2)| == |Flatten(section)| > 0
    ensures SquaredGap(RgbMean(t1), RgbMean(section)) <= SquaredGap(RgbMean(t2), RgbMean(section))
            <==> ColorDistance(t1, section) <= ColorDistance(t2, section)
  {
    var n := |Flatten(section)|;
    ColorDistanceIsMeanGap(t1, section);
    ColorDistanceIsMeanGap(t2, section);
    DivMonotone(ColorDistance(t1, section), ColorDistance(t2, section), n * n);
  }
}
