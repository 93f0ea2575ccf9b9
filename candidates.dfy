/** `CandidateTiles` of carcassonne.py: the free cells next to the map that a tile could be
    placed on, kept as an ordered key list `sorted_positions`, a dictionary `tiles` of the
    live entries and a count `nb_to_be_deleted` of tombstones, i.e. keys still in the list
    whose entry has been deleted. */
module Candidates {
  import opened Vectors
  import opened SeqFacts
  import opened Segments
  import opened Sorting
  import opened Tiles

  /** `sys.maxsize` on a 64-bit build: the sort key that sends a tombstone to the end. */
  const MaxSize: int := 0x7FFF_FFFF_FFFF_FFFF

  /** The dictionary `tiles`, from a position to the candidate cell there. */
  type Index = map<Vect, PositionedTile>

  /** `to_be_deleted`: a cell without contact length is no candidate; in particular a cell
      without a segment (no contact, or contact on two separate stretches) is dropped. */
  predicate ToBeDeleted(p: PositionedTile): (r: bool)
    ensures p.segment.None? ==> r
    ensures p.segment.Some? ==> (r <==> p.segment.value.len == 0)
  {
    GetSegmentLength(p) == 0
  }

  /** What `candidate_tiles.update(t)` does to the dictionary `tiles`. */
  function Updated(m: Index, t: PositionedTile): (m': Index)
    ensures ToBeDeleted(t) ==> t.pos !in m' && forall v :: v != t.pos ==> (v in m' <==> v in m)
    ensures !ToBeDeleted(t) ==> m'.Keys == m.Keys + {t.pos} && m'[t.pos] == t
    ensures forall v :: v in m' && v != t.pos ==> v in m && m'[v] == m[v]
  {
    if ToBeDeleted(t) then m - {t.pos} else m[t.pos := t]
  }

  /** The positions that have a live entry. */
  function Live(m: Index): (p: Vect -> bool)
    ensures forall v :: p(v) <==> v in m
  {
    v => v in m
  }

  /** The entries of `m` at the positions `ps`, in order. */
  function Lookup(m: Index, ps: seq<Vect>): (r: seq<PositionedTile>)
    requires forall k :: 0 <= k < |ps| ==> ps[k] in m
    ensures |r| == |ps| && forall k :: 0 <= k < |ps| ==> r[k] == m[ps[k]]
  {
    seq(|ps|, k requires 0 <= k < |ps| => m[ps[k]])
  }

  /** What `iterate` yields: the live entries in the order of the key list. */
  function LiveTiles(sp: seq<Vect>, m: Index): (r: seq<PositionedTile>)
    ensures |r| <= |sp|
    ensures forall k :: 0 <= k < |r| ==> r[k] in m.Values
    ensures forall v :: v in sp && v in m ==> m[v] in r
  {
    var f := Filter(Live(m), sp);
    var r := Lookup(m, f);
    assert forall v :: v in sp && v in m ==> m[v] in r by {
      forall v | v in sp && v in m ensures m[v] in r {
        FilterContains(Live(m), sp, v);
        var k :| 0 <= k < |f| && f[k] == v;
        assert r[k] == m[v];
      }
    }
    r
  }

  /** The invariant of the three fields, which `__resize` asserts in part: no key is listed
      twice, every live entry is listed and sits at its own position with a contact length,
      and the tombstones are counted: `allocated() == len(self) + nb_to_be_deleted`. */
  predicate Consistent(sp: seq<Vect>, m: Index, nb: int)
  {
    Distinct(sp) && nb >= 0 && |sp| == |m| + nb &&
    forall v :: v in m ==> v in sp && m[v].pos == v && !ToBeDeleted(m[v])
  }

  /** Every key from index `len(self)` on is a tombstone, as `__resize` asserts. */
  predicate TombstoneTail(sp: seq<Vect>, m: Index)
  {
    forall idx :: |m| <= idx < |sp| ==> sp[idx] !in m
  }

  /** The key with `reverse` folded in: `sort(reverse=True)` is stable, so it orders as a
      stable ascending sort by the negated key. */
  function Directed(key: PositionedTile -> int, reverse: bool): (d: PositionedTile -> int)
    ensures forall t :: d(t) == if reverse then -key(t) else key(t)
  {
    t => if reverse then -key(t) else key(t)
  }

  /** `__sort_key`, with `reverse` folded in: a tombstone sorts as `sys.maxsize` either way
      (`-sys.maxsize` under the reversed order). */
  function SortKey(m: Index, key: PositionedTile -> int, reverse: bool): (k: Vect -> int)
    ensures forall v :: k(v) == if v in m then Directed(key, reverse)(m[v]) else MaxSize
  {
    v => if v in m then Directed(key, reverse)(m[v]) else MaxSize
  }

  /** The key of `force_resize`: 0 for a live position, 1 for a tombstone. */
  function Rank(m: Index): (k: Vect -> int)
    ensures forall v :: k(v) == if v in m then 0 else 1
  {
    v => if v in m then 0 else 1
  }

  /** Every live key sorts strictly before the tombstones. */
  predicate KeysInRange(m: Index, key: PositionedTile -> int, reverse: bool)
  {
    forall v :: v in m ==> Directed(key, reverse)(m[v]) < MaxSize
  }

  /** The ratio test of `sort`: `len(self) > 0 and allocated() / len(self) > 1.333`, in
      exact arithmetic. */
  predicate TooManyTombstones(listed: int, live: int)
  {
    live > 0 && 1000 * listed > 1333 * live
  }

  class CandidateTiles {
    var sortedPositions: seq<Vect>
    var tiles: Index
    var nbToBeDeleted: int

    predicate Valid()
      reads this
    {
      Consistent(sortedPositions, tiles, nbToBeDeleted)
    }

    /** `CandidateTiles()`: no candidates. */
    constructor ()
      ensures Valid() && sortedPositions == [] && tiles == map[] && nbToBeDeleted == 0
    {
      sortedPositions := [];
      tiles := map[];
      nbToBeDeleted := 0;
    }

    /** `__len__`: the number of live candidates, which is what `iterate` yields. */
    function Len(): (n: nat)
      reads this
      ensures n == |tiles|
      ensures Valid() ==> n == |LiveTiles(sortedPositions, tiles)|
    {
      if Valid() then LiveCount(sortedPositions, tiles, nbToBeDeleted); |tiles|
      else |tiles|
    }

    /** `allocated()`: the number of listed keys, tombstones included. */
    function Allocated(): (n: nat)
      reads this
      ensures n == |sortedPositions|
      ensures Valid() ==> n == Len() + nbToBeDeleted
    {
      |sortedPositions|
    }

    /** `iterate()`: the live entries in key-list order, skipping tombstones. */
    method Iterate() returns (r: seq<PositionedTile>)
      ensures r == LiveTiles(sortedPositions, tiles)
    {
      r := [];
      var i := 0;
      while i < |sortedPositions|
        invariant 0 <= i <= |sortedPositions|
        invariant r == LiveTiles(sortedPositions[..i], tiles)
      {
        var v := sortedPositions[i];
        LiveTilesSnoc(sortedPositions, tiles, i);
        if v in tiles {
          r := r + [tiles[v]];
        }
        i := i + 1;
      }
      assert sortedPositions[..i] == sortedPositions;
    }

    /** `delete(pos)`: a live entry becomes a tombstone; any other position is ignored. */
    method Delete(pos: Vect)
      requires Valid()
      modifies this
      ensures Valid() && sortedPositions == old(sortedPositions)
      ensures tiles == old(tiles) - {pos}
      ensures nbToBeDeleted == old(nbToBeDeleted) + (if pos in old(tiles) then 1 else 0)
    {
      if pos in tiles {
        DeleteKeepsConsistent(sortedPositions, tiles, nbToBeDeleted, pos);
        nbToBeDeleted := nbToBeDeleted + 1;
        tiles := tiles - {pos};
      } else {
        assert tiles - {pos} == tiles;
      }
    }

    /** `update(pos_tile)`: a cell without contact length is deleted; otherwise a new
        position is listed at the end, a tombstone is brought back to life (one fewer to
        delete), or a live entry is overwritten. The key list is never reordered. */
    method Update(p: PositionedTile)
      requires Valid()
      modifies this
      ensures Valid() && old(sortedPositions) <= sortedPositions
      ensures tiles == Updated(old(tiles), p)
      ensures ToBeDeleted(p) ==>
        tiles == old(tiles) - {p.pos} && sortedPositions == old(sortedPositions) &&
        nbToBeDeleted == old(nbToBeDeleted) + (if p.pos in old(tiles) then 1 else 0)
      ensures !ToBeDeleted(p) ==>
        tiles == old(tiles)[p.pos := p] &&
        sortedPositions == (if p.pos in old(sortedPositions) then old(sortedPositions) else old(sortedPositions) + [p.pos]) &&
        nbToBeDeleted == old(nbToBeDeleted) - (if p.pos !in old(tiles) && p.pos in old(sortedPositions) then 1 else 0)
    {
      if ToBeDeleted(p) {
        Delete(p.pos);
        return;
      }
      var pos := p.pos;
      if pos !in tiles {
        if pos !in sortedPositions {
          AppendKeepsConsistent(sortedPositions, tiles, nbToBeDeleted, p);
          sortedPositions := sortedPositions + [pos];
        } else {
          RestoreKeepsConsistent(sortedPositions, tiles, nbToBeDeleted, p);
          nbToBeDeleted := nbToBeDeleted - 1;
        }
      } else {
        OverwriteKeepsConsistent(sortedPositions, tiles, nbToBeDeleted, p);
      }
      tiles := tiles[pos := p];
    }

    /** `__resize`: with the asserted invariant, and every key from index `len(self)` on a
        tombstone, the tombstone tail is cut off. When the tail holds a live key the assert
        fails (`ok` is false) and nothing changes. */
    method Resize() returns (ok: bool)
      requires Valid()
      modifies this
      ensures Valid() && tiles == old(tiles)
      ensures ok <==> TombstoneTail(old(sortedPositions), old(tiles))
      ensures ok ==> sortedPositions == old(sortedPositions)[..|tiles|] && nbToBeDeleted == 0
      ensures !ok ==> sortedPositions == old(sortedPositions) && nbToBeDeleted == old(nbToBeDeleted)
      ensures Filter(Live(tiles), sortedPositions) == Filter(Live(tiles), old(sortedPositions))
    {
      assert Allocated() == Len() + nbToBeDeleted;
      if !(forall idx | |tiles| <= idx < |sortedPositions| :: sortedPositions[idx] !in tiles) {
        return false;
      }
      TruncateTail(sortedPositions, tiles, nbToBeDeleted);
      sortedPositions := sortedPositions[..|tiles|];
      nbToBeDeleted := 0;
      return true;
    }

    /** `force_resize`: the live keys are moved before the tombstones by a stable sort,
        which `__resize` then cuts off: what is left is the live keys in their old order. */
    method ForceResize()
      requires Valid()
      modifies this
      ensures Valid() && tiles == old(tiles) && nbToBeDeleted == 0
      ensures sortedPositions == Filter(Live(tiles), old(sortedPositions))
    {
      RankSortSplits(sortedPositions, tiles, nbToBeDeleted);
      sortedPositions := StableSort(sortedPositions, Rank(tiles));
      var ok := Resize();
      assert ok;
    }

    /** `sort(key, reverse)`: a stable sort of the key list by `__sort_key`, then, when the
        tombstones exceed the 1.333 ratio, `__resize`; `ok` is false when its assert fails,
        which the ranges of the keys rule out (`KeysInRange`). */
    method Sort(key: PositionedTile -> int, reverse: bool) returns (ok: bool)
      requires Valid()
      modifies this
      ensures Valid() && tiles == old(tiles)
      ensures var sorted := StableSort(old(sortedPositions), SortKey(old(tiles), key, reverse));
        (TooManyTombstones(|sorted|, |tiles|) && ok ==> sortedPositions == sorted[..|tiles|] && nbToBeDeleted == 0) &&
        (!TooManyTombstones(|sorted|, |tiles|) || !ok ==>
          sortedPositions == sorted && nbToBeDeleted == old(nbToBeDeleted)) &&
        (!ok ==> TooManyTombstones(|sorted|, |tiles|) && !TombstoneTail(sorted, tiles))
      ensures Filter(Live(tiles), sortedPositions) ==
        Filter(Live(tiles), StableSort(old(sortedPositions), SortKey(old(tiles), key, reverse)))
      ensures KeysInRange(tiles, key, reverse) ==> ok
    {
      var m := tiles;
      SortKeepsConsistent(sortedPositions, m, nbToBeDeleted, SortKey(m, key, reverse));
      StableSortSorted(sortedPositions, SortKey(m, key, reverse));
      sortedPositions := StableSort(sortedPositions, SortKey(m, key, reverse));
      if KeysInRange(m, key, reverse) {
        TombstonesLast(sortedPositions, m, nbToBeDeleted, key, reverse);
      }
      if TooManyTombstones(|sortedPositions|, |tiles|) {
        ok := Resize();
      } else {
        ok := true;
      }
    }
  }

  /** `iterate` yields exactly `len(self)` entries. */
  lemma LiveCount(sp: seq<Vect>, m: Index, nb: int)
    requires Consistent(sp, m, nb)
    ensures |Filter(Live(m), sp)| == |m| && |LiveTiles(sp, m)| == |m|
  {
    var f := Filter(Live(m), sp);
    FilterPartition(Live(m), sp);
    SubMultisetKeepsDistinct(sp, f);
    DistinctIffCard(f);
    assert Elems(f) == m.Keys by {
      forall v ensures v in Elems(f) <==> v in m {
        FilterContains(Live(m), sp, v);
      }
    }
  }

  /** One more key: its entry follows, if it is live. */
  lemma LiveTilesSnoc(sp: seq<Vect>, m: Index, i: int)
    requires 0 <= i < |sp|
    ensures LiveTiles(sp[..i + 1], m) ==
      LiveTiles(sp[..i], m) + (if sp[i] in m then [m[sp[i]]] else [])
  {
    var v := sp[i];
    assert sp[..i + 1] == sp[..i] + [v];
    FilterConcat(Live(m), sp[..i], [v]);
    FilterCons(Live(m), v, []);
    assert [v] + [] == [v];
    var a, b := Filter(Live(m), sp[..i]), Filter(Live(m), [v]);
    assert Lookup(m, a + b) == Lookup(m, a) + Lookup(m, b);
  }

  /** Deleting a live entry adds a tombstone. */
  lemma DeleteKeepsConsistent(sp: seq<Vect>, m: Index, nb: int, v: Vect)
    requires Consistent(sp, m, nb) && v in m
    ensures Consistent(sp, m - {v}, nb + 1)
  {
    assert (m - {v}).Keys == m.Keys - {v};
  }

  /** A new position is listed at the end. */
  lemma AppendKeepsConsistent(sp: seq<Vect>, m: Index, nb: int, p: PositionedTile)
    requires Consistent(sp, m, nb) && p.pos !in m && p.pos !in sp && !ToBeDeleted(p)
    ensures Consistent(sp + [p.pos], m[p.pos := p], nb)
  {
    DistinctSnoc(sp, p.pos);
    assert m[p.pos := p].Keys == m.Keys + {p.pos};
  }

  /** A tombstone comes back to life. */
  lemma RestoreKeepsConsistent(sp: seq<Vect>, m: Index, nb: int, p: PositionedTile)
    requires Consistent(sp, m, nb) && p.pos !in m && p.pos in sp && !ToBeDeleted(p)
    ensures nb > 0 && Consistent(sp, m[p.pos := p], nb - 1)
  {
    TombstoneCounted(sp, m, nb, p.pos);
    assert m[p.pos := p].Keys == m.Keys + {p.pos};
  }

  /** A live entry is replaced. */
  lemma OverwriteKeepsConsistent(sp: seq<Vect>, m: Index, nb: int, p: PositionedTile)
    requires Consistent(sp, m, nb) && p.pos in m && !ToBeDeleted(p)
    ensures Consistent(sp, m[p.pos := p], nb)
  {
    assert m[p.pos := p].Keys == m.Keys;
  }

  /** A key not yet listed can be appended without a repeat. */
  lemma DistinctSnoc(sp: seq<Vect>, v: Vect)
    requires Distinct(sp) && v !in sp
    ensures Distinct(sp + [v])
  {
    var s := sp + [v];
    forall a, b | 0 <= a < b < |s| ensures s[a] != s[b] {
      if b < |sp| {
        assert s[a] == sp[a] && s[b] == sp[b];
      } else {
        assert s[a] == sp[a];
      }
    }
  }

  /** A listed key without a live entry is a counted tombstone, so `update` may decrement
      the count (the assert `nb_to_be_deleted > 0` holds). */
  lemma TombstoneCounted(sp: seq<Vect>, m: Index, nb: int, v: Vect)
    requires Consistent(sp, m, nb) && v in sp && v !in m
    ensures nb > 0
  {
    DistinctIffCard(sp);
    assert m.Keys <= Elems(sp) - {v};
    assert |m.Keys| <= |Elems(sp) - {v}| by {
      SubsetCard(m.Keys, Elems(sp) - {v});
    }
  }

  lemma SubsetCard<T>(a: set<T>, b: set<T>)
    requires a <= b
    ensures |a| <= |b|
  {
    assert b == a + (b - a);
  }

  /** `__resize` on a tombstone tail keeps the invariant and every live key in place. */
  lemma TruncateTail(sp: seq<Vect>, m: Index, nb: int)
    requires Consistent(sp, m, nb) && TombstoneTail(sp, m)
    ensures |m| <= |sp|
    ensures Consistent(sp[..|m|], m, 0)
    ensures Filter(Live(m), sp[..|m|]) == Filter(Live(m), sp)
  {
    DistinctPrefix(sp, |m|);
    LiveInHead(sp, m);
    TailNotLive(sp, m);
  }

  lemma DistinctPrefix(sp: seq<Vect>, k: int)
    requires Distinct(sp) && 0 <= k <= |sp|
    ensures Distinct(sp[..k])
  {
    var head := sp[..k];
    forall a, b | 0 <= a < b < |head| ensures head[a] != head[b] {
      assert head[a] == sp[a] && head[b] == sp[b];
    }
  }

  lemma LiveInHead(sp: seq<Vect>, m: Index)
    requires |m| <= |sp| && TombstoneTail(sp, m)
    requires forall v :: v in m ==> v in sp
    ensures forall v :: v in m ==> v in sp[..|m|]
  {
    forall v | v in m ensures v in sp[..|m|] {
      var idx :| 0 <= idx < |sp| && sp[idx] == v;
      assert sp[..|m|][idx] == v;
    }
  }

  lemma TailNotLive(sp: seq<Vect>, m: Index)
    requires |m| <= |sp| && TombstoneTail(sp, m)
    ensures Filter(Live(m), sp[..|m|]) == Filter(Live(m), sp)
  {
    var head, tail := sp[..|m|], sp[|m|..];
    assert sp == head + tail;
    FilterConcat(Live(m), head, tail);
    FilterNone(Live(m), tail);
    assert Filter(Live(m), head) + [] == Filter(Live(m), head);
  }

  /** Sorting the key list by any key permutes it and keeps the invariant. */
  lemma SortKeepsConsistent(sp: seq<Vect>, m: Index, nb: int, key: Vect -> int)
    requires Consistent(sp, m, nb)
    ensures Consistent(StableSort(sp, key), m, nb)
  {
    var s := StableSort(sp, key);
    SubMultisetKeepsDistinct(sp, s);
    forall v | v in m ensures v in s {
      assert v in multiset(sp);
    }
  }

  /** The sort of `force_resize` puts the live keys first, in their old order, and the
      tombstones after them. */
  lemma RankSortSplits(sp: seq<Vect>, m: Index, nb: int)
    requires Consistent(sp, m, nb)
    ensures var s := StableSort(sp, Rank(m));
      Consistent(s, m, nb) && TombstoneTail(s, m) && s[..|m|] == Filter(Live(m), sp)
  {
    var s := StableSort(sp, Rank(m));
    SortKeepsConsistent(sp, m, nb, Rank(m));
    StableSortSorted(sp, Rank(m));
    SortedSplit(s, Rank(m), Live(m));
    RankSortStable(sp, m);
    LiveCount(sp, m, nb);
    LiveThenTombstones(s, m, Filter(Live(m), s), Filter(Not(Live(m)), s));
  }

  /** The sort of `force_resize` keeps the live keys in their order. */
  lemma RankSortStable(sp: seq<Vect>, m: Index)
    ensures Filter(Live(m), StableSort(sp, Rank(m))) == Filter(Live(m), sp)
  {
    var s := StableSort(sp, Rank(m));
    StableSortStable(sp, Rank(m), 0);
    FilterSame(KeyIs(Rank(m), 0), Live(m), s);
    FilterSame(KeyIs(Rank(m), 0), Live(m), sp);
  }

  lemma LiveThenTombstones(s: seq<Vect>, m: Index, f: seq<Vect>, g: seq<Vect>)
    requires s == f + g && |f| == |m|
    requires forall k :: 0 <= k < |g| ==> Not(Live(m))(g[k])
    ensures s[..|m|] == f && TombstoneTail(s, m)
  {
    forall idx | |m| <= idx < |s| ensures s[idx] !in m {
      assert s[idx] == g[idx - |m|];
    }
  }

  /** With every live key below `sys.maxsize`, the sort of `sort` puts every tombstone after
      every live key, so the assert of `__resize` holds. */
  lemma TombstonesLast(s: seq<Vect>, m: Index, nb: int, key: PositionedTile -> int, reverse: bool)
    requires Consistent(s, m, nb) && Sorted(s, SortKey(m, key, reverse)) && KeysInRange(m, key, reverse)
    ensures forall a, b :: 0 <= a < b < |s| && s[b] in m ==> s[a] in m
    ensures TombstoneTail(s, m)
  {
    var k := SortKey(m, key, reverse);
    forall a, b | 0 <= a < b < |s| && s[b] in m ensures s[a] in m {
      assert k(s[a]) <= k(s[b]) < MaxSize;
    }
    forall idx | |m| <= idx < |s| ensures s[idx] !in m {
      if s[idx] in m {
        var head := s[..idx + 1];
        assert s == head + s[idx + 1..];
        FilterAll(Live(m), head);
        FilterConcat(Live(m), head, s[idx + 1..]);
        LiveCount(s, m, nb);
        assert false;
      }
    }
  }

  /** After `sort(key, reverse)` the live entries come in ascending order of the key
      (descending with `reverse`), and they are the live entries from before, permuted. */
  lemma SortOrdersIteration(sp: seq<Vect>, m: Index, key: PositionedTile -> int, reverse: bool)
    ensures var s := StableSort(sp, SortKey(m, key, reverse));
      Sorted(LiveTiles(s, m), Directed(key, reverse)) &&
      multiset(Filter(Live(m), s)) == multiset(Filter(Live(m), sp))
  {
    var k := SortKey(m, key, reverse);
    var s := StableSort(sp, k);
    StableSortSorted(sp, k);
    FilterSorted(Live(m), s, k);
    LiveKeysOrder(m, Filter(Live(m), s), k, Directed(key, reverse));
    FilterPermutation(Live(m), s, sp);
  }

  /** Live positions in order of a position key give entries in order of the entry key,
      when the two agree on them. */
  lemma LiveKeysOrder(m: Index, f: seq<Vect>, k: Vect -> int, key: PositionedTile -> int)
    requires Sorted(f, k)
    requires forall i :: 0 <= i < |f| ==> f[i] in m && k(f[i]) == key(m[f[i]])
    ensures Sorted(Lookup(m, f), key)
  {
    var r := Lookup(m, f);
    forall i, j | 0 <= i < j < |r| ensures key(r[i]) <= key(r[j]) {
      assert k(f[i]) <= k(f[j]);
    }
  }

  /** The ranking of `update_border_and_candidate_tiles`: a sort by distance to the centre,
      possibly compacted (which keeps the live keys in order), then a reversed sort by
      contact length, yield the candidates by contact length, longest first, and among equal
      contact lengths nearest the centre first. */
  lemma RankedByContactThenDistance(sp: seq<Vect>, m: Index, sp1: seq<Vect>)
    requires Filter(Live(m), sp1) == Filter(Live(m), StableSort(sp, SortKey(m, GetL1Distance, false)))
    ensures var r := LiveTiles(StableSort(sp1, SortKey(m, GetSegmentLength, true)), m);
      (forall i, j :: 0 <= i < j < |r| ==> GetSegmentLength(r[i]) >= GetSegmentLength(r[j])) &&
      (forall i, j :: 0 <= i < j < |r| && GetSegmentLength(r[i]) == GetSegmentLength(r[j]) ==>
        GetL1Distance(r[i]) <= GetL1Distance(r[j]))
  {
    var k1, k2 := SortKey(m, GetL1Distance, false), SortKey(m, GetSegmentLength, true);
    var s1, s2 := StableSort(sp, k1), StableSort(sp1, k2);
    var f1, f2 := Filter(Live(m), s1), Filter(Live(m), s2);
    StableSortSorted(sp, k1);
    FilterSorted(Live(m), s1, k1);
    StableSortSorted(sp1, k2);
    FilterSorted(Live(m), s2, k2);
    forall c ensures Sorted(Filter(KeyIs(k2, c), f2), k1) {
      StableSortStable(sp1, k2, c);
      FilterCommute(KeyIs(k2, c), Live(m), s2);
      FilterCommute(KeyIs(k2, c), Live(m), sp1);
      FilterSorted(KeyIs(k2, c), f1, k1);
    }
    LexOrder(f2, k1, k2);
    var r := Lookup(m, f2);
    forall i, j | 0 <= i < j < |r|
      ensures GetSegmentLength(r[i]) >= GetSegmentLength(r[j])
      ensures GetSegmentLength(r[i]) == GetSegmentLength(r[j]) ==> GetL1Distance(r[i]) <= GetL1Distance(r[j])
    {
      assert k2(f2[i]) <= k2(f2[j]);
    }
  }
}
