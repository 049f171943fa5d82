/**
 * `findOverlaps` of `src/components/WaveformViewer.jsx`: every pair of
 * confirmed regions `i < j`, in index order, whose intervals share more than a
 * point yields the common interval.
 */
module Overlaps {
  import opened Model

  /** `{ start, end, regions: [r1, r2] }` */
  datatype Overlap = Overlap(start: int, end: int, first: Region, second: Region)

  /** A pair of indices into the region list. */
  datatype Pair = Pair(i: nat, j: nat)

  /** `Math.max(r1.start, r2.start) < Math.min(r1.end, r2.end)` */
  predicate Meets(r1: Region, r2: Region) {
    Max(r1.start, r2.start) < Min(r1.end, r2.end)
  }

  /** The pairs `(i, k)` with `i < k < j` whose regions meet, by increasing `k`. */
  function RowPairs(rs: seq<Region>, i: nat, j: nat): (ps: seq<Pair>)
    requires i < |rs| && j <= |rs|
    ensures forall p :: p in ps ==> p.i == i && i < p.j < j
    decreases j
  {
    if j <= i + 1 then []
    else RowPairs(rs, i, j - 1) + (if Meets(rs[i], rs[j - 1]) then [Pair(i, j - 1)] else [])
  }

  /** The pairs whose first index is below `m`, in the order the two loops visit them. */
  function PairsBefore(rs: seq<Region>, m: nat): (ps: seq<Pair>)
    requires m <= |rs|
    ensures forall p :: p in ps ==> p.i < m && p.i < p.j < |rs|
  {
    if m == 0 then [] else PairsBefore(rs, m - 1) + RowPairs(rs, m - 1, |rs|)
  }

  function OverlapPairs(rs: seq<Region>): seq<Pair> {
    PairsBefore(rs, |rs|)
  }

  predicate InRange(rs: seq<Region>, ps: seq<Pair>) {
    forall p :: p in ps ==> p.i < p.j < |rs|
  }

  function OverlapOf(r1: Region, r2: Region): Overlap {
    Overlap(Max(r1.start, r2.start), Min(r1.end, r2.end), r1, r2)
  }

  /** The overlap records for a list of pairs. */
  function Records(rs: seq<Region>, ps: seq<Pair>): (os: seq<Overlap>)
    requires InRange(rs, ps)
    ensures |os| == |ps|
  {
    seq(|ps|, k requires 0 <= k < |ps| => OverlapOf(rs[ps[k].i], rs[ps[k].j]))
  }

  /** What `findOverlaps(regions)` returns. */
  function AllOverlaps(rs: seq<Region>): seq<Overlap> {
    Records(rs, OverlapPairs(rs))
  }

  /** Pushing one pair pushes its record. */
  lemma RecordsPush(rs: seq<Region>, ps: seq<Pair>, p: Pair)
    requires InRange(rs, ps) && p.i < p.j < |rs|
    ensures InRange(rs, ps + [p])
    ensures Records(rs, ps + [p]) == Records(rs, ps) + [OverlapOf(rs[p.i], rs[p.j])]
  {
    assert forall q :: q in ps + [p] ==> q in ps || q == p;
    assert Records(rs, ps + [p])[..|ps|] == Records(rs, ps);
  }

  /** Visiting `(i, j)` extends row `i` by that pair exactly when the two regions meet. */
  lemma RowPairsNext(rs: seq<Region>, i: nat, j: nat)
    requires i < j < |rs|
    ensures RowPairs(rs, i, j + 1) == RowPairs(rs, i, j) + (if Meets(rs[i], rs[j]) then [Pair(i, j)] else [])
  {
  }

  /** `findOverlaps`: two nested index loops pushing one record per meeting pair. */
  method FindOverlaps(regions: seq<Region>) returns (overlaps: seq<Overlap>)
    ensures overlaps == AllOverlaps(regions)
  {
    overlaps := [];
    ghost var pairs: seq<Pair> := [];
    for i := 0 to |regions|
      invariant pairs == PairsBefore(regions, i)
      invariant InRange(regions, pairs)
      invariant overlaps == Records(regions, pairs)
    {
      ghost var done := pairs;
      ghost var row: seq<Pair> := [];
      for j := i + 1 to |regions|
        invariant row == RowPairs(regions, i, j)
        invariant pairs == done + row
        invariant InRange(regions, pairs)
        invariant overlaps == Records(regions, pairs)
      {
        var r1 := regions[i];
        var r2 := regions[j];
        var overlapStart := if r1.start >= r2.start then r1.start else r2.start;
        var overlapEnd := if r1.end <= r2.end then r1.end else r2.end;
        RowPairsNext(regions, i, j);
        assert overlapStart == Max(r1.start, r2.start) && overlapEnd == Min(r1.end, r2.end);
        if overlapStart < overlapEnd {
          RecordsPush(regions, pairs, Pair(i, j));
          assert (done + row) + [Pair(i, j)] == done + (row + [Pair(i, j)]);
          row := row + [Pair(i, j)];
          pairs := pairs + [Pair(i, j)];
          overlaps := overlaps + [Overlap(overlapStart, overlapEnd, r1, r2)];
        }
      }
    }
  }

  // ---------------------------------------------------------------------
  // Properties

  lemma {:induction false} RowPairsIff(rs: seq<Region>, i: nat, j: nat, k: nat)
    requires i < |rs| && j <= |rs|
    ensures Pair(i, k) in RowPairs(rs, i, j) <==> i < k < j && Meets(rs[i], rs[k])
    decreases j
  {
    if j > i + 1 {
      RowPairsIff(rs, i, j - 1, k);
    }
  }

  lemma {:induction false} PairsBeforeIff(rs: seq<Region>, m: nat, i: nat, j: nat)
    requires m <= |rs|
    ensures Pair(i, j) in PairsBefore(rs, m) <==> i < m && i < j < |rs| && Meets(rs[i], rs[j])
    decreases m
  {
    if m > 0 {
      var p := Pair(i, j);
      var before := PairsBefore(rs, m - 1);
      var row := RowPairs(rs, m - 1, |rs|);
      assert p in before <==> i < m - 1 && i < j < |rs| && Meets(rs[i], rs[j]) by {
        PairsBeforeIff(rs, m - 1, i, j);
      }
      assert p in row <==> i == m - 1 && i < j < |rs| && Meets(rs[i], rs[j]) by {
        if i == m - 1 {
          RowPairsIff(rs, i, |rs|, j);
        }
      }
      assert PairsBefore(rs, m) == before + row;
      assert p in before + row <==> p in before || p in row;
    }
  }

  /**
   * A pair is reported exactly when its first index is below its second and
   * the two intervals meet; no region is paired with itself.
   */
  lemma OverlapPairsIff(rs: seq<Region>, i: nat, j: nat)
    ensures Pair(i, j) in OverlapPairs(rs) <==> i < j < |rs| && Meets(rs[i], rs[j])
  {
    PairsBeforeIff(rs, |rs|, i, j);
  }

  /** Intervals that only touch, one ending where the other starts, do not meet. */
  lemma TouchingDoNotMeet(r1: Region, r2: Region)
    requires r1.end == r2.start
    ensures !Meets(r1, r2) && !Meets(r2, r1)
  {
  }

  predicate Before(p: Pair, q: Pair) {
    p.i < q.i || (p.i == q.i && p.j < q.j)
  }

  predicate StrictlyOrdered(ps: seq<Pair>) {
    forall a, b :: 0 <= a < b < |ps| ==> Before(ps[a], ps[b])
  }

  lemma {:induction false} RowPairsOrdered(rs: seq<Region>, i: nat, j: nat)
    requires i < |rs| && j <= |rs|
    ensures StrictlyOrdered(RowPairs(rs, i, j))
    decreases j
  {
    if j > i + 1 {
      RowPairsOrdered(rs, i, j - 1);
    }
  }

  lemma {:induction false} PairsBeforeOrdered(rs: seq<Region>, m: nat)
    requires m <= |rs|
    ensures StrictlyOrdered(PairsBefore(rs, m))
    decreases m
  {
    if m > 0 {
      var a := PairsBefore(rs, m - 1);
      var row := RowPairs(rs, m - 1, |rs|);
      assert StrictlyOrdered(a + row) by {
        PairsBeforeOrdered(rs, m - 1);
        RowPairsOrdered(rs, m - 1, |rs|);
        ConcatOrdered(a, row, m - 1);
      }
      assert PairsBefore(rs, m) == a + row;
    }
  }

  /** Two ordered runs stay ordered end to end when the first row index of the second exceeds all of the first. */
  lemma ConcatOrdered(a: seq<Pair>, row: seq<Pair>, i: nat)
    requires StrictlyOrdered(a) && StrictlyOrdered(row)
    requires forall p :: p in a ==> p.i < i
    requires forall p :: p in row ==> p.i == i
    ensures StrictlyOrdered(a + row)
  {
    forall x, y | 0 <= x < y < |a + row|
      ensures Before((a + row)[x], (a + row)[y])
    {
      if y < |a| {
        assert (a + row)[x] == a[x] && (a + row)[y] == a[y];
      } else if x >= |a| {
        assert (a + row)[x] == row[x - |a|] && (a + row)[y] == row[y - |a|];
      } else {
        assert (a + row)[x] in a;
        assert (a + row)[y] in row;
      }
    }
  }

  /** Pairs come in lexicographic `(i, j)` order, so no pair is reported twice. */
  lemma OverlapPairsOrdered(rs: seq<Region>)
    ensures StrictlyOrdered(OverlapPairs(rs))
  {
    PairsBeforeOrdered(rs, |rs|);
  }

  lemma {:induction false} RowPairsCount(rs: seq<Region>, i: nat, j: nat)
    requires i < |rs| && j <= |rs|
    ensures |RowPairs(rs, i, j)| <= if j <= i + 1 then 0 else j - i - 1
    decreases j
  {
    if j > i + 1 {
      RowPairsCount(rs, i, j - 1);
    }
  }

  /** The number of pairs `i < j` below `k`: 0 + 1 + ... + (k - 1). */
  function Triangle(k: nat): nat {
    if k == 0 then 0 else Triangle(k - 1) + (k - 1)
  }

  lemma {:induction false} TriangleValue(k: nat)
    ensures 2 * Triangle(k) == k * (k - 1)
  {
    if k > 0 {
      TriangleValue(k - 1);
      assert (k - 1) * (k - 2) + 2 * (k - 1) == k * (k - 1);
    }
  }

  /** Rows `0 .. m - 1` hold at most `(n - 1) + ... + (n - m)` pairs. */
  lemma {:induction false} PairsBeforeCount(rs: seq<Region>, m: nat)
    requires m <= |rs|
    ensures |PairsBefore(rs, m)| + Triangle(|rs| - m) <= Triangle(|rs|)
  {
    if m > 0 {
      var n := |rs|;
      PairsBeforeCount(rs, m - 1);
      RowPairsCount(rs, m - 1, n);
      assert |PairsBefore(rs, m)| == |PairsBefore(rs, m - 1)| + |RowPairs(rs, m - 1, n)|;
      assert Triangle(n - (m - 1)) == Triangle(n - m) + (n - m);
    }
  }

  /** At most one record per unordered pair: n(n-1)/2. */
  lemma OverlapCount(rs: seq<Region>)
    ensures 2 * |AllOverlaps(rs)| <= |rs| * (|rs| - 1)
  {
    PairsBeforeCount(rs, |rs|);
    TriangleValue(|rs|);
  }

  /**
   * Each record is the common part of the two regions it names: it starts at
   * the later start, ends at the earlier end, is non-empty, and lies inside
   * both regions, which come in list order.
   */
  lemma OverlapRecordsSound(rs: seq<Region>, k: nat)
    requires k < |AllOverlaps(rs)|
    ensures var o := AllOverlaps(rs)[k]; var p := OverlapPairs(rs)[k];
      && p.i < p.j < |rs| && o.first == rs[p.i] && o.second == rs[p.j]
      && o.start == Max(o.first.start, o.second.start) && o.end == Min(o.first.end, o.second.end)
      && o.start < o.end
      && o.first.start <= o.start && o.end <= o.first.end
      && o.second.start <= o.start && o.end <= o.second.end
  {
    var p := OverlapPairs(rs)[k];
    assert p in OverlapPairs(rs);
    OverlapPairsIff(rs, p.i, p.j);
  }

  /** Three regions where only the first two meet, on [0.5 s, 1 s). */
  lemma ExampleOverlaps()
    ensures var rs := [Region(0, 0, 100, "speaker_0", "A"), Region(1, 50, 150, "speaker_1", "B"), Region(2, 150, 200, "speaker_0", "A")];
      AllOverlaps(rs) == [Overlap(50, 100, rs[0], rs[1])]
  {
    var rs := [Region(0, 0, 100, "speaker_0", "A"), Region(1, 50, 150, "speaker_1", "B"), Region(2, 150, 200, "speaker_0", "A")];
    assert RowPairs(rs, 0, 3) == [Pair(0, 1)] by {
      assert RowPairs(rs, 0, 1) == [];
      assert RowPairs(rs, 0, 2) == [Pair(0, 1)];
    }
    assert RowPairs(rs, 1, 3) == [] by {
      assert RowPairs(rs, 1, 2) == [];
    }
    assert RowPairs(rs, 2, 3) == [];
    assert PairsBefore(rs, 1) == [Pair(0, 1)];
    assert PairsBefore(rs, 2) == [Pair(0, 1)];
    assert OverlapPairs(rs) == [Pair(0, 1)];
  }
}
