/** Local member ranges of an archive and the sweep that keeps them apart. */
module ZipRanges {
  datatype MemberRange = MemberRange(start: int, end: int)

  predicate ValidRange(range: MemberRange) { 0 <= range.start < range.end }

  predicate Apart(left: MemberRange, right: MemberRange) {
    left.end <= right.start || right.end <= left.start
  }

  predicate ApartFromAll(range: MemberRange, ranges: seq<MemberRange>) {
    forall other | other in ranges :: Apart(range, other)
  }

  /** The plain definition: no two members share a byte. */
  predicate PairwiseApart(ranges: seq<MemberRange>) {
    forall i, j | 0 <= i < j < |ranges| :: Apart(ranges[i], ranges[j])
  }

  predicate AllApart(ranges: seq<MemberRange>) {
    ranges == [] || (ApartFromAll(ranges[0], ranges[1..]) && AllApart(ranges[1..]))
  }

  lemma {:induction false} AllApartIsPairwise(ranges: seq<MemberRange>)
    ensures AllApart(ranges) <==> PairwiseApart(ranges)
  {
    if ranges != [] {
      var rest := ranges[1..];
      AllApartIsPairwise(rest);
      if AllApart(ranges) {
        forall i, j | 0 <= i < j < |ranges|
          ensures Apart(ranges[i], ranges[j])
        {
          if i == 0 {
            assert rest[j - 1] in rest;
          } else {
            assert ranges[i] == rest[i - 1] && ranges[j] == rest[j - 1];
          }
        }
      }
      if PairwiseApart(ranges) {
        forall i, j | 0 <= i < j < |rest|
          ensures Apart(rest[i], rest[j])
        {
          assert rest[i] == ranges[i + 1] && rest[j] == ranges[j + 1];
        }
        forall other | other in rest
          ensures Apart(ranges[0], other)
        {
          var k :| 0 <= k < |rest| && rest[k] == other;
          assert ranges[k + 1] == other;
        }
      }
    }
  }

  // ----- Sorting by start -----

  function Insert(range: MemberRange, sorted: seq<MemberRange>): (result: seq<MemberRange>)
    ensures forall other :: other in result <==> other == range || other in sorted
  {
    if sorted == [] then [range]
    else
      assert sorted == [sorted[0]] + sorted[1..];
      if range.start <= sorted[0].start then [range] + sorted
      else [sorted[0]] + Insert(range, sorted[1..])
  }

  function SortedByStart(ranges: seq<MemberRange>): (sorted: seq<MemberRange>)
    ensures forall other :: other in sorted <==> other in ranges
  {
    if ranges == [] then []
    else
      assert ranges == [ranges[0]] + ranges[1..];
      Insert(ranges[0], SortedByStart(ranges[1..]))
  }

  predicate Ascending(ranges: seq<MemberRange>) {
    ranges == [] ||
      ((forall other | other in ranges[1..] :: ranges[0].start <= other.start) && Ascending(ranges[1..]))
  }

  lemma {:induction false} InsertAscends(range: MemberRange, sorted: seq<MemberRange>)
    requires Ascending(sorted)
    ensures Ascending(Insert(range, sorted))
  {
    if sorted != [] {
      assert sorted == [sorted[0]] + sorted[1..];
      if range.start <= sorted[0].start {
        assert ([range] + sorted)[1..] == sorted;
      } else {
        InsertAscends(range, sorted[1..]);
        assert Insert(range, sorted)[1..] == Insert(range, sorted[1..]);
      }
    }
  }

  lemma {:induction false} SortingAscends(ranges: seq<MemberRange>)
    ensures Ascending(SortedByStart(ranges))
  {
    if ranges != [] {
      SortingAscends(ranges[1..]);
      InsertAscends(ranges[0], SortedByStart(ranges[1..]));
    }
  }

  lemma ApartFromCons(range: MemberRange, ranges: seq<MemberRange>)
    requires ranges != []
    ensures ApartFromAll(range, ranges) <==> Apart(range, ranges[0]) && ApartFromAll(range, ranges[1..])
  {
    assert ranges == [ranges[0]] + ranges[1..];
  }

  lemma ApartFromInserted(range: MemberRange, inserted: MemberRange, sorted: seq<MemberRange>)
    ensures ApartFromAll(range, Insert(inserted, sorted)) <==> Apart(range, inserted) && ApartFromAll(range, sorted)
  {
    var result := Insert(inserted, sorted);
    assert inserted in result && forall other :: other in result <==> other == inserted || other in sorted;
  }

  lemma {:induction false} InsertKeepsApart(range: MemberRange, sorted: seq<MemberRange>)
    ensures AllApart(Insert(range, sorted)) <==> ApartFromAll(range, sorted) && AllApart(sorted)
  {
    hide ApartFromAll;
    if sorted == [] {
      assert [range][1..] == [];
    } else if range.start <= sorted[0].start {
      assert ([range] + sorted)[1..] == sorted;
    } else {
      InsertKeepsApart(range, sorted[1..]);
      var inserted := Insert(range, sorted);
      assert inserted[0] == sorted[0] && inserted[1..] == Insert(range, sorted[1..]);
      ApartFromInserted(sorted[0], range, sorted[1..]);
      ApartFromCons(range, sorted);
    }
  }

  lemma {:induction false} SortingKeepsApart(ranges: seq<MemberRange>)
    ensures AllApart(SortedByStart(ranges)) <==> AllApart(ranges)
  {
    if ranges != [] {
      SortingKeepsApart(ranges[1..]);
      InsertKeepsApart(ranges[0], SortedByStart(ranges[1..]));
    }
  }

  // ----- The sweep -----

  /** What the loop checks from here on. */
  predicate Sweeps(sorted: seq<MemberRange>, previousEnd: int) {
    sorted == [] ||
      (ValidRange(sorted[0]) && previousEnd <= sorted[0].start && Sweeps(sorted[1..], sorted[0].end))
  }

  /** Disjoint ranges in ascending order leave no room between a start and the end before it. */
  lemma LaterRangesStartBehind(sorted: seq<MemberRange>)
    requires sorted != [] && Ascending(sorted) && AllApart(sorted)
    requires forall range | range in sorted :: ValidRange(range)
    ensures forall other | other in sorted[1..] :: sorted[0].end <= other.start
  {
    forall other | other in sorted[1..]
      ensures sorted[0].end <= other.start
    {
      assert sorted[0] in sorted && other in sorted;
      assert Apart(sorted[0], other) && sorted[0].start <= other.start;
    }
  }

  lemma {:induction false} SweepIsExact(sorted: seq<MemberRange>, previousEnd: int)
    requires Ascending(sorted)
    ensures Sweeps(sorted, previousEnd) <==>
      && (forall range | range in sorted :: ValidRange(range) && previousEnd <= range.start)
      && AllApart(sorted)
    decreases |sorted|
  {
    if sorted != [] {
      assert sorted == [sorted[0]] + sorted[1..];
      SweepIsExact(sorted[1..], sorted[0].end);
      if AllApart(sorted) && forall range | range in sorted :: ValidRange(range) {
        LaterRangesStartBehind(sorted);
      }
    }
  }

  /** `assertDisjointZipMemberRanges`: accepts exactly the lists of valid, pairwise disjoint ranges. */
  method AssertDisjointZipMemberRanges(ranges: seq<MemberRange>) returns (accepted: bool)
    ensures accepted <==> PairwiseApart(ranges) && forall range | range in ranges :: ValidRange(range)
  {
    var ordered := SortedByStart(ranges);
    SortingAscends(ranges);
    SortingKeepsApart(ranges);
    AllApartIsPairwise(ranges);
    SweepIsExact(ordered, -1);
    assert Sweeps(ordered, -1) <==> AllApart(ordered) && forall range | range in ordered :: ValidRange(range);
    var previousEnd := -1;
    assert ordered[0..] == ordered;
    for i := 0 to |ordered|
      invariant Sweeps(ordered, -1) <==> Sweeps(ordered[i..], previousEnd)
    {
      var range := ordered[i];
      if range.start < 0 || range.end <= range.start || range.start < previousEnd {
        return false;
      }
      assert ordered[i..][1..] == ordered[i + 1..];
      previousEnd := range.end;
    }
    return true;
  }
}
