/** Address ranges for disassembly: merging symbols into ranges, and the sorted cache of
    ranges already disassembled. */
module Intervals {

  /** Addresses from `lo` up to and including `hi`. */
  datatype Interval = Interval(lo: int, hi: int)

  predicate NonEmpty(r: Interval) {
    r.lo <= r.hi
  }

  predicate Overlaps(a: Interval, b: Interval) {
    a.lo <= b.hi && b.lo <= a.hi
  }

  predicate ContainsRange(a: Interval, b: Interval) {
    a.lo <= b.lo && b.hi <= a.hi
  }

  function Hull(a: Interval, b: Interval): Interval {
    Interval(if a.lo < b.lo then a.lo else b.lo, if a.hi > b.hi then a.hi else b.hi)
  }

  predicate In(a: int, r: Interval) {
    r.lo <= a <= r.hi
  }

  ghost predicate Covers(rs: seq<Interval>, a: int) {
    exists i :: 0 <= i < |rs| && In(a, rs[i])
  }

  /** Sorted, and no two ranges share an address. */
  ghost predicate SortedDisjoint(rs: seq<Interval>) {
    && (forall i :: 0 <= i < |rs| ==> NonEmpty(rs[i]))
    && (forall i, j :: 0 <= i < j < |rs| ==> rs[i].hi < rs[j].lo)
  }

  /** Ranges overlap exactly when they share an address; those that only touch do not. */
  lemma OverlapsExactlyWhen(a: Interval, b: Interval)
    requires NonEmpty(a) && NonEmpty(b)
    ensures Overlaps(a, b) <==> exists x :: In(x, a) && In(x, b)
  {
    if Overlaps(a, b) {
      var x := if a.lo < b.lo then b.lo else a.lo;
      assert In(x, a) && In(x, b);
    }
  }

  // ----- addRange -----

  function Overlapping(rs: seq<Interval>, r: Interval): seq<Interval> {
    if rs == [] then []
    else (if Overlaps(rs[0], r) then [rs[0]] else []) + Overlapping(rs[1..], r)
  }

  function Others(rs: seq<Interval>, r: Interval): seq<Interval> {
    if rs == [] then []
    else (if Overlaps(rs[0], r) then [] else [rs[0]]) + Others(rs[1..], r)
  }

  function MergeAll(rs: seq<Interval>, r: Interval): Interval {
    if rs == [] then r else MergeAll(rs[1..], Hull(r, rs[0]))
  }

  function InsertSorted(rs: seq<Interval>, r: Interval): seq<Interval> {
    if rs == [] || r.lo < rs[0].lo then [r] + rs else [rs[0]] + InsertSorted(rs[1..], r)
  }

  function AddRange(rs: seq<Interval>, r: Interval): seq<Interval> {
    if Overlapping(rs, r) == [] then InsertSorted(rs, r)
    else InsertSorted(Others(rs, r), MergeAll(Overlapping(rs, r), r))
  }

  /** How many ranges lie entirely below `lo`. */
  function Below(rs: seq<Interval>, lo: int): (n: nat)
    ensures n <= |rs|
  {
    if rs == [] || rs[0].hi >= lo then 0 else 1 + Below(rs[1..], lo)
  }

  /** How many ranges start at or below `hi`. */
  function UpTo(rs: seq<Interval>, hi: int): (n: nat)
    ensures n <= |rs|
  {
    if rs == [] || rs[0].lo > hi then 0 else 1 + UpTo(rs[1..], hi)
  }

  ghost predicate Cut(rs: seq<Interval>, r: Interval, i: nat, j: nat) {
    && i <= j <= |rs|
    && (forall k :: 0 <= k < i ==> rs[k].hi < r.lo)
    && (forall k :: i <= k < j ==> Overlaps(rs[k], r))
    && (forall k :: j <= k < |rs| ==> r.hi < rs[k].lo)
  }

  lemma {:induction false} CutAt(rs: seq<Interval>, r: Interval)
    requires SortedDisjoint(rs) && NonEmpty(r)
    ensures Cut(rs, r, Below(rs, r.lo), UpTo(rs, r.hi))
  {
    if rs != [] {
      CutAt(rs[1..], r);
      assert forall k :: 1 <= k < |rs| ==> rs[k] == rs[1..][k - 1];
    }
  }

  lemma SliceTail(rs: seq<Interval>, i: nat, j: nat)
    requires i <= j <= |rs| && rs != []
    ensures i > 0 ==> rs[i..j] == rs[1..][i - 1..j - 1] && rs[..i] == [rs[0]] + rs[1..][..i - 1]
    ensures j > 0 ==> rs[j..] == rs[1..][j - 1..]
    ensures i == 0 < j ==> rs[i..j] == [rs[0]] + rs[1..][..j - 1]
  {}

  lemma CutTail(rs: seq<Interval>, r: Interval, i: nat, j: nat)
    requires Cut(rs, r, i, j) && rs != []
    ensures Cut(rs[1..], r, if i == 0 then 0 else i - 1, if j == 0 then 0 else j - 1)
  {}

  lemma {:induction false} CutSplits(rs: seq<Interval>, r: Interval, i: nat, j: nat)
    requires Cut(rs, r, i, j) && NonEmpty(r)
    requires forall k :: 0 <= k < |rs| ==> NonEmpty(rs[k])
    ensures Overlapping(rs, r) == rs[i..j] && Others(rs, r) == rs[..i] + rs[j..]
  {
    if rs != [] {
      CutTail(rs, r, i, j);
      SliceTail(rs, i, j);
      assert Overlaps(rs[0], r) <==> i == 0 < j;
      hide Cut;
      CutSplits(rs[1..], r, if i == 0 then 0 else i - 1, if j == 0 then 0 else j - 1);
      assert j == 0 ==> [rs[0]] + rs[1..] == rs;
    }
  }

  lemma {:induction false} MergeAllIsHull(rs: seq<Interval>, r: Interval)
    requires SortedDisjoint(rs) && NonEmpty(r)
    ensures rs != [] ==> MergeAll(rs, r) == Hull(r, Interval(rs[0].lo, rs[|rs| - 1].hi))
    ensures rs == [] ==> MergeAll(rs, r) == r
  {
    if |rs| > 1 {
      MergeAllIsHull(rs[1..], Hull(r, rs[0]));
      assert rs[1..][|rs| - 2] == rs[|rs| - 1];
      assert rs[0].hi < rs[|rs| - 1].lo;
    }
  }

  lemma {:induction false} InsertSortedAt(low: seq<Interval>, high: seq<Interval>, r: Interval)
    requires forall k :: 0 <= k < |low| ==> low[k].lo <= r.lo
    requires forall k :: 0 <= k < |high| ==> r.lo < high[k].lo
    ensures InsertSorted(low + high, r) == low + [r] + high
  {
    if low == [] {
      assert low + high == high && low + [r] + high == [r] + high;
    } else {
      InsertSortedAt(low[1..], high, r);
      assert (low + high)[1..] == low[1..] + high;
      assert low + [r] + high == [low[0]] + (low[1..] + [r] + high);
    }
  }

  /** `rs` with its ranges from `i` up to `j` replaced by one. */
  function Replace(rs: seq<Interval>, i: nat, j: nat, x: Interval): seq<Interval>
    requires i <= j <= |rs|
  {
    rs[..i] + [x] + rs[j..]
  }

  /** The new range and the ranges it meets, as one. */
  function Joined(rs: seq<Interval>, i: nat, j: nat, r: Interval): Interval
    requires i <= j <= |rs|
  {
    if i == j then r else Hull(r, Interval(rs[i].lo, rs[j - 1].hi))
  }

  lemma MergedMeets(rs: seq<Interval>, r: Interval, i: nat, j: nat)
    requires SortedDisjoint(rs) && NonEmpty(r) && Cut(rs, r, i, j)
    ensures MergeAll(rs[i..j], r) == Joined(rs, i, j, r)
  {
    MergeAllIsHull(rs[i..j], r);
  }

  lemma InsertReplaces(rs: seq<Interval>, r: Interval, i: nat, j: nat)
    requires SortedDisjoint(rs) && NonEmpty(r) && Cut(rs, r, i, j)
    ensures InsertSorted(rs[..i] + rs[j..], Joined(rs, i, j, r)) == Replace(rs, i, j, Joined(rs, i, j, r))
  {
    InsertSortedAt(rs[..i], rs[j..], Joined(rs, i, j, r));
  }

  /** What `addRange` makes of a sorted, disjoint cache: the ranges that meet the new one,
      which are neighbours, give way to their common hull with it. */
  lemma AddRangeReplaces(rs: seq<Interval>, r: Interval, i: nat, j: nat)
    requires SortedDisjoint(rs) && NonEmpty(r) && i == Below(rs, r.lo) && j == UpTo(rs, r.hi)
    ensures Cut(rs, r, i, j) && Overlapping(rs, r) == rs[i..j]
    ensures AddRange(rs, r) == Replace(rs, i, j, Joined(rs, i, j, r))
  {
    CutAt(rs, r);
    hide Below, UpTo, InsertSorted, MergeAll;
    CutSplits(rs, r, i, j);
    MergedMeets(rs, r, i, j);
    InsertReplaces(rs, r, i, j);
    assert i == j ==> rs[..i] + rs[j..] == rs;
  }

  lemma ReplaceKeepsOrder(rs: seq<Interval>, r: Interval, i: nat, j: nat)
    requires SortedDisjoint(rs) && NonEmpty(r) && Cut(rs, r, i, j)
    ensures SortedDisjoint(Replace(rs, i, j, Joined(rs, i, j, r)))
  {}

  /** The hull covers nothing but the new range and the ranges that meet it. */
  lemma JoinedCovers(rs: seq<Interval>, r: Interval, i: nat, j: nat, a: int)
    requires SortedDisjoint(rs) && NonEmpty(r) && Cut(rs, r, i, j)
    ensures In(a, Joined(rs, i, j, r)) <==> In(a, r) || exists k :: i <= k < j && In(a, rs[k])
  {}

  lemma ReplaceCovers(rs: seq<Interval>, i: nat, j: nat, x: Interval, a: int)
    requires i <= j <= |rs|
    ensures Covers(Replace(rs, i, j, x), a) <==>
      In(a, x) || exists k :: 0 <= k < |rs| && (k < i || j <= k) && In(a, rs[k])
  {
    var all := Replace(rs, i, j, x);
    assert all[i] == x;
    if Covers(all, a) {
      var k :| 0 <= k < |all| && In(a, all[k]);
      assert k != i ==> all[k] == rs[if k < i then k else k - i - 1 + j];
    }
    if k :| 0 <= k < |rs| && (k < i || j <= k) && In(a, rs[k]) {
      assert all[if k < i then k else k - j + i + 1] == rs[k];
    }
  }

  /** `addRange` keeps the cache sorted and disjoint, and covers exactly the addresses of
      the cache and of the new range. */
  lemma AddRangeKeepsNormalForm(rs: seq<Interval>, r: Interval)
    requires SortedDisjoint(rs) && NonEmpty(r)
    ensures SortedDisjoint(AddRange(rs, r))
    ensures forall a :: Covers(AddRange(rs, r), a) <==> Covers(rs, a) || In(a, r)
  {
    var i, j := Below(rs, r.lo), UpTo(rs, r.hi);
    AddRangeReplaces(rs, r, i, j);
    ReplaceKeepsOrder(rs, r, i, j);
    forall a ensures Covers(AddRange(rs, r), a) <==> Covers(rs, a) || In(a, r) {
      JoinedCovers(rs, r, i, j, a);
      ReplaceCovers(rs, i, j, Joined(rs, i, j, r), a);
    }
  }

  // ----- insert -----

  /** `InstrRangeCache.insert` from index `i` on: it merges the new range into the first
      range that meets it, and then at most one more, the next. */
  function InsertFrom(rs: seq<Interval>, r: Interval, i: nat): seq<Interval>
    requires i <= |rs|
    decreases |rs| - i
  {
    if i == |rs| then InsertSorted(rs, r)
    else if ContainsRange(rs[i], r) then rs
    else if Overlaps(rs[i], r) then
      var merged := Hull(rs[i], r);
      if i + 1 < |rs| && Overlaps(merged, rs[i + 1]) then
        Replace(rs, i, i + 2, Interval(merged.lo, if rs[i + 1].hi > merged.hi then rs[i + 1].hi else merged.hi))
      else Replace(rs, i, i + 1, merged)
    else InsertFrom(rs, r, i + 1)
  }

  lemma {:induction false} InsertSkips(rs: seq<Interval>, r: Interval, k: nat, i: nat)
    requires k <= i <= |rs| && NonEmpty(r)
    requires forall m :: 0 <= m < |rs| ==> NonEmpty(rs[m])
    requires forall m :: k <= m < i ==> !Overlaps(rs[m], r)
    ensures InsertFrom(rs, r, k) == InsertFrom(rs, r, i)
    decreases i - k
  {
    if k < i { InsertSkips(rs, r, k + 1, i); }
  }

  lemma InsertAtFirstMeeting(rs: seq<Interval>, r: Interval, i: nat, j: nat)
    requires SortedDisjoint(rs) && NonEmpty(r) && Cut(rs, r, i, j) && i < j
    ensures j - i <= 2 ==> InsertFrom(rs, r, i) == Replace(rs, i, j, Joined(rs, i, j, r))
    ensures j - i > 2 ==> |InsertFrom(rs, r, i)| >= |rs| - 1
  {}

  /** After merging into one range and its successor, a third range that is met overlaps. */
  lemma ThirdOverlaps(rs: seq<Interval>, r: Interval, i: nat, j: nat)
    requires SortedDisjoint(rs) && NonEmpty(r) && Cut(rs, r, i, j) && j - i > 2
    ensures !SortedDisjoint(InsertFrom(rs, r, i))
  {
    var out := InsertFrom(rs, r, i);
    assert out[i].hi >= r.hi >= rs[i + 2].lo && out[i + 1] == rs[i + 2];
  }

  /** `insert` does what `addRange` does exactly when the new range meets at most two of the
      cached ranges, and otherwise leaves the cache with ranges that overlap. */
  lemma InsertAgreesExactlyWhen(rs: seq<Interval>, r: Interval)
    requires SortedDisjoint(rs) && NonEmpty(r)
    ensures InsertFrom(rs, r, 0) == AddRange(rs, r) <==> |Overlapping(rs, r)| <= 2
    ensures SortedDisjoint(InsertFrom(rs, r, 0)) <==> |Overlapping(rs, r)| <= 2
  {
    AddRangeKeepsNormalForm(rs, r);
    var i, j := Below(rs, r.lo), UpTo(rs, r.hi);
    AddRangeReplaces(rs, r, i, j);
    InsertSkips(rs, r, 0, i);
    if i == j {
      InsertSkips(rs, r, i, |rs|);
    } else {
      InsertAtFirstMeeting(rs, r, i, j);
      if j - i > 2 { ThirdOverlaps(rs, r, i, j); }
    }
  }

  /** A range that meets three cached ranges leaves the cache with two that overlap. */
  lemma InsertCanLeaveOverlaps()
    ensures var rs := [Interval(0, 9), Interval(20, 29), Interval(40, 49)];
      SortedDisjoint(rs) && InsertFrom(rs, Interval(5, 45), 0) == [Interval(0, 45), Interval(40, 49)]
  {}
}
