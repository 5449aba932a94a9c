/** The range objects of the disassembler, and the cache that merges them. */
module Disassembly {
  import opened Options
  import opened Intervals
  import opened SymbolRanges

  class InstrRange {
    var low: int
    var high: int

    constructor (low: int, high: int)
      ensures this.low == low && this.high == high
    {
      this.low, this.high := low, high;
    }

    function Bounds(): Interval
      reads this
    {
      Interval(low, high)
    }

    method Merge(other: InstrRange) returns (merged: InstrRange)
      ensures fresh(merged) && merged.Bounds() == Hull(Bounds(), other.Bounds())
    {
      var newLow := if low < other.low then low else other.low;
      var newHigh := if high > other.high then high else other.high;
      merged := new InstrRange(newLow, newHigh);
    }

    /** The later of the two ends, exactly when it is representable. */
    method AddSymbol(symbol: Symbol)
      modifies `high
      ensures high == HighWith(old(high), symbol.end)
      ensures old(high) >= 0 ==>
        (high == Later(old(high), symbol.end) <==> Representable(Later(old(high), symbol.end)))
    {
      if high >= 0 { HighWithExactlyWhen(high, symbol.end); }
      high := if ToNumber(high) > ToNumber(symbol.end) then ToNumber(high) else ToNumber(symbol.end);
    }
  }

  ghost function BoundsOf(ranges: seq<InstrRange>): (r: seq<Interval>)
    reads ranges
    ensures |r| == |ranges|
    ensures forall i :: 0 <= i < |r| ==> r[i] == ranges[i].Bounds()
  {
    seq(|ranges|, i requires 0 <= i < |ranges| reads ranges => ranges[i].Bounds())
  }

  ghost predicate DistinctRanges(ranges: seq<InstrRange>) {
    forall i, j :: 0 <= i < j < |ranges| ==> ranges[i] != ranges[j]
  }

  method FromSymbolNode(symbol: Symbol) returns (range: InstrRange)
    ensures fresh(range) && range.Bounds() == FromSymbol(symbol)
  {
    range := new InstrRange(symbol.low, symbol.high);
    range.AddSymbol(symbol);
  }

  /** One turn of the loop: the last range grows in place, or a new one begins. */
  method AbsorbSymbol(ranges: seq<InstrRange>, symbol: Symbol) returns (grown: seq<InstrRange>)
    requires ranges != [] && DistinctRanges(ranges)
    modifies ranges[|ranges| - 1]
    ensures DistinctRanges(grown) && grown != []
    ensures grown == ranges || (|grown| == |ranges| + 1 && grown[..|ranges|] == ranges && fresh(grown[|ranges|]))
    ensures BoundsOf(grown) == Absorb(old(BoundsOf(ranges)), symbol)
  {
    hide ToNumber;
    ghost var before := BoundsOf(ranges);
    var lastRange := ranges[|ranges| - 1];
    if symbol.low - lastRange.high <= 1 {
      if symbol.high > lastRange.high {
        lastRange.high := symbol.high;
      }
      lastRange.AddSymbol(symbol);
      grown := ranges;
      assert BoundsOf(grown) == before[..|ranges| - 1] + [lastRange.Bounds()];
    } else {
      var range := FromSymbolNode(symbol);
      grown := ranges + [range];
      assert BoundsOf(grown) == before + [range.Bounds()];
    }
  }

  /** `findSymbolsInRange` on the symbols that the tree search returned. */
  method FindSymbolsInRange(symbols: seq<Symbol>) returns (result: Option<seq<InstrRange>>)
    ensures result.None? <==> symbols == []
    ensures result.Some? ==> fresh(result.value) && BoundsOf(result.value) == RangesOf(symbols)
  {
    hide FromSymbol, Absorb;
    if |symbols| == 0 {
      return None;
    }
    var first := FromSymbolNode(symbols[0]);
    var ranges := [first];
    var i := 1;
    assert symbols[..1] == [symbols[0]];
    while i < |symbols|
      invariant 1 <= i <= |symbols|
      invariant ranges != [] && fresh(ranges) && DistinctRanges(ranges)
      invariant BoundsOf(ranges) == RangesOf(symbols[..i])
    {
      assert symbols[..i + 1][..i] == symbols[..i];
      ranges := AbsorbSymbol(ranges, symbols[i]);
      i := i + 1;
    }
    assert symbols[..i] == symbols;
    return Some(ranges);
  }

  function Remove(ranges: seq<InstrRange>, range: InstrRange): seq<InstrRange> {
    if ranges == [] then []
    else if ranges[0] == range then ranges[1..]
    else [ranges[0]] + Remove(ranges[1..], range)
  }

  lemma {:induction false} RemoveAt(ranges: seq<InstrRange>, i: nat)
    requires i < |ranges| && DistinctRanges(ranges)
    ensures Remove(ranges, ranges[i]) == ranges[..i] + ranges[i + 1..]
  {
    if i > 0 {
      RemoveAt(ranges[1..], i - 1);
      assert ranges[1..][..i - 1] == ranges[1..i] && ranges[1..][i..] == ranges[i + 1..];
      assert ranges[..i] == [ranges[0]] + ranges[1..i];
    }
  }

  lemma LowsAreSorted(ranges: seq<InstrRange>)
    requires SortedDisjoint(BoundsOf(ranges))
    ensures forall i, j :: 0 <= i < j < |ranges| ==> ranges[i].low <= ranges[j].low
  {}

  lemma BoundsOfInserted(ranges: seq<InstrRange>, n: nat, range: InstrRange)
    requires n <= |ranges|
    ensures BoundsOf(ranges[..n] + [range] + ranges[n..])
            == BoundsOf(ranges)[..n] + [range.Bounds()] + BoundsOf(ranges)[n..]
  {}

  lemma ReplaceOne(rs: seq<Interval>, i: nat, x: Interval)
    requires i < |rs|
    ensures rs[i := x] == Replace(rs, i, i + 1, x)
  {}

  lemma SortedWithout(rs: seq<Interval>, i: nat, j: nat)
    requires SortedDisjoint(rs) && i <= j <= |rs|
    ensures SortedDisjoint(rs[..i] + rs[j..])
  {}

  class InstrRangeCache {
    var cache: seq<InstrRange>

    ghost function Bounds(): seq<Interval>
      reads this, cache
    {
      BoundsOf(cache)
    }

    ghost predicate Valid()
      reads this, cache
    {
      DistinctRanges(cache) && SortedDisjoint(Bounds())
    }

    constructor ()
      ensures Valid() && cache == []
    {
      cache := [];
    }

    /** `SortedArray.insert`: behind everything that starts no later. */
    method InsertSortedRange(range: InstrRange)
      requires forall i, j :: 0 <= i < j < |cache| ==> cache[i].low <= cache[j].low
      modifies `cache
      ensures Bounds() == InsertSorted(old(Bounds()), range.Bounds())
      ensures exists n :: 0 <= n <= |old(cache)| && cache == old(cache)[..n] + [range] + old(cache)[n..]
    {
      hide InsertSorted;
      var n := 0;
      while n < |cache| && cache[n].low <= range.low
        invariant 0 <= n <= |cache|
        invariant forall k :: 0 <= k < n ==> cache[k].low <= range.low
      {
        n := n + 1;
      }
      ghost var bounds := Bounds();
      assert bounds == bounds[..n] + bounds[n..];
      InsertSortedAt(bounds[..n], bounds[n..], range.Bounds());
      BoundsOfInserted(cache, n, range);
      cache := cache[..n] + [range] + cache[n..];
    }

    method GetOverlappingRanges(range: InstrRange) returns (overlapping: seq<InstrRange>)
      requires Valid() && range.low <= range.high
      ensures var i, j := Below(Bounds(), range.low), UpTo(Bounds(), range.high);
        Cut(Bounds(), range.Bounds(), i, j) && overlapping == cache[i..j]
    {
      CutAt(Bounds(), range.Bounds());
      ghost var i, j := Below(Bounds(), range.low), UpTo(Bounds(), range.high);
      overlapping := [];
      var k := 0;
      while k < |cache|
        invariant 0 <= k <= |cache|
        invariant overlapping == if k <= i then [] else cache[i..if k <= j then k else j]
      {
        assert Bounds()[k] == cache[k].Bounds();
        if Overlaps(cache[k].Bounds(), range.Bounds()) {
          overlapping := overlapping + [cache[k]];
        }
        k := k + 1;
      }
    }

    /** Takes the given neighbours out of the cache, one after the other. */
    method RemoveAll(overlapping: seq<InstrRange>, ghost i: nat)
      requires DistinctRanges(cache) && i + |overlapping| <= |cache| && overlapping == cache[i..i + |overlapping|]
      modifies `cache
      ensures cache == old(cache)[..i] + old(cache)[i + |overlapping|..]
    {
      var n := 0;
      while n < |overlapping|
        invariant 0 <= n <= |overlapping|
        invariant cache == old(cache)[..i] + old(cache)[i + n..]
      {
        assert cache[i] == old(cache)[i + n] == overlapping[n];
        RemoveAt(cache, i);
        cache := Remove(cache, overlapping[n]);
        n := n + 1;
      }
    }

    /** `reduce` over `merge`, starting from the new range. */
    static method MergeInto(overlapping: seq<InstrRange>, range: InstrRange) returns (merged: InstrRange)
      ensures merged.Bounds() == MergeAll(BoundsOf(overlapping), range.Bounds())
      ensures overlapping != [] ==> fresh(merged)
    {
      merged := range;
      var n := 0;
      while n < |overlapping|
        invariant 0 <= n <= |overlapping|
        invariant MergeAll(BoundsOf(overlapping[n..]), merged.Bounds())
                  == MergeAll(BoundsOf(overlapping), range.Bounds())
        invariant n > 0 ==> fresh(merged)
      {
        assert BoundsOf(overlapping[n..])[1..] == BoundsOf(overlapping[n + 1..]);
        merged := merged.Merge(overlapping[n]);
        n := n + 1;
      }
    }

    method AddRange(range: InstrRange)
      requires Valid() && range.low <= range.high
      modifies `cache
      ensures Bounds() == Intervals.AddRange(old(Bounds()), range.Bounds())
      ensures SortedDisjoint(Bounds())
    {
      ghost var bounds := Bounds();
      AddRangeKeepsNormalForm(bounds, range.Bounds());
      var overlapping := GetOverlappingRanges(range);
      ghost var i, j := Below(bounds, range.low), UpTo(bounds, range.high);
      CutSplits(bounds, range.Bounds(), i, j);
      hide Others, InsertSorted, MergeAll, Below, UpTo;
      if |overlapping| == 0 {
        LowsAreSorted(cache);
        InsertSortedRange(range);
      } else {
        MergeOverlapping(overlapping, range, i, j);
      }
    }

    /** The ranges that meet the new one leave the cache, and their hull with it enters. */
    method MergeOverlapping(overlapping: seq<InstrRange>, range: InstrRange, ghost i: nat, ghost j: nat)
      requires Valid() && i < j <= |cache| && overlapping == cache[i..j]
      modifies `cache
      ensures var bounds := old(Bounds());
        Bounds() == InsertSorted(bounds[..i] + bounds[j..], MergeAll(bounds[i..j], range.Bounds()))
    {
      hide InsertSorted, MergeAll;
      ghost var bounds := Bounds();
      SortedWithout(bounds, i, j);
      assert BoundsOf(overlapping) == bounds[i..j];
      RemoveAll(overlapping, i);
      assert Bounds() == bounds[..i] + bounds[j..];
      LowsAreSorted(cache);
      var merged := MergeInto(overlapping, range);
      InsertSortedRange(merged);
    }

    /** `insert`, which widens cached ranges in place. */
    method Insert(range: InstrRange)
      requires Valid() && range.low <= range.high && range !in cache
      modifies `cache, cache
      ensures Bounds() == InsertFrom(old(Bounds()), old(range.Bounds()), 0)
      ensures |Overlapping(old(Bounds()), old(range.Bounds()))| <= 2 ==> SortedDisjoint(Bounds())
    {
      ghost var bounds, r := Bounds(), range.Bounds();
      InsertAgreesExactlyWhen(bounds, r);
      AddRangeKeepsNormalForm(bounds, r);
      var i := 0;
      while i < |cache|
        invariant 0 <= i <= |cache| && cache == old(cache)
        invariant Bounds() == bounds && range.Bounds() == r
        invariant InsertFrom(bounds, r, i) == InsertFrom(bounds, r, 0)
      {
        var cachedRange := cache[i];
        assert bounds[i] == cachedRange.Bounds();
        if ContainsRange(cachedRange.Bounds(), range.Bounds()) {
          return;
        }
        if Overlaps(cachedRange.Bounds(), range.Bounds()) {
          Widen(i, range);
          return;
        }
        i := i + 1;
      }
      InsertSortedRange(range);
    }

    /** The part of `insert` that merges the new range into `cache[i]`, and perhaps the next
        range as well. */
    method Widen(i: nat, range: InstrRange)
      requires DistinctRanges(cache) && i < |cache| && range !in cache
      requires Overlaps(cache[i].Bounds(), range.Bounds()) && !ContainsRange(cache[i].Bounds(), range.Bounds())
      modifies `cache, cache[i]
      ensures Bounds() == InsertFrom(old(Bounds()), range.Bounds(), i)
    {
      ghost var bounds := Bounds();
      WidenInPlace(i, range);
      ReplaceOne(bounds, i, Hull(bounds[i], range.Bounds()));
      if i + 1 < |cache| && Overlaps(cache[i].Bounds(), cache[i + 1].Bounds()) {
        TakeInNext(i);
      }
    }

    method WidenInPlace(i: nat, range: InstrRange)
      requires DistinctRanges(cache) && i < |cache| && range !in cache
      modifies cache[i]
      ensures Bounds() == old(Bounds())[i := Hull(old(Bounds())[i], range.Bounds())]
    {
      var cachedRange := cache[i];
      if range.high > cachedRange.high {
        cachedRange.high := range.high;
      }
      if range.low < cachedRange.low {
        cachedRange.low := range.low;
      }
    }

    /** `cache[i]` swallows its successor. */
    method TakeInNext(i: nat)
      requires DistinctRanges(cache) && i + 1 < |cache|
      modifies `cache, cache[i]
      ensures cache == old(cache)[..i + 1] + old(cache)[i + 2..]
      ensures var was := old(Bounds());
        Bounds() == was[..i]
          + [Interval(was[i].lo, if was[i + 1].hi > was[i].hi then was[i + 1].hi else was[i].hi)] + was[i + 2..]
    {
      hide Remove;
      ghost var bounds := Bounds();
      var cachedRange, nxtRange := cache[i], cache[i + 1];
      if nxtRange.high > cachedRange.high {
        cachedRange.high := nxtRange.high;
      }
      assert Bounds() == bounds[i := cachedRange.Bounds()];
      RemoveAt(cache, i + 1);
      ghost var widened := Bounds();
      cache := Remove(cache, nxtRange);
      assert Bounds() == widened[..i + 1] + widened[i + 2..];
      assert widened[..i + 1] == bounds[..i] + [cachedRange.Bounds()];
      assert widened[i + 2..] == bounds[i + 2..];
    }
  }
}
