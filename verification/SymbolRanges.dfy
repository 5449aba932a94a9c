/** Turning the symbols of an address window into ranges to disassemble. */
module SymbolRanges {
  import opened Arithmetic
  import opened Intervals

  // ----- Numbers -----

  const TWO_53 := 0x20_0000_0000_0000

  /** The distance between neighbouring doubles at `x`. */
  function UnitOf(x: nat): (u: nat)
    ensures u >= 1
  {
    if x < TWO_53 then 1 else 2 * UnitOf(x / 2)
  }

  function RoundNat(x: nat): int {
    var u := UnitOf(x);
    var below := x - x % u;
    if 2 * (x % u) < u || (2 * (x % u) == u && below / u % 2 == 0) then below else below + u
  }

  /** `Number(x)` of a BigInt: the nearest double, ties to even. */
  function ToNumber(x: int): int {
    if x < 0 then -RoundNat(-x) else RoundNat(x)
  }

  /** Addresses that survive the conversion; all up to 2^53 do. */
  predicate Representable(x: int) {
    ToNumber(x) == x
  }

  lemma SmallIsRepresentable(x: int)
    requires -TWO_53 <= x <= TWO_53
    ensures Representable(x)
  {}

  /** The first address that does not survive. */
  lemma FirstUnrepresentable()
    ensures ToNumber(TWO_53 + 1) == TWO_53
  {
    assert UnitOf(TWO_53 + 1) == 2;
  }

  lemma {:induction false} UnitDivides(x: nat, h: nat) returns (k: nat)
    requires x <= h
    ensures UnitOf(h) == k * UnitOf(x)
    decreases x
  {
    if x < TWO_53 {
      k := UnitOf(h);
    } else {
      k := UnitDivides(x / 2, h / 2);
    }
  }

  lemma RepresentableIsMultiple(h: nat)
    requires Representable(h)
    ensures h % UnitOf(h) == 0
  {}

  lemma MultipleAbove(x: nat, u: nat, n: nat, h: nat)
    requires u > 0 && x <= h && h == n * u
    ensures x - x % u <= h
    ensures x % u > 0 ==> x - x % u + u <= h
  {
    var q := x / u;
    assert x == q * u + x % u;
    if x % u > 0 {
      assert q >= n ==> q * u >= n * u;
      assert (q + 1) * u <= n * u;
    }
  }

  lemma AboveCoarseMultiple(x: nat, u: nat, v: nat, k: nat, h: nat)
    requires u > 0 && v > 0 && v == k * u && h % v == 0 && x <= h
    ensures x - x % u <= h
    ensures x % u > 0 ==> x - x % u + u <= h
  {
    var n := h / v * k;
    assert h == h / v * v == h / v * (k * u) == n * u;
    MultipleAbove(x, u, n, h);
  }

  /** Rounding goes to a neighbouring multiple of the unit, and up only if it must move. */
  lemma RoundsDownOrUp(x: nat, below: int, above: int)
    requires below == x - x % UnitOf(x) && above == below + UnitOf(x)
    ensures RoundNat(x) == below || (x % UnitOf(x) > 0 && RoundNat(x) == above)
  {}

  lemma RoundNatStaysBelow(x: nat, h: nat)
    requires x <= h && h % UnitOf(h) == 0
    ensures RoundNat(x) <= h
  {
    var u := UnitOf(x);
    var k := UnitDivides(x, h);
    AboveCoarseMultiple(x, u, UnitOf(h), k, h);
    RoundsDownOrUp(x, x - x % u, x - x % u + u);
  }

  lemma RoundNatIsNat(x: nat)
    ensures RoundNat(x) >= 0
  {
    var u := UnitOf(x);
    assert x == x / u * u + x % u;
    assert x / u * u >= 0;
  }

  /** Rounding does not pass a representable number. */
  lemma RoundingStaysBelow(x: int, h: nat)
    requires x <= h && Representable(h)
    ensures ToNumber(x) <= h
  {
    if x >= 0 {
      RepresentableIsMultiple(h);
      RoundNatStaysBelow(x, h);
    } else {
      RoundNatIsNat(-x);
      hide RoundNat;
    }
  }

  // ----- Rounding is monotone, and what it gives stays -----

  /** The multiple of its unit at or below a number. */
  function Floor(x: nat): (m: nat)
    ensures m <= x < m + UnitOf(x)
  {
    FloorBounds(x, UnitOf(x));
    x / UnitOf(x) * UnitOf(x)
  }

  lemma FloorBounds(x: nat, u: nat)
    requires u >= 1
    ensures 0 <= x / u * u <= x < x / u * u + u && x % u == x - x / u * u
  {
    assert x == x / u * u + x % u;
    assert x / u >= 0;
    assert x / u * u >= 0;
  }

  lemma FloorHalves(x: nat)
    ensures x < TWO_53 ==> Floor(x) == x
    ensures x >= TWO_53 ==> Floor(x) == 2 * Floor(x / 2)
  {
    if x >= TWO_53 {
      var half := UnitOf(x / 2);
      hide UnitOf;
      var q, r := x / (2 * half), x % (2 * half);
      assert x == q * (2 * half) + r;
      assert q * (2 * half) == 2 * (q * half);
      ModIs(x / 2, q, half, r / 2);
    }
  }

  lemma DoubleDivides(m: nat, u: nat)
    requires u > 0 && m % u == 0
    ensures 2 * m % (2 * u) == 0
  {
    var q := m / u;
    assert m == q * u;
    assert 2 * m == q * (2 * u);
    ModIs(2 * m, q, 2 * u, 0);
  }

  lemma DoubleIsMultiple(m: nat)
    requires m % UnitOf(m) == 0
    ensures 2 * m % UnitOf(2 * m) == 0
  {
    DoubleDivides(m, UnitOf(m));
    assert 2 * m / 2 == m;
  }

  /** The multiples of its unit next to a number are doubles. */
  lemma {:induction false} NeighboursAreMultiples(x: nat)
    ensures Floor(x) % UnitOf(Floor(x)) == 0 && (Floor(x) + UnitOf(x)) % UnitOf(Floor(x) + UnitOf(x)) == 0
    decreases x
  {
    FloorHalves(x);
    hide Floor;
    if x < TWO_53 {
      assert UnitOf(TWO_53) == 2 * UnitOf(TWO_53 / 2);
    } else {
      var below, above := Floor(x / 2), Floor(x / 2) + UnitOf(x / 2);
      NeighboursAreMultiples(x / 2);
      DoubleIsMultiple(below);
      DoubleIsMultiple(above);
    }
  }

  lemma {:induction false} FloorIsLarge(x: nat)
    requires x >= TWO_53
    ensures Floor(x) >= TWO_53
    decreases x
  {
    FloorHalves(x);
    FloorHalves(x / 2);
    if x / 2 >= TWO_53 { FloorIsLarge(x / 2); }
  }

  lemma MultipleIsKept(m: nat)
    requires m % UnitOf(m) == 0
    ensures RoundNat(m) == m
  {}

  /** Rounding goes down, to the multiple below, when the remainder is small. */
  lemma RoundNatIs(x: nat)
    ensures RoundNat(x) == Floor(x) || RoundNat(x) == Floor(x) + UnitOf(x)
    ensures 2 * (x - Floor(x)) < UnitOf(x) ==> RoundNat(x) == Floor(x)
    ensures RoundNat(x) == Floor(x) ==> 2 * (x - Floor(x)) <= UnitOf(x)
  {
    hide UnitOf;
    FloorBounds(x, UnitOf(x));
  }

  /** What rounding gives is representable. */
  lemma RoundedStays(x: nat)
    ensures RoundNat(x) >= 0 && RoundNat(RoundNat(x)) == RoundNat(x)
    ensures RoundNat(x) % UnitOf(RoundNat(x)) == 0
  {
    hide RoundNat, Floor, UnitOf;
    NeighboursAreMultiples(x);
    RoundNatIs(x);
    MultipleIsKept(RoundNat(x));
  }

  /** Between a number and the multiple below it the unit is the same. */
  lemma {:induction false} SameUnit(x: nat, y: nat)
    requires Floor(y) <= x <= y
    ensures UnitOf(x) == UnitOf(y) && Floor(x) == Floor(y)
    decreases y
  {
    FloorHalves(y);
    FloorHalves(x);
    if y >= TWO_53 {
      FloorIsLarge(y);
      hide Floor;
      SameUnit(x / 2, y / 2);
    }
  }

  /** A double at or below a number is at or below the multiple of the unit there, and one above
      it is at or above the next. */
  lemma NoDoubleBetween(x: nat, h: nat)
    requires h % UnitOf(h) == 0
    ensures h <= x ==> h <= Floor(x)
    ensures h > x > Floor(x) ==> h >= Floor(x) + UnitOf(x)
  {
    if Floor(x) < h <= x {
      SameUnit(h, x);
      FloorBounds(h, UnitOf(h));
      assert false;
    }
    if h > x > Floor(x) {
      var k := UnitDivides(x, h);
      FloorBounds(x, UnitOf(x));
      AboveCoarseMultiple(x, UnitOf(x), UnitOf(h), k, h);
    }
  }

  function Gap(a: int, b: int): nat {
    if a < b then b - a else a - b
  }

  /** The number is nearest of all doubles, and of two that are equally near it is the one
      whose last bit is zero. */
  lemma NumberIsNearest(x: nat, h: nat)
    requires Representable(h)
    ensures Gap(RoundNat(x), x) <= Gap(h, x)
    ensures Gap(RoundNat(x), x) == Gap(h, x) && h != RoundNat(x) ==> RoundNat(x) / UnitOf(x) % 2 == 0
  {
    RepresentableIsMultiple(h);
    NoDoubleBetween(x, h);
    RoundNatPicks(x);
    hide UnitOf, RoundNat, Floor;
  }

  /** Rounding goes to the nearer of the two multiples, and to the even one when both are as
      near. */
  lemma RoundNatPicks(x: nat)
    ensures var rest, u := x - Floor(x), UnitOf(x);
      && (2 * rest < u ==> RoundNat(x) == Floor(x))
      && (2 * rest > u ==> RoundNat(x) == Floor(x) + u)
      && (2 * rest == u ==>
            (RoundNat(x) == Floor(x) || RoundNat(x) == Floor(x) + u) && RoundNat(x) / u % 2 == 0)
  {
    var u := UnitOf(x);
    hide UnitOf;
    FloorBounds(x, u);
    Quotient(x / u, u);
    Quotient(x / u + 1, u);
    assert (x / u + 1) * u == x / u * u + u;
  }

  lemma Quotient(q: nat, u: nat)
    requires u >= 1
    ensures q * u / u == q
  {
    ModIs(q * u, q, u, 0);
  }

  /** A double has 53 significant bits. */
  lemma {:induction false} UnitIs(x: nat)
    ensures x < TWO_53 ==> UnitOf(x) == 1
    ensures x >= TWO_53 ==> TWO_53 / 2 * UnitOf(x) <= x < TWO_53 * UnitOf(x)
    decreases x
  {
    if x >= TWO_53 { UnitIs(x / 2); }
  }

  lemma RoundingIsMonotone(x: nat, y: nat)
    requires x <= y
    ensures RoundNat(x) <= RoundNat(y)
  {
    hide RoundNat, Floor, UnitOf;
    RoundedStays(y);
    if RoundNat(y) >= x {
      RoundNatStaysBelow(x, RoundNat(y));
    } else {
      RoundNatIs(y);
      SameUnit(x, y);
      RoundNatIs(x);
    }
  }

  function Later(a: int, b: int): (r: int)
    ensures r >= a && r >= b
  {
    if a > b then a else b
  }

  /** The later of two ends comes out of `addSymbol` exactly when it is representable. */
  lemma HighWithExactlyWhen(high: nat, end: int)
    ensures HighWith(high, end) == ToNumber(Later(high, end))
    ensures HighWith(high, end) == Later(high, end) <==> Representable(Later(high, end))
  {
    if end >= 0 {
      if end > high { RoundingIsMonotone(high, end); } else { RoundingIsMonotone(end, high); }
    } else {
      RoundNatIsNat(-end);
      RoundNatIsNat(high);
    }
    hide RoundNat;
  }

  // ----- findSymbolsInRange -----

  /** A symbol node: its bounds in the tree, and the address of the symbol plus its length
      minus one, which is below `low` when the length is zero. */
  datatype Symbol = Symbol(low: nat, high: nat, end: int)

  /** Nodes as the symbol table makes and lists them. */
  ghost predicate Nodes(syms: seq<Symbol>) {
    && (forall i :: 0 <= i < |syms| ==> syms[i].low <= syms[i].high && syms[i].end <= syms[i].high)
    && (forall i, j :: 0 <= i < j < |syms| ==> syms[i].low <= syms[j].low)
  }

  /** Nodes whose upper bounds are representable, as all addresses below 2^53 are. */
  ghost predicate ValidSymbols(syms: seq<Symbol>) {
    Nodes(syms) && forall i :: 0 <= i < |syms| ==> Representable(syms[i].high)
  }

  ghost predicate SymbolsCover(syms: seq<Symbol>, a: int) {
    exists i :: 0 <= i < |syms| && syms[i].low <= a <= syms[i].high
  }

  /** Sorted, and between two ranges there is an address of neither. */
  ghost predicate Apart(rs: seq<Interval>) {
    && (forall i :: 0 <= i < |rs| ==> NonEmpty(rs[i]))
    && (forall i, j :: 0 <= i < j < |rs| ==> rs[i].hi + 1 < rs[j].lo)
  }

  /** The upper bound that `addSymbol` leaves. */
  function HighWith(high: int, end: int): int {
    if ToNumber(high) > ToNumber(end) then ToNumber(high) else ToNumber(end)
  }

  function FromSymbol(s: Symbol): Interval {
    Interval(s.low, HighWith(s.high, s.end))
  }

  /** One turn of the loop in `findSymbolsInRange`. */
  function Absorb(rs: seq<Interval>, s: Symbol): seq<Interval>
    requires rs != []
  {
    var n := |rs| - 1;
    if s.low - rs[n].hi <= 1 then
      rs[..n] + [Interval(rs[n].lo, HighWith(if s.high > rs[n].hi then s.high else rs[n].hi, s.end))]
    else rs + [FromSymbol(s)]
  }

  function RangesOf(syms: seq<Symbol>): (rs: seq<Interval>)
    requires syms != []
    ensures rs != []
  {
    var n := |syms| - 1;
    if n == 0 then [FromSymbol(syms[0])] else Absorb(RangesOf(syms[..n]), syms[n])
  }

  lemma HighWithIsHigh(high: nat, end: int)
    requires end <= high && Representable(high)
    ensures HighWith(high, end) == high
  {
    RoundingStaysBelow(end, high);
  }

  lemma CoversSnoc(rs: seq<Interval>, r: Interval, a: int)
    ensures Covers(rs + [r], a) <==> Covers(rs, a) || In(a, r)
  {
    var all := rs + [r];
    assert all[|rs|] == r;
    assert forall i :: 0 <= i < |rs| ==> all[i] == rs[i];
  }

  lemma SymbolsCoverSnoc(syms: seq<Symbol>, s: Symbol, a: int)
    ensures SymbolsCover(syms + [s], a) <==> SymbolsCover(syms, a) || s.low <= a <= s.high
  {
    var all := syms + [s];
    assert all[|syms|] == s;
    assert forall i :: 0 <= i < |syms| ==> all[i] == syms[i];
  }

  /** Ranges built from symbols that start at or below `low`. */
  ghost predicate BuiltUpTo(rs: seq<Interval>, low: int) {
    Apart(rs) && rs != [] && rs[|rs| - 1].hi >= 0 && Representable(rs[|rs| - 1].hi) && rs[|rs| - 1].lo <= low
  }

  /** Absorbing a symbol that starts no earlier than the last range keeps the ranges apart
      and adds exactly its addresses. */
  lemma AbsorbKeepsApart(rs: seq<Interval>, s: Symbol)
    requires BuiltUpTo(rs, s.low)
    requires s.low <= s.high && s.end <= s.high && Representable(s.high)
    ensures BuiltUpTo(Absorb(rs, s), s.low)
    ensures forall a :: Covers(Absorb(rs, s), a) <==> Covers(rs, a) || s.low <= a <= s.high
  {
    hide HighWith, ToNumber;
    var n := |rs| - 1;
    var last := rs[n];
    var high := if s.high > last.hi then s.high else last.hi;
    HighWithIsHigh(s.high, s.end);
    HighWithIsHigh(high, s.end);
    forall a ensures Covers(Absorb(rs, s), a) <==> Covers(rs, a) || s.low <= a <= s.high {
      assert rs == rs[..n] + [last];
      CoversSnoc(rs[..n], last, a);
      CoversSnoc(rs[..n], Interval(last.lo, high), a);
      CoversSnoc(rs, FromSymbol(s), a);
    }
  }

  lemma OneRange(s: Symbol)
    requires s.low <= s.high && s.end <= s.high && Representable(s.high)
    ensures BuiltUpTo([FromSymbol(s)], s.low)
    ensures forall a :: Covers([FromSymbol(s)], a) <==> SymbolsCover([s], a)
  {
    HighWithIsHigh(s.high, s.end);
    forall a ensures Covers([FromSymbol(s)], a) <==> SymbolsCover([s], a) {
      CoversSnoc([], FromSymbol(s), a);
      SymbolsCoverSnoc([], s, a);
      assert [] + [s] == [s] && [] + [FromSymbol(s)] == [FromSymbol(s)];
    }
  }

  /** `findSymbolsInRange`: disjoint ranges that do not even touch, covering exactly the
      addresses of the symbols. */
  lemma {:induction false} RangesAreApart(syms: seq<Symbol>)
    requires syms != [] && ValidSymbols(syms)
    ensures BuiltUpTo(RangesOf(syms), syms[|syms| - 1].low)
    ensures forall a :: Covers(RangesOf(syms), a) <==> SymbolsCover(syms, a)
  {
    hide FromSymbol, Absorb, ToNumber, Covers, SymbolsCover, Apart, Representable;
    var n := |syms| - 1;
    if n == 0 {
      OneRange(syms[0]);
      assert syms == [syms[0]];
    } else {
      RangesAreApart(syms[..n]);
      assert BuiltUpTo(RangesOf(syms[..n]), syms[n].low);
      AbsorbKeepsApart(RangesOf(syms[..n]), syms[n]);
      assert syms == syms[..n] + [syms[n]];
      hide BuiltUpTo, RangesOf;
      forall a ensures Covers(RangesOf(syms), a) <==> SymbolsCover(syms, a) {
        SymbolsCoverSnoc(syms[..n], syms[n], a);
      }
    }
  }

  lemma CoversTail(rs: seq<Interval>, a: int)
    requires rs != [] && Apart(rs)
    ensures Covers(rs[1..], a) <==> Covers(rs, a) && a > rs[0].hi
  {}

  lemma FirstAddress(rs: seq<Interval>, ts: seq<Interval>)
    requires Apart(rs) && Apart(ts) && rs != []
    requires forall a :: Covers(rs, a) <==> Covers(ts, a)
    ensures ts != [] && ts[0].lo <= rs[0].lo
  {
    assert In(rs[0].lo, rs[0]) && Covers(rs, rs[0].lo);
    var i :| 0 <= i < |ts| && In(rs[0].lo, ts[i]);
    assert i > 0 ==> ts[0].hi + 1 < ts[i].lo;
  }

  lemma FirstEnd(rs: seq<Interval>, ts: seq<Interval>)
    requires Apart(rs) && Apart(ts) && rs != [] && ts != [] && rs[0].lo == ts[0].lo
    requires forall a :: Covers(rs, a) <==> Covers(ts, a)
    ensures ts[0].hi <= rs[0].hi
  {
    var next := rs[0].hi + 1;
    forall i | 0 <= i < |rs| ensures !In(next, rs[i]) {
      assert i > 0 ==> next < rs[i].lo;
    }
    assert !Covers(ts, next);
    assert !In(next, ts[0]);
  }

  /** Which addresses are covered determines the ranges: there is one way only to cover them
      with ranges that do not touch. */
  lemma {:induction false} ApartIsUnique(rs: seq<Interval>, ts: seq<Interval>)
    requires Apart(rs) && Apart(ts) && forall a :: Covers(rs, a) <==> Covers(ts, a)
    ensures rs == ts
  {
    if rs == [] {
      if ts != [] { FirstAddress(ts, rs); }
    } else {
      FirstAddress(rs, ts);
      FirstAddress(ts, rs);
      FirstEnd(rs, ts);
      FirstEnd(ts, rs);
      forall a ensures Covers(rs[1..], a) <==> Covers(ts[1..], a) {
        CoversTail(rs, a);
        CoversTail(ts, a);
      }
      ApartIsUnique(rs[1..], ts[1..]);
      assert rs == [rs[0]] + rs[1..] && ts == [ts[0]] + ts[1..];
    }
  }

  // ----- Exactly when the ranges cover the symbols -----

  /** The last address of all symbols. */
  function MaxHigh(syms: seq<Symbol>): nat
    requires syms != []
  {
    var n := |syms| - 1;
    if n == 0 then syms[0].high else Later(MaxHigh(syms[..n]), syms[n].high)
  }

  /** Where the last stretch of addresses without a gap begins. */
  function StretchStart(syms: seq<Symbol>): nat
    requires syms != []
  {
    var n := |syms| - 1;
    if n > 0 && syms[n].low <= MaxHigh(syms[..n]) + 1 then StretchStart(syms[..n]) else syms[n].low
  }

  /** Rounding the last address so far does no harm before the next symbol: a symbol that
      continues the stretch is not taken for a new one, unless it starts where the stretch
      starts; and where the stretch ends, its end is representable. */
  predicate SeamIsExact(syms: seq<Symbol>, next: Symbol)
    requires syms != []
  {
    var last := MaxHigh(syms);
    if next.low <= last + 1 then next.low <= ToNumber(last) + 1 || next.low == StretchStart(syms)
    else Representable(last)
  }

  predicate SeamsAreExact(syms: seq<Symbol>)
    requires syms != []
  {
    var n := |syms| - 1;
    n == 0 || (SeamsAreExact(syms[..n]) && SeamIsExact(syms[..n], syms[n]))
  }

  ghost predicate CoversExactly(syms: seq<Symbol>)
    requires syms != []
  {
    forall a :: Covers(RangesOf(syms), a) <==> SymbolsCover(syms, a)
  }

  function Last(rs: seq<Interval>): Interval
    requires rs != []
  {
    rs[|rs| - 1]
  }

  lemma RoundedNat(x: nat)
    ensures ToNumber(x) >= 0 && ToNumber(ToNumber(x)) == ToNumber(x)
  {
    RoundedStays(x);
  }

  lemma LaterRounded(a: nat, b: nat)
    ensures ToNumber(Later(a, b)) == Later(ToNumber(a), ToNumber(b))
    ensures a <= b ==> ToNumber(a) <= ToNumber(b)
  {
    if a <= b { RoundingIsMonotone(a, b); } else { RoundingIsMonotone(b, a); }
    RoundNatIsNat(a);
    RoundNatIsNat(b);
  }

  /** The upper bound that the code keeps is the rounded last address, also for symbols of no
      length and for symbols that it takes for new stretches. */
  lemma {:induction false} LastIsRounded(syms: seq<Symbol>)
    requires syms != [] && Nodes(syms)
    ensures Last(RangesOf(syms)).hi == ToNumber(MaxHigh(syms))
    ensures Last(RangesOf(syms)).lo <= syms[|syms| - 1].low
  {
    hide HighWith, ToNumber;
    var n := |syms| - 1;
    var s := syms[n];
    HighWithExactlyWhen(s.high, s.end);
    if n > 0 {
      assert Nodes(syms[..n]);
      LastIsRounded(syms[..n]);
      var hi, m := Last(RangesOf(syms[..n])).hi, MaxHigh(syms[..n]);
      RoundedNat(m);
      HighWithExactlyWhen(Later(s.high, hi), s.end);
      LaterRounded(s.high, hi);
      LaterRounded(m, s.high);
      LaterRounded(hi, s.high);
    }
  }

  /** No range reaches beyond the last bound. */
  lemma {:induction false} BoundsBelowLast(syms: seq<Symbol>, i: nat)
    requires syms != [] && Nodes(syms) && i < |RangesOf(syms)|
    ensures RangesOf(syms)[i].hi <= ToNumber(MaxHigh(syms))
  {
    hide HighWith, ToNumber;
    LastIsRounded(syms);
    var n := |syms| - 1;
    if n > 0 && i < |RangesOf(syms)| - 1 {
      assert Nodes(syms[..n]);
      LaterRounded(MaxHigh(syms[..n]), syms[n].high);
      BoundsBelowLast(syms[..n], i);
    }
  }

  /** The symbols cover the whole of the last stretch, and nothing beyond it. */
  lemma {:induction false} StretchIsCovered(syms: seq<Symbol>, a: int)
    requires syms != [] && Nodes(syms)
    ensures StretchStart(syms) <= syms[|syms| - 1].low && StretchStart(syms) <= MaxHigh(syms)
    ensures StretchStart(syms) <= a <= MaxHigh(syms) ==> SymbolsCover(syms, a)
    ensures a > MaxHigh(syms) ==> !SymbolsCover(syms, a)
  {
    var n := |syms| - 1;
    hide SymbolsCover;
    SymbolsCoverSnoc(syms[..n], syms[n], a);
    assert syms == syms[..n] + [syms[n]];
    if n == 0 {
      NoSymbols(a);
    } else {
      assert Nodes(syms[..n]);
      StretchIsCovered(syms[..n], a);
    }
  }

  lemma NoSymbols(a: int)
    ensures !SymbolsCover([], a)
  {}

  // ----- An exact seam keeps the ranges right up to the rounding of the last bound -----

  /** The ranges are right but for the last bound. */
  ghost predicate RightSoFar(syms: seq<Symbol>)
    requires syms != []
  {
    var rs := RangesOf(syms);
    Last(rs).lo == StretchStart(syms) &&
    forall a :: SymbolsCover(syms, a) <==> Covers(rs[..|rs| - 1], a) || StretchStart(syms) <= a <= MaxHigh(syms)
  }

  /** One address: `front` says whether the earlier ranges cover it, `covered` whether the
      symbols so far do, with the last stretch from `c` to `m` and its bound rounded to `hi`. */
  lemma SeamPoint(a: int, front: bool, covered: bool, c: int, m: int, hi: int, s: Symbol)
    requires covered <==> front || c <= a <= m
    requires c <= s.low && s.low <= s.high && c <= m
    requires if s.low <= m + 1 then s.low <= hi + 1 || s.low == c else hi == m
    ensures covered || s.low <= a <= s.high <==>
      front || (s.low - hi > 1 && c <= a <= hi) || (if s.low <= m + 1 then c else s.low) <= a <= Later(m, s.high)
  {}

  lemma {:induction false} SeamLast(before: seq<Symbol>, s: Symbol)
    requires before != [] && RightSoFar(before) && SeamIsExact(before, s)
    requires Last(RangesOf(before)).hi == ToNumber(MaxHigh(before))
    ensures Last(Absorb(RangesOf(before), s)).lo == if s.low <= MaxHigh(before) + 1 then StretchStart(before) else s.low
  {
    hide ToNumber, SymbolsCover, Covers;
  }

  lemma {:induction false} SeamKeepsRight(before: seq<Symbol>, s: Symbol, a: int)
    requires before != [] && Nodes(before + [s]) && RightSoFar(before) && SeamIsExact(before, s)
    ensures var rs := Absorb(RangesOf(before), s);
      SymbolsCover(before + [s], a) <==>
        (Covers(rs[..|rs| - 1], a) ||
         (if s.low <= MaxHigh(before) + 1 then StretchStart(before) else s.low) <= a <= Later(MaxHigh(before), s.high))
  {
    var n := |before|;
    assert (before + [s])[n] == s && before[n - 1] == (before + [s])[n - 1];
    assert forall i :: 0 <= i < n ==> before[i] == (before + [s])[i];
    LastIsRounded(before);
    StretchIsCovered(before, a);
    SymbolsCoverSnoc(before, s, a);
    OneMoreFront(before, s, a);
    var was := RangesOf(before);
    var front, covered := Covers(was[..|was| - 1], a), SymbolsCover(before, a);
    hide ToNumber, SymbolsCover, Covers, Absorb, RangesOf, StretchStart, MaxHigh, Nodes;
    SeamPoint(a, front, covered, StretchStart(before), MaxHigh(before), Last(was).hi, s);
  }

  lemma OneIsRight(s: Symbol)
    requires s.low <= s.high
    ensures RightSoFar([s])
  {
    hide ToNumber, SymbolsCover, Covers;
    var rs := RangesOf([s]);
    forall a ensures SymbolsCover([s], a) <==> Covers(rs[..|rs| - 1], a) || s.low <= a <= s.high {
      assert [] + [s] == [s];
      SymbolsCoverSnoc([], s, a);
      NoSymbols(a);
      NoRanges(a);
    }
  }

  lemma {:induction false} OneMoreSymbol(before: seq<Symbol>, s: Symbol)
    requires before != []
    ensures RangesOf(before + [s]) == Absorb(RangesOf(before), s)
    ensures MaxHigh(before + [s]) == Later(MaxHigh(before), s.high)
    ensures StretchStart(before + [s]) == if s.low <= MaxHigh(before) + 1 then StretchStart(before) else s.low
  {
    var syms := before + [s];
    assert syms[..|before|] == before && syms[|before|] == s;
  }

  lemma {:induction false} OneMoreIsRight(before: seq<Symbol>, s: Symbol)
    requires before != [] && Nodes(before) && Nodes(before + [s]) && RightSoFar(before) && SeamIsExact(before, s)
    ensures RightSoFar(before + [s])
  {
    hide ToNumber, SymbolsCover, Covers, Absorb, Nodes, SeamIsExact, RangesOf, MaxHigh, StretchStart;
    LastIsRounded(before);
    SeamLast(before, s);
    OneMoreSymbol(before, s);
    var syms, rs := before + [s], Absorb(RangesOf(before), s);
    forall a
      ensures SymbolsCover(syms, a) <==> (Covers(rs[..|rs| - 1], a) || StretchStart(syms) <= a <= MaxHigh(syms))
    {
      SeamKeepsRight(before, s, a);
    }
  }

  lemma {:induction false} ExactSeamsAreRight(syms: seq<Symbol>)
    requires syms != [] && Nodes(syms) && SeamsAreExact(syms)
    ensures RightSoFar(syms)
  {
    hide RightSoFar, SeamIsExact;
    var n := |syms| - 1;
    assert syms == syms[..n] + [syms[n]];
    if n == 0 {
      OneIsRight(syms[0]);
    } else {
      assert Nodes(syms[..n]);
      ExactSeamsAreRight(syms[..n]);
      OneMoreIsRight(syms[..n], syms[n]);
    }
  }

  lemma NoRanges(a: int)
    ensures !Covers([], a)
  {}

  lemma {:induction false} OneMoreFront(before: seq<Symbol>, s: Symbol, a: int)
    requires before != [] && RightSoFar(before)
    ensures var was, rs := RangesOf(before), Absorb(RangesOf(before), s);
      Covers(rs[..|rs| - 1], a) <==>
        Covers(was[..|was| - 1], a) || (s.low - Last(was).hi > 1 && In(a, Last(was)))
  {
    hide Covers, RightSoFar, HighWith;
    var was := RangesOf(before);
    FrontAfter(was, s);
    CoversSnoc(was[..|was| - 1], Last(was), a);
  }

  lemma FrontAfter(was: seq<Interval>, s: Symbol)
    requires was != []
    ensures var rs := Absorb(was, s);
      rs[..|rs| - 1] == if s.low - Last(was).hi > 1 then was[..|was| - 1] + [Last(was)] else was[..|was| - 1]
  {
    hide HighWith;
    assert was == was[..|was| - 1] + [Last(was)];
  }

  // ----- A seam that is not exact shows -----

  /** An address before the next symbol is not touched again. */
  lemma {:induction false} StaysAsItIs(before: seq<Symbol>, s: Symbol, a: int)
    requires before != [] && a < s.low && Nodes(before + [s]) && Nodes(before)
    ensures Covers(RangesOf(before + [s]), a) <==> Covers(RangesOf(before), a)
    ensures SymbolsCover(before + [s], a) <==> SymbolsCover(before, a)
  {
    var rs, n := RangesOf(before), |RangesOf(before)| - 1;
    var last := rs[n];
    assert (before + [s])[..|before|] == before && rs == rs[..n] + [last];
    SymbolsCoverSnoc(before, s, a);
    LastIsRounded(before + [s]);
    LastIsRounded(before);
    LaterRounded(MaxHigh(before), s.high);
    hide ToNumber, Covers, SymbolsCover;
    CoversSnoc(rs[..n], last, a);
    CoversSnoc(rs[..n], Last(Absorb(rs, s)), a);
    CoversSnoc(rs, FromSymbol(s), a);
  }

  /** The code and the symbols disagree about an address that lies before `bound`. */
  ghost predicate DiffersBelow(syms: seq<Symbol>, bound: int)
    requires syms != []
  {
    exists a :: a < bound && !(Covers(RangesOf(syms), a) <==> SymbolsCover(syms, a))
  }

  lemma {:induction false} CoversUpToLast(syms: seq<Symbol>, a: int)
    requires syms != [] && Nodes(syms)
    ensures a > ToNumber(MaxHigh(syms)) ==> !Covers(RangesOf(syms), a)
    ensures syms[|syms| - 1].low <= a <= ToNumber(MaxHigh(syms)) ==> Covers(RangesOf(syms), a)
  {
    hide ToNumber;
    LastIsRounded(syms);
    var rs := RangesOf(syms);
    if a > ToNumber(MaxHigh(syms)) {
      forall i: nat | i < |rs| ensures !In(a, rs[i]) { BoundsBelowLast(syms, i); }
    } else if a >= syms[|syms| - 1].low {
      assert In(a, rs[|rs| - 1]);
    }
  }

  /** A last address that is not representable shows, unless something continues it. */
  lemma {:induction false} RoundedEndShows(syms: seq<Symbol>, bound: int)
    requires syms != [] && Nodes(syms) && !Representable(MaxHigh(syms)) && MaxHigh(syms) + 1 < bound
    ensures DiffersBelow(syms, bound)
  {
    hide ToNumber, RangesOf, SymbolsCover, Covers;
    var m := MaxHigh(syms);
    StretchIsCovered(syms, m);
    StretchIsCovered(syms, m + 1);
    CoversUpToLast(syms, m);
    CoversUpToLast(syms, m + 1);
    HighestIsLater(syms);
    var a := if ToNumber(m) > m then m + 1 else m;
    assert !(Covers(RangesOf(syms), a) <==> SymbolsCover(syms, a));
  }

  lemma {:induction false} HighestIsLater(syms: seq<Symbol>)
    requires syms != [] && Nodes(syms)
    ensures syms[|syms| - 1].low <= MaxHigh(syms)
  {}

  lemma {:induction false} SeamShows(before: seq<Symbol>, s: Symbol)
    requires before != [] && Nodes(before) && !SeamIsExact(before, s)
    requires forall i :: 0 <= i < |before| ==> before[i].low <= s.low
    ensures DiffersBelow(before, s.low)
  {
    var m, c := MaxHigh(before), StretchStart(before);
    if s.low > m + 1 {
      RoundedEndShows(before, s.low);
    } else {
      hide ToNumber, RangesOf, SymbolsCover, Covers;
      var a := Later(c, ToNumber(m) + 1);
      StretchIsCovered(before, a);
      CoversUpToLast(before, a);
      assert !(Covers(RangesOf(before), a) <==> SymbolsCover(before, a));
    }
  }

  lemma {:induction false} InexactSeamsShow(syms: seq<Symbol>)
    requires syms != [] && Nodes(syms) && !SeamsAreExact(syms)
    ensures DiffersBelow(syms, syms[|syms| - 1].low)
  {
    hide SeamIsExact, Covers, SymbolsCover, RangesOf;
    var n := |syms| - 1;
    var before, s := syms[..n], syms[n];
    assert syms == before + [s] && Nodes(before);
    if SeamsAreExact(before) {
      SeamShows(before, s);
    } else {
      InexactSeamsShow(before);
    }
    var a :| a < s.low && !(Covers(RangesOf(before), a) <==> SymbolsCover(before, a));
    StaysAsItIs(before, s, a);
  }

  /** One symbol, also of no length, is covered exactly when its last address survives the
      conversion to a number. */
  lemma OneSymbolIsExactWhen(s: Symbol)
    requires s.low <= s.high && s.end <= s.high
    ensures CoversExactly([s]) <==> Representable(s.high)
  {
    hide CoversExactly, ToNumber;
    CoversExactlyWhen([s]);
  }

  /** For every list of symbols, of any length each: the ranges of `findSymbolsInRange` cover
      exactly the addresses of the symbols if and only if every seam is exact and the last
      address is representable. */
  lemma {:induction false} CoversExactlyWhen(syms: seq<Symbol>)
    requires syms != [] && Nodes(syms)
    ensures CoversExactly(syms) <==> SeamsAreExact(syms) && Representable(MaxHigh(syms))
  {
    hide Covers, SymbolsCover, SeamsAreExact, ToNumber;
    var rs := RangesOf(syms);
    if !SeamsAreExact(syms) {
      InexactSeamsShow(syms);
      assert !CoversExactly(syms);
    } else if !Representable(MaxHigh(syms)) {
      RoundedEndShows(syms, MaxHigh(syms) + 2);
      assert !CoversExactly(syms);
    } else {
      ExactSeamsAreRight(syms);
      LastIsRounded(syms);
      assert rs == rs[..|rs| - 1] + [Last(rs)];
      forall a ensures Covers(rs, a) <==> SymbolsCover(syms, a) { CoversSnoc(rs[..|rs| - 1], Last(rs), a); }
    }
  }
}
