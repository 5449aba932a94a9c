/** How `JSON.stringify` prints the leaves of a JSON value: quoted strings and finite
    numbers. Both notations are shown to determine the value they print. */
module JsonText {
  import opened Text

  const QUOTE: int := 34
  const COMMA: int := 44
  const DOT: int := 46
  const BACKSLASH: int := 92
  const EXPONENT: int := 101

  // ----- Strings: section 7 of RFC 8259, as JSON.stringify chooses among its escapes -----

  predicate HighSurrogate(u: int) {
    0xD800 <= u <= 0xDBFF
  }

  predicate LowSurrogate(u: int) {
    0xDC00 <= u <= 0xDFFF
  }

  function HexDigit(d: int): int {
    if d < 10 then 48 + d else 87 + d
  }

  function Hex(u: int, width: nat): (r: Str)
    ensures |r| == width
    decreases width
  {
    if width == 0 then [] else Hex(u / 16, width - 1) + [HexDigit(u % 16)]
  }

  function UnicodeEscape(u: int): (r: Str)
    ensures |r| == 6
  {
    [BACKSLASH, 117] + Hex(u, 4)
  }

  /** The two-character escapes, keyed by the unit they stand for; 0 for "none". */
  function ShortEscape(u: int): int {
    if u == 8 then 98 else if u == 9 then 116 else if u == 10 then 110 else if u == 12 then 102
    else if u == 13 then 114 else if u == QUOTE then QUOTE else if u == BACKSLASH then BACKSLASH else 0
  }

  function EscapeUnit(u: int): Str {
    if ShortEscape(u) != 0 then [BACKSLASH, ShortEscape(u)]
    else if u < 32 || HighSurrogate(u) || LowSurrogate(u) then UnicodeEscape(u)
    else [u]
  }

  /** A surrogate pair is copied; a lone surrogate is escaped. */
  function Escape(s: Str): Str {
    if s == [] then [] else Token(s) + Escape(s[Width(s)..])
  }

  /** How many units the next token of a non-empty string prints. */
  function Width(s: Str): (w: nat)
    requires s != []
    ensures 1 <= w <= |s|
  {
    if |s| > 1 && HighSurrogate(s[0]) && LowSurrogate(s[1]) then 2 else 1
  }

  function Token(s: Str): Str
    requires s != []
  {
    if Width(s) == 2 then s[..2] else EscapeUnit(s[0])
  }

  function Quote(s: Str): Str {
    [QUOTE] + Escape(s) + [QUOTE]
  }

  /** A tab, a quote, and a surrogate pair. */
  lemma ShortEscapesAre()
    ensures Quote([9]) == [QUOTE, 92, 116, QUOTE]
    ensures Quote([QUOTE]) == [QUOTE, 92, QUOTE, QUOTE]
    ensures Quote([0xD83D, 0xDE00]) == [QUOTE, 0xD83D, 0xDE00, QUOTE]
  {
    assert [9][1..] == [] && [QUOTE][1..] == [];
    assert [0xD83D, 0xDE00][2..] == [];
  }

  /** A control character, and a surrogate by itself. */
  lemma UnicodeEscapesAre()
    ensures Token([1]) == [92, 117, 48, 48, 48, 49]
    ensures Token([0xDABC]) == [92, 117, 100, 97, 98, 99]
  {
    assert Hex(1, 4) == [48, 48, 48, 49];
    assert Hex(0xDABC, 4) == [100, 97, 98, 99];
  }

  /** A unit by itself is copied unless it is a control character, a quote, a backslash or half
      of a surrogate pair. */
  lemma CopiedExactlyWhen(u: int)
    ensures Token([u]) == [u] <==> u >= 32 && u != 34 && u != 92 && !(0xD800 <= u <= 0xDFFF)
  {}

  predicate IsUnit(u: int) {
    0 <= u < 65536
  }

  predicate IsString(s: Str) {
    forall i :: 0 <= i < |s| ==> IsUnit(s[i])
  }

  function Power16(k: nat): nat {
    if k == 0 then 1 else 16 * Power16(k - 1)
  }

  lemma {:induction false} HexInjective(u: nat, w: nat, width: nat)
    requires u < Power16(width) && w < Power16(width)
    requires Hex(u, width) == Hex(w, width)
    ensures u == w
  {
    if width > 0 {
      var a, b := Hex(u, width), Hex(w, width);
      assert a[..width - 1] == Hex(u / 16, width - 1);
      assert b[..width - 1] == Hex(w / 16, width - 1);
      assert a[width - 1] == HexDigit(u % 16) && b[width - 1] == HexDigit(w % 16);
      HexInjective(u / 16, w / 16, width - 1);
    }
  }

  /** Two escaped units that start two equal texts are the same unit. */
  lemma EscapeUnitSelfDelimiting(u: int, w: int, x: Str, y: Str)
    requires IsUnit(u) && IsUnit(w)
    requires EscapeUnit(u) + x == EscapeUnit(w) + y
    ensures u == w && x == y
  {
    var a, b := EscapeUnit(u) + x, EscapeUnit(w) + y;
    assert a[0] == b[0];
    if |EscapeUnit(u)| > 1 && |EscapeUnit(w)| > 1 {
      assert a[1] == b[1];
      if |EscapeUnit(u)| > 2 {
        assert a[2..6] == Hex(u, 4) && b[2..6] == Hex(w, 4);
        assert Power16(4) == 65536;
        HexInjective(u, w, 4);
      }
    }
    assert u == w;
    assert a[|EscapeUnit(u)|..] == x && b[|EscapeUnit(w)|..] == y;
  }

  lemma TokenSelfDelimiting(s: Str, t: Str, x: Str, y: Str)
    requires s != [] && t != [] && IsString(s) && IsString(t)
    requires Token(s) + x == Token(t) + y
    ensures Width(s) == Width(t) && s[..Width(s)] == t[..Width(t)] && x == y
  {
    var a, b := Token(s) + x, Token(t) + y;
    assert a[0] == b[0];
    assert Width(s) == Width(t);
    if Width(s) == 2 {
      assert s[..2] == a[..2] == b[..2] == t[..2];
      assert x == a[2..] == b[2..] == y;
    } else {
      EscapeUnitSelfDelimiting(s[0], t[0], x, y);
    }
  }

  lemma EscapeStart(s: Str, x: Str)
    requires IsString(s)
    ensures s == [] ==> Escape(s) + [QUOTE] + x == [QUOTE] + x
    ensures s != [] ==> Escape(s) + [QUOTE] + x == Token(s) + (Escape(s[Width(s)..]) + [QUOTE] + x)
    ensures s != [] ==> |Token(s)| > 0 && Token(s)[0] != QUOTE
  {
    if s != [] {
      assert Token(s) != [] && Token(s)[0] != QUOTE;
      hide Token;
      Assoc(Token(s), Escape(s[Width(s)..]), [QUOTE]);
      Assoc(Token(s), Escape(s[Width(s)..]) + [QUOTE], x);
    }
  }

  lemma {:induction false} EscapeSelfDelimiting(s: Str, t: Str, x: Str, y: Str)
    requires IsString(s) && IsString(t)
    requires Escape(s) + [QUOTE] + x == Escape(t) + [QUOTE] + y
    ensures s == t && x == y
    decreases |s| + |t|
  {
    EscapeStart(s, x);
    EscapeStart(t, y);
    assert (Escape(s) + [QUOTE] + x)[0] == (Escape(t) + [QUOTE] + y)[0];
    if s == [] {
      assert x == ([QUOTE] + x)[1..] == ([QUOTE] + y)[1..] == y;
    } else {
      var n, m := Width(s), Width(t);
      TokenSelfDelimiting(s, t, Escape(s[n..]) + [QUOTE] + x, Escape(t[m..]) + [QUOTE] + y);
      EscapeSelfDelimiting(s[n..], t[m..], x, y);
      assert s == s[..n] + s[n..] && t == t[..m] + t[m..];
    }
  }

  lemma QuoteUnfold(s: Str, x: Str)
    ensures Quote(s) + x == [QUOTE] + (Escape(s) + [QUOTE] + x)
  {}

  /** Two quoted strings that start two equal texts are the same string. */
  lemma QuoteSelfDelimiting(s: Str, t: Str, x: Str, y: Str)
    requires IsString(s) && IsString(t)
    requires Quote(s) + x == Quote(t) + y
    ensures s == t && x == y
  {
    QuoteUnfold(s, x);
    QuoteUnfold(t, y);
    SplitAt([QUOTE], Escape(s) + [QUOTE] + x, [QUOTE], Escape(t) + [QUOTE] + y);
    EscapeSelfDelimiting(s, t, x, y);
  }

  // ----- Numbers: Number::toString, section 6.1.6.1.20 of ECMA-262 -----

  /** A finite Number as ECMA-262 describes it for printing: the shortest decimal digits
      that identify it and the position of the decimal point, 0.d1d2...dk * 10^point.
      The digits are kept as their code units. Positive and negative zero are one value,
      as they are for `===`. */
  datatype Number = Zero | Digits(negative: bool, digits: Str, point: int)

  predicate ValidNumber(x: Number) {
    x.Zero? || ValidDigits(x.digits)
  }

  predicate ValidDigits(d: Str) {
    d != [] && AllDigits(d) && d[0] != 48 && d[|d| - 1] != 48
  }

  function Zeros(n: nat): (r: Str)
    ensures |r| == n && AllDigits(r)
    ensures forall i :: 0 <= i < n ==> r[i] == 48
  {
    seq(n, i => 48)
  }

  // The four layouts of Number::toString, told apart by where the point falls.

  predicate Scientific(n: int) {
    n <= -6 || 21 < n
  }

  function Whole(d: Str, n: int): Str
    requires d != []
  {
    if Scientific(n) then d[..1]
    else if n <= 0 then [48]
    else if n < |d| then d[..n]
    else d + Zeros(n - |d|)
  }

  function Fraction(d: Str, n: int): Str
    requires d != []
  {
    if Scientific(n) then d[1..]
    else if n <= 0 then Zeros(-n) + d
    else if n < |d| then d[n..]
    else []
  }

  function ExponentPart(n: int): Str {
    if !Scientific(n) then []
    else if n < 1 then [EXPONENT, 45] + Dec(1 - n)
    else [EXPONENT, 43] + Dec(n - 1)
  }

  function Pointed(whole: Str, fraction: Str): Str {
    if fraction == [] then whole else whole + [DOT] + fraction
  }

  function NumText(x: Number): Str
    requires ValidNumber(x)
  {
    match x
    case Zero => [48]
    case Digits(negative, d, n) =>
      (if negative then [45] else []) + (Pointed(Whole(d, n), Fraction(d, n)) + ExponentPart(n))
  }

  /** Where the layouts change: 10^20 is the last power of ten with all its zeros. */
  lemma LargeLayouts()
    ensures NumText(Digits(false, [49], 21)) == [49] + Zeros(20)
    ensures NumText(Digits(false, [49], 22)) == [49, EXPONENT, 43, 50, 49]
  {
    hide Zeros;
    assert Dec(21) == [50, 49] by { assert Dec(2) == [50]; }
    assert [49][1..] == [] && [49][..1] == [49];
  }

  lemma PointLayouts()
    ensures NumText(Digits(false, [49, 53], 22)) == [49, DOT, 53, EXPONENT, 43, 50, 49]
    ensures NumText(Digits(false, [49, 53], 1)) == [49, DOT, 53]
  {
    hide Zeros;
    assert Dec(21) == [50, 49] by { assert Dec(2) == [50]; }
    assert [49, 53][1..] == [53] && [49, 53][..1] == [49];
  }

  /** And 10^-6 is the last one below the point. */
  lemma SmallLayouts()
    ensures NumText(Digits(true, [49], -5)) == [45, 48, DOT] + Zeros(5) + [49]
    ensures NumText(Digits(false, [49], -6)) == [49, EXPONENT, 45, 55]
  {
    hide Zeros;
    assert Dec(7) == [55];
    assert [49][1..] == [] && [49][..1] == [49];
    assert [45] + ([48] + [DOT] + (Zeros(5) + [49])) == [45, 48, DOT] + Zeros(5) + [49];
  }

  // Reading a magnitude back, independently of the layouts: join the digits around the
  // point, drop the zeros on both sides, and move the point by the exponent.

  function TrimRight(s: Str): (r: Str)
    ensures |r| <= |s|
  {
    if s == [] || s[|s| - 1] != 48 then s else TrimRight(s[..|s| - 1])
  }

  function CountLeft(s: Str): (r: nat)
    ensures r <= |s|
  {
    if s == [] || s[0] != 48 then 0 else 1 + CountLeft(s[1..])
  }

  function TailValue(s: Str): int {
    if |s| < 2 || !AllDigits(s[2..]) then 0
    else
      var magnitude: int := DecValue(s[2..]);
      if s[1] == 45 then -magnitude else magnitude
  }

  function Unpoint(s: Str): (Str, nat) {
    var p := IndexOf(s, DOT);
    (s[..p] + (if p < |s| then s[p + 1..] else []), p)
  }

  function ReadMagnitude(t: Str): (Str, int) {
    var e := IndexOf(t, EXPONENT);
    var (all, p) := Unpoint(t[..e]);
    var z := CountLeft(all);
    (TrimRight(all[z..]), p + TailValue(t[e..]) - z)
  }

  lemma {:induction false} TrimRightZeros(s: Str, m: nat)
    requires s == [] || s[|s| - 1] != 48
    ensures TrimRight(s + Zeros(m)) == s
    decreases m
  {
    if m > 0 {
      assert (s + Zeros(m))[..|s| + m - 1] == s + Zeros(m - 1);
      TrimRightZeros(s, m - 1);
    } else {
      assert s + Zeros(0) == s;
    }
  }

  lemma {:induction false} CountLeftZeros(s: Str, m: nat)
    requires s != [] && s[0] != 48
    ensures CountLeft(Zeros(m) + s) == m
    decreases m
  {
    if m > 0 {
      assert (Zeros(m) + s)[1..] == Zeros(m - 1) + s;
      CountLeftZeros(s, m - 1);
    } else {
      assert Zeros(0) + s == s;
    }
  }

  lemma UnpointPointed(whole: Str, fraction: Str)
    requires AllDigits(whole) && AllDigits(fraction)
    ensures Unpoint(Pointed(whole, fraction)) == (whole + fraction, |whole|)
    ensures EXPONENT !in Pointed(whole, fraction)
  {
    var s := Pointed(whole, fraction);
    assert s[..|whole|] == whole;
    IndexOfIs(s, DOT, |whole|);
    assert fraction != [] ==> s[|whole| + 1..] == fraction;
  }

  lemma TailValueOf(n: int)
    ensures Scientific(n) ==> TailValue(ExponentPart(n)) == n - 1
    ensures !Scientific(n) ==> ExponentPart(n) == []
    ensures ExponentPart(n) == [] || ExponentPart(n)[0] == EXPONENT
  {
    if Scientific(n) {
      var e := if n < 1 then 1 - n else n - 1;
      assert ExponentPart(n)[2..] == Dec(e);
      DecRoundTrip(e);
    }
  }

  /** The digits around the point are the significant digits between zeros. */
  lemma LayoutDigits(d: Str, n: int) returns (z: nat, m: nat)
    requires ValidDigits(d)
    ensures Whole(d, n) + Fraction(d, n) == Zeros(z) + d + Zeros(m)
    ensures AllDigits(Whole(d, n)) && AllDigits(Fraction(d, n))
    ensures n == |Whole(d, n)| + (if Scientific(n) then n - 1 else 0) - z
  {
    z := if !Scientific(n) && n <= 0 then 1 - n else 0;
    m := if !Scientific(n) && n > |d| then n - |d| else 0;
  }

  lemma TrimZeros(d: Str, z: nat, m: nat)
    requires ValidDigits(d)
    ensures CountLeft(Zeros(z) + d + Zeros(m)) == z
    ensures TrimRight((Zeros(z) + d + Zeros(m))[z..]) == d
  {
    var all := Zeros(z) + d + Zeros(m);
    Assoc(Zeros(z), d, Zeros(m));
    CountLeftZeros(d + Zeros(m), z);
    assert all[z..] == d + Zeros(m);
    TrimRightZeros(d, m);
  }

  lemma ReadMagnitudeRoundTrip(d: Str, n: int)
    requires ValidDigits(d)
    ensures ReadMagnitude(Pointed(Whole(d, n), Fraction(d, n)) + ExponentPart(n)) == (d, n)
  {
    hide Pointed, Unpoint, Whole, Fraction, TrimRight, CountLeft, ExponentPart, Zeros;
    var z, m := LayoutDigits(d, n);
    var body, tail := Pointed(Whole(d, n), Fraction(d, n)), ExponentPart(n);
    UnpointPointed(Whole(d, n), Fraction(d, n));
    TailValueOf(n);
    var t := body + tail;
    assert t[..|body|] == body && t[|body|..] == tail;
    IndexOfIs(t, EXPONENT, |body|);
    TrimZeros(d, z, m);
  }

  predicate NumberUnit(u: int) {
    IsDigit(u) || u == DOT || u == EXPONENT || u == 43 || u == 45
  }

  predicate NumberUnits(s: Str) {
    forall i :: 0 <= i < |s| ==> NumberUnit(s[i])
  }

  /** A number is printed with digits, point, exponent letter and signs only; it starts
      with a digit, or with a minus sign exactly when it is negative. */
  lemma NumTextShape(x: Number)
    requires ValidNumber(x)
    ensures |NumText(x)| > 0 && NumberUnits(NumText(x))
    ensures NumText(x)[0] == 45 <==> x.Digits? && x.negative
    ensures NumText(x)[0] == 45 || IsDigit(NumText(x)[0])
  {
    if x.Digits? { MagnitudeShape(x.digits, x.point); }
  }

  lemma MagnitudeShape(d: Str, n: int)
    requires ValidDigits(d)
    ensures var t := Pointed(Whole(d, n), Fraction(d, n)) + ExponentPart(n); t != [] && NumberUnits(t) && IsDigit(t[0])
  {
    var z, m := LayoutDigits(d, n);
    var whole, fraction, tail := Whole(d, n), Fraction(d, n), ExponentPart(n);
    assert |whole| > 0 && IsDigit(whole[0]);
    assert NumberUnits(tail);
    hide Whole, Fraction, ExponentPart, Zeros;
    assert NumberUnits(Pointed(whole, fraction));
  }

  /** Printing is injective on finite numbers. */
  lemma NumTextInjective(x: Number, y: Number)
    requires ValidNumber(x) && ValidNumber(y)
    requires NumText(x) == NumText(y)
    ensures x == y
  {
    NumTextShape(x);
    NumTextShape(y);
    var mx := UnsignedText(x);
    var my := UnsignedText(y);
    assert ReadMagnitude(mx) == ReadMagnitude(my);
  }

  /** What remains of a printed number without its sign, and what reading it gives. */
  lemma UnsignedText(x: Number) returns (t: Str)
    requires ValidNumber(x)
    ensures NumText(x) == (if x.Digits? && x.negative then [45] else []) + t
    ensures t == if NumText(x)[0] == 45 then NumText(x)[1..] else NumText(x)
    ensures ReadMagnitude(t) == if x.Zero? then ([], 0) else (x.digits, x.point)
  {
    NumTextShape(x);
    match x
    case Zero =>
      t := [48];
      IndexOfIs(t, EXPONENT, 1);
      IndexOfIs(t, DOT, 1);
      assert t[..1] == t && t + [] == t && t[1..] == [];
    case Digits(negative, d, n) =>
      t := Pointed(Whole(d, n), Fraction(d, n)) + ExponentPart(n);
      ReadMagnitudeRoundTrip(d, n);
  }

  /** Length of the longest prefix that could belong to a number. */
  function NumberRun(s: Str): (r: nat)
    ensures r <= |s|
    ensures forall i :: 0 <= i < r ==> NumberUnit(s[i])
    ensures r < |s| ==> !NumberUnit(s[r])
  {
    if s == [] || !NumberUnit(s[0]) then 0 else 1 + NumberRun(s[1..])
  }

  /** Two printed numbers that start two equal texts, each followed by nothing or by
      something that is not part of a number, are the same number. */
  lemma NumTextSelfDelimiting(a: Number, b: Number, x: Str, y: Str)
    requires ValidNumber(a) && ValidNumber(b)
    requires NumText(a) + x == NumText(b) + y
    requires x == [] || !NumberUnit(x[0])
    requires y == [] || !NumberUnit(y[0])
    ensures a == b && x == y
  {
    NumberRunIs(a, x);
    NumberRunIs(b, y);
    var ta, tb, s := NumText(a), NumText(b), NumText(a) + x;
    assert ta == s[..|ta|] == tb && x == s[|ta|..] == y;
    NumTextInjective(a, b);
  }

  lemma NumberRunIs(a: Number, x: Str)
    requires ValidNumber(a) && (x == [] || !NumberUnit(x[0]))
    ensures NumberRun(NumText(a) + x) == |NumText(a)|
  {
    NumTextShape(a);
    var s, k := NumText(a) + x, |NumText(a)|;
    assert forall i :: 0 <= i < k ==> NumberUnit(s[i]);
    assert k < |s| ==> s[k] == x[0];
  }
}
