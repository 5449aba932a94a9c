/** JavaScript strings and Node buffers as sequences of code units, and the decimal
    notation shared by every format in this project. */
module Text {

  /** A code unit is an integer; which integers may occur is stated where it matters. */
  type Str = seq<int>

  predicate IsDigit(u: int) {
    48 <= u <= 57
  }

  predicate AllDigits(s: seq<int>) {
    forall i :: 0 <= i < |s| ==> IsDigit(s[i])
  }

  /** The code units of an ASCII literal. */
  function Ascii(s: string): (r: Str)
    requires forall i :: 0 <= i < |s| ==> (s[i] as int) < 128
    ensures |r| == |s|
    ensures forall i :: 0 <= i < |s| ==> r[i] == s[i] as int
  {
    seq(|s|, i requires 0 <= i < |s| => s[i] as int)
  }

  /** Decimal notation of a natural number. */
  function Dec(n: nat): (r: Str)
    ensures |r| > 0 && AllDigits(r)
  {
    if n < 10 then [48 + n] else Dec(n / 10) + [48 + n % 10]
  }

  /** Decimal notation of an integer, as a template literal prints it. */
  function DecInt(i: int): (r: Str)
    ensures |r| > 0
    ensures IsDigit(r[0]) || r[0] == 45
  {
    if i < 0 then [45] + Dec(-i) else Dec(i)
  }

  /** The number a run of digits denotes, most significant digit first. */
  function DecValue(s: seq<int>): nat
    requires AllDigits(s)
  {
    if s == [] then 0 else 10 * DecValue(s[..|s| - 1]) + (s[|s| - 1] - 48)
  }

  lemma {:induction false} DecRoundTrip(n: nat)
    ensures DecValue(Dec(n)) == n
  {
    if n >= 10 {
      DecRoundTrip(n / 10);
      assert Dec(n)[..|Dec(n)| - 1] == Dec(n / 10);
    }
  }

  lemma DecIntInjective(a: int, b: int)
    requires DecInt(a) == DecInt(b)
    ensures a == b
  {
    if a < 0 {
      assert DecInt(a)[0] == 45;
      assert Dec(-a) == DecInt(a)[1..] == DecInt(b)[1..];
      DecRoundTrip(-a);
      DecRoundTrip(-b);
    } else {
      DecRoundTrip(a);
      DecRoundTrip(if b < 0 then -b else b);
    }
  }

  /** Index of the first occurrence of `u` in `s`, or `|s|` when there is none. */
  function IndexOf(s: seq<int>, u: int): (r: nat)
    ensures r <= |s|
    ensures u !in s[..r]
    ensures r < |s| ==> s[r] == u
  {
    if s == [] || s[0] == u then 0 else 1 + IndexOf(s[1..], u)
  }

  lemma IndexOfIs(s: seq<int>, u: int, i: nat)
    requires i <= |s| && u !in s[..i] && (i < |s| ==> s[i] == u)
    ensures IndexOf(s, u) == i
  {}

  lemma Assoc<T>(a: seq<T>, b: seq<T>, c: seq<T>)
    ensures (a + b) + c == a + (b + c)
  {}

  /** Equal texts with equally long first parts split equally. */
  lemma SplitAt<T>(a: seq<T>, x: seq<T>, b: seq<T>, y: seq<T>)
    requires a + x == b + y && |a| == |b|
    ensures a == b && x == y
  {
    assert (a + x)[..|a|] == a && (b + y)[..|b|] == b;
    assert (a + x)[|a|..] == x && (b + y)[|b|..] == y;
  }
}
