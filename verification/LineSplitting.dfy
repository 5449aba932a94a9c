/** Splitting a stream of text into lines, whatever the chunks it arrives in. */
module LineSplitting {
  import opened Text

  const CR := 13
  const LF := 10

  predicate IsBreak(u: int) {
    u == CR || u == LF
  }

  predicate NoBreak(s: Str) {
    forall i :: 0 <= i < |s| ==> !IsBreak(s[i])
  }

  /** `data.replace(/\r\n/g, '\n')` */
  function Normalize(s: Str): Str
    decreases |s|
  {
    if s == [] then []
    else if |s| >= 2 && s[0] == CR && s[1] == LF then [LF] + Normalize(s[2..])
    else [s[0]] + Normalize(s[1..])
  }

  // ----- Lines of a text -----

  /** Index of the first line break, or the length when there is none. */
  function FirstBreak(s: Str): (i: nat)
    ensures i <= |s|
  {
    if s == [] || IsBreak(s[0]) then 0 else 1 + FirstBreak(s[1..])
  }

  lemma {:induction false} FirstBreakIsFirst(s: Str)
    ensures forall k :: 0 <= k < FirstBreak(s) ==> !IsBreak(s[k])
    ensures FirstBreak(s) < |s| ==> IsBreak(s[FirstBreak(s)])
  {
    if s != [] && !IsBreak(s[0]) {
      FirstBreakIsFirst(s[1..]);
      assert forall k :: 1 <= k < |s| ==> s[k] == s[1..][k - 1];
    }
  }

  /** The lines that are ended by a break. */
  function Lines(s: Str): seq<Str>
    decreases |s|
  {
    var i := FirstBreak(s);
    if i == |s| then [] else [s[..i]] + Lines(s[i + 1..])
  }

  /** What follows the last break. */
  function Rest(s: Str): Str
    decreases |s|
  {
    var i := FirstBreak(s);
    if i == |s| then s else Rest(s[i + 1..])
  }

  lemma {:induction false} RestHasNoBreak(s: Str)
    ensures NoBreak(Rest(s))
    decreases |s|
  {
    var i := FirstBreak(s);
    if i < |s| { RestHasNoBreak(s[i + 1..]); } else { FirstBreakIsFirst(s); }
  }

  function Breaks(s: Str): Str {
    if s == [] then [] else (if IsBreak(s[0]) then [s[0]] else []) + Breaks(s[1..])
  }

  /** Lines, each followed by its break. */
  function Weave(lines: seq<Str>, breaks: Str): Str
    requires |lines| == |breaks|
  {
    if lines == [] then [] else lines[0] + [breaks[0]] + Weave(lines[1..], breaks[1..])
  }

  lemma WeaveCons(line: Str, u: int, lines: seq<Str>, breaks: Str)
    requires |lines| == |breaks|
    ensures Weave([line] + lines, [u] + breaks) == line + [u] + Weave(lines, breaks)
  {}

  lemma BreaksStep(s: Str)
    ensures s == [] ==> Breaks(s) == [] && FirstBreak(s) == 0
    ensures s != [] && IsBreak(s[0]) ==> Breaks(s) == [s[0]] + Breaks(s[1..]) && FirstBreak(s) == 0
    ensures s != [] && !IsBreak(s[0]) ==> Breaks(s) == Breaks(s[1..]) && FirstBreak(s) == 1 + FirstBreak(s[1..])
  {}

  lemma {:induction false} BreaksUnfold(s: Str)
    ensures FirstBreak(s) == |s| ==> Breaks(s) == []
    ensures FirstBreak(s) < |s| ==> Breaks(s) == [s[FirstBreak(s)]] + Breaks(s[FirstBreak(s) + 1..])
  {
    hide Breaks, FirstBreak, IsBreak;
    BreaksStep(s);
    if s != [] && !IsBreak(s[0]) {
      var t := s[1..];
      BreaksUnfold(t);
      var i := FirstBreak(t);
      if i < |t| {
        assert t[i] == s[i + 1] && t[i + 1..] == s[i + 2..];
      }
    }
  }

  /** Lines, breaks and rest are the text again; no line has a break in it. */
  lemma {:induction false} LinesRebuild(s: Str)
    ensures |Lines(s)| == |Breaks(s)|
    ensures Weave(Lines(s), Breaks(s)) + Rest(s) == s
    ensures forall k :: 0 <= k < |Lines(s)| ==> NoBreak(Lines(s)[k])
    decreases |s|
  {
    hide Breaks, Weave;
    var i := FirstBreak(s);
    BreaksUnfold(s);
    if i < |s| {
      var line, t := s[..i], s[i + 1..];
      FirstBreakIsFirst(s);
      assert NoBreak(line);
      LinesRebuild(t);
      WeaveCons(line, s[i], Lines(t), Breaks(t));
      Assoc(line + [s[i]], Weave(Lines(t), Breaks(t)), Rest(t));
      assert s == line + [s[i]] + t;
    } else {
      NothingWoven();
    }
  }

  lemma NothingWoven()
    ensures Weave([], []) == []
  {}

  /** A text without a break is all rest. */
  lemma RestOfRest(s: Str)
    requires NoBreak(s)
    ensures Lines(s) == [] && Rest(s) == s
  {
    FirstBreakIsFirst(s);
    assert FirstBreak(s) == |s|;
  }

  /** Splitting may stop anywhere and go on with what was left. */
  lemma {:induction false} LinesOfConcat(a: Str, b: Str)
    ensures Lines(a + b) == Lines(a) + Lines(Rest(a) + b)
    ensures Rest(a + b) == Rest(Rest(a) + b)
    decreases |a|
  {
    var i := FirstBreak(a);
    if i < |a| {
      var s, t := a + b, a[i + 1..];
      assert s[..i] == a[..i] && s[i + 1..] == t + b;
      FirstBreakIsFirst(a);
      FirstBreakIs(s, i);
      LinesOfConcat(t, b);
      Assoc([a[..i]], Lines(t), Lines(Rest(t) + b));
    } else {
      FirstBreakIsFirst(a);
      RestOfRest(a);
      hide Lines;
      assert [] + Lines(a + b) == Lines(a + b);
    }
  }

  lemma FirstBreakIs(s: Str, i: nat)
    requires i < |s| && (forall k :: 0 <= k < i ==> !IsBreak(s[k])) && IsBreak(s[i])
    ensures FirstBreak(s) == i
  {
    FirstBreakIsFirst(s);
  }

  // ----- Chunks -----

  function Joined(chunks: seq<Str>): Str {
    if chunks == [] then [] else Joined(chunks[..|chunks| - 1]) + chunks[|chunks| - 1]
  }

  function NormalizedEach(chunks: seq<Str>): Str {
    if chunks == [] then [] else NormalizedEach(chunks[..|chunks| - 1]) + Normalize(chunks[|chunks| - 1])
  }

  /** The next chunk begins with the second half of a CRLF pair. */
  predicate SplitsPair(before: Str, chunk: Str) {
    before != [] && before[|before| - 1] == CR && chunk != [] && chunk[0] == LF
  }

  function SplitPairs(chunks: seq<Str>): nat {
    if chunks == [] then 0
    else
      var n := |chunks| - 1;
      SplitPairs(chunks[..n]) + (if SplitsPair(Joined(chunks[..n]), chunks[n]) then 1 else 0)
  }

  /** The final lines for a text that was normalised: those ended by a break, and what is
      left when `end` is called. */
  function Output(normalized: Str): seq<Str> {
    Lines(normalized) + (if Rest(normalized) == [] then [] else [Rest(normalized)])
  }

  /** Normalising chunk by chunk is normalising the whole when no pair is split. */
  lemma {:induction false} NormalizeJoins(a: Str, b: Str)
    requires !SplitsPair(a, b)
    ensures Normalize(a + b) == Normalize(a) + Normalize(b)
    decreases |a|
  {
    var s := a + b;
    if a == [] {
      assert s == b && [] + Normalize(b) == Normalize(b);
    } else {
      var n := if |a| >= 2 && a[0] == CR && a[1] == LF then 2 else 1;
      assert s[n..] == a[n..] + b;
      NormalizeJoins(a[n..], b);
      Assoc([if n == 2 then LF else a[0]], Normalize(a[n..]), Normalize(b));
    }
  }

  /** A split pair is normalised to both of its halves instead of one line feed. */
  lemma NormalizeSplit(a: Str, b: Str)
    requires SplitsPair(a, b)
    ensures var x, y := Normalize(a[..|a| - 1]), Normalize(b[1..]);
      Normalize(a + b) == x + ([LF] + y) && Normalize(a) + Normalize(b) == x + ([CR, LF] + y)
  {
    var a', x, y := a[..|a| - 1], Normalize(a[..|a| - 1]), Normalize(b[1..]);
    assert a == a' + [CR];
    NormalizeJoins(a', [CR]);
    assert Normalize([CR]) == [CR];
    NormalizeJoins(a', [CR] + b);
    Assoc(a', [CR], b);
    assert ([CR] + b)[2..] == b[1..];
    assert Normalize([CR] + b) == [LF] + y;
    assert Normalize(b) == [LF] + y;
    Assoc(x, [CR], [LF] + y);
    assert [CR] + ([LF] + y) == [CR, LF] + y;
  }

  lemma {:induction false} BreaksConcat(a: Str, b: Str)
    ensures Breaks(a + b) == Breaks(a) + Breaks(b)
  {
    if a == [] {
      assert a + b == b;
    } else {
      assert (a + b)[1..] == a[1..] + b;
      BreaksConcat(a[1..], b);
      Assoc(if IsBreak(a[0]) then [a[0]] else [], Breaks(a[1..]), Breaks(b));
    }
  }

  lemma NormalizeSplitAddsABreak(a: Str, b: Str)
    requires SplitsPair(a, b)
    ensures |Breaks(Normalize(a))| + |Breaks(Normalize(b))| == |Breaks(Normalize(a + b))| + 1
  {
    var x, y := Normalize(a[..|a| - 1]), Normalize(b[1..]);
    NormalizeSplit(a, b);
    BreaksConcat(Normalize(a), Normalize(b));
    BreaksConcat(x, [LF] + y);
    BreaksConcat(x, [CR, LF] + y);
    BreaksConcat([LF], y);
    BreaksConcat([CR, LF], y);
    assert [CR, LF][1..] == [LF];
    assert |Breaks([CR, LF])| == 2 && |Breaks([LF])| == 1;
  }

  /** Normalising keeps the last unit. */
  lemma {:induction false} NormalizeKeepsLast(s: Str)
    requires s != []
    ensures Normalize(s) != [] && Normalize(s)[|Normalize(s)| - 1] == s[|s| - 1]
    decreases |s|
  {
    var n := if |s| >= 2 && s[0] == CR && s[1] == LF then 2 else 1;
    if n < |s| { NormalizeKeepsLast(s[n..]); }
  }

  /** Something is left over exactly when the text does not end with a break. */
  lemma {:induction false} RestIsEmptyWhen(s: Str)
    ensures Rest(s) == [] <==> s == [] || IsBreak(s[|s| - 1])
    decreases |s|
  {
    var i := FirstBreak(s);
    FirstBreakIsFirst(s);
    if i < |s| { RestIsEmptyWhen(s[i + 1..]); }
  }

  lemma OutputLength(s: Str)
    ensures |Output(s)| == |Breaks(s)| + (if s == [] || IsBreak(s[|s| - 1]) then 0 else 1)
  {}

  ghost predicate SameEnd(s: Str, t: Str) {
    (s == [] <==> t == []) && (s != [] && t != [] ==> s[|s| - 1] == t[|t| - 1])
  }

  lemma NormalizedEnd(before: Str, normalized: Str, chunk: Str)
    requires SameEnd(before, normalized)
    ensures SameEnd(before + chunk, normalized + Normalize(chunk))
  {
    if chunk != [] { NormalizeKeepsLast(chunk); }
  }

  lemma OneMoreChunk(before: Str, normalized: Str, chunk: Str, pairs: nat)
    requires |Breaks(normalized)| == |Breaks(Normalize(before))| + pairs
    requires pairs == 0 ==> normalized == Normalize(before)
    ensures var more := pairs + (if SplitsPair(before, chunk) then 1 else 0);
      && |Breaks(normalized + Normalize(chunk))| == |Breaks(Normalize(before + chunk))| + more
      && (more == 0 ==> normalized + Normalize(chunk) == Normalize(before + chunk))
  {
    hide Normalize, Breaks;
    BreaksConcat(normalized, Normalize(chunk));
    if SplitsPair(before, chunk) {
      NormalizeSplitAddsABreak(before, chunk);
    } else {
      NormalizeJoins(before, chunk);
      BreaksConcat(Normalize(before), Normalize(chunk));
    }
  }

  /** What chunk-wise normalising makes of the chunks, against the whole. */
  lemma {:induction false} ChunksAgainstWhole(chunks: seq<Str>)
    ensures |Breaks(NormalizedEach(chunks))| == |Breaks(Normalize(Joined(chunks)))| + SplitPairs(chunks)
    ensures SplitPairs(chunks) == 0 ==> NormalizedEach(chunks) == Normalize(Joined(chunks))
    ensures SameEnd(Joined(chunks), NormalizedEach(chunks))
    decreases |chunks|
  {
    if chunks != [] {
      hide Normalize, Breaks, SplitsPair, SameEnd;
      var n := |chunks| - 1;
      ChunksAgainstWhole(chunks[..n]);
      NormalizedEnd(Joined(chunks[..n]), NormalizedEach(chunks[..n]), chunks[n]);
      OneMoreChunk(Joined(chunks[..n]), NormalizedEach(chunks[..n]), chunks[n], SplitPairs(chunks[..n]));
    }
  }

  /** The final lines are those of the whole text in one chunk exactly when no CRLF pair is
      split between chunks; each split pair adds one line. */
  lemma ChunkingMattersExactlyWhen(chunks: seq<Str>)
    ensures Output(NormalizedEach(chunks)) == Output(Normalize(Joined(chunks))) <==> SplitPairs(chunks) == 0
    ensures |Output(NormalizedEach(chunks))| == |Output(Normalize(Joined(chunks)))| + SplitPairs(chunks)
  {
    hide Output, NormalizedEach, Breaks, SplitPairs, Joined;
    ChunksAgainstWhole(chunks);
    OutputLength(NormalizedEach(chunks));
    OutputLength(Normalize(Joined(chunks)));
    if Joined(chunks) != [] { NormalizeKeepsLast(Joined(chunks)); }
  }

  lemma LinesAre(line: Str, u: int, rest: Str)
    requires NoBreak(line) && IsBreak(u)
    ensures Lines(line + [u] + rest) == [line] + Lines(rest) && Rest(line + [u] + rest) == Rest(rest)
  {
    var s := line + [u] + rest;
    FirstBreakIs(s, |line|);
    assert s[..|line|] == line && s[|line| + 1..] == rest;
  }

  lemma NormalizeUnit(u: int, s: Str)
    requires u != CR || s == [] || s[0] != LF
    ensures Normalize([u] + s) == [u] + Normalize(s)
  {
    assert ([u] + s)[1..] == s;
  }

  const SPLIT_PAIR: seq<Str> := [[97, CR], [LF, 98]]

  lemma SplitPairNormalized()
    ensures NormalizedEach(SPLIT_PAIR) == [97, CR, LF, 98]
  {
    var a, b := SPLIT_PAIR[0], SPLIT_PAIR[1];
    NormalizeUnit(97, [CR]);
    NormalizeUnit(CR, []);
    NormalizeUnit(LF, [98]);
    NormalizeUnit(98, []);
    assert a == [97] + [CR] && [CR] == [CR] + [] && b == [LF] + [98] && [98] == [98] + [];
    assert SPLIT_PAIR[..1] == [a] && [a][..0] == [];
    assert NormalizedEach([a]) == [] + Normalize(a);
  }

  lemma WholePairNormalized()
    ensures Normalize(Joined(SPLIT_PAIR)) == [97, LF, 98]
  {
    var a, b := SPLIT_PAIR[0], SPLIT_PAIR[1];
    var all: Str := [97, CR, LF, 98];
    assert SPLIT_PAIR[..1] == [a] && [a][..0] == [] && Joined([a]) == [] + a;
    assert Joined(SPLIT_PAIR) == all == [97] + [CR, LF, 98];
    NormalizeUnit(97, [CR, LF, 98]);
    assert [CR, LF, 98][2..] == [98] && [98] == [98] + [];
    NormalizeUnit(98, []);
  }

  /** The two lines "a" and "b", with the pair between them split. */
  lemma SplitPairAddsALine()
    ensures Output(NormalizedEach(SPLIT_PAIR)) == [[97], [], [98]]
    ensures Output(Normalize(Joined(SPLIT_PAIR))) == [[97], [98]]
  {
    hide Lines, Rest, Normalize, NormalizedEach, Joined;
    SplitPairNormalized();
    WholePairNormalized();
    LinesAre([97], CR, [LF, 98]);
    LinesAre([], LF, [98]);
    LinesAre([97], LF, [98]);
    RestOfRest([98]);
    assert [97] + [CR] + [LF, 98] == [97, CR, LF, 98] && [97] + [LF] + [98] == [97, LF, 98];
    assert [] + [LF] + [98] == [LF, 98];
  }

  // ----- LineSplitter -----

  class LineSplitter {
    const flushTimerMs: int
    var buffer: Str
    var timer: bool
    // The calls of the callback, final and partial.
    var lines: seq<Str>
    var partials: seq<Str>
    // The chunks written since the last `end`, and the lines final before that.
    ghost var chunks: seq<Str>
    ghost var earlier: seq<Str>

    /** Between calls the buffer is the last, unfinished line of what was written. */
    ghost predicate Valid()
      reads this
    {
      && lines == earlier + Lines(NormalizedEach(chunks))
      && buffer == Rest(NormalizedEach(chunks))
      && (timer ==> buffer != [])
    }

    constructor (flushTimerMs: int)
      ensures Valid() && lines == [] && chunks == [] && earlier == []
    {
      this.flushTimerMs := flushTimerMs;
      buffer, timer, lines, partials, chunks, earlier := [], false, [], [], [], [];
    }

    method Write(data: Str)
      requires Valid()
      modifies this
      ensures Valid() && NoBreak(buffer)
      ensures chunks == old(chunks) + [data] && earlier == old(earlier) && partials == old(partials)
      ensures timer <==> buffer != [] && flushTimerMs > 0
    {
      timer := false;
      LinesOfConcat(NormalizedEach(chunks), Normalize(data));
      ghost var all := NormalizedEach(chunks) + Normalize(data);
      assert (chunks + [data])[..|chunks|] == chunks;
      chunks := chunks + [data];
      buffer := buffer + Normalize(data);
      Assoc(earlier, Lines(NormalizedEach(old(chunks))), Lines(buffer));
      TakeLines();
      RestHasNoBreak(NormalizedEach(chunks));
      if |buffer| > 0 && flushTimerMs > 0 {
        timer := true;
      }
    }

    /** The loop of `write`. */
    method TakeLines()
      modifies `buffer, `lines
      ensures lines == old(lines) + Lines(old(buffer)) && buffer == Rest(old(buffer))
    {
      assert old(lines) + [] == old(lines);
      while |buffer| > 0
        invariant lines + Lines(buffer) == old(lines) + Lines(old(buffer))
        invariant Rest(buffer) == Rest(old(buffer))
        decreases |buffer|
      {
        var indexLF := IndexOf(buffer, LF);
        var indexCR := IndexOf(buffer, CR);
        if indexLF == |buffer| && indexCR == |buffer| {
          RestOfRest(buffer);
          break;
        }
        var index := if indexLF < indexCR then indexLF else indexCR;
        assert forall k :: 0 <= k < index ==> buffer[k] == buffer[..indexLF][k] == buffer[..indexCR][k];
        FirstBreakIs(buffer, index);
        Assoc(lines, [buffer[..index]], Lines(buffer[index + 1..]));
        lines := lines + [buffer[..index]];
        buffer := buffer[index + 1..];
      }
      RestHasNoBreak(old(buffer));
      RestOfRest(buffer);
    }

    /** The flush timer shows the unfinished line, and leaves it in the buffer. */
    method TimerFires()
      requires Valid() && timer
      modifies `timer, `partials
      ensures Valid() && partials == old(partials) + [buffer] && !timer
    {
      if |buffer| > 0 {
        partials := partials + [buffer];
      }
      timer := false;
    }

    method End()
      requires Valid()
      modifies this
      ensures lines == old(earlier) + Output(NormalizedEach(old(chunks)))
      ensures Valid() && buffer == [] && chunks == [] && earlier == lines && partials == old(partials) && !timer
    {
      timer := false;
      if |buffer| > 0 {
        lines := lines + [buffer];
        buffer := [];
      }
      chunks, earlier := [], lines;
    }
  }
}
