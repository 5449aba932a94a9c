/** The Content-Length framing of the debug helper (the Base Protocol of the Language Server
    Protocol): the batched parser on the adapter's side of the pipe. */
module HelperFraming {
  import opened Options
  import opened Text

  const CR := 13
  const LF := 10
  const COLON := 58
  const CRLF_CRLF: Str := [13, 10, 13, 10]
  const NL_NL: Str := [10, 10]
  const MAX_MESSAGES_PER_BATCH := 50
  const CONTENT_LENGTH: Str := Ascii("content-length")

  // ----- findHeaderSeparator -----

  predicate OccursAt(s: Str, pattern: Str, i: int) {
    0 <= i <= |s| - |pattern| && s[i..i + |pattern|] == pattern
  }

  /** `Buffer.indexOf` */
  function Find(s: Str, pattern: Str, from: nat): (r: Option<nat>)
    ensures r.Some? ==> r.value + |pattern| <= |s|
    decreases |s| - from
  {
    if from > |s| - |pattern| then None
    else if OccursAt(s, pattern, from) then Some(from)
    else Find(s, pattern, from + 1)
  }

  /** `Find` gives the first occurrence, if there is one. */
  lemma {:induction false} FindIsFirst(s: Str, pattern: Str, from: nat)
    ensures Find(s, pattern, from).Some? ==>
      from <= Find(s, pattern, from).value && OccursAt(s, pattern, Find(s, pattern, from).value)
    ensures forall i :: from <= i && OccursAt(s, pattern, i) ==>
      Find(s, pattern, from).Some? && Find(s, pattern, from).value <= i
    decreases |s| - from
  {
    if from <= |s| - |pattern| && !OccursAt(s, pattern, from) {
      FindIsFirst(s, pattern, from + 1);
    }
  }

  function FindHeaderSeparator(s: Str): Option<nat> {
    var standard := Find(s, CRLF_CRLF, 0);
    if standard.Some? then standard else Find(s, NL_NL, 0)
  }

  // ----- parseContentLength -----

  /** `split(/\r?\n/)` */
  function SplitLines(s: Str): seq<Str>
    decreases |s|
  {
    var i := IndexOf(s, LF);
    if i == |s| then [s]
    else [s[..if i > 0 && s[i - 1] == CR then i - 1 else i]] + SplitLines(s[i + 1..])
  }

  predicate IsSpace(u: int) {
    9 <= u <= 13 || u == 32 || u == 160 || u == 0xFEFF
  }

  function TrimStart(s: Str): (r: Str)
    ensures |r| <= |s|
  {
    if s != [] && IsSpace(s[0]) then TrimStart(s[1..]) else s
  }

  function TrimEnd(s: Str): (r: Str)
    ensures |r| <= |s|
  {
    if s != [] && IsSpace(s[|s| - 1]) then TrimEnd(s[..|s| - 1]) else s
  }

  function Trim(s: Str): Str {
    TrimEnd(TrimStart(s))
  }

  function LowerCase(u: int): int {
    if 65 <= u <= 90 then u + 32 else u
  }

  predicate StartsWithContentLength(s: Str) {
    var name := CONTENT_LENGTH;
    |s| >= |name| && forall i :: 0 <= i < |name| ==> LowerCase(s[i]) == name[i]
  }

  /** The longest prefix of digits. */
  function DigitRun(s: Str): (r: Str)
    ensures AllDigits(r) && |r| <= |s|
  {
    if s == [] || !IsDigit(s[0]) then [] else [s[0]] + DigitRun(s[1..])
  }

  /** `parseInt(s, 10)`; `None` is NaN. */
  function ParseInt(s: Str): Option<int> {
    var negative := s != [] && s[0] == 45;
    var digits := DigitRun(if s != [] && (s[0] == 45 || s[0] == 43) then s[1..] else s);
    if digits == [] then None
    else
      var value: int := DecValue(digits);
      Some(if negative then -value else value)
  }

  function LineLength(line: Str): Option<nat> {
    var trimmed := Trim(line);
    if !StartsWithContentLength(trimmed) then None
    else
      var colon := IndexOf(trimmed, COLON);
      if colon == |trimmed| then None
      else
        var num := ParseInt(Trim(trimmed[colon + 1..]));
        if num.Some? && num.value >= 0 then Some(num.value) else None
  }

  function FirstLength(lines: seq<Str>): Option<nat> {
    if lines == [] then None
    else if LineLength(lines[0]).Some? then LineLength(lines[0])
    else FirstLength(lines[1..])
  }

  function ParseContentLength(header: Str): Option<nat> {
    FirstLength(SplitLines(header))
  }

  // ----- Frames -----

  function Header(length: nat): Str {
    Ascii("Content-Length: ") + Dec(length)
  }

  /** What `sendRequest`, and the helper, write for one body. */
  function Frame(body: Str): Str {
    Header(|body|) + CRLF_CRLF + body
  }

  function Stream(bodies: seq<Str>): Str {
    if bodies == [] then [] else Frame(bodies[0]) + Stream(bodies[1..])
  }

  lemma HeaderHasNoBreak(length: nat)
    ensures forall i :: 0 <= i < |Header(length)| ==> Header(length)[i] != CR && Header(length)[i] != LF
  {}

  lemma {:induction false} DigitRunOfDigits(s: Str)
    requires AllDigits(s)
    ensures DigitRun(s) == s
  {
    if s != [] { DigitRunOfDigits(s[1..]); }
  }

  lemma TrimDigits(digits: Str)
    requires digits != [] && AllDigits(digits)
    ensures Trim(digits) == digits && Trim([32] + digits) == digits
  {}

  lemma HeaderUnits(length: nat)
    ensures var h := Header(length);
      |h| > 16 && Trim(h) == h && StartsWithContentLength(h) && IndexOf(h, COLON) == 14
      && h[15..] == [32] + Dec(length)
  {
    var h, digits := Header(length), Dec(length);
    hide Dec;
    assert IsDigit(digits[|digits| - 1]) && h[|h| - 1] == digits[|digits| - 1];
    assert h[14] == COLON;
    IndexOfIs(h, COLON, 14);
  }

  lemma LineLengthOfHeader(length: nat)
    ensures LineLength(Header(length)) == Some(length)
  {
    HeaderUnits(length);
    TrimDigits(Dec(length));
    DigitRunOfDigits(Dec(length));
    DecRoundTrip(length);
  }

  /** The header that is sent is read back as the length it was made from. */
  lemma ContentLengthRoundTrip(length: nat)
    ensures ParseContentLength(Header(length)) == Some(length)
  {
    var h := Header(length);
    HeaderHasNoBreak(length);
    IndexOfIs(h, LF, |h|);
    assert SplitLines(h) == [h];
    LineLengthOfHeader(length);
  }

  // ----- One turn of the loop in processMessages -----

  datatype Turn = NeedMore | Skip(rest: Str) | Message(body: Str, rest: Str)

  predicate UnitAt(s: Str, i: nat, u: int) {
    i < |s| && s[i] == u
  }

  /** Every turn that does not end the loop makes the buffer shorter. */
  function OneTurn(raw: Str): (t: Turn)
    ensures !t.NeedMore? ==> |t.rest| < |raw|
  {
    var separator := FindHeaderSeparator(raw);
    if separator.None? then NeedMore
    else
      var at := separator.value;
      var length := ParseContentLength(raw[..at]);
      if length.None? then
        var skip := at + (if UnitAt(raw, at + 1, LF) && UnitAt(raw, at + 2, CR) then 4 else 2);
        Skip(if skip <= |raw| then raw[skip..] else [])
      else
        var start := at + (if OccursAt(raw, CRLF_CRLF, at) then 4 else 2);
        var end := start + length.value;
        if |raw| < end then NeedMore else Message(raw[start..end], raw[end..])
  }

  lemma SeparatorAfterHeader(length: nat, tail: Str)
    ensures FindHeaderSeparator(Header(length) + CRLF_CRLF + tail) == Some(|Header(length)|)
  {
    var h := Header(length);
    var s := h + CRLF_CRLF + tail;
    HeaderHasNoBreak(length);
    assert OccursAt(s, CRLF_CRLF, |h|);
    FindIsFirst(s, CRLF_CRLF, 0);
    var found := Find(s, CRLF_CRLF, 0).value;
    assert s[found] == s[found..found + 4][0] == CR;
    assert forall i :: 0 <= i < |h| ==> s[i] == h[i];
  }

  /** A complete frame at the front of the buffer is taken out whole. */
  lemma FrameIsTaken(body: Str, rest: Str)
    ensures OneTurn(Frame(body) + rest) == Message(body, rest)
  {
    var h, raw := Header(|body|), Frame(body) + rest;
    Assoc(h + CRLF_CRLF, body, rest);
    SeparatorAfterHeader(|body|, body + rest);
    assert raw[..|h|] == h;
    ContentLengthRoundTrip(|body|);
    assert raw[|h| + 4..|h| + 4 + |body|] == body;
    assert raw[|h| + 4 + |body|..] == rest;
  }

  lemma SeparatorUnits(s: Str, i: int)
    ensures OccursAt(s, CRLF_CRLF, i) ==> i >= 0 && i + 3 < |s| && s[i] == CR && s[i + 2] == CR
    ensures OccursAt(s, NL_NL, i) ==> i >= 0 && i + 1 < |s| && s[i] == LF && s[i + 1] == LF
  {}

  lemma NoSeparator(s: Str)
    requires forall i :: 0 <= i && i + 3 < |s| ==> s[i] != CR || s[i + 2] != CR
    requires forall i :: 0 <= i && i + 1 < |s| ==> s[i] != LF || s[i + 1] != LF
    ensures FindHeaderSeparator(s) == None
  {
    FindIsFirst(s, CRLF_CRLF, 0);
    FindIsFirst(s, NL_NL, 0);
    forall i ensures !OccursAt(s, CRLF_CRLF, i) && !OccursAt(s, NL_NL, i) { SeparatorUnits(s, i); }
  }

  /** A frame that has not arrived completely is left alone: neither separator is found in an
      incomplete header, and an incomplete body is waited for. */
  lemma PartialFrameWaits(body: Str, raw: Str)
    requires raw <= Frame(body) && raw != Frame(body)
    ensures OneTurn(raw) == NeedMore
  {
    var h := Header(|body|);
    HeaderHasNoBreak(|body|);
    if |raw| < |h| + 4 {
      assert raw == (h + CRLF_CRLF)[..|raw|];
      NoSeparator(raw);
    } else {
      var tail := raw[|h| + 4..];
      assert raw == h + CRLF_CRLF + tail;
      SeparatorAfterHeader(|body|, tail);
      assert raw[..|h|] == h;
      ContentLengthRoundTrip(|body|);
    }
  }

  // ----- Other headers, and the other separator -----

  /** Header lines as they are sent. */
  function Block(lines: seq<Str>): Str
    requires lines != []
  {
    if |lines| == 1 then lines[0] else lines[0] + [CR, LF] + Block(lines[1..])
  }

  ghost predicate AreLines(lines: seq<Str>) {
    lines != [] && forall i :: 0 <= i < |lines| ==> lines[i] != [] && CR !in lines[i] && LF !in lines[i]
  }

  lemma {:induction false} LinesOfBlock(lines: seq<Str>)
    requires AreLines(lines)
    ensures SplitLines(Block(lines)) == lines
  {
    if |lines| == 1 {
      IndexOfIs(lines[0], LF, |lines[0]|);
    } else {
      LinesOfBlock(lines[1..]);
      assert lines == [lines[0]] + lines[1..];
      hide Block, SplitLines;
      FirstLineIsSplit(lines[0], Block(lines[1..]));
      assert Block(lines) == lines[0] + [CR, LF] + Block(lines[1..]) by { BlockIs(lines); }
    }
  }

  lemma BlockIs(lines: seq<Str>)
    requires |lines| > 1
    ensures Block(lines) == lines[0] + [CR, LF] + Block(lines[1..])
  {}

  lemma FirstLineIsSplit(line: Str, rest: Str)
    requires CR !in line && LF !in line
    ensures SplitLines(line + [CR, LF] + rest) == [line] + SplitLines(rest)
  {
    var s := line + [CR, LF] + rest;
    assert s[|line|] == CR && s[|line| + 1] == LF;
    assert forall i :: 0 <= i < |line| ==> s[i] == line[i];
    IndexOfIs(s, LF, |line| + 1);
    assert s[..|line|] == line && s[|line| + 2..] == rest;
  }

  /** No separator begins in a block of header lines. */
  lemma {:induction false} BlockHasNoSeparator(lines: seq<Str>)
    requires AreLines(lines)
    ensures var b := Block(lines);
      && b != [] && b[|b| - 1] != CR && b[0] != CR && (|b| >= 2 ==> b[|b| - 2] != CR)
      && forall i :: 0 <= i < |b| - 2 ==> b[i] != CR || b[i + 2] != CR
  {
    var l, b := lines[0], Block(lines);
    if |lines| > 1 {
      BlockHasNoSeparator(lines[1..]);
      var rest := Block(lines[1..]);
      hide Block;
      assert forall i :: 0 <= i < |l| ==> b[i] == l[i];
      assert b[|l|] == CR && b[|l| + 1] == LF;
      assert forall i :: |l| + 2 <= i < |b| ==> b[i] == rest[i - |l| - 2];
      forall i | 0 <= i < |b| - 2 ensures b[i] != CR || b[i + 2] != CR {
        if i == |l| { assert b[i + 2] == rest[0]; }
        if i > |l| + 1 { assert rest[i - |l| - 2] != CR || rest[i - |l|] != CR; }
      }
    }
  }

  /** The first line that gives a length decides. */
  lemma {:induction false} FirstLengthIs(lines: seq<Str>, k: nat)
    requires k < |lines| && LineLength(lines[k]).Some?
    requires forall i :: 0 <= i < k ==> LineLength(lines[i]).None?
    ensures FirstLength(lines) == LineLength(lines[k])
    decreases k
  {
    hide LineLength;
    if k > 0 { FirstLengthIs(lines[1..], k - 1); }
  }

  lemma SeparatorAfterBlock(lines: seq<Str>, tail: Str)
    requires AreLines(lines)
    ensures FindHeaderSeparator(Block(lines) + CRLF_CRLF + tail) == Some(|Block(lines)|)
  {
    var b := Block(lines);
    var s := b + CRLF_CRLF + tail;
    BlockHasNoSeparator(lines);
    assert OccursAt(s, CRLF_CRLF, |b|);
    FindIsFirst(s, CRLF_CRLF, 0);
    var found := Find(s, CRLF_CRLF, 0).value;
    SeparatorUnits(s, found);
    assert forall i :: 0 <= i < |b| ==> s[i] == b[i];
    assert s[|b|] == CR && s[|b| + 1] == LF;
  }

  /** A frame with more header lines, before and after the one with the length, is taken out
      whole as well. */
  lemma HeaderLinesAreRead(lines: seq<Str>, k: nat, body: Str, rest: Str)
    requires AreLines(lines) && k < |lines| && LineLength(lines[k]) == Some(|body|)
    requires forall i :: 0 <= i < k ==> LineLength(lines[i]).None?
    ensures OneTurn(Block(lines) + CRLF_CRLF + body + rest) == Message(body, rest)
  {
    hide LineLength, Block, SplitLines, FirstLength, FindHeaderSeparator, OneTurn;
    var b := Block(lines);
    Assoc(b + CRLF_CRLF, body, rest);
    SeparatorAfterBlock(lines, body + rest);
    LinesOfBlock(lines);
    FirstLengthIs(lines, k);
    BodyIsTaken(b, body, rest);
  }

  lemma BodyIsTaken(header: Str, body: Str, rest: Str)
    requires FindHeaderSeparator(header + CRLF_CRLF + (body + rest)) == Some(|header|)
    requires ParseContentLength(header) == Some(|body|)
    ensures OneTurn(header + CRLF_CRLF + (body + rest)) == Message(body, rest)
  {
    hide FindHeaderSeparator, ParseContentLength;
    var raw := header + CRLF_CRLF + (body + rest);
    assert raw[..|header|] == header;
    assert raw[|header|..|header| + 4] == CRLF_CRLF;
    assert raw[|header| + 4..|header| + 4 + |body|] == body;
    assert raw[|header| + 4 + |body|..] == rest;
  }

  /** A frame with two line feeds for the separator. */
  function LineFeedFrame(body: Str): Str {
    Header(|body|) + NL_NL + body
  }

  ghost predicate HasStandardSeparator(s: Str) {
    exists i :: OccursAt(s, CRLF_CRLF, i)
  }

  lemma SeparatorBehind(length: nat, tail: Str)
    ensures var raw := Header(length) + NL_NL + tail;
      && OccursAt(raw, NL_NL, |Header(length)|)
      && (forall i :: OccursAt(raw, NL_NL, i) ==> i >= |Header(length)|)
      && (forall i :: OccursAt(raw, CRLF_CRLF, i) ==> i >= |Header(length)| + 2)
      && (HasStandardSeparator(raw) <==> HasStandardSeparator(tail))
  {
    var h := Header(length);
    var raw := h + NL_NL + tail;
    HeaderHasNoBreak(length);
    assert forall i :: 0 <= i < |h| ==> raw[i] == h[i];
    assert raw[|h|] == LF && raw[|h| + 1] == LF;
    forall i ensures OccursAt(raw, NL_NL, i) ==> i >= |h| { SeparatorUnits(raw, i); }
    forall i ensures OccursAt(raw, CRLF_CRLF, i) ==> i >= |h| + 2 { SeparatorUnits(raw, i); }
    forall i: int | i >= 0 ensures OccursAt(raw, CRLF_CRLF, |h| + 2 + i) <==> OccursAt(tail, CRLF_CRLF, i) {
      if i + 4 <= |tail| { assert raw[|h| + 2 + i..|h| + 2 + i + 4] == tail[i..i + 4]; }
    }
    if HasStandardSeparator(raw) {
      var i :| OccursAt(raw, CRLF_CRLF, i);
      assert OccursAt(tail, CRLF_CRLF, i - |h| - 2);
    }
    if HasStandardSeparator(tail) {
      var i :| OccursAt(tail, CRLF_CRLF, i);
      assert OccursAt(raw, CRLF_CRLF, |h| + 2 + i);
    }
  }

  lemma LineFeedFrameIsTaken(body: Str, rest: Str)
    requires !HasStandardSeparator(body + rest)
    ensures OneTurn(LineFeedFrame(body) + rest) == Message(body, rest)
  {
    hide ParseContentLength, Header, OccursAt;
    var h, raw := Header(|body|), LineFeedFrame(body) + rest;
    Assoc(h + NL_NL, body, rest);
    SeparatorBehind(|body|, body + rest);
    assert !OccursAt(raw, CRLF_CRLF, |h|);
    assert FindHeaderSeparator(raw) == Some(|h|) by { FirstLineFeeds(raw, |h|); }
    hide FindHeaderSeparator;
    ContentLengthRoundTrip(|body|);
    assert raw[..|h|] == h;
    assert raw[|h| + 2..|h| + 2 + |body|] == body;
    assert raw[|h| + 2 + |body|..] == rest;
  }

  lemma FirstLineFeeds(raw: Str, at: nat)
    requires !HasStandardSeparator(raw) && OccursAt(raw, NL_NL, at)
    requires forall i :: OccursAt(raw, NL_NL, i) ==> i >= at
    ensures FindHeaderSeparator(raw) == Some(at)
  {
    hide OccursAt;
    FindIsFirst(raw, CRLF_CRLF, 0);
    FindIsFirst(raw, NL_NL, 0);
  }

  lemma StandardSeparatorIsFound(raw: Str)
    requires HasStandardSeparator(raw)
    ensures FindHeaderSeparator(raw).Some? && OccursAt(raw, CRLF_CRLF, FindHeaderSeparator(raw).value)
  {
    var i :| OccursAt(raw, CRLF_CRLF, i);
    SeparatorUnits(raw, i);
    hide OccursAt;
    FindIsFirst(raw, CRLF_CRLF, 0);
  }

  lemma MessageLength(raw: Str)
    requires FindHeaderSeparator(raw).Some? && OccursAt(raw, CRLF_CRLF, FindHeaderSeparator(raw).value)
    requires OneTurn(raw).Message?
    ensures |OneTurn(raw).rest| == |raw| - (FindHeaderSeparator(raw).value + 4 + |OneTurn(raw).body|)
  {
    hide FindHeaderSeparator, ParseContentLength;
  }

  lemma LineFeedFrameIsMisread(body: Str, rest: Str)
    requires HasStandardSeparator(body + rest)
    ensures OneTurn(LineFeedFrame(body) + rest) != Message(body, rest)
  {
    var h, raw := Header(|body|), LineFeedFrame(body) + rest;
    Assoc(h + NL_NL, body, rest);
    SeparatorBehind(|body|, body + rest);
    StandardSeparatorIsFound(raw);
    hide OneTurn, FindHeaderSeparator, Header, HasStandardSeparator, OccursAt;
    assert FindHeaderSeparator(raw).value >= |h| + 2;
    if OneTurn(raw).Message? { MessageLength(raw); }
  }

  /** Headers without a length are skipped with their separator. */
  lemma HeaderWithoutLengthIsSkipped(lines: seq<Str>, tail: Str)
    requires AreLines(lines) && forall i :: 0 <= i < |lines| ==> LineLength(lines[i]).None?
    ensures OneTurn(Block(lines) + CRLF_CRLF + tail) == Skip(tail)
  {
    hide LineLength, Block, FindHeaderSeparator, SplitLines, OneTurn;
    SeparatorAfterBlock(lines, tail);
    LinesOfBlock(lines);
    NoLength(lines);
    HeaderIsSkipped(Block(lines), tail);
  }

  lemma HeaderIsSkipped(header: Str, tail: Str)
    requires FindHeaderSeparator(header + CRLF_CRLF + tail) == Some(|header|)
    requires ParseContentLength(header) == None
    ensures OneTurn(header + CRLF_CRLF + tail) == Skip(tail)
  {
    hide FindHeaderSeparator, ParseContentLength;
    var raw := header + CRLF_CRLF + tail;
    assert raw[..|header|] == header && raw[|header| + 4..] == tail;
    assert raw[|header| + 1] == LF && raw[|header| + 2] == CR;
  }

  /** With two line feeds for the separator nothing else is skipped exactly when no carriage
      return follows: the byte behind them decides how long the separator is taken to be. */
  lemma LineFeedsAreSkippedExactlyWhen(header: Str, tail: Str)
    requires FindHeaderSeparator(header + NL_NL + tail) == Some(|header|)
    requires ParseContentLength(header) == None
    ensures OneTurn(header + NL_NL + tail) == Skip(tail) <==> tail == [] || tail[0] != CR
  {
    hide FindHeaderSeparator, ParseContentLength;
    var raw := header + NL_NL + tail;
    assert raw[..|header|] == header && raw[|header| + 2..] == tail;
    assert raw[|header| + 1] == LF && (tail != [] ==> raw[|header| + 2] == tail[0]);
  }

  lemma {:induction false} NoLength(lines: seq<Str>)
    requires forall i :: 0 <= i < |lines| ==> LineLength(lines[i]).None?
    ensures FirstLength(lines) == None
  {
    hide LineLength;
    if lines != [] { NoLength(lines[1..]); }
  }

  /** The name may be written in any case. */
  lemma LengthInAnyCase(name: Str, length: nat)
    requires |name| == 14 && forall i :: 0 <= i < 14 ==> LowerCase(name[i]) == CONTENT_LENGTH[i]
    ensures LineLength(name + [COLON, 32] + Dec(length)) == Some(length)
  {
    var line := name + [COLON, 32] + Dec(length);
    NamedUnits(name, Dec(length));
    TrimDigits(Dec(length));
    ParseIntOfDec(length);
    hide Trim, StartsWithContentLength, ParseInt, Dec, LowerCase;
    assert line[14] == COLON && line[15..] == [32] + Dec(length);
    IndexOfIs(line, COLON, 14);
  }

  lemma ParseIntOfDec(length: nat)
    ensures ParseInt(Dec(length)) == Some(length)
  {
    DigitRunOfDigits(Dec(length));
    DecRoundTrip(length);
    assert IsDigit(Dec(length)[0]);
  }

  /** Numbers may have a sign. */
  lemma ParseIntOfSigned(n: nat)
    ensures var i: int := n; ParseInt([45] + Dec(n)) == Some(-i) && ParseInt([43] + Dec(n)) == Some(i)
  {
    DigitRunOfDigits(Dec(n));
    DecRoundTrip(n);
    hide Dec, DigitRun, DecValue;
    assert ([45] + Dec(n))[1..] == Dec(n) && ([43] + Dec(n))[1..] == Dec(n);
  }

  /** A line that gives a length begins with the header's name, in whatever case. */
  lemma LengthNeedsName(line: Str)
    requires LineLength(line).Some?
    ensures |Trim(line)| >= 14 && forall i :: 0 <= i < 14 ==> LowerCase(Trim(line)[i]) == CONTENT_LENGTH[i]
  {
    hide Trim, ParseInt, LowerCase;
  }

  lemma NamedUnits(name: Str, digits: Str)
    requires |name| == 14 && forall i :: 0 <= i < 14 ==> LowerCase(name[i]) == CONTENT_LENGTH[i]
    requires digits != [] && AllDigits(digits)
    ensures var line := name + [COLON, 32] + digits;
      Trim(line) == line && StartsWithContentLength(line) && COLON !in line[..14]
  {
    var line := name + [COLON, 32] + digits;
    assert line[..14] == name;
    assert line[0] == name[0] && LowerCase(name[0]) == 99;
    assert line[|line| - 1] == digits[|digits| - 1] && IsDigit(digits[|digits| - 1]);
    forall i | 0 <= i < 14 ensures name[i] != COLON {
      assert CONTENT_LENGTH[i] != COLON;
    }
  }

  /** Such a frame is taken out whole exactly when nothing that has arrived behind its header
      looks like a standard separator: that one is looked for first, in the whole buffer. */
  lemma LineFeedFrameIsTakenExactlyWhen(body: Str, rest: Str)
    ensures OneTurn(LineFeedFrame(body) + rest) == Message(body, rest) <==> !HasStandardSeparator(body + rest)
  {
    hide OneTurn, HasStandardSeparator;
    if HasStandardSeparator(body + rest) {
      LineFeedFrameIsMisread(body, rest);
    } else {
      LineFeedFrameIsTaken(body, rest);
    }
  }

  /** Of a frame with line feeds and a standard one that arrive together, the first is lost:
      its body is looked for behind the header of the second. */
  lemma LineFeedFrameBeforeStandardOne(body: Str, next: Str)
    ensures OneTurn(LineFeedFrame(body) + Frame(next)) != Message(body, Frame(next))
  {
    hide OneTurn, Header;
    var s := body + Frame(next);
    var at := |body| + |Header(|next|)|;
    assert s[at..at + 4] == CRLF_CRLF;
    assert OccursAt(s, CRLF_CRLF, at);
    LineFeedFrameIsTakenExactlyWhen(body, Frame(next));
  }

  // ----- The parser between events -----

  /** `immediate` says that `setImmediate` has been asked to go on with `processMessages`;
      `taken` lists the bodies cut out of the stream, in order. */
  datatype Parser = Parser(raw: Str, processing: bool, immediate: bool, batch: nat, taken: seq<Str>)

  datatype Event = Data(chunk: Str) | Immediate

  const IDLE := Parser([], false, false, 0, [])

  /** After the loop: go on later, or be done. */
  function Finish(p: Parser): Parser {
    if |p.raw| > 0 && p.batch >= MAX_MESSAGES_PER_BATCH then p.(batch := 0, immediate := true)
    else p.(processing := false)
  }

  /** `processMessages`. Only bodies that parse and are handled without an exception count
      towards the batch. */
  function Process(p: Parser, accepts: Str -> bool): Parser
    decreases |p.raw|
  {
    if p.batch >= MAX_MESSAGES_PER_BATCH then Finish(p)
    else
      match OneTurn(p.raw)
      case NeedMore => Finish(p)
      case Skip(rest) => Process(p.(raw := rest), accepts)
      case Message(body, rest) =>
        Process(p.(raw := rest, taken := p.taken + [body], batch := if accepts(body) then p.batch + 1 else p.batch),
                accepts)
  }

  function Step(p: Parser, e: Event, accepts: Str -> bool): Parser {
    match e
    case Data(chunk) =>
      var q := p.(raw := p.raw + chunk);
      if p.processing then q else Process(q.(processing := true, batch := 0), accepts)
    case Immediate =>
      if p.immediate then Process(p.(immediate := false), accepts) else p
  }

  /** The buffer is what has arrived after the bodies taken so far, which are the first of
      those sent. */
  ghost predicate InStream(p: Parser, sent: seq<Str>, received: Str) {
    && received <= Stream(sent)
    && p.taken <= sent
    && received == Stream(p.taken) + p.raw
  }

  /** Between events the parser is at rest only when no complete frame is waiting, and
      otherwise it has been asked to go on. */
  ghost predicate Inv(p: Parser, sent: seq<Str>, received: Str) {
    && InStream(p, sent, received)
    && p.processing == p.immediate
    && (!p.processing ==> OneTurn(p.raw).NeedMore?)
    && (p.immediate ==> p.batch == 0)
  }

  lemma {:induction false} StreamSplit(bodies: seq<Str>, k: nat)
    requires k <= |bodies|
    ensures Stream(bodies) == Stream(bodies[..k]) + Stream(bodies[k..])
  {
    if k == 0 {
      assert bodies[..0] == [] && bodies[0..] == bodies;
      assert [] + Stream(bodies) == Stream(bodies);
    } else {
      StreamSplit(bodies[1..], k - 1);
      assert bodies[1..][..k - 1] == bodies[..k][1..] && bodies[1..][k - 1..] == bodies[k..];
      Assoc(Frame(bodies[0]), Stream(bodies[..k][1..]), Stream(bodies[k..]));
    }
  }

  lemma StreamSnoc(bodies: seq<Str>, body: Str)
    ensures Stream(bodies + [body]) == Stream(bodies) + Frame(body)
  {
    var all := bodies + [body];
    StreamSplit(all, |bodies|);
    assert all[..|bodies|] == bodies && all[|bodies|..] == [body];
    assert [body][1..] == [];
    assert Frame(body) + [] == Frame(body);
  }

  /** What is in the buffer is the beginning of the frames still to come. */
  lemma RawIsPrefix(p: Parser, sent: seq<Str>, received: Str)
    requires InStream(p, sent, received)
    ensures p.raw <= Stream(sent[|p.taken|..])
  {
    StreamSplit(sent, |p.taken|);
    assert sent[..|p.taken|] == p.taken;
    assert Stream(sent)[|Stream(p.taken)|..] == Stream(sent[|p.taken|..]);
    assert received[|Stream(p.taken)|..] == p.raw;
  }

  /** In a stream of frames no turn skips a header, and a body is taken exactly when the next
      frame is there completely. */
  lemma TurnInStream(p: Parser, sent: seq<Str>, received: Str)
    requires InStream(p, sent, received)
    ensures OneTurn(p.raw).NeedMore? || OneTurn(p.raw).Message?
    ensures OneTurn(p.raw).Message? ==>
      |p.taken| < |sent| && OneTurn(p.raw).body == sent[|p.taken|] &&
      p.raw == Frame(OneTurn(p.raw).body) + OneTurn(p.raw).rest
    ensures OneTurn(p.raw).NeedMore? && |p.taken| < |sent| ==> !(Frame(sent[|p.taken|]) <= p.raw)
  {
    RawIsPrefix(p, sent, received);
    var todo := sent[|p.taken|..];
    if todo == [] {
      NoSeparator(p.raw);
    } else if |Frame(todo[0])| <= |p.raw| {
      var rest := p.raw[|Frame(todo[0])|..];
      assert Frame(todo[0]) == Stream(todo)[..|Frame(todo[0])|] == p.raw[..|Frame(todo[0])|];
      assert p.raw == Frame(todo[0]) + rest;
      FrameIsTaken(todo[0], rest);
    } else {
      assert p.raw == Stream(todo)[..|p.raw|] == Frame(todo[0])[..|p.raw|];
      PartialFrameWaits(todo[0], p.raw);
    }
  }

  lemma TakenKeepsInStream(p: Parser, sent: seq<Str>, received: Str, q: Parser)
    requires InStream(p, sent, received) && OneTurn(p.raw).Message?
    requires q.raw == OneTurn(p.raw).rest && q.taken == p.taken + [OneTurn(p.raw).body]
    ensures InStream(q, sent, received)
  {
    hide OneTurn;
    TurnInStream(p, sent, received);
    var body, rest := OneTurn(p.raw).body, OneTurn(p.raw).rest;
    StreamSnoc(p.taken, body);
    Assoc(Stream(p.taken), Frame(body), rest);
  }

  lemma {:induction false} ProcessKeepsInv(p: Parser, sent: seq<Str>, received: Str, accepts: Str -> bool)
    requires InStream(p, sent, received) && p.processing && !p.immediate
    ensures Inv(Process(p, accepts), sent, received)
    ensures |p.taken| <= |Process(p, accepts).taken|
    ensures Process(p, accepts).processing ==>
      |p.taken| < |Process(p, accepts).taken| || p.batch >= MAX_MESSAGES_PER_BATCH
    decreases |p.raw|
  {
    hide OneTurn;
    TurnInStream(p, sent, received);
    if p.batch >= MAX_MESSAGES_PER_BATCH {
      assert OneTurn([]).NeedMore? by { NoSeparator([]); }
    } else if OneTurn(p.raw).Message? {
      var body, rest := OneTurn(p.raw).body, OneTurn(p.raw).rest;
      var q := p.(raw := rest, taken := p.taken + [body], batch := if accepts(body) then p.batch + 1 else p.batch);
      TakenKeepsInStream(p, sent, received, q);
      ProcessKeepsInv(q, sent, received, accepts);
    }
  }

  function Arrived(e: Event): Str {
    match e
    case Data(chunk) => chunk
    case Immediate => []
  }

  lemma StepKeepsInv(p: Parser, e: Event, sent: seq<Str>, received: Str, accepts: Str -> bool)
    requires Inv(p, sent, received) && received + Arrived(e) <= Stream(sent)
    ensures Inv(Step(p, e, accepts), sent, received + Arrived(e))
  {
    assert received + [] == received;
    match e
    case Data(chunk) =>
      Assoc(Stream(p.taken), p.raw, chunk);
      if !p.processing {
        ProcessKeepsInv(p.(raw := p.raw + chunk, processing := true, batch := 0), sent, received + chunk, accepts);
      }
    case Immediate =>
      if p.immediate {
        ProcessKeepsInv(p.(immediate := false), sent, received, accepts);
      }
  }

  function Received(es: seq<Event>): Str {
    if es == [] then [] else Received(es[..|es| - 1]) + Arrived(es[|es| - 1])
  }

  /** The parser after a run in which a beginning of the frames of `sent` arrives. */
  ghost function Run(es: seq<Event>, sent: seq<Str>, accepts: Str -> bool): (p: Parser)
    requires Received(es) <= Stream(sent)
    ensures Inv(p, sent, Received(es))
  {
    if es == [] then
      NoSeparator([]);
      assert [] + [] == Received([]);
      IDLE
    else
      var n := |es| - 1;
      assert Received(es[..n]) <= Received(es);
      var p := Run(es[..n], sent, accepts);
      StepKeepsInv(p, es[n], sent, Received(es[..n]), accepts);
      Step(p, es[n], accepts)
  }

  /** For all bodies and every way their frames are cut into chunks and batches: the bodies
      taken are the first of those sent, and the buffer holds what arrived after them. When
      the parser is at rest no complete frame is waiting, and when everything has arrived
      all bodies have been taken. */
  lemma BodiesAreTakenInOrder(es: seq<Event>, sent: seq<Str>, accepts: Str -> bool)
    requires Received(es) <= Stream(sent)
    ensures Run(es, sent, accepts).taken <= sent
    ensures Received(es) == Stream(Run(es, sent, accepts).taken) + Run(es, sent, accepts).raw
    ensures !Run(es, sent, accepts).processing && |Run(es, sent, accepts).taken| < |sent| ==>
      !(Frame(sent[|Run(es, sent, accepts).taken|]) <= Run(es, sent, accepts).raw)
    ensures Received(es) == Stream(sent) && !Run(es, sent, accepts).processing ==>
      Run(es, sent, accepts).taken == sent
  {
    var p := Run(es, sent, accepts);
    TurnInStream(p, sent, Received(es));
    if Received(es) == Stream(sent) && |p.taken| < |sent| {
      StreamSplit(sent, |p.taken|);
      assert sent[..|p.taken|] == p.taken;
      SplitAt(Stream(p.taken), p.raw, Stream(p.taken), Stream(sent[|p.taken|..]));
    }
  }

  function ImmediateTimes(p: Parser, n: nat, accepts: Str -> bool): Parser
    decreases n
  {
    if n == 0 then p else ImmediateTimes(Step(p, Immediate, accepts), n - 1, accepts)
  }

  /** The parser never stalls between batches: the callbacks it has asked for bring it to
      rest after finitely many turns, at most one more than there are bodies left. */
  lemma {:induction false} ImmediatesBringRest(p: Parser, sent: seq<Str>, received: Str, accepts: Str -> bool)
    returns (n: nat)
    requires Inv(p, sent, received)
    ensures n <= |sent| - |p.taken| + 1 && !ImmediateTimes(p, n, accepts).processing
    decreases |sent| - |p.taken|
  {
    hide OneTurn;
    if !p.processing {
      return 0;
    }
    var q := Step(p, Immediate, accepts);
    assert received + [] == received;
    StepKeepsInv(p, Immediate, sent, received, accepts);
    if !q.processing {
      assert ImmediateTimes(q, 0, accepts) == q;
      return 1;
    }
    ProcessKeepsInv(p.(immediate := false), sent, received, accepts);
    n := ImmediatesBringRest(q, sent, received, accepts);
    n := n + 1;
  }

  // ----- Batches -----

  function Accepted(bodies: seq<Str>, accepts: Str -> bool): nat {
    if bodies == [] then 0
    else Accepted(bodies[..|bodies| - 1], accepts) + if accepts(bodies[|bodies| - 1]) then 1 else 0
  }

  lemma OneMoreAccepted(bodies: seq<Str>, body: Str, accepts: Str -> bool)
    ensures Accepted(bodies + [body], accepts) == Accepted(bodies, accepts) + if accepts(body) then 1 else 0
  {
    assert (bodies + [body])[..|bodies|] == bodies;
  }

  /** From one event to the next at most fifty messages are handled, and exactly fifty when the
      parser gives way with more to read. */
  lemma {:induction false} ProcessGivesWay(p: Parser, accepts: Str -> bool, before: seq<Str>)
    requires p.processing && !p.immediate && before <= p.taken
    requires p.batch == Accepted(p.taken[|before|..], accepts) <= 50
    ensures var q := Process(p, accepts);
      && before <= q.taken && Accepted(q.taken[|before|..], accepts) <= 50
      && q.processing == q.immediate
      && (q.immediate <==> Accepted(q.taken[|before|..], accepts) == 50 && q.raw != [])
    decreases |p.raw|
  {
    hide OneTurn, Accepted;
    if p.batch < MAX_MESSAGES_PER_BATCH {
      match OneTurn(p.raw)
      case NeedMore =>
      case Skip(rest) => ProcessGivesWay(p.(raw := rest), accepts, before);
      case Message(body, rest) =>
        var q := p.(raw := rest, taken := p.taken + [body], batch := if accepts(body) then p.batch + 1 else p.batch);
        assert q.taken[|before|..] == p.taken[|before|..] + [body];
        OneMoreAccepted(p.taken[|before|..], body, accepts);
        ProcessGivesWay(q, accepts, before);
    }
  }

  lemma EachEventHandlesAtMostFifty(p: Parser, e: Event, accepts: Str -> bool)
    requires p.processing == p.immediate && (p.immediate ==> p.batch == 0)
    ensures var q := Step(p, e, accepts);
      && p.taken <= q.taken && Accepted(q.taken[|p.taken|..], accepts) <= 50 && q.processing == q.immediate
      && (if p.processing == e.Immediate? then
            q.immediate <==> Accepted(q.taken[|p.taken|..], accepts) == 50 && q.raw != []
          else q.taken == p.taken && q.immediate == p.immediate)
  {
    hide Process;
    assert p.taken[|p.taken|..] == [];
    match e
    case Data(chunk) =>
      if !p.processing {
        ProcessGivesWay(p.(raw := p.raw + chunk, processing := true, batch := 0), accepts, p.taken);
      }
    case Immediate =>
      if p.immediate { ProcessGivesWay(p.(immediate := false), accepts, p.taken); }
  }

  // ----- DebugHelper's end of the pipe -----

  class DebugHelper {
    const accepts: Str -> bool
    var rawBuffer: Str
    var processingMessages: bool
    var immediate: bool
    var messagesProcessedInBatch: nat
    var written: Str
    ghost var taken: seq<Str>

    ghost function State(): Parser
      reads this
    {
      Parser(rawBuffer, processingMessages, immediate, messagesProcessedInBatch, taken)
    }

    constructor (accepts: Str -> bool)
      ensures State() == IDLE && written == [] && this.accepts == accepts
    {
      this.accepts := accepts;
      rawBuffer, processingMessages, immediate, messagesProcessedInBatch := [], false, false, 0;
      written, taken := [], [];
    }

    method SendRequest(body: Str)
      modifies `written
      ensures written == old(written) + Frame(body)
    {
      var header := Header(|body|) + CRLF_CRLF;
      Assoc(written, header, body);
      written := written + header;
      written := written + body;
    }

    method HandleHelperStdout(data: Str)
      modifies this
      ensures State() == Step(old(State()), Data(data), accepts) && written == old(written)
    {
      rawBuffer := rawBuffer + data;
      if processingMessages {
        return;
      }
      processingMessages := true;
      messagesProcessedInBatch := 0;
      ProcessMessages();
    }

    /** The callback given to `setImmediate`. */
    method OnImmediate()
      requires immediate
      modifies this
      ensures State() == Step(old(State()), Immediate, accepts) && written == old(written)
    {
      immediate := false;
      ProcessMessages();
    }

    /** The part of the loop body that looks at the buffer. */
    method LookAtBuffer() returns (t: Turn)
      ensures t == OneTurn(rawBuffer)
    {
      var separatorIndex := FindHeaderSeparator(rawBuffer);
      if separatorIndex.None? {
        return NeedMore;
      }
      var at := separatorIndex.value;
      var contentLength := ParseContentLength(rawBuffer[..at]);
      if contentLength.None? {
        var skip := at + (if UnitAt(rawBuffer, at + 1, LF) && UnitAt(rawBuffer, at + 2, CR) then 4 else 2);
        return Skip(if skip <= |rawBuffer| then rawBuffer[skip..] else []);
      }
      var messageStart := at + (if OccursAt(rawBuffer, CRLF_CRLF, at) then 4 else 2);
      var messageEnd := messageStart + contentLength.value;
      if |rawBuffer| < messageEnd {
        return NeedMore;
      }
      return Message(rawBuffer[messageStart..messageEnd], rawBuffer[messageEnd..]);
    }

    method ProcessMessages()
      modifies this
      ensures State() == Process(old(State()), accepts) && written == old(written)
    {
      hide OneTurn;
      ghost var result := Process(State(), accepts);
      var more := true;
      while more && messagesProcessedInBatch < MAX_MESSAGES_PER_BATCH
        invariant Process(State(), accepts) == result && written == old(written)
        invariant !more && messagesProcessedInBatch < MAX_MESSAGES_PER_BATCH ==> OneTurn(rawBuffer).NeedMore?
        decreases |rawBuffer|, more
      {
        var turn := LookAtBuffer();
        match turn
        case NeedMore =>
          more := false;
        case Skip(rest) =>
          rawBuffer := rest;
        case Message(body, rest) =>
          rawBuffer := rest;
          taken := taken + [body];
          if accepts(body) {
            messagesProcessedInBatch := messagesProcessedInBatch + 1;
          }
      }
      if |rawBuffer| > 0 && messagesProcessedInBatch >= MAX_MESSAGES_PER_BATCH {
        messagesProcessedInBatch := 0;
        immediate := true;
      } else {
        processingMessages := false;
      }
    }
  }
}
