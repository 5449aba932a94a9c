/** Writing to an RTT down-channel: `drainWriteBuffer` and `writeToChannel` as they stand,
    and exactly when they keep the byte stream intact. */
module RttDown {
  import opened Text
  import opened RttRing

  /** The ring, its published offsets, the firmware's private read position, and every byte
      the firmware has read. */
  datatype Sink = Sink(mem: Str, wr: nat, rd: nat, pos: nat, consumed: Str)

  ghost predicate ValidSink(t: Sink) {
    var size := |t.mem|;
    && t.wr < size && t.rd < size && t.pos < size
    && Distance(size, t.rd, t.pos) <= Distance(size, t.rd, t.wr)
  }

  /** While the host waits for GDB, the firmware reads one byte, or gives back some of the
      bytes it has read, or a client hands over more data, which is queued because a write is
      under way. */
  datatype Step = Read | Release(n: nat) | Arrive(data: Str)

  /** The target, the data queued in `pendingWrites` (concatenated), and everything that
      `writeToChannel` has accepted so far. */
  datatype World = World(sink: Sink, pending: Str, accepted: Str)

  predicate InRange(t: Sink) {
    t.wr < |t.mem| && t.rd < |t.mem| && t.pos < |t.mem|
  }

  function Apply(w: World, step: Step): (r: World)
    requires InRange(w.sink)
    ensures InRange(r.sink) && |r.sink.mem| == |w.sink.mem|
  {
    var t := w.sink;
    match step
    case Read =>
      if t.pos == t.wr then w
      else w.(sink := t.(pos := Advance(|t.mem|, t.pos, 1), consumed := t.consumed + [t.mem[t.pos]]))
    case Release(n) =>
      var held := Distance(|t.mem|, t.rd, t.pos);
      w.(sink := t.(rd := Advance(|t.mem|, t.rd, if n < held then n else held)))
    case Arrive(data) => w.(pending := w.pending + data, accepted := w.accepted + data)
  }

  function Run(w: World, steps: seq<Step>): (r: World)
    requires InRange(w.sink)
    ensures InRange(r.sink) && |r.sink.mem| == |w.sink.mem|
    decreases |steps|
  {
    if steps == [] then w else Run(Apply(w, steps[0]), steps[1..])
  }

  type Schedule = seq<seq<Step>>

  function Next(schedule: Schedule): seq<Step> {
    if schedule == [] then [] else schedule[0]
  }

  function Rest(schedule: Schedule): Schedule {
    if schedule == [] then [] else schedule[1..]
  }

  // ----- drainWriteBuffer -----

  /** `spaceAvailable`, from the offsets in the descriptor read at the start of the pass. */
  function Space(size: nat, wr: nat, rd: nat): nat
    requires wr < size && rd < size
  {
    if rd <= wr then size - wr + (if rd > 0 then rd - 1 else 0) else rd - wr - 1
  }

  /** The slots that can really be filled: all but one, so that full never looks empty. */
  function Free(size: nat, wr: nat, rd: nat): nat
    requires wr < size && rd < size
  {
    size - 1 - Distance(size, rd, wr)
  }

  /** What the code sees is what can be filled, and one slot too many when `rdOff` is zero. */
  lemma SpaceIs(size: nat, wr: nat, rd: nat)
    requires wr < size && rd < size
    ensures Space(size, wr, rd) == Free(size, wr, rd) + (if rd == 0 then 1 else 0)
  {}

  /** Memory after a write of `data` at `at`, which does not go past the end. */
  function Poke(mem: Str, at: nat, data: Str): (r: Str)
    requires at + |data| <= |mem|
    ensures |r| == |mem|
  {
    mem[..at] + data + mem[at + |data|..]
  }

  /** One `writeMemoryBytes` into the ring, after whatever happens while waiting. */
  function PokeStep(w: World, at: nat, data: Str, schedule: Schedule): (r: World)
    requires InRange(w.sink) && at + |data| <= |w.sink.mem|
    ensures InRange(r.sink) && |r.sink.mem| == |w.sink.mem|
  {
    var v := Run(w, Next(schedule));
    v.(sink := v.sink.(mem := Poke(v.sink.mem, at, data)))
  }

  /** One turn of the loop: the bytes, in one write or two, then the new `wrOff`. */
  function WriteChunk(w: World, wr: nat, chunk: Str, schedule: Schedule): (r: (World, Schedule))
    requires InRange(w.sink) && wr < |w.sink.mem| && |chunk| <= |w.sink.mem|
    ensures InRange(r.0.sink) && |r.0.sink.mem| == |w.sink.mem|
  {
    var size := |w.sink.mem|;
    var first := if wr + |chunk| <= size then |chunk| else size - wr;
    var w1 := PokeStep(w, wr, chunk[..first], schedule);
    var s1 := Rest(schedule);
    var (w2, s2) := if first == |chunk| then (w1, s1) else (PokeStep(w1, 0, chunk[first..], s1), Rest(s1));
    var w3 := Run(w2, Next(s2));
    (w3.(sink := w3.sink.(wr := Advance(size, wr, |chunk|))), Rest(s2))
  }

  /** The whole pass over `buffer`, from the descriptor offsets `wr` and `rd`. They are not
      refreshed: every turn computes its space from them and writes at the same `wr`. */
  function Drain(w: World, wr: nat, rd: nat, buffer: Str, schedule: Schedule): (r: (World, Str))
    requires InRange(w.sink) && wr < |w.sink.mem| && rd < |w.sink.mem|
    ensures InRange(r.0.sink)
    decreases |buffer|
  {
    var space := Space(|w.sink.mem|, wr, rd);
    if buffer == [] || space == 0 then (w, buffer)
    else
      var n := if space < |buffer| then space else |buffer|;
      var (w1, s1) := WriteChunk(w, wr, buffer[..n], schedule);
      Drain(w1, wr, rd, buffer[n..], s1)
  }

  /** What the firmware has read, will find in the ring, and will still be sent, in order. */
  ghost function Stream(w: World, buffer: Str): Str
    requires InRange(w.sink)
  {
    w.sink.consumed + Span(w.sink.mem, w.sink.pos, w.sink.wr) + buffer + w.pending
  }

  /** Every accepted byte is on its way, once and in the order of the calls. */
  ghost predicate InOrder(w: World, buffer: Str)
    requires InRange(w.sink)
  {
    Stream(w, buffer) == w.accepted
  }

  /** The ring is sound and the stream in order. */
  ghost predicate Ordered(w: World, buffer: Str) {
    ValidSink(w.sink) && InOrder(w, buffer)
  }

  // ----- What waiting for GDB can change -----

  lemma ApplyKeeps(w: World, step: Step, buffer: Str)
    requires ValidSink(w.sink) && InOrder(w, buffer)
    ensures var v := Apply(w, step);
      && ValidSink(v.sink) && InOrder(v, buffer)
      && v.sink.mem == w.sink.mem && v.sink.wr == w.sink.wr
      && Distance(|v.sink.mem|, v.sink.rd, v.sink.wr) <= Distance(|w.sink.mem|, w.sink.rd, w.sink.wr)
  {
    var t, v := w.sink, Apply(w, step);
    match step
    case Read =>
      if t.pos != t.wr {
        var next := Advance(|t.mem|, t.pos, 1);
        assert Span(t.mem, t.pos, t.wr) == [t.mem[t.pos]] + Span(t.mem, next, t.wr);
        Assoc(t.consumed, [t.mem[t.pos]], Span(t.mem, next, t.wr));
      }
    case Release(_) =>
    case Arrive(data) =>
      Assoc(t.consumed + Span(t.mem, t.pos, t.wr) + buffer, w.pending, data);
  }

  lemma {:induction false} RunKeeps(w: World, steps: seq<Step>, buffer: Str)
    requires ValidSink(w.sink) && InOrder(w, buffer)
    ensures var v := Run(w, steps);
      && ValidSink(v.sink) && InOrder(v, buffer)
      && v.sink.mem == w.sink.mem && v.sink.wr == w.sink.wr
      && Distance(|v.sink.mem|, v.sink.rd, v.sink.wr) <= Distance(|w.sink.mem|, w.sink.rd, w.sink.wr)
    decreases |steps|
  {
    if steps != [] {
      ApplyKeeps(w, steps[0], buffer);
      RunKeeps(Apply(w, steps[0]), steps[1..], buffer);
    }
  }

  // ----- One turn that fits -----

  /** Filling free slots, `skip` places after `wr`, leaves the unread bytes alone. */
  lemma PokeKeepsUnread(mem: Str, pos: nat, wr: nat, skip: nat, data: Str)
    requires pos < |mem| && wr < |mem|
    requires skip + |data| + Distance(|mem|, pos, wr) <= |mem|
    requires Advance(|mem|, wr, skip) + |data| <= |mem|
    ensures Span(Poke(mem, Advance(|mem|, wr, skip), data), pos, wr) == Span(mem, pos, wr)
  {
    var at := Advance(|mem|, wr, skip);
    PokeElsewhere(mem, at, data);
    hide Poke;
  }

  lemma PokeElsewhere(mem: Str, at: nat, data: Str)
    requires at + |data| <= |mem|
    ensures forall k :: 0 <= k < at ==> Poke(mem, at, data)[k] == mem[k]
    ensures forall k :: at + |data| <= k < |mem| ==> Poke(mem, at, data)[k] == mem[k]
  {}

  lemma PokeStepKeeps(w: World, skip: nat, data: Str, schedule: Schedule, buffer: Str)
    requires ValidSink(w.sink) && InOrder(w, buffer)
    requires skip + |data| + Distance(|w.sink.mem|, w.sink.rd, w.sink.wr) <= |w.sink.mem|
    requires Advance(|w.sink.mem|, w.sink.wr, skip) + |data| <= |w.sink.mem|
    ensures var at := Advance(|w.sink.mem|, w.sink.wr, skip);
      var v := PokeStep(w, at, data, schedule);
      && ValidSink(v.sink) && InOrder(v, buffer)
      && v.sink.mem == Poke(w.sink.mem, at, data) && v.sink.wr == w.sink.wr
      && Distance(|v.sink.mem|, v.sink.rd, v.sink.wr) <= Distance(|w.sink.mem|, w.sink.rd, w.sink.wr)
  {
    RunKeeps(w, Next(schedule), buffer);
    var v := Run(w, Next(schedule));
    DistanceShrinks(v.sink);
    PokeKeepsUnread(v.sink.mem, v.sink.pos, v.sink.wr, skip, data);
  }

  lemma DistanceShrinks(t: Sink)
    requires ValidSink(t)
    ensures Distance(|t.mem|, t.pos, t.wr) <= Distance(|t.mem|, t.rd, t.wr)
  {}

  function FirstPart(size: nat, wr: nat, n: nat): nat
    requires wr < size
  {
    if wr + n <= size then n else size - wr
  }

  lemma PokeReads(mem: Str, at: nat, data: Str, from: nat)
    requires at + |data| <= from <= |mem|
    ensures Poke(mem, at, data)[at..at + |data|] == data
    ensures Poke(mem, at, data)[from..] == mem[from..]
  {}

  /** The two stretches of a write around the end hold the chunk. */
  lemma ChunkLands(mem: Str, wr: nat, chunk: Str)
    requires wr < |mem| && |chunk| < |mem|
    ensures var first := FirstPart(|mem|, wr, |chunk|);
      var mem1 := Poke(mem, wr, chunk[..first]);
      var mem2 := if first == |chunk| then mem1 else Poke(mem1, 0, chunk[first..]);
      Span(mem2, wr, Advance(|mem|, wr, |chunk|)) == chunk
  {
    hide Poke;
    var first := FirstPart(|mem|, wr, |chunk|);
    var mem1 := Poke(mem, wr, chunk[..first]);
    PokeReads(mem, wr, chunk[..first], wr + first);
    if first < |chunk| {
      var second := chunk[first..];
      PokeReads(mem1, 0, second, wr);
      assert Poke(mem1, 0, second)[..|second|] == second;
      assert chunk == chunk[..first] + second;
    } else {
      assert chunk[..first] == chunk;
      assert wr + first == |mem| ==> mem1[wr..] + mem1[..0] == mem1[wr..wr + first];
    }
  }

  /** Moving `wrOff` over a chunk that lies in free slots announces exactly that chunk. */
  lemma AnnounceChunk(w: World, chunk: Str, rest: Str)
    requires ValidSink(w.sink) && InOrder(w, chunk + rest)
    requires |chunk| + Distance(|w.sink.mem|, w.sink.rd, w.sink.wr) < |w.sink.mem|
    requires Span(w.sink.mem, w.sink.wr, Advance(|w.sink.mem|, w.sink.wr, |chunk|)) == chunk
    ensures var v := w.(sink := w.sink.(wr := Advance(|w.sink.mem|, w.sink.wr, |chunk|)));
      ValidSink(v.sink) && InOrder(v, rest)
  {
    var t := w.sink;
    var next := Advance(|t.mem|, t.wr, |chunk|);
    DistanceShrinks(t);
    SpanSplit(t.mem, t.pos, t.wr, next);
    SpanSplit(t.mem, t.rd, t.wr, next);
    Assoc(t.consumed, Span(t.mem, t.pos, t.wr), chunk);
    Assoc(t.consumed + Span(t.mem, t.pos, t.wr), chunk, rest);
  }

  lemma WriteChunkKeeps(w: World, chunk: Str, rest: Str, schedule: Schedule)
    requires ValidSink(w.sink) && InOrder(w, chunk + rest)
    requires |chunk| + Distance(|w.sink.mem|, w.sink.rd, w.sink.wr) < |w.sink.mem|
    ensures var v := WriteChunk(w, w.sink.wr, chunk, schedule).0;
      ValidSink(v.sink) && InOrder(v, rest)
  {
    var size, wr := |w.sink.mem|, w.sink.wr;
    var first := FirstPart(size, wr, |chunk|);
    PokeStepKeeps(w, 0, chunk[..first], schedule, chunk + rest);
    var w1, s1 := PokeStep(w, wr, chunk[..first], schedule), Rest(schedule);
    var w2, s2 := w1, s1;
    if first < |chunk| {
      PokeStepKeeps(w1, first, chunk[first..], s1, chunk + rest);
      w2, s2 := PokeStep(w1, 0, chunk[first..], s1), Rest(s1);
    }
    ChunkLands(w.sink.mem, wr, chunk);
    RunKeeps(w2, Next(s2), chunk + rest);
    AnnounceChunk(Run(w2, Next(s2)), chunk, rest);
  }

  // ----- When a pass keeps the stream in order -----

  /** What a caller can check on the descriptor: there is nothing to write, or no slot is free
      and `rdOff` is not zero, or everything fits into the free slots. */
  predicate PassIsSafe(size: nat, wr: nat, rd: nat, n: nat)
    requires wr < size && rd < size
  {
    n == 0 || (Free(size, wr, rd) == 0 && rd > 0) || n <= Free(size, wr, rd)
  }

  /** A full ring whose `rdOff` is not zero is left alone, and so is the buffer. */
  lemma FullRingIsLeftAlone(w: World, wr: nat, rd: nat, buffer: Str, schedule: Schedule)
    requires InRange(w.sink) && wr < |w.sink.mem| && 0 < rd < |w.sink.mem|
    requires Free(|w.sink.mem|, wr, rd) == 0
    ensures Drain(w, wr, rd, buffer, schedule) == (w, buffer)
  {
    SpaceIs(|w.sink.mem|, wr, rd);
  }

  /** Otherwise each turn writes what fits into the free slots, and one more when `rdOff` is
      zero, and cuts it from the buffer. */
  lemma TurnFillsFreeSlots(w: World, wr: nat, rd: nat, buffer: Str, schedule: Schedule)
    requires InRange(w.sink) && wr < |w.sink.mem| && rd < |w.sink.mem| && buffer != []
    requires Free(|w.sink.mem|, wr, rd) > 0 || rd == 0
    ensures var room := Free(|w.sink.mem|, wr, rd) + (if rd == 0 then 1 else 0);
      var n := if room < |buffer| then room else |buffer|;
      var turn := WriteChunk(w, wr, buffer[..n], schedule);
      0 < n <= |w.sink.mem| && Drain(w, wr, rd, buffer, schedule) == Drain(turn.0, wr, rd, buffer[n..], turn.1)
  {
    SpaceIs(|w.sink.mem|, wr, rd);
  }

  /** A safe pass keeps every accepted byte in order, whatever happens meanwhile. */
  lemma SafePassKeepsOrder(w: World, buffer: Str, schedule: Schedule)
    requires ValidSink(w.sink) && InOrder(w, buffer)
    requires PassIsSafe(|w.sink.mem|, w.sink.wr, w.sink.rd, |buffer|)
    ensures var r := Drain(w, w.sink.wr, w.sink.rd, buffer, schedule);
      ValidSink(r.0.sink) && InOrder(r.0, r.1)
  {
    var t := w.sink;
    var space := Space(|t.mem|, t.wr, t.rd);
    if buffer != [] && space > 0 {
      assert |buffer| <= space;
      assert buffer[..|buffer|] == buffer && buffer == buffer + [];
      WriteChunkKeeps(w, buffer, [], schedule);
    }
  }

  function LastChunk(n: nat, space: nat): (r: nat)
    requires n > 0 && space > 0
    ensures 0 < r <= space && r <= n
  {
    if n <= space then n else LastChunk(n - space, space)
  }

  /** With a quiet firmware, every turn of the pass overwrites the one before. */
  lemma {:induction false} QuietPass(w: World, wr: nat, rd: nat, buffer: Str)
    requires InRange(w.sink) && wr < |w.sink.mem| && rd < |w.sink.mem|
    requires buffer != [] && Space(|w.sink.mem|, wr, rd) > 0
    ensures var r := Drain(w, wr, rd, buffer, []);
      var last := LastChunk(|buffer|, Space(|w.sink.mem|, wr, rd));
      && r.1 == []
      && |r.0.sink.mem| == |w.sink.mem|
      && r.0.sink.wr == Advance(|w.sink.mem|, wr, last)
      && r.0.sink.pos == w.sink.pos && r.0.sink.consumed == w.sink.consumed
      && r.0.pending == w.pending && r.0.accepted == w.accepted
    decreases |buffer|
  {
    var space := Space(|w.sink.mem|, wr, rd);
    var n := if space < |buffer| then space else |buffer|;
    QuietChunk(w, wr, buffer[..n]);
    if n < |buffer| {
      QuietPass(WriteChunk(w, wr, buffer[..n], []).0, wr, rd, buffer[n..]);
    }
  }

  lemma QuietChunk(w: World, wr: nat, chunk: Str)
    requires InRange(w.sink) && wr < |w.sink.mem| && |chunk| <= |w.sink.mem|
    ensures var r := WriteChunk(w, wr, chunk, []);
      && r.1 == []
      && r.0.sink.wr == Advance(|w.sink.mem|, wr, |chunk|)
      && r.0.sink.pos == w.sink.pos && r.0.sink.consumed == w.sink.consumed
      && r.0.pending == w.pending && r.0.accepted == w.accepted
  {}

  /** After an unsafe pass, the ring holds too little. */
  lemma UnsafeDistance(size: nat, wr: nat, rd: nat, n: nat)
    requires wr < size && rd < size && !PassIsSafe(size, wr, rd, n)
    ensures Distance(size, rd, Advance(size, wr, LastChunk(n, Space(size, wr, rd)))) < Distance(size, rd, wr) + n
  {}

  lemma StreamLength(w: World, buffer: Str)
    requires InRange(w.sink)
    ensures |Stream(w, buffer)| ==
      |w.sink.consumed| + Distance(|w.sink.mem|, w.sink.pos, w.sink.wr) + |buffer| + |w.pending|
  {}

  /** The position of the firmware is on the way from `rd` to `wr`. */
  lemma PositionOnTheWay(t: Sink)
    requires ValidSink(t)
    ensures Distance(|t.mem|, t.rd, t.wr) == Distance(|t.mem|, t.rd, t.pos) + Distance(|t.mem|, t.pos, t.wr)
  {}

  lemma UnsafePassBreaksOrder(w: World, buffer: Str)
    requires ValidSink(w.sink) && |Stream(w, buffer)| == |w.accepted|
    requires !PassIsSafe(|w.sink.mem|, w.sink.wr, w.sink.rd, |buffer|)
    ensures var r := Drain(w, w.sink.wr, w.sink.rd, buffer, []); !Ordered(r.0, r.1)
  {
    var t := w.sink;
    QuietPass(w, t.wr, t.rd, buffer);
    var r := Drain(w, t.wr, t.rd, buffer, []);
    StreamLength(w, buffer);
    StreamLength(r.0, r.1);
    UnsafeDistance(|t.mem|, t.wr, t.rd, |buffer|);
    PositionOnTheWay(t);
    if ValidSink(r.0.sink) { PositionOnTheWay(r.0.sink); }
  }

  /** A pass of `drainWriteBuffer`, from the descriptor it has read, keeps the stream in order
      for every schedule exactly when it is safe in the sense above. */
  lemma PassKeepsOrderExactlyWhenSafe(w: World, buffer: Str)
    requires ValidSink(w.sink) && InOrder(w, buffer)
    ensures (forall schedule ::
               var r := Drain(w, w.sink.wr, w.sink.rd, buffer, schedule); Ordered(r.0, r.1))
            <==> PassIsSafe(|w.sink.mem|, w.sink.wr, w.sink.rd, |buffer|)
  {
    if PassIsSafe(|w.sink.mem|, w.sink.wr, w.sink.rd, |buffer|) {
      forall schedule
        ensures var r := Drain(w, w.sink.wr, w.sink.rd, buffer, schedule); Ordered(r.0, r.1)
      {
        SafePassKeepsOrder(w, buffer, schedule);
      }
    } else {
      UnsafePassBreaksOrder(w, buffer);
    }
  }

  // ----- writeToChannel -----

  /** `drainWriteBuffer`: read the descriptor, then write from the offsets it held. */
  function Pass(w: World, buffer: Str, schedule: Schedule): (r: (World, Str))
    requires InRange(w.sink)
    ensures InRange(r.0.sink)
  {
    var v := Run(w, Next(schedule));
    Drain(v, v.sink.wr, v.sink.rd, buffer, Rest(schedule))
  }

  /** `writeToChannel` when no write is under way: queued data, then new data, go in front of
      what an earlier pass left in the buffer. */
  function Write(w: World, buffer: Str, data: Str, schedule: Schedule): (r: (World, Str))
    requires InRange(w.sink)
    ensures InRange(r.0.sink)
  {
    if data == [] && buffer == [] then (w, buffer)
    else Pass(w.(pending := [], accepted := w.accepted + data), w.pending + data + buffer, schedule)
  }

  // ----- When a write keeps the stream in order -----

  /** What is known before the descriptor is read: everything will fit into the free slots, or
      it is one byte for a full ring whose `rdOff` is not zero. */
  predicate Fits(t: Sink, n: nat)
    requires InRange(t)
  {
    n <= Free(|t.mem|, t.wr, t.rd) || (Free(|t.mem|, t.wr, t.rd) == 0 && t.rd > 0 && n <= 1)
  }

  /** Putting queue and new data in front of the buffer, where they belong behind it, gives
      the same bytes. */
  predicate MergeKeeps(w: World, buffer: Str, data: Str) {
    w.pending + data + buffer == buffer + (w.pending + data)
  }

  /** What a caller can check before a write. */
  predicate WriteIsSafe(w: World, buffer: Str, data: Str)
    requires InRange(w.sink)
  {
    MergeKeeps(w, buffer, data) && Fits(w.sink, |w.pending| + |data| + |buffer|)
  }

  function Merged(w: World, data: Str): World {
    w.(pending := [], accepted := w.accepted + data)
  }

  lemma MergeKeepsStream(w: World, buffer: Str, data: Str)
    requires InRange(w.sink) && InOrder(w, buffer)
    ensures InOrder(Merged(w, data), buffer + (w.pending + data))
  {
    var sent := w.sink.consumed + Span(w.sink.mem, w.sink.pos, w.sink.wr);
    Assoc(sent + buffer, w.pending, data);
    Assoc(sent, buffer, w.pending + data);
    assert Stream(Merged(w, data), buffer + (w.pending + data)) == sent + (buffer + (w.pending + data));
  }

  /** What fits before waiting is safe to write after it. */
  lemma FitsStays(t: Sink, u: Sink, n: nat)
    requires InRange(t) && InRange(u) && |u.mem| == |t.mem| && u.wr == t.wr
    requires Distance(|t.mem|, u.rd, u.wr) <= Distance(|t.mem|, t.rd, t.wr)
    requires Fits(t, n)
    ensures Fits(u, n) && PassIsSafe(|u.mem|, u.wr, u.rd, n)
  {}

  lemma SafeWriteKeepsOrder(w: World, buffer: Str, data: Str, schedule: Schedule)
    requires ValidSink(w.sink) && InOrder(w, buffer) && WriteIsSafe(w, buffer, data)
    ensures var r := Write(w, buffer, data, schedule); Ordered(r.0, r.1)
  {
    if data != [] || buffer != [] {
      var v, all := Merged(w, data), w.pending + data + buffer;
      MergeKeepsStream(w, buffer, data);
      RunKeeps(v, Next(schedule), all);
      FitsStays(w.sink, Run(v, Next(schedule)).sink, |all|);
      SafePassKeepsOrder(Run(v, Next(schedule)), all, Rest(schedule));
    }
  }

  /** When the ring is full, as it is when the code sees no space, the firmware may free a
      single slot. */
  lemma OneSlotFreed(w: World, buffer: Str) returns (schedule: seq<Step>)
    requires ValidSink(w.sink) && Free(|w.sink.mem|, w.sink.wr, w.sink.rd) == 0 && |w.sink.mem| >= 2
    ensures var v := Run(w, schedule);
      && ValidSink(v.sink) && |v.sink.mem| == |w.sink.mem|
      && v.accepted == w.accepted && |Stream(v, buffer)| == |Stream(w, buffer)|
      && Space(|v.sink.mem|, v.sink.wr, v.sink.rd) > 0 && Free(|v.sink.mem|, v.sink.wr, v.sink.rd) == 1
    ensures forall k :: 0 <= k < |schedule| ==> !schedule[k].Arrive?
  {
    hide Stream;
    var v := w;
    schedule := [];
    if w.sink.pos == w.sink.rd {
      v := Apply(w, Read);
      OneByteRead(w, buffer);
      schedule := [Read];
    }
    OneByteReleased(v, buffer);
    var rest := [Release(1)];
    assert schedule == [Read] ==> (schedule + rest)[1..] == rest;
    assert [] + rest == rest && rest[1..] == [];
    schedule := schedule + rest;
  }

  lemma OneByteRead(w: World, buffer: Str)
    requires ValidSink(w.sink) && w.sink.pos != w.sink.wr
    ensures var v := Apply(w, Read);
      && ValidSink(v.sink) && v.sink.pos == Advance(|w.sink.mem|, w.sink.pos, 1)
      && v.sink.wr == w.sink.wr && v.sink.rd == w.sink.rd
      && |Stream(v, buffer)| == |Stream(w, buffer)|
  {
    hide Stream;
    StreamLength(w, buffer);
    StreamLength(Apply(w, Read), buffer);
  }

  lemma OneByteReleased(w: World, buffer: Str)
    requires ValidSink(w.sink) && Free(|w.sink.mem|, w.sink.wr, w.sink.rd) == 0 && w.sink.pos != w.sink.rd
    ensures var v := Apply(w, Release(1));
      && ValidSink(v.sink) && |Stream(v, buffer)| == |Stream(w, buffer)|
      && Space(|v.sink.mem|, v.sink.wr, v.sink.rd) > 0 && Free(|v.sink.mem|, v.sink.wr, v.sink.rd) == 1
  {
    hide Stream;
    StreamLength(w, buffer);
    StreamLength(Apply(w, Release(1)), buffer);
  }

  /** What was accepted does not change what a quiet pass does. */
  lemma {:induction false} DrainIgnoresAccepted(w: World, wr: nat, rd: nat, buffer: Str, accepted: Str)
    requires InRange(w.sink) && wr < |w.sink.mem| && rd < |w.sink.mem|
    ensures var r := Drain(w, wr, rd, buffer, []);
      Drain(w.(accepted := accepted), wr, rd, buffer, []) == (r.0.(accepted := accepted), r.1)
    decreases |buffer|
  {
    var space := Space(|w.sink.mem|, wr, rd);
    if buffer != [] && space > 0 {
      var n := if space < |buffer| then space else |buffer|;
      var next := WriteChunk(w, wr, buffer[..n], []);
      assert WriteChunk(w.(accepted := accepted), wr, buffer[..n], []) == (next.0.(accepted := accepted), []);
      QuietChunk(w, wr, buffer[..n]);
      DrainIgnoresAccepted(next.0, wr, rd, buffer[n..], accepted);
    }
  }

  lemma MisorderedWrite(w: World, buffer: Str, data: Str)
    requires ValidSink(w.sink) && InOrder(w, buffer) && (data != [] || buffer != [])
    requires Fits(w.sink, |w.pending| + |data| + |buffer|) && !MergeKeeps(w, buffer, data)
    ensures var r := Write(w, buffer, data, []); !Ordered(r.0, r.1)
  {
    hide Drain, Space, Free;
    var v, all := Merged(w, data), w.pending + data + buffer;
    var sent := w.sink.consumed + Span(w.sink.mem, w.sink.pos, w.sink.wr);
    var fake := v.(accepted := Stream(v, all));
    FitsStays(w.sink, w.sink, |all|);
    SafePassKeepsOrder(fake, all, []);
    DrainIgnoresAccepted(v, v.sink.wr, v.sink.rd, all, fake.accepted);
    DrainIgnoresAccepted(v, v.sink.wr, v.sink.rd, all, v.accepted);
    MergeKeepsStream(w, buffer, data);
    assert Stream(v, all) == sent + all && v.accepted == sent + (buffer + (w.pending + data));
    if v.accepted == fake.accepted { SplitAt(sent, all, sent, buffer + (w.pending + data)); }
  }

  lemma OversizedWrite(w: World, buffer: Str, data: Str) returns (schedule: Schedule)
    requires ValidSink(w.sink) && InOrder(w, buffer) && (data != [] || buffer != [])
    requires !Fits(w.sink, |w.pending| + |data| + |buffer|)
    ensures var r := Write(w, buffer, data, schedule); !Ordered(r.0, r.1)
  {
    hide Drain;
    var v, all := Merged(w, data), w.pending + data + buffer;
    MergeKeepsStream(w, buffer, data);
    StreamLength(v, all);
    StreamLength(v, buffer + (w.pending + data));
    if Space(|w.sink.mem|, w.sink.wr, w.sink.rd) > 0 {
      schedule := [];
      assert Write(w, buffer, data, schedule) == Pass(v, all, schedule);
      UnsafePassBreaksOrder(v, all);
    } else {
      var steps := OneSlotFreed(v, all);
      schedule := [steps];
      assert Next(schedule) == steps && Rest(schedule) == [];
      assert Write(w, buffer, data, schedule) == Pass(v, all, schedule);
      UnsafePassBreaksOrder(Run(v, steps), all);
    }
  }

  /** `writeToChannel`, when no other pass is under way, keeps the stream in order for every
      schedule exactly when the merge does not change the bytes and they fit. */
  lemma WriteKeepsOrderExactlyWhen(w: World, buffer: Str, data: Str)
    requires ValidSink(w.sink) && InOrder(w, buffer) && (data != [] || buffer != [])
    ensures (forall schedule :: var r := Write(w, buffer, data, schedule); Ordered(r.0, r.1))
            <==> WriteIsSafe(w, buffer, data)
  {
    hide Write, Fits;
    if WriteIsSafe(w, buffer, data) {
      forall schedule ensures var r := Write(w, buffer, data, schedule); Ordered(r.0, r.1) {
        SafeWriteKeepsOrder(w, buffer, data, schedule);
      }
    } else if Fits(w.sink, |w.pending| + |data| + |buffer|) {
      MisorderedWrite(w, buffer, data);
    } else {
      var schedule := OversizedWrite(w, buffer, data);
    }
  }

  // ----- Three ways to lose the stream -----

  /** Five bytes for an empty ring of four slots: the second turn of the pass writes where
      the first one did, and nothing is left to send. */
  lemma SecondTurnOverwritesFirst()
    ensures var five := [11, 12, 13, 14, 15];
      Drain(World(Sink([0, 0, 0, 0], 1, 1, 1, []), [], five), 1, 1, five, [])
      == (World(Sink([0, 14, 15, 13], 3, 1, 1, []), [], five), [])
  {
    var five := [11, 12, 13, 14, 15];
    var w := World(Sink([0, 0, 0, 0], 1, 1, 1, []), [], five);
    var w1 := WriteChunk(w, 1, five[..3], []).0;
    assert w1.sink.mem == [0, 11, 12, 13];
    var w2 := WriteChunk(w1, 1, five[3..], []).0;
    assert w2.sink.mem == [0, 14, 15, 13];
    assert Drain(w2, 1, 1, [], []) == (w2, []);
    assert five[3..][..2] == five[3..] && five[3..][2..] == [];
    assert Drain(w1, 1, 1, five[3..], []) == (w2, []);
  }

  /** Four bytes for an empty ring of four slots whose `rdOff` is zero: all are written, and
      the ring looks empty. */
  lemma FullRingLooksEmpty()
    ensures var four := [11, 12, 13, 14];
      var r := Drain(World(Sink([0, 0, 0, 0], 0, 0, 0, []), [], four), 0, 0, four, []);
      r.0.sink == Sink(four, 0, 0, 0, []) && r.1 == [] && Stream(r.0, r.1) == []
  {}

  /** A byte that an earlier pass could not send is overtaken by the next write. */
  lemma NewDataOvertakesOld()
    ensures var w := World(Sink([0, 0, 0, 0], 1, 1, 1, []), [], [11]);
      var r := Write(w, [11], [12], []);
      r.0.accepted == [11, 12] && Stream(r.0, r.1) == [12, 11]
  {
    var w := World(Sink([0, 0, 0, 0], 1, 1, 1, []), [], [11]);
    var v := w.(accepted := [11, 12]);
    assert [] + [12] + [11] == [12, 11] && w.accepted + [12] == [11, 12];
    assert [12, 11][..2] == [12, 11] && [12, 11][2..] == [];
    var v1 := WriteChunk(v, 1, [12, 11], []).0;
    assert v1.sink.mem == [0, 12, 11, 0];
    assert Drain(v1, 1, 1, [], []) == (v1, []);
    assert Write(w, [11], [12], []) == (v1, []);
  }

  /** The host's side of a down-channel. */
  class DownChannel {
    var world: World
    var schedule: Schedule
    var wrBuffer: Str
    var isBusyWriting: bool
    var rttBlockFound: bool

    constructor (sink: Sink, schedule: Schedule)
      requires ValidSink(sink) && sink.consumed == [] && sink.pos == sink.wr
      ensures Ordered(world, wrBuffer) && !isBusyWriting && !rttBlockFound
    {
      world, wrBuffer := World(sink, [], []), [];
      this.schedule := schedule;
      isBusyWriting, rttBlockFound := false, false;
    }

    method Wait()
      requires InRange(world.sink)
      modifies `world, `schedule
      ensures world == Run(old(world), Next(old(schedule))) && schedule == Rest(old(schedule))
    {
      world := Run(world, Next(schedule));
      schedule := Rest(schedule);
    }

    method WriteMemoryBytes(at: nat, data: Str)
      requires InRange(world.sink) && at + |data| <= |world.sink.mem|
      modifies `world, `schedule
      ensures world == PokeStep(old(world), at, data, old(schedule)) && schedule == Rest(old(schedule))
    {
      Wait();
      world := world.(sink := world.sink.(mem := Poke(world.sink.mem, at, data)));
    }

    method WriteWrOff(wr: nat)
      requires InRange(world.sink) && wr < |world.sink.mem|
      modifies `world, `schedule
      ensures world == (var w := Run(old(world), Next(old(schedule))); w.(sink := w.sink.(wr := wr)))
      ensures schedule == Rest(old(schedule))
    {
      Wait();
      world := world.(sink := world.sink.(wr := wr));
    }

    method WriteTurn(wr: nat, chunk: Str)
      requires InRange(world.sink) && wr < |world.sink.mem| && |chunk| <= |world.sink.mem|
      modifies `world, `schedule
      ensures (world, schedule) == WriteChunk(old(world), wr, chunk, old(schedule))
    {
      var size := |world.sink.mem|;
      if wr + |chunk| <= size {
        assert chunk[..|chunk|] == chunk;
        WriteMemoryBytes(wr, chunk);
      } else {
        var firstPartSize := size - wr;
        WriteMemoryBytes(wr, chunk[..firstPartSize]);
        WriteMemoryBytes(0, chunk[firstPartSize..]);
      }
      var newWrOff := wr + |chunk|;
      if newWrOff >= size {
        newWrOff := newWrOff - size;
      }
      WriteWrOff(newWrOff);
    }

    /** `drainWriteBuffer` computes `Pass`. */
    method DrainWriteBuffer()
      requires InRange(world.sink)
      modifies `world, `schedule, `wrBuffer
      ensures (world, wrBuffer) == Pass(old(world), old(wrBuffer), old(schedule))
      ensures var w := Run(old(world), Next(old(schedule)));
        Free(|w.sink.mem|, w.sink.wr, w.sink.rd) == 0 && w.sink.rd > 0 ==> world == w && wrBuffer == old(wrBuffer)
    {
      Wait();
      if Free(|world.sink.mem|, world.sink.wr, world.sink.rd) == 0 && world.sink.rd > 0 {
        FullRingIsLeftAlone(world, world.sink.wr, world.sink.rd, wrBuffer, schedule);
      }
      ghost var expected := Pass(old(world), old(wrBuffer), old(schedule));
      var size, wrOff, rdOff := |world.sink.mem|, world.sink.wr, world.sink.rd;
      while |wrBuffer| > 0
        invariant InRange(world.sink) && |world.sink.mem| == size
        invariant Drain(world, wrOff, rdOff, wrBuffer, schedule) == expected
        decreases |wrBuffer|
      {
        var spaceAvailable := Space(size, wrOff, rdOff);
        if spaceAvailable == 0 {
          break;
        }
        var bytesToWrite := if spaceAvailable < |wrBuffer| then spaceAvailable else |wrBuffer|;
        WriteTurn(wrOff, wrBuffer[..bytesToWrite]);
        wrBuffer := wrBuffer[bytesToWrite..];
      }
    }

    /** `writeToChannel` computes `Write` when it is free to write, and otherwise queues; it
        refuses data before the control block is found. */
    method WriteToChannel(data: Str) returns (ok: bool)
      requires InRange(world.sink)
      modifies this
      ensures ok == old(rttBlockFound) == rttBlockFound && isBusyWriting == old(isBusyWriting)
      ensures !ok ==> world == old(world) && wrBuffer == old(wrBuffer)
      ensures ok && !isBusyWriting ==>
        (world, wrBuffer) == Write(old(world), old(wrBuffer), data, old(schedule))
      ensures ok && isBusyWriting && (data != [] || wrBuffer != []) ==>
        wrBuffer == old(wrBuffer) && world == Apply(old(world), Arrive(data))
      ensures data == [] && old(wrBuffer) == [] ==> world == old(world) && wrBuffer == []
    {
      ok := rttBlockFound;
      if !ok || (|data| == 0 && |wrBuffer| == 0) {
        return;
      }
      world := world.(pending := world.pending + data, accepted := world.accepted + data);
      if isBusyWriting {
        return;
      }
      isBusyWriting := true;
      wrBuffer := world.pending + wrBuffer;
      world := world.(pending := []);
      DrainWriteBuffer();
      isBusyWriting := false;
    }
  }
}
