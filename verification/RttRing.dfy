/** A SEGGER RTT ring buffer in target memory, and the target's side of an up-channel. */
module RttRing {
  import opened Text

  /** Bytes from `from` up to but not including `to`, going round the end of the ring. */
  function Span(mem: Str, from: nat, to: nat): Str
    requires from < |mem| && to < |mem|
  {
    if from <= to then mem[from..to] else mem[from..] + mem[..to]
  }

  /** Number of slots passed when going from `from` to `to`. */
  function Distance(size: nat, from: nat, to: nat): nat
    requires from < size && to < size
  {
    if from <= to then to - from else size - from + to
  }

  /** The slot `n` places after `from`. */
  function Advance(size: nat, from: nat, n: nat): (r: nat)
    requires from < size && n <= size
    ensures r < size
  {
    if from + n < size then from + n else from + n - size
  }

  lemma SpanLength(mem: Str, from: nat, to: nat)
    requires from < |mem| && to < |mem|
    ensures |Span(mem, from, to)| == Distance(|mem|, from, to)
  {}

  /** A span splits at every slot on the way. */
  lemma SpanSplit(mem: Str, a: nat, b: nat, c: nat)
    requires a < |mem| && b < |mem| && c < |mem|
    requires Distance(|mem|, a, b) <= Distance(|mem|, a, c)
    ensures Span(mem, a, c) == Span(mem, a, b) + Span(mem, b, c)
    ensures Distance(|mem|, a, c) == Distance(|mem|, a, b) + Distance(|mem|, b, c)
  {}

  /** Storing a byte in the slot after a span extends it, unless the ring is full. */
  lemma SpanStore(mem: Str, from: nat, to: nat, b: int)
    requires from < |mem| && to < |mem|
    requires Advance(|mem|, to, 1) != from
    ensures Span(mem[to := b], from, Advance(|mem|, to, 1)) == Span(mem, from, to) + [b]
    ensures Span(mem[to := b], from, to) == Span(mem, from, to)
  {}

  // ----- The target's side of an up-channel -----

  /** The ring, its published offsets, the firmware's private store position, and every
      byte the firmware ever stored. */
  datatype Source = Source(mem: Str, wr: nat, rd: nat, st: nat, stored: Str)

  ghost predicate ValidSource(t: Source) {
    var size := |t.mem|;
    && t.wr < size && t.rd < size && t.st < size
    && Distance(size, t.rd, t.wr) <= Distance(size, t.rd, t.st) <= |t.stored|
    && t.stored[|t.stored| - Distance(size, t.rd, t.st)..] == Span(t.mem, t.rd, t.st)
  }

  /** Bytes the host has given back to the firmware as free space. */
  ghost function Released(t: Source): Str
    requires ValidSource(t)
  {
    t.stored[..|t.stored| - Distance(|t.mem|, t.rd, t.st)]
  }

  /** Bytes the firmware has announced by moving `wrOff`. */
  ghost function Published(t: Source): Str
    requires ValidSource(t)
  {
    SpanSplit(t.mem, t.rd, t.wr, t.st);
    t.stored[..|t.stored| - Distance(|t.mem|, t.wr, t.st)]
  }

  lemma PublishedIsReleasedAndUnread(t: Source)
    requires ValidSource(t)
    ensures Published(t) == Released(t) + Span(t.mem, t.rd, t.wr)
  {
    SpanSplit(t.mem, t.rd, t.wr, t.st);
    SpanLength(t.mem, t.rd, t.wr);
    var k := |t.stored| - Distance(|t.mem|, t.rd, t.st);
    assert t.stored[k..][..Distance(|t.mem|, t.rd, t.wr)] == Span(t.mem, t.rd, t.wr);
  }

  /** The firmware stores one byte into free space, or moves `wrOff` over what it stored.
      It leaves one slot empty and waits when there is no room. */
  datatype FirmwareStep = Store(b: int) | Publish

  function Firmware(t: Source, step: FirmwareStep): Source
    requires ValidSource(t)
  {
    match step
    case Store(b) =>
      var next := Advance(|t.mem|, t.st, 1);
      if next == t.rd then t else t.(mem := t.mem[t.st := b], st := next, stored := t.stored + [b])
    case Publish => t.(wr := t.st)
  }

  lemma AppendKeepsParts(s: Str, b: int, n: nat)
    requires n <= |s|
    ensures (s + [b])[|s| - n..] == s[|s| - n..] + [b]
    ensures (s + [b])[..|s| - n] == s[..|s| - n]
  {}

  lemma OneFurther(size: nat, rd: nat, wr: nat, st: nat)
    requires rd < size && wr < size && st < size && Advance(size, st, 1) != rd
    requires Distance(size, rd, wr) <= Distance(size, rd, st)
    ensures var next := Advance(size, st, 1);
      Distance(size, rd, next) == Distance(size, rd, st) + 1 && Distance(size, wr, next) == Distance(size, wr, st) + 1
  {}

  lemma StoreKeeps(t: Source, b: int)
    requires ValidSource(t) && Advance(|t.mem|, t.st, 1) != t.rd
    ensures var u := Firmware(t, Store(b));
      ValidSource(u) && Released(u) == Released(t) && Published(u) == Published(t)
  {
    hide Span, Distance, Advance;
    SpanStore(t.mem, t.rd, t.st, b);
    SpanSplit(t.mem, t.rd, t.wr, t.st);
    OneFurther(|t.mem|, t.rd, t.wr, t.st);
    AppendKeepsParts(t.stored, b, Distance(|t.mem|, t.rd, t.st));
    AppendKeepsParts(t.stored, b, Distance(|t.mem|, t.wr, t.st));
  }

  lemma PublishKeeps(t: Source)
    requires ValidSource(t)
    ensures var u := Firmware(t, Publish);
      ValidSource(u) && Released(u) == Released(t) && Published(t) <= Published(u)
  {}

  lemma FirmwareStepKeeps(t: Source, step: FirmwareStep)
    requires ValidSource(t)
    ensures var u := Firmware(t, step);
      && ValidSource(u)
      && u.rd == t.rd && |u.mem| == |t.mem|
      && Released(u) == Released(t)
      && Published(t) <= Published(u)
      && Distance(|t.mem|, t.rd, t.wr) <= Distance(|t.mem|, u.rd, u.wr)
  {
    match step
    case Store(b) => if Advance(|t.mem|, t.st, 1) != t.rd { StoreKeeps(t, b); }
    case Publish => PublishKeeps(t);
  }

  function FirmwareRun(t: Source, steps: seq<FirmwareStep>): Source
    requires ValidSource(t)
    decreases |steps|
  {
    if steps == [] then t
    else
      FirmwareStepKeeps(t, steps[0]);
      FirmwareRun(Firmware(t, steps[0]), steps[1..])
  }

  lemma {:induction false} FirmwareRunKeeps(t: Source, steps: seq<FirmwareStep>)
    requires ValidSource(t)
    ensures var u := FirmwareRun(t, steps);
      && ValidSource(u)
      && u.rd == t.rd && |u.mem| == |t.mem|
      && Released(u) == Released(t)
      && Published(t) <= Published(u)
      && Distance(|t.mem|, t.rd, t.wr) <= Distance(|t.mem|, u.rd, u.wr)
    decreases |steps|
  {
    if steps != [] {
      FirmwareStepKeeps(t, steps[0]);
      FirmwareRunKeeps(Firmware(t, steps[0]), steps[1..]);
    }
  }

  /** Whatever the firmware does, the bytes it has published and the host has not released
      stay where they are, unchanged. */
  lemma FirmwareKeepsUnread(t: Source, steps: seq<FirmwareStep>)
    requires ValidSource(t)
    ensures var u := FirmwareRun(t, steps);
      |u.mem| == |t.mem| && Span(u.mem, t.rd, t.wr) == Span(t.mem, t.rd, t.wr)
  {
    hide FirmwareRun, Released, Published;
    FirmwareRunKeeps(t, steps);
    var u := FirmwareRun(t, steps);
    PublishedIsReleasedAndUnread(t);
    PublishedIsReleasedAndUnread(u);
    SpanSplit(u.mem, t.rd, t.wr, u.wr);
    var k, n := |Released(t)|, Distance(|t.mem|, t.rd, t.wr);
    assert Span(t.mem, t.rd, t.wr) == Published(t)[k..] == Published(u)[k..][..n];
    assert Published(u)[k..] == Span(u.mem, t.rd, t.wr) + Span(u.mem, t.wr, u.wr);
  }

  /** Moving `rdOff` over unread bytes releases exactly those bytes. */
  lemma ReleaseKeeps(t: Source, n: nat)
    requires ValidSource(t) && n <= Distance(|t.mem|, t.rd, t.wr)
    ensures var u := t.(rd := Advance(|t.mem|, t.rd, n));
      && ValidSource(u)
      && Released(u) == Released(t) + Span(t.mem, t.rd, u.rd)
      && Published(u) == Published(t)
      && Distance(|t.mem|, u.rd, u.wr) == Distance(|t.mem|, t.rd, t.wr) - n
  {
    var u := t.(rd := Advance(|t.mem|, t.rd, n));
    SpanSplit(t.mem, t.rd, u.rd, t.wr);
    SpanSplit(t.mem, t.rd, u.rd, t.st);
    var d := Distance(|t.mem|, t.rd, t.st);
    assert t.stored[|t.stored| - d..][n..] == t.stored[|t.stored| - (d - n)..];
    assert t.stored[|t.stored| - d..][..n] == Span(t.mem, t.rd, u.rd);
  }

  /** A part of the unread bytes is unchanged too. */
  lemma FirmwareKeepsFirst(t: Source, steps: seq<FirmwareStep>, n: nat)
    requires ValidSource(t) && n <= Distance(|t.mem|, t.rd, t.wr)
    ensures var u, next := FirmwareRun(t, steps), Advance(|t.mem|, t.rd, n);
      |u.mem| == |t.mem| && Span(u.mem, t.rd, next) == Span(t.mem, t.rd, next)
  {
    FirmwareKeepsUnread(t, steps);
    var u, next := FirmwareRun(t, steps), Advance(|t.mem|, t.rd, n);
    SpanSplit(t.mem, t.rd, next, t.wr);
    SpanSplit(u.mem, t.rd, next, t.wr);
    SplitAt(Span(t.mem, t.rd, next), Span(t.mem, next, t.wr), Span(u.mem, t.rd, next), Span(u.mem, next, t.wr));
  }

  /** Unread bytes that do not go round the end are what comes next in the stream. */
  lemma NextUnread(t: Source, n: nat)
    requires ValidSource(t) && n <= Distance(|t.mem|, t.rd, t.wr) && t.rd + n <= |t.mem|
    ensures t.mem[t.rd..t.rd + n] == Span(t.mem, t.rd, Advance(|t.mem|, t.rd, n))
    ensures Released(t) + t.mem[t.rd..t.rd + n] <= Published(t)
  {
    PublishedIsReleasedAndUnread(t);
    SpanSplit(t.mem, t.rd, Advance(|t.mem|, t.rd, n), t.wr);
  }

  /** The offset arithmetic of the host: the remainder wraps at most to zero. */
  lemma WrapsToZero(size: nat, rd: nat, n: nat)
    requires rd < size && rd + n <= size
    ensures (rd + n) % size == Advance(size, rd, n)
  {}

  /** The host copies `n` unread bytes, the firmware runs, and `rdOff` is published: the
      copied bytes are released, and nothing the firmware published is disturbed. */
  lemma ChunkIsReleased(t: Source, steps: seq<FirmwareStep>, n: nat)
    requires ValidSource(t) && n <= Distance(|t.mem|, t.rd, t.wr) && t.rd + n <= |t.mem|
    ensures var u := FirmwareRun(t, steps).(rd := (t.rd + n) % |t.mem|);
      && ValidSource(u)
      && u.rd == Advance(|t.mem|, t.rd, n)
      && |u.mem| == |t.mem|
      && Released(u) == Released(t) + t.mem[t.rd..t.rd + n]
      && Released(u) <= Published(t) <= Published(u)
      && Distance(|t.mem|, t.rd, t.wr) - n <= Distance(|t.mem|, u.rd, u.wr)
  {
    NextUnread(t, n);
    WrapsToZero(|t.mem|, t.rd, n);
    FirmwareRunKeeps(t, steps);
    FirmwareKeepsFirst(t, steps, n);
    ReleaseKeeps(FirmwareRun(t, steps), n);
  }
}
