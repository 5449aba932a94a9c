/** A down-channel await by await: a pass of the poll loop and a pass of `writeToChannel` may
    be under way at the same time, over the same `wrBuffer`. */
module RttOverlap {
  import opened Text
  import opened RttRing
  import opened RttDown

  /** Where a pass is suspended: nowhere, reading the descriptor, writing the first or the
      second stretch of a chunk, or writing `wrOff`. `wr` and `rd` are its copy of the
      descriptor, `n` the size of the chunk, `data` the bytes already handed to GDB. */
  datatype Pc =
    | Idle
    | AwaitDesc
    | AwaitFirst(wr: nat, rd: nat, n: nat, data: Str)
    | AwaitSecond(wr: nat, rd: nat, n: nat, data: Str)
    | AwaitWrOff(wr: nat, rd: nat, n: nat)

  predicate InFlight(pc: Pc) {
    !pc.Idle? && !pc.AwaitDesc?
  }

  /** The code as it is, or with three repairs: the descriptor is read before each chunk, one
      slot stays free, new data goes behind the buffer. The fourth is that polls take and
      respect `isBusyWriting`. */
  datatype Form = AsWritten | Repaired(guarded: bool)

  datatype Who = Poll | Client

  /** Target, queue and accepted bytes; `wrBuffer`; and the two passes. `isBusyWriting` is
      set exactly while the client's pass is not idle. */
  datatype State = State(w: World, buf: Str, poll: Pc, client: Pc)

  /** Something happens outside the adapter (`Arrive` is a call of `writeToChannel`), the poll
      timer fires, or GDB answers and a pass goes on. GDB answers in order, so an answer
      takes effect and the pass that waited for it goes on in one step. */
  datatype Event = Outside(step: Step) | StartPoll | GoesOn(who: Who)

  // ----- The machine -----

  predicate WfPc(size: nat, pc: Pc) {
    InFlight(pc) ==>
      && pc.wr < size && pc.rd < size && 1 <= pc.n <= size && pc.n <= Space(size, pc.wr, pc.rd)
      && (pc.AwaitFirst? ==> |pc.data| == FirstPart(size, pc.wr, pc.n))
      && (pc.AwaitSecond? ==> pc.wr + pc.n > size && |pc.data| <= pc.wr + pc.n - size)
  }

  predicate Wf(s: State) {
    InRange(s.w.sink) && WfPc(|s.w.sink.mem|, s.poll) && WfPc(|s.w.sink.mem|, s.client)
  }

  function Room(form: Form, size: nat, wr: nat, rd: nat): (r: nat)
    requires wr < size && rd < size
    ensures r <= Space(size, wr, rd) <= size
  {
    if form.AsWritten? then Space(size, wr, rd) else Free(size, wr, rd)
  }

  /** The loop of a pass from its head to the next `await`, or to its end. */
  function LoopHead(form: Form, buf: Str, size: nat, wr: nat, rd: nat): (pc: Pc)
    requires wr < size && rd < size
    ensures WfPc(size, pc)
  {
    var room := Room(form, size, wr, rd);
    var n := if room < |buf| then room else |buf|;
    if n == 0 then Idle else AwaitFirst(wr, rd, n, buf[..FirstPart(size, wr, n)])
  }

  /** `subarray`, which is cut off at the end. */
  function Slice(buf: Str, from: nat, to: nat): Str {
    var end := if to <= |buf| then to else |buf|;
    if from < end then buf[from..end] else []
  }

  /** One stretch of a pass, from the answer of GDB to the next `await`. */
  function Resume(form: Form, w: World, buf: Str, pc: Pc): (r: (World, Str, Pc))
    requires InRange(w.sink) && WfPc(|w.sink.mem|, pc)
    ensures InRange(r.0.sink) && |r.0.sink.mem| == |w.sink.mem| && WfPc(|w.sink.mem|, r.2)
  {
    var size := |w.sink.mem|;
    match pc
    case Idle => (w, buf, Idle)
    case AwaitDesc => (w, buf, LoopHead(form, buf, size, w.sink.wr, w.sink.rd))
    case AwaitFirst(wr, rd, n, data) =>
      var v := w.(sink := w.sink.(mem := Poke(w.sink.mem, wr, data)));
      (v, buf, if wr + n <= size then AwaitWrOff(wr, rd, n) else AwaitSecond(wr, rd, n, Slice(buf, size - wr, n)))
    case AwaitSecond(wr, rd, n, data) =>
      (w.(sink := w.sink.(mem := Poke(w.sink.mem, 0, data))), buf, AwaitWrOff(wr, rd, n))
    case AwaitWrOff(wr, rd, n) =>
      var rest := Slice(buf, n, |buf|);
      (w.(sink := w.sink.(wr := Advance(size, wr, n))), rest,
       NextTurn(form, rest, size, wr, rd))
  }

  /** Where a pass goes on after a chunk. */
  function NextTurn(form: Form, rest: Str, size: nat, wr: nat, rd: nat): (pc: Pc)
    requires wr < size && rd < size
    ensures WfPc(size, pc)
  {
    if form.AsWritten? then LoopHead(form, rest, size, wr, rd) else if rest == [] then Idle else AwaitDesc
  }

  predicate Busy(form: Form, s: State) {
    s.client != Idle || (form == Repaired(true) && s.poll != Idle)
  }

  /** `writeToChannel` up to its first `await`. */
  function Send(form: Form, s: State, data: Str): (r: State)
    requires Wf(s)
    ensures Wf(r) && r.w.sink == s.w.sink
  {
    if data == [] && s.buf == [] then s
    else if Busy(form, s) then s.(w := s.w.(pending := s.w.pending + data, accepted := s.w.accepted + data))
    else
      var all := if form.AsWritten? then s.w.pending + data + s.buf else s.buf + (s.w.pending + data);
      State(Merged(s.w, data), all, s.poll, AwaitDesc)
  }

  function PcOf(s: State, who: Who): Pc {
    if who.Poll? then s.poll else s.client
  }

  function After(form: Form, s: State, e: Event): (r: State)
    requires Wf(s)
    ensures Wf(r) && |r.w.sink.mem| == |s.w.sink.mem|
  {
    match e
    case Outside(step) => if step.Arrive? then Send(form, s, step.data) else s.(w := Apply(s.w, step))
    case StartPoll =>
      if s.poll != Idle || (form == Repaired(true) && s.client != Idle) then s else s.(poll := AwaitDesc)
    case GoesOn(who) =>
      var r := Resume(form, s.w, s.buf, PcOf(s, who));
      if who.Poll? then State(r.0, r.1, r.2, s.client) else State(r.0, r.1, s.poll, r.2)
  }

  function Execute(form: Form, s: State, es: seq<Event>): (r: State)
    requires Wf(s)
    ensures Wf(r) && |r.w.sink.mem| == |s.w.sink.mem|
    decreases |es|
  {
    if es == [] then s else Execute(form, After(form, s, es[0]), es[1..])
  }

  predicate NoSends(es: seq<Event>) {
    forall i :: 0 <= i < |es| ==> !(es[i].Outside? && es[i].step.Arrive?)
  }

  lemma {:induction false} ExecuteConcat(form: Form, s: State, a: seq<Event>, b: seq<Event>)
    requires Wf(s)
    ensures Execute(form, s, a + b) == Execute(form, Execute(form, s, a), b)
    decreases |a|
  {
    if a == [] {
      assert a + b == b;
    } else {
      assert (a + b)[1..] == a[1..] + b;
      ExecuteConcat(form, After(form, s, a[0]), a[1..], b);
    }
  }

  // ----- One pass that has written what it should -----

  /** The chunk of this pass is the front of the buffer; what it has already written lies in
      free slots behind `wrOff`. */
  ghost predicate Loaded(w: World, buf: Str, pc: Pc) {
    var t := w.sink;
    && InRange(t) && InFlight(pc) && WfPc(|t.mem|, pc)
    && pc.wr == t.wr && pc.n <= |buf| && pc.n <= Free(|t.mem|, t.wr, t.rd)
    && match pc
       case AwaitFirst(wr, _, n, data) => data == buf[..FirstPart(|t.mem|, wr, n)]
       case AwaitSecond(wr, _, n, data) => t.mem[wr..] == buf[..|t.mem| - wr] && data == buf[|t.mem| - wr..n]
       case AwaitWrOff(wr, _, n) => Span(t.mem, wr, Advance(|t.mem|, wr, n)) == buf[..n]
       case _ => true
  }

  lemma PokeKeepsOrder(w: World, buf: Str, skip: nat, data: Str)
    requires Ordered(w, buf)
    requires skip + |data| <= Free(|w.sink.mem|, w.sink.wr, w.sink.rd)
    requires Advance(|w.sink.mem|, w.sink.wr, skip) + |data| <= |w.sink.mem|
    ensures Ordered(w.(sink := w.sink.(mem := Poke(w.sink.mem, Advance(|w.sink.mem|, w.sink.wr, skip), data))), buf)
  {
    DistanceShrinks(w.sink);
    PokeKeepsUnread(w.sink.mem, w.sink.pos, w.sink.wr, skip, data);
  }

  lemma OneStretch(mem: Str, wr: nat, data: Str)
    requires 1 <= |data| < |mem| && wr + |data| <= |mem|
    ensures Span(Poke(mem, wr, data), wr, Advance(|mem|, wr, |data|)) == data
  {
    var out := Poke(mem, wr, data);
    assert out[wr..wr + |data|] == data;
    if wr + |data| == |mem| { assert out[wr..] + out[..0] == out[wr..wr + |data|]; }
  }

  lemma SecondStretch(mem: Str, wr: nat, chunk: Str)
    requires wr < |mem| && |mem| - wr < |chunk| < |mem| && mem[wr..] == chunk[..|mem| - wr]
    ensures Span(Poke(mem, 0, chunk[|mem| - wr..]), wr, Advance(|mem|, wr, |chunk|)) == chunk
  {
    var second := chunk[|mem| - wr..];
    var out := Poke(mem, 0, second);
    assert out[..|second|] == second && out[wr..] == mem[wr..];
    assert chunk == chunk[..|mem| - wr] + second;
  }

  lemma LoadedFirst(form: Form, w: World, buf: Str, pc: Pc)
    requires Ordered(w, buf) && Loaded(w, buf, pc) && pc.AwaitFirst?
    ensures var r := Resume(form, w, buf, pc);
      Ordered(r.0, buf) && Loaded(r.0, buf, r.2) && r.2.n == pc.n && r.1 == buf
  {
    hide Ordered, Span, LoopHead;
    var t := w.sink;
    PokeKeepsOrder(w, buf, 0, pc.data);
    if pc.wr + pc.n <= |t.mem| {
      OneStretch(t.mem, pc.wr, pc.data);
    } else {
      assert Poke(t.mem, pc.wr, pc.data)[pc.wr..] == pc.data;
    }
  }

  lemma LoadedSecond(form: Form, w: World, buf: Str, pc: Pc)
    requires Ordered(w, buf) && Loaded(w, buf, pc) && pc.AwaitSecond?
    ensures var r := Resume(form, w, buf, pc);
      Ordered(r.0, buf) && Loaded(r.0, buf, r.2) && r.2.n == pc.n && r.1 == buf
  {
    hide Ordered, Span, LoopHead;
    var t := w.sink;
    var first, chunk := |t.mem| - pc.wr, buf[..pc.n];
    assert chunk[..first] == buf[..first] && chunk[first..] == pc.data;
    PokeKeepsOrder(w, buf, first, pc.data);
    SecondStretch(t.mem, pc.wr, chunk);
  }

  /** Writing a stretch brings such a pass on and leaves the stream in order. */
  lemma LoadedWrites(form: Form, w: World, buf: Str, pc: Pc)
    requires Ordered(w, buf) && Loaded(w, buf, pc) && !pc.AwaitWrOff?
    ensures var r := Resume(form, w, buf, pc);
      Ordered(r.0, buf) && Loaded(r.0, buf, r.2) && r.2.n == pc.n && r.1 == buf
  {
    hide Ordered, Resume;
    if pc.AwaitFirst? { LoadedFirst(form, w, buf, pc); } else { LoadedSecond(form, w, buf, pc); }
  }

  /** Publishing the chunk announces exactly the front of the buffer. */
  lemma LoadedPublishes(form: Form, w: World, buf: Str, pc: Pc)
    requires Ordered(w, buf) && Loaded(w, buf, pc) && pc.AwaitWrOff?
    ensures var r := Resume(form, w, buf, pc);
      Ordered(r.0, r.1) && r.1 == buf[pc.n..] && r.0.sink == w.sink.(wr := Advance(|w.sink.mem|, pc.wr, pc.n))
  {
    hide Span, Stream, LoopHead, InOrder;
    assert buf == buf[..pc.n] + buf[pc.n..];
    assert Slice(buf, pc.n, |buf|) == buf[pc.n..];
    AnnounceChunk(w, buf[..pc.n], buf[pc.n..]);
  }

  /** Nothing but `rd` changes while the firmware reads and gives back. */
  lemma LoadedStays(w: World, v: World, buf: Str, pc: Pc)
    requires Loaded(w, buf, pc) && InRange(v.sink)
    requires v.sink.mem == w.sink.mem && v.sink.wr == w.sink.wr
    requires Distance(|v.sink.mem|, v.sink.rd, v.sink.wr) <= Distance(|w.sink.mem|, w.sink.rd, w.sink.wr)
    ensures Loaded(v, buf, pc)
  {}

  // ----- The repaired form -----

  /** Only one pass at a time, and it is as it should be. */
  ghost predicate InvRepaired(s: State) {
    && Ordered(s.w, s.buf) && (s.poll == Idle || s.client == Idle)
    && (InFlight(s.poll) ==> Loaded(s.w, s.buf, s.poll))
    && (InFlight(s.client) ==> Loaded(s.w, s.buf, s.client))
    && Wf(s)
  }

  lemma RepairedLoopHead(w: World, buf: Str, form: Form)
    requires InRange(w.sink) && form.Repaired?
    ensures var pc := LoopHead(form, buf, |w.sink.mem|, w.sink.wr, w.sink.rd); InFlight(pc) ==> Loaded(w, buf, pc)
  {}

  lemma RepairedGoesOn(s: State, who: Who)
    requires InvRepaired(s)
    ensures InvRepaired(After(Repaired(true), s, GoesOn(who)))
  {
    var pc := PcOf(s, who);
    if pc.AwaitDesc? {
      RepairedLoopHead(s.w, s.buf, Repaired(true));
    } else if pc.AwaitWrOff? {
      LoadedPublishes(Repaired(true), s.w, s.buf, pc);
    } else if InFlight(pc) {
      hide Resume, Loaded, Ordered;
      LoadedWrites(Repaired(true), s.w, s.buf, pc);
    }
  }

  lemma OutsideKeepsOrder(w: World, buf: Str, step: Step)
    requires Ordered(w, buf)
    ensures var v := Apply(w, step);
      && Ordered(v, buf) && v.sink.mem == w.sink.mem && v.sink.wr == w.sink.wr
      && Distance(|v.sink.mem|, v.sink.rd, v.sink.wr) <= Distance(|w.sink.mem|, w.sink.rd, w.sink.wr)
  {
    ApplyKeeps(w, step, buf);
  }

  lemma RepairedSend(s: State, data: Str)
    requires InvRepaired(s)
    ensures InvRepaired(Send(Repaired(true), s, data))
  {
    OutsideKeepsOrder(s.w, s.buf, Arrive(data));
    MergeKeepsStream(s.w, s.buf, data);
    hide InOrder;
  }

  lemma RepairedStep(s: State, e: Event)
    requires InvRepaired(s)
    ensures InvRepaired(After(Repaired(true), s, e))
  {
    match e
    case Outside(step) =>
      if step.Arrive? {
        RepairedSend(s, step.data);
      } else {
        OutsideKeepsOrder(s.w, s.buf, step);
        var v := Apply(s.w, step);
        hide Apply, Ordered;
        if InFlight(s.poll) { LoadedStays(s.w, v, s.buf, s.poll); }
        if InFlight(s.client) { LoadedStays(s.w, v, s.buf, s.client); }
      }
    case StartPoll =>
    case GoesOn(who) => RepairedGoesOn(s, who);
  }

  /** With the four repairs the stream is in order after every run: any data, any room in the
      ring, polls and writes starting at any moment, and anything the firmware does. */
  lemma {:induction false} RepairedRunKeepsOrder(s: State, es: seq<Event>)
    requires InvRepaired(s)
    ensures var t := Execute(Repaired(true), s, es);
      InvRepaired(t) && t.w.sink.consumed <= t.w.accepted
    decreases |es|
  {
    if es == [] {
    } else {
      hide After, InvRepaired;
      RepairedStep(s, es[0]);
      RepairedRunKeepsOrder(After(Repaired(true), s, es[0]), es[1..]);
    }
  }

  // ----- The code as it is: safe sends -----

  /** The other pass has already written and published the chunk of this one: it writes the
      same bytes again, or nothing. */
  ghost predicate Rewriting(w: World, buf: Str, pc: Pc) {
    var t := w.sink;
    && InRange(t) && InFlight(pc) && WfPc(|t.mem|, pc)
    && buf == [] && pc.n < |t.mem| && t.wr == Advance(|t.mem|, pc.wr, pc.n)
    && match pc
       case AwaitFirst(wr, _, _, data) => data == t.mem[wr..wr + |data|]
       case AwaitSecond(_, _, _, data) => data == t.mem[..|data|]
       case _ => true
  }

  ghost predicate PcOk(w: World, buf: Str, pc: Pc) {
    InFlight(pc) ==> (Loaded(w, buf, pc) && pc.n == |buf|) || Rewriting(w, buf, pc)
  }

  /** The stream is in order, the buffer fits, and every pass in flight carries all of it. */
  ghost predicate Inv(s: State) {
    Wf(s) && Ordered(s.w, s.buf) && Fits(s.w.sink, |s.buf|) && PcOk(s.w, s.buf, s.poll) && PcOk(s.w, s.buf, s.client)
  }

  /** What a client can check before it calls `writeToChannel`: a write is under way and the
      data will be queued, or there is nothing new, or no poll has a chunk in flight, the merge
      does not change the bytes, and they fit. */
  predicate SendIsSafe(s: State, data: Str)
    requires Wf(s)
  {
    || s.client != Idle
    || (data == [] && (s.buf == [] || s.w.pending == []))
    || (!InFlight(s.poll) && WriteIsSafe(s.w, s.buf, data))
  }

  lemma PcOkStays(w: World, v: World, buf: Str, pc: Pc)
    requires InRange(w.sink) && PcOk(w, buf, pc) && InRange(v.sink)
    requires v.sink.mem == w.sink.mem && v.sink.wr == w.sink.wr
    requires Distance(|v.sink.mem|, v.sink.rd, v.sink.wr) <= Distance(|w.sink.mem|, w.sink.rd, w.sink.wr)
    ensures PcOk(v, buf, pc)
  {}

  lemma FittingLoopHead(w: World, buf: Str)
    requires InRange(w.sink) && Fits(w.sink, |buf|)
    ensures PcOk(w, buf, LoopHead(AsWritten, buf, |w.sink.mem|, w.sink.wr, w.sink.rd))
  {}

  /** Writing the same bytes again changes nothing. */
  lemma PokeSame(mem: Str, at: nat, n: nat)
    requires at + n <= |mem|
    ensures Poke(mem, at, mem[at..at + n]) == mem
  {}

  lemma RewritingGoesOn(w: World, buf: Str, pc: Pc)
    requires InRange(w.sink) && WfPc(|w.sink.mem|, pc) && Rewriting(w, buf, pc)
    ensures var r := Resume(AsWritten, w, buf, pc); r.0 == w && r.1 == buf && PcOk(w, buf, r.2)
  {
    if !pc.AwaitWrOff? {
      var at := if pc.AwaitFirst? then pc.wr else 0;
      PokeSame(w.sink.mem, at, |pc.data|);
      assert w.sink.mem[..|pc.data|] == w.sink.mem[0..|pc.data|];
    }
  }

  /** When two passes carry the same chunk, a stretch that one writes suits the other. */
  lemma OtherWrites(w: World, buf: Str, pc: Pc, other: Pc)
    requires Loaded(w, buf, pc) && !pc.AwaitWrOff? && pc.n == |buf|
    requires Loaded(w, buf, other) && other.n == |buf|
    requires Loaded(Resume(AsWritten, w, buf, pc).0, buf, Resume(AsWritten, w, buf, pc).2)
    ensures Loaded(Resume(AsWritten, w, buf, pc).0, buf, other)
  {
    hide Span, LoopHead, Slice;
    var t, v := w.sink, Resume(AsWritten, w, buf, pc).0.sink;
    var first := FirstPart(|t.mem|, t.wr, pc.n);
    if pc.AwaitFirst? {
      OtherAfterFirst(t.mem, t.wr, buf, v.mem);
    } else {
      OtherAfterSecond(t.mem, t.wr, buf, v.mem);
    }
  }

  lemma OtherAfterFirst(mem: Str, wr: nat, chunk: Str, out: Str)
    requires wr < |mem| && 1 <= |chunk| < |mem|
    requires out == Poke(mem, wr, chunk[..FirstPart(|mem|, wr, |chunk|)])
    ensures wr + |chunk| > |mem| ==> out[wr..] == chunk[..|mem| - wr]
    ensures Span(mem, wr, Advance(|mem|, wr, |chunk|)) == chunk ==> Span(out, wr, Advance(|mem|, wr, |chunk|)) == chunk
  {
    var first := FirstPart(|mem|, wr, |chunk|);
    var next := Advance(|mem|, wr, |chunk|);
    if Span(mem, wr, next) == chunk {
      assert Span(mem, wr, next)[..first] == mem[wr..wr + first];
      PokeSame(mem, wr, first);
    }
  }

  lemma OtherAfterSecond(mem: Str, wr: nat, chunk: Str, out: Str)
    requires wr < |mem| && |mem| - wr < |chunk| < |mem|
    requires out == Poke(mem, 0, chunk[|mem| - wr..])
    ensures out[wr..] == mem[wr..]
    ensures Span(mem, wr, Advance(|mem|, wr, |chunk|)) == chunk ==> Span(out, wr, Advance(|mem|, wr, |chunk|)) == chunk
  {
    var first, next := |mem| - wr, Advance(|mem|, wr, |chunk|);
    if Span(mem, wr, next) == chunk {
      assert chunk[first..] == mem[0..next];
      PokeSame(mem, 0, next);
    }
  }

  /** When one of them publishes the chunk, the other one is left with rewriting it. */
  lemma OtherPublishes(w: World, buf: Str, pc: Pc, other: Pc)
    requires Loaded(w, buf, pc) && pc.AwaitWrOff? && pc.n == |buf|
    requires Loaded(w, buf, other) && other.n == |buf|
    ensures Rewriting(Resume(AsWritten, w, buf, pc).0, [], other)
  {
    var t := w.sink;
    var first, next := FirstPart(|t.mem|, t.wr, pc.n), Advance(|t.mem|, t.wr, pc.n);
    assert buf[..pc.n] == buf;
    assert Span(t.mem, t.wr, next)[..first] == t.mem[t.wr..t.wr + first];
    if pc.wr + pc.n > |t.mem| { assert Span(t.mem, t.wr, next)[first..] == t.mem[..next]; }
  }

  lemma GoesOnKeeps(w: World, buf: Str, pc: Pc, other: Pc)
    requires InRange(w.sink) && WfPc(|w.sink.mem|, pc) && WfPc(|w.sink.mem|, other)
    requires Ordered(w, buf) && Fits(w.sink, |buf|) && PcOk(w, buf, pc) && PcOk(w, buf, other)
    ensures var r := Resume(AsWritten, w, buf, pc);
      Ordered(r.0, r.1) && Fits(r.0.sink, |r.1|) && PcOk(r.0, r.1, r.2) && PcOk(r.0, r.1, other)
  {
    hide Ordered, Rewriting, Loaded;
    if pc.AwaitDesc? {
      FittingLoopHead(w, buf);
    } else if InFlight(pc) {
      if Rewriting(w, buf, pc) {
        RewritingGoesOn(w, buf, pc);
      } else {
        NotBoth(w, buf, pc, other);
        if pc.AwaitWrOff? {
          LoadedPublishes(AsWritten, w, buf, pc);
          if InFlight(other) { OtherPublishes(w, buf, pc, other); }
        } else {
          LoadedWrites(AsWritten, w, buf, pc);
          if InFlight(other) { OtherWrites(w, buf, pc, other); }
        }
      }
    }
  }

  lemma NotBoth(w: World, buf: Str, pc: Pc, other: Pc)
    requires Loaded(w, buf, pc)
    ensures !Rewriting(w, buf, other) && pc.n <= |buf|
  {}

  /** Passes look at the ring and the buffer only. */
  lemma SameSink(w: World, v: World, buf: Str, pc: Pc)
    requires InRange(w.sink) && v.sink == w.sink && PcOk(w, buf, pc)
    ensures PcOk(v, buf, pc)
  {}

  lemma SafeSend(s: State, data: Str)
    requires Inv(s) && SendIsSafe(s, data)
    ensures Inv(Send(AsWritten, s, data))
  {
    hide PcOk, Fits, InOrder;
    var v := Send(AsWritten, s, data).w;
    SameSink(s.w, v, s.buf, s.poll);
    SameSink(s.w, v, s.buf, s.client);
    if data == [] && s.buf == [] {
    } else if s.client != Idle {
      OutsideKeepsOrder(s.w, s.buf, Arrive(data));
    } else {
      MergeKeepsStream(s.w, s.buf, data);
      if s.w.pending + data == [] {
        assert s.w.pending + data + s.buf == s.buf && s.buf + (s.w.pending + data) == s.buf;
      } else {
        NotInFlight(v, s.w.pending + data + s.buf, s.poll);
      }
      NotInFlight(v, s.w.pending + data + s.buf, AwaitDesc);
    }
  }

  lemma NotInFlight(w: World, buf: Str, pc: Pc)
    requires !InFlight(pc)
    ensures PcOk(w, buf, pc)
  {}

  lemma SafeStep(s: State, e: Event)
    requires Inv(s) && (e.Outside? && e.step.Arrive? ==> SendIsSafe(s, e.step.data))
    ensures Inv(After(AsWritten, s, e))
  {
    match e
    case Outside(step) =>
      if step.Arrive? {
        SafeSend(s, step.data);
      } else {
        OutsideKeepsOrder(s.w, s.buf, step);
        var v := Apply(s.w, step);
        FitsStays(s.w.sink, v.sink, |s.buf|);
        hide Apply, Ordered, PcOk, Fits;
        PcOkStays(s.w, v, s.buf, s.poll);
        PcOkStays(s.w, v, s.buf, s.client);
      }
    case StartPoll =>
    case GoesOn(who) =>
      hide Ordered, PcOk, Fits, Resume;
      GoesOnKeeps(s.w, s.buf, PcOf(s, who), if who.Poll? then s.client else s.poll);
  }

  ghost predicate EachSendIsSafe(s: State, es: seq<Event>)
    requires Wf(s)
    decreases |es|
  {
    es == [] ||
    ((es[0].Outside? && es[0].step.Arrive? ==> SendIsSafe(s, es[0].step.data)) &&
     EachSendIsSafe(After(AsWritten, s, es[0]), es[1..]))
  }

  /** Over every run whose sends are safe, with polls starting and going on at any moment, also
      while a write is under way: the firmware reads a prefix of the accepted bytes, and ring,
      buffer and queue hold the rest in order. */
  lemma {:induction false} SafeRunKeepsOrder(s: State, es: seq<Event>)
    requires Inv(s) && EachSendIsSafe(s, es)
    ensures var t := Execute(AsWritten, s, es);
      Inv(t) && t.w.sink.consumed <= t.w.accepted
    decreases |es|
  {
    if es == [] {
    } else {
      hide After, Inv, SendIsSafe;
      SafeStep(s, es[0]);
      SafeRunKeepsOrder(After(AsWritten, s, es[0]), es[1..]);
    }
  }

  // ----- The code as it is: sends that are not safe -----

  /** Whatever it carries, a chunk in flight ends with `wrOff` behind it and its length cut
      from the buffer, after at most three answers of GDB. */
  lemma {:induction false} TurnEnds(form: Form, s: State, who: Who) returns (es: seq<Event>)
    requires Wf(s) && InFlight(PcOf(s, who))
    ensures NoSends(es) && |es| <= 3
    ensures var t, pc := Execute(form, s, es), PcOf(s, who);
      && t.w == s.w.(sink := s.w.sink.(mem := t.w.sink.mem, wr := Advance(|s.w.sink.mem|, pc.wr, pc.n)))
      && t.buf == Slice(s.buf, pc.n, |s.buf|)
      && PcOf(t, who) == NextTurn(form, t.buf, |s.w.sink.mem|, pc.wr, pc.rd)
      && (if who.Poll? then t.client == s.client else t.poll == s.poll)
    ensures |es| <= if PcOf(s, who).AwaitFirst? then 3 else if PcOf(s, who).AwaitSecond? then 2 else 1
    decreases if PcOf(s, who).AwaitFirst? then 2 else if PcOf(s, who).AwaitSecond? then 1 else 0
  {
    hide NextTurn, Slice, Poke;
    var next := After(form, s, GoesOn(who));
    if PcOf(s, who).AwaitWrOff? {
      es := [GoesOn(who)];
      assert es[1..] == [];
    } else {
      var rest := TurnEnds(form, next, who);
      es := [GoesOn(who)] + rest;
      assert es[1..] == rest;
    }
  }

  lemma DistanceAdvances(size: nat, from: nat, to: nat, n: nat)
    requires from < size && to < size && n <= size
    ensures Distance(size, from, Advance(size, to, n)) <= Distance(size, from, to) + n
  {}

  /** A chunk cannot make up for bytes that are missing already. */
  lemma TurnBreaks(s: State, who: Who) returns (es: seq<Event>)
    requires Wf(s) && InFlight(PcOf(s, who)) && PcOf(s, who).n <= |s.buf|
    requires |s.w.sink.consumed| + Distance(|s.w.sink.mem|, s.w.sink.pos, PcOf(s, who).wr) + |s.buf| + |s.w.pending|
             < |s.w.accepted|
    ensures NoSends(es) && var t := Execute(AsWritten, s, es); !Ordered(t.w, t.buf)
  {
    hide Execute, Stream;
    es := TurnEnds(AsWritten, s, who);
    var t, pc := Execute(AsWritten, s, es), PcOf(s, who);
    StreamLength(t.w, t.buf);
    DistanceAdvances(|s.w.sink.mem|, s.w.sink.pos, pc.wr, pc.n);
  }

  /** Bytes that a run without further sends loses, duplicates or puts out of order. */
  ghost predicate Breaks(s: State, es: seq<Event>)
    requires Wf(s)
  {
    NoSends(es) && var t := Execute(AsWritten, s, es); !Ordered(t.w, t.buf)
  }

  lemma ThenBreaks(s: State, es: seq<Event>, more: seq<Event>)
    requires Wf(s) && NoSends(es) && Breaks(Execute(AsWritten, s, es), more)
    ensures Breaks(s, es + more)
  {
    ExecuteConcat(AsWritten, s, es, more);
  }

  /** `writeToChannel` starts a pass of its own. */
  predicate StartsPass(s: State, data: Str) {
    s.client == Idle && (data != [] || s.buf != [])
  }

  lemma SendLength(s: State, data: Str)
    requires Wf(s) && InOrder(s.w, s.buf) && StartsPass(s, data)
    ensures var t := Send(AsWritten, s, data);
      && |Stream(t.w, t.buf)| == |t.w.accepted|
      && t.w.pending == [] && |t.buf| == |s.w.pending| + |data| + |s.buf|
  {
    MergeKeepsStream(s.w, s.buf, data);
    var t := Send(AsWritten, s, data);
    StreamLength(t.w, t.buf);
    StreamLength(t.w, s.buf + (s.w.pending + data));
  }

  /** New data in front of a chunk that a poll has in flight: the poll cuts its length from
      bytes it has not written. */
  lemma SendDuringChunk(s: State, data: Str) returns (es: seq<Event>)
    requires Inv(s) && StartsPass(s, data) && InFlight(s.poll) && s.w.pending + data != []
    ensures Breaks(Send(AsWritten, s, data), es)
  {
    hide Execute, Stream, Send;
    var t, pc := Send(AsWritten, s, data), s.poll;
    SendLength(s, data);
    StreamLength(t.w, t.buf);
    SendEffect(s, data);
    es := TurnEnds(AsWritten, t, Poll);
    var u := Execute(AsWritten, t, es);
    StreamLength(u.w, u.buf);
    if Loaded(s.w, s.buf, pc) {
      var more := TurnBreaks(u, Poll);
      ThenBreaks(t, es, more);
      es := es + more;
    }
  }

  lemma SendEffect(s: State, data: Str)
    requires Wf(s) && StartsPass(s, data)
    ensures Send(AsWritten, s, data) == State(Merged(s.w, data), s.w.pending + data + s.buf, s.poll, AwaitDesc)
  {}

  /** A pass that sees room, but less than it needs. */
  lemma OversizedPass(s: State, who: Who) returns (es: seq<Event>)
    requires Wf(s) && ValidSink(s.w.sink) && PcOf(s, who) == AwaitDesc
    requires |Stream(s.w, s.buf)| == |s.w.accepted|
    requires Space(|s.w.sink.mem|, s.w.sink.wr, s.w.sink.rd) > 0
    requires |s.buf| > Free(|s.w.sink.mem|, s.w.sink.wr, s.w.sink.rd)
    ensures Breaks(s, es)
  {
    hide Execute, Stream, Breaks;
    var t := After(AsWritten, s, GoesOn(who));
    StreamLength(s.w, s.buf);
    if PcOf(t, who).n < |s.buf| {
      es := TurnEnds(AsWritten, t, who);
      var more := TurnBreaks(Execute(AsWritten, t, es), who);
      ThenBreaks(t, es, more);
      es := es + more;
    } else {
      es := FillingTurn(t, who);
    }
    OneEvent(AsWritten, s, GoesOn(who));
    ThenBreaks(s, [GoesOn(who)], es);
    es := [GoesOn(who)] + es;
  }

  /** A turn that takes the whole buffer, and with it the slot that should stay free. */
  lemma FillingTurn(s: State, who: Who) returns (es: seq<Event>)
    requires Wf(s) && ValidSink(s.w.sink) && InFlight(PcOf(s, who))
    requires PcOf(s, who).n == |s.buf| && PcOf(s, who).wr == s.w.sink.wr
    requires |Stream(s.w, s.buf)| == |s.w.accepted|
    requires !PassIsSafe(|s.w.sink.mem|, s.w.sink.wr, s.w.sink.rd, |s.buf|)
    requires |s.buf| <= Space(|s.w.sink.mem|, s.w.sink.wr, s.w.sink.rd)
    ensures Breaks(s, es)
  {
    hide Execute, Stream;
    var sink := s.w.sink;
    StreamLength(s.w, s.buf);
    es := TurnEnds(AsWritten, s, who);
    var u := Execute(AsWritten, s, es);
    StreamLength(u.w, u.buf);
    UnsafeDistance(|sink.mem|, sink.wr, sink.rd, |s.buf|);
    PositionOnTheWay(sink);
    if ValidSink(u.w.sink) { PositionOnTheWay(u.w.sink); }
  }

  /** A pass for a buffer that does not fit. */
  lemma UnfitPass(s: State, who: Who) returns (es: seq<Event>)
    requires Wf(s) && ValidSink(s.w.sink) && PcOf(s, who) == AwaitDesc
    requires |Stream(s.w, s.buf)| == |s.w.accepted| && !Fits(s.w.sink, |s.buf|)
    ensures Breaks(s, es)
  {
    hide Execute, Stream, Run;
    if Space(|s.w.sink.mem|, s.w.sink.wr, s.w.sink.rd) > 0 {
      es := OversizedPass(s, who);
    } else {
      var steps := OneSlotFreed(s.w, s.buf);
      OutsidesRun(AsWritten, s, steps);
      var more := OversizedPass(s.(w := Run(s.w, steps)), who);
      ThenBreaks(s, Outsides(steps), more);
      es := Outsides(steps) + more;
    }
  }

  lemma OneEvent(form: Form, s: State, e: Event)
    requires Wf(s)
    ensures Execute(form, s, [e]) == After(form, s, e)
  {
    assert [e][1..] == [];
  }

  function Outsides(steps: seq<Step>): seq<Event> {
    if steps == [] then [] else [Outside(steps[0])] + Outsides(steps[1..])
  }

  /** While a client's pass is under way, data that arrives is queued. */
  lemma {:induction false} OutsidesRun(form: Form, s: State, steps: seq<Step>)
    requires Wf(s) && (s.client != Idle || forall k :: 0 <= k < |steps| ==> !steps[k].Arrive?)
    ensures (forall k :: 0 <= k < |steps| ==> !steps[k].Arrive?) ==> NoSends(Outsides(steps))
    ensures Execute(form, s, Outsides(steps)) == s.(w := Run(s.w, steps))
    decreases |steps|
  {
    if steps != [] {
      var next := After(form, s, Outside(steps[0]));
      assert s.w.pending + [] == s.w.pending && s.w.accepted + [] == s.w.accepted;
      assert next == s.(w := Apply(s.w, steps[0]));
      OutsidesRun(form, next, steps[1..]);
      assert Outsides(steps)[1..] == Outsides(steps[1..]);
    }
  }

  lemma OversizedSend(s: State, data: Str) returns (es: seq<Event>)
    requires Inv(s) && StartsPass(s, data) && !Fits(s.w.sink, |s.w.pending| + |data| + |s.buf|)
    ensures Breaks(Send(AsWritten, s, data), es)
  {
    hide Execute, Stream, Send, Fits;
    SendLength(s, data);
    SendEffect(s, data);
    es := UnfitPass(Send(AsWritten, s, data), Client);
  }

  lemma MisorderedSend(s: State, data: Str)
    requires Inv(s) && StartsPass(s, data) && !MergeKeeps(s.w, s.buf, data)
    ensures Breaks(Send(AsWritten, s, data), [])
  {
    SendEffect(s, data);
    MergeKeepsStream(s.w, s.buf, data);
    var t, queued := Send(AsWritten, s, data), s.w.pending + data;
    var sent := s.w.sink.consumed + Span(s.w.sink.mem, s.w.sink.pos, s.w.sink.wr);
    assert Stream(t.w, t.buf) == sent + (queued + s.buf) && t.w.accepted == sent + (s.buf + queued);
    if InOrder(t.w, t.buf) { SplitAt(sent, queued + s.buf, sent, s.buf + queued); }
  }

  /** In any state that safe sends lead to, a call of `writeToChannel` leaves the stream in
      order whatever follows, polls included, exactly when it is safe in the sense above. */
  lemma SendKeepsOrderExactlyWhen(s: State, data: Str)
    requires Inv(s)
    ensures (forall es :: !Breaks(Send(AsWritten, s, data), es)) <==> SendIsSafe(s, data)
  {
    hide Execute, Send, Fits, MergeKeeps, Breaks;
    if SendIsSafe(s, data) {
      SafeSend(s, data);
      forall es ensures !Breaks(Send(AsWritten, s, data), es) { NeverBreaks(Send(AsWritten, s, data), es); }
    } else {
      if InFlight(s.poll) {
        assert s.w.pending + data != [];
        var es := SendDuringChunk(s, data);
      } else if Fits(s.w.sink, |s.w.pending| + |data| + |s.buf|) {
        MisorderedSend(s, data);
      } else {
        var es := OversizedSend(s, data);
      }
    }
  }

  lemma {:induction false} NeverBreaks(s: State, es: seq<Event>)
    requires Inv(s)
    ensures !Breaks(s, es)
    decreases |es|
  {
    if NoSends(es) {
      NoSendsAreSafe(s, es);
      SafeRunKeepsOrder(s, es);
    }
  }

  lemma {:induction false} NoSendsAreSafe(s: State, es: seq<Event>)
    requires Wf(s) && NoSends(es)
    ensures EachSendIsSafe(s, es)
    decreases |es|
  {
    if es != [] { NoSendsAreSafe(After(AsWritten, s, es[0]), es[1..]); }
  }

  /** In order and with no pass under way, the stream stays in order whatever polls, answers
      and firmware steps follow, exactly when the buffer fits. */
  lemma PollsKeepOrderExactlyWhen(s: State)
    requires Wf(s) && Ordered(s.w, s.buf) && s.poll == Idle && s.client == Idle
    ensures (forall es :: !Breaks(s, es)) <==> Fits(s.w.sink, |s.buf|)
  {
    hide Execute, Breaks, Fits;
    if Fits(s.w.sink, |s.buf|) {
      forall es ensures !Breaks(s, es) { NeverBreaks(s, es); }
    } else {
      var t := s.(poll := AwaitDesc);
      var es := UnfitPass(t, Poll);
      OneEvent(AsWritten, s, StartPoll);
      ThenBreaks(s, [StartPoll], es);
      assert Breaks(s, [StartPoll] + es);
    }
  }

  // ----- When an accepted byte is written at last -----

  lemma OnlySendsQueue(form: Form, s: State, e: Event)
    requires Wf(s) && !(e.Outside? && e.step.Arrive?)
    ensures After(form, s, e).w.pending == s.w.pending && After(form, s, e).w.accepted == s.w.accepted
  {
    hide LoopHead, NextTurn, Poke, Slice;
  }

  /** What is queued stays queued, and nothing more is accepted, until the next send. */
  lemma {:induction false} QueueWaitsForSend(form: Form, s: State, es: seq<Event>)
    requires Wf(s) && NoSends(es)
    ensures Execute(form, s, es).w.pending == s.w.pending && Execute(form, s, es).w.accepted == s.w.accepted
    decreases |es|
  {
    if es != [] {
      hide After;
      OnlySendsQueue(form, s, es[0]);
      QueueWaitsForSend(form, After(form, s, es[0]), es[1..]);
    }
  }

  /** Everything that was accepted has been written. */
  predicate AllWritten(s: State) {
    s.buf == [] && s.w.pending == []
  }

  /** A run without further sends in which everything is written. */
  ghost predicate Writes(form: Form, s: State, es: seq<Event>)
    requires Wf(s)
  {
    NoSends(es) && AllWritten(Execute(form, s, es))
  }

  /** A full ring of two slots or more gets room; the buffer and the passes stay. */
  lemma RoomIsMade(form: Form, s: State) returns (es: seq<Event>)
    requires Wf(s) && ValidSink(s.w.sink) && |s.w.sink.mem| >= 2
    ensures NoSends(es) && var t := Execute(form, s, es);
      && t == s.(w := t.w) && ValidSink(t.w.sink) && Free(|t.w.sink.mem|, t.w.sink.wr, t.w.sink.rd) > 0
      && Free(|t.w.sink.mem|, t.w.sink.wr, t.w.sink.rd) >= Free(|s.w.sink.mem|, s.w.sink.wr, s.w.sink.rd)
      && (Free(|s.w.sink.mem|, s.w.sink.wr, s.w.sink.rd) > 0 ==> t == s)
  {
    es := [];
    if Free(|s.w.sink.mem|, s.w.sink.wr, s.w.sink.rd) == 0 {
      var steps := OneSlotFreed(s.w, s.buf);
      OutsidesRun(form, s, steps);
      es := Outsides(steps);
    }
  }

  /** One chunk of a poll that waits for the descriptor of a ring with room. */
  lemma PollWritesChunk(form: Form, s: State) returns (es: seq<Event>)
    requires Wf(s) && s.poll == AwaitDesc && s.buf != []
    requires Free(|s.w.sink.mem|, s.w.sink.wr, s.w.sink.rd) > 0
    ensures NoSends(es) && var t, sink := Execute(form, s, es), s.w.sink;
      && t.client == s.client && |t.buf| < |s.buf|
      && (|s.buf| <= Free(|sink.mem|, sink.wr, sink.rd) ==> t.buf == [])
      && (form.Repaired? ==> t.poll == if t.buf == [] then Idle else AwaitDesc)
  {
    hide Execute;
    var t := After(form, s, GoesOn(Poll));
    var rest := TurnEnds(form, t, Poll);
    OneEvent(form, s, GoesOn(Poll));
    ExecuteConcat(form, s, [GoesOn(Poll)], rest);
    es := [GoesOn(Poll)] + rest;
  }

  /** In the repaired form polls empty the buffer, as the firmware makes room. */
  lemma {:induction false} PollsEmptyBuffer(s: State) returns (es: seq<Event>)
    requires InvRepaired(s) && s.poll == AwaitDesc && s.client == Idle && |s.w.sink.mem| >= 2
    ensures NoSends(es) && Execute(Repaired(true), s, es).buf == []
    decreases |s.buf|
  {
    es := [];
    if s.buf != [] {
      hide Execute, InvRepaired;
      var form := Repaired(true);
      SoundWhenRepaired(s);
      var first := RoomIsMade(form, s);
      var t := Execute(form, s, first);
      var chunk := PollWritesChunk(form, t);
      var u := Execute(form, t, chunk);
      ExecuteConcat(form, s, first, chunk);
      es := first + chunk;
      if u.buf != [] {
        RepairedRunKeepsOrder(s, es);
        var rest := PollsEmptyBuffer(u);
        ExecuteConcat(form, s, es, rest);
        es := es + rest;
      }
    }
  }

  lemma SoundWhenRepaired(s: State)
    requires InvRepaired(s)
    ensures Wf(s) && ValidSink(s.w.sink)
  {}

  lemma OneSlotStep(s: State, e: Event)
    requires InvRepaired(s) && |s.w.sink.mem| == 1 && !(e.Outside? && e.step.Arrive?)
    ensures After(Repaired(true), s, e).buf == s.buf
  {
    assert !InFlight(s.poll) && !InFlight(s.client);
    hide LoopHead, NextTurn, Poke, Slice, Ordered;
  }

  /** A ring of one slot has no room, ever. */
  lemma {:induction false} OneSlotIsStuck(s: State, es: seq<Event>)
    requires InvRepaired(s) && NoSends(es) && |s.w.sink.mem| == 1
    ensures Execute(Repaired(true), s, es).buf == s.buf
    decreases |es|
  {
    if es != [] {
      hide After, InvRepaired;
      RepairedStep(s, es[0]);
      OneSlotStep(s, es[0]);
      SoundWhenRepaired(s);
      OneSlotIsStuck(After(Repaired(true), s, es[0]), es[1..]);
    }
  }

  /** In the repaired form, with no pass under way: some run without further sends writes
      everything, exactly when nothing is queued and the ring has a second slot or nothing is
      left to write. */
  lemma RepairedWritesAllExactlyWhen(s: State)
    requires InvRepaired(s) && s.poll == Idle && s.client == Idle
    ensures (exists es :: Writes(Repaired(true), s, es)) <==>
      s.w.pending == [] && (s.buf == [] || |s.w.sink.mem| >= 2)
  {
    var form := Repaired(true);
    if s.w.pending == [] && s.buf == [] {
      assert Writes(form, s, []);
    } else if s.w.pending == [] && |s.w.sink.mem| >= 2 {
      var t := s.(poll := AwaitDesc);
      assert InvRepaired(t);
      var es := PollsEmptyBuffer(t);
      OneEvent(form, s, StartPoll);
      ExecuteConcat(form, s, [StartPoll], es);
      QueueWaitsForSend(form, s, [StartPoll] + es);
      assert Writes(form, s, [StartPoll] + es);
    } else {
      forall es | NoSends(es) ensures !Writes(form, s, es) {
        QueueWaitsForSend(form, s, es);
        if |s.w.sink.mem| < 2 { OneSlotIsStuck(s, es); }
      }
    }
  }

  /** In the code as it is, in a state that safe sends lead to and with no pass under way: some
      run without further sends writes everything, exactly when nothing is queued. */
  lemma PollsWriteAllExactlyWhen(s: State)
    requires Inv(s) && s.poll == Idle && s.client == Idle
    ensures (exists es :: Writes(AsWritten, s, es)) <==> s.w.pending == []
  {
    if s.w.pending != [] {
      forall es | NoSends(es) ensures !Writes(AsWritten, s, es) { QueueWaitsForSend(AsWritten, s, es); }
    } else if s.buf == [] {
      assert Writes(AsWritten, s, []);
    } else {
      var t := s.(poll := AwaitDesc);
      var first := RoomIsMade(AsWritten, t);
      var u := Execute(AsWritten, t, first);
      var chunk := PollWritesChunk(AsWritten, u);
      hide Execute;
      OneEvent(AsWritten, s, StartPoll);
      ExecuteConcat(AsWritten, t, first, chunk);
      ExecuteConcat(AsWritten, s, [StartPoll], first + chunk);
      QueueWaitsForSend(AsWritten, s, [StartPoll] + (first + chunk));
      assert Writes(AsWritten, s, [StartPoll] + (first + chunk));
    }
  }

  // ----- Passes that do not overlap -----

  /** Waiting for GDB, and going on with its answer. */
  function Wait(schedule: Schedule): seq<Event> {
    Outsides(Next(schedule)) + [GoesOn(Client)]
  }

  lemma WaitIs(s: State, schedule: Schedule)
    requires Wf(s) && s.client != Idle
    ensures Execute(AsWritten, s, Wait(schedule)) == After(AsWritten, s.(w := Run(s.w, Next(schedule))), GoesOn(Client))
  {
    hide Execute, After;
    OutsidesRun(AsWritten, s, Next(schedule));
    ExecuteConcat(AsWritten, s, Outsides(Next(schedule)), [GoesOn(Client)]);
    OneEvent(AsWritten, s.(w := Run(s.w, Next(schedule))), GoesOn(Client));
  }

  /** One turn of the loop of a pass that is alone. */
  lemma ChunkIsARun(s: State, schedule: Schedule) returns (es: seq<Event>)
    requires Wf(s) && s.client.AwaitFirst? && s.client.n <= |s.buf|
    requires s.client.data == s.buf[..FirstPart(|s.w.sink.mem|, s.client.wr, s.client.n)]
    ensures var pc, size := s.client, |s.w.sink.mem|;
      var rest := s.buf[pc.n..];
      Execute(AsWritten, s, es) ==
        State(WriteChunk(s.w, pc.wr, s.buf[..pc.n], schedule).0, rest, s.poll,
              LoopHead(AsWritten, rest, size, pc.wr, pc.rd))
  {
    hide LoopHead, Run, Poke, Wait, Execute;
    var pc, size := s.client, |s.w.sink.mem|;
    var first, chunk := FirstPart(size, pc.wr, pc.n), s.buf[..pc.n];
    assert chunk[..first] == s.buf[..first] && chunk[first..] == s.buf[first..pc.n];
    assert Slice(s.buf, pc.n, |s.buf|) == s.buf[pc.n..];
    WaitIs(s, schedule);
    var s1 := Execute(AsWritten, s, Wait(schedule));
    es := Wait(schedule);
    var left := Rest(schedule);
    if first < pc.n {
      WaitIs(s1, left);
      ExecuteConcat(AsWritten, s, es, Wait(left));
      es := es + Wait(left);
      s1 := Execute(AsWritten, s1, Wait(left));
      left := Rest(left);
    }
    assert s1.client == AwaitWrOff(pc.wr, pc.rd, pc.n);
    WaitIs(s1, left);
    ExecuteConcat(AsWritten, s, es, Wait(left));
    es := es + Wait(left);
  }

  lemma {:induction false} DrainIsARun(s: State, wr: nat, rd: nat, schedule: Schedule) returns (es: seq<Event>)
    requires Wf(s) && s.poll == Idle && wr < |s.w.sink.mem| && rd < |s.w.sink.mem|
    requires s.client == LoopHead(AsWritten, s.buf, |s.w.sink.mem|, wr, rd)
    ensures var r := Drain(s.w, wr, rd, s.buf, schedule);
      Execute(AsWritten, s, es) == State(r.0, r.1, Idle, Idle)
    decreases |s.buf|
  {
    es := [];
    if s.client != Idle {
      var first := ChunkIsARun(s, schedule);
      var t, next := Execute(AsWritten, s, first), WriteChunk(s.w, wr, s.buf[..s.client.n], schedule);
      hide Execute, WriteChunk;
      var rest := DrainIsARun(t, wr, rd, next.1);
      ExecuteConcat(AsWritten, s, first, rest);
      es := first + rest;
    }
  }

  /** A write as a whole is a run of the machine in which no poll takes part. */
  lemma WriteIsARun(s: State, data: Str, schedule: Schedule) returns (es: seq<Event>)
    requires Wf(s) && s.poll == Idle && s.client == Idle
    ensures var r := Write(s.w, s.buf, data, schedule);
      Execute(AsWritten, Send(AsWritten, s, data), es) == State(r.0, r.1, Idle, Idle)
  {
    var t := Send(AsWritten, s, data);
    es := [];
    if t.client != Idle {
      hide Execute, Drain, Run, LoopHead;
      WaitIs(t, schedule);
      var u := Execute(AsWritten, t, Wait(schedule));
      var rest := DrainIsARun(u, u.w.sink.wr, u.w.sink.rd, Rest(schedule));
      ExecuteConcat(AsWritten, t, Wait(schedule), rest);
      es := Wait(schedule) + rest;
    }
  }

  // ----- Three repairs are not enough -----

  const FOUR := [11, 12, 13, 14]
  const FIVE := [11, 12, 13, 14, 15]

  /** A ring of four slots, and what the passes have done to it when `mem` and `wr` hold. */
  function Ring(mem: Str, wr: nat): World {
    World(Sink(mem, wr, 1, 1, []), [], FIVE)
  }

  /** Two bytes for an empty ring of four slots, the second while the first one's pass waits for
      the descriptor: whatever polls, answers and firmware steps follow, it is not written. */
  lemma QueuedByteIsNotWritten(es: seq<Event>)
    requires NoSends(es)
    ensures var s := State(Ring([0, 0, 0, 0], 1).(accepted := []), [], Idle, Idle);
      var t := Execute(AsWritten, Send(AsWritten, Send(AsWritten, s, [11]), [12]), es);
      Inv(s) && t.w.accepted == [11, 12] && t.w.pending == [12]
  {
    var s := State(Ring([0, 0, 0, 0], 1).(accepted := []), [], Idle, Idle);
    var t := Send(AsWritten, Send(AsWritten, s, [11]), [12]);
    assert t.w.pending == [12] && t.w.accepted == [11, 12];
    assert Inv(s) by { StreamLength(s.w, s.buf); }
    QueueWaitsForSend(AsWritten, t, es);
  }

  lemma BothStart()
    ensures var form, s := Repaired(false), State(Ring([0, 0, 0, 0], 1).(accepted := FOUR), FOUR, Idle, Idle);
      After(form, After(form, s, StartPoll), Outside(Arrive([15])))
      == State(Ring([0, 0, 0, 0], 1), FIVE, AwaitDesc, AwaitDesc)
  {
    assert FOUR + ([] + [15]) == FIVE && FOUR + [15] == FIVE;
  }

  lemma BothReadTheDescriptor()
    ensures var form, s := Repaired(false), State(Ring([0, 0, 0, 0], 1), FIVE, AwaitDesc, AwaitDesc);
      var chunk := AwaitFirst(1, 1, 3, [11, 12, 13]);
      After(form, After(form, s, GoesOn(Poll)), GoesOn(Client)) == State(Ring([0, 0, 0, 0], 1), FIVE, chunk, chunk)
  {
    assert FIVE[..3] == [11, 12, 13];
  }

  lemma BothWriteTheSameBytes()
    ensures var form, chunk := Repaired(false), AwaitFirst(1, 1, 3, [11, 12, 13]);
      var s, done := State(Ring([0, 0, 0, 0], 1), FIVE, chunk, chunk), AwaitWrOff(1, 1, 3);
      After(form, After(form, s, GoesOn(Poll)), GoesOn(Client)) == State(Ring([0, 11, 12, 13], 1), FIVE, done, done)
  {
    assert Poke([0, 0, 0, 0], 1, [11, 12, 13]) == [0, 11, 12, 13] == Poke([0, 11, 12, 13], 1, [11, 12, 13]);
  }

  lemma BothCutTheBuffer()
    ensures var form, done := Repaired(false), AwaitWrOff(1, 1, 3);
      var s := State(Ring([0, 11, 12, 13], 1), FIVE, done, done);
      After(form, After(form, s, GoesOn(Poll)), GoesOn(Client)) == State(Ring([0, 11, 12, 13], 0), [], AwaitDesc, Idle)
  {
    assert Slice(FIVE, 3, 5) == [14, 15] && Slice([14, 15], 3, 2) == [];
  }

  lemma BothRest()
    ensures var form, s := Repaired(false), State(Ring([0, 11, 12, 13], 0), [], AwaitDesc, Idle);
      After(form, After(form, s, GoesOn(Poll)), GoesOn(Client)) == State(Ring([0, 11, 12, 13], 0), [], Idle, Idle)
  {
    var form, s := Repaired(false), State(Ring([0, 11, 12, 13], 0), [], AwaitDesc, Idle);
    var t := After(form, s, GoesOn(Poll));
    assert t == State(Ring([0, 11, 12, 13], 0), [], Idle, Idle);
    assert After(form, t, GoesOn(Client)) == t;
  }

  lemma TwoEvents(form: Form, s: State, e: Event, f: Event)
    requires Wf(s)
    ensures Execute(form, s, [e, f]) == After(form, After(form, s, e), f)
  {
    hide After;
    var es := [e, f];
    assert es[1..] == [f];
    assert Execute(form, s, es) == Execute(form, After(form, s, e), [f]);
    OneEvent(form, After(form, s, e), f);
  }

  /** Five bytes for a ring of four slots, the last of them sent while a poll waits for the
      descriptor: both passes write the first three bytes, each cuts three bytes from the
      buffer, and the last two are gone. */
  lemma UnguardedPollLosesBytes() returns (es: seq<Event>)
    ensures var s := State(Ring([0, 0, 0, 0], 1).(accepted := FOUR), FOUR, Idle, Idle);
      InvRepaired(s) && Execute(Repaired(false), s, es) == State(Ring([0, 11, 12, 13], 0), [], Idle, Idle)
    ensures !InOrder(Ring([0, 11, 12, 13], 0), [])
  {
    var form, s := Repaired(false), State(Ring([0, 0, 0, 0], 1).(accepted := FOUR), FOUR, Idle, Idle);
    StreamLength(Ring([0, 11, 12, 13], 0), []);
    assert Stream(s.w, FOUR) == FOUR;
    BothStart();
    BothReadTheDescriptor();
    BothWriteTheSameBytes();
    BothCutTheBuffer();
    BothRest();
    hide Execute, After;
    es := [StartPoll, Outside(Arrive([15]))];
    TwoEvents(form, s, StartPoll, Outside(Arrive([15])));
    var turn := [GoesOn(Poll), GoesOn(Client)];
    for i := 0 to 4
      invariant Execute(form, s, es) == match i
        case 0 => State(Ring([0, 0, 0, 0], 1), FIVE, AwaitDesc, AwaitDesc)
        case 1 => State(Ring([0, 0, 0, 0], 1), FIVE,
                        AwaitFirst(1, 1, 3, [11, 12, 13]), AwaitFirst(1, 1, 3, [11, 12, 13]))
        case 2 => State(Ring([0, 11, 12, 13], 1), FIVE, AwaitWrOff(1, 1, 3), AwaitWrOff(1, 1, 3))
        case 3 => State(Ring([0, 11, 12, 13], 0), [], AwaitDesc, Idle)
        case _ => State(Ring([0, 11, 12, 13], 0), [], Idle, Idle)
    {
      TwoEvents(form, Execute(form, s, es), GoesOn(Poll), GoesOn(Client));
      ExecuteConcat(form, s, es, turn);
      es := es + turn;
    }
  }
}
