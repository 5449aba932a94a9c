/** The framing of the proxy funnel: one socket carries the bytes of many streams. */
module Funnel {
  import opened Options
  import opened Text

  datatype Frame = Frame(streamId: int, payload: Str)

  predicate IsBytes(s: Str) {
    forall i :: 0 <= i < |s| ==> 0 <= s[i] < 256
  }

  /** `writeUInt8` and `writeUInt32LE` throw outside these ranges. */
  predicate Encodable(f: Frame) {
    0 <= f.streamId < 256 && |f.payload| < 0x1_0000_0000 && IsBytes(f.payload)
  }

  // ----- Little-endian numbers -----

  function LittleEndian(n: nat, width: nat): (r: Str)
    ensures |r| == width && IsBytes(r)
    decreases width
  {
    if width == 0 then [] else [n % 256] + LittleEndian(n / 256, width - 1)
  }

  function ReadLittleEndian(s: Str): nat
    requires IsBytes(s)
  {
    if s == [] then 0 else s[0] + 256 * ReadLittleEndian(s[1..])
  }

  function Power256(k: nat): nat {
    if k == 0 then 1 else 256 * Power256(k - 1)
  }

  lemma {:induction false} LittleEndianRoundTrip(n: nat, width: nat)
    requires n < Power256(width)
    ensures ReadLittleEndian(LittleEndian(n, width)) == n
    decreases width
  {
    if width > 0 {
      LittleEndianRoundTrip(n / 256, width - 1);
      assert LittleEndian(n, width)[1..] == LittleEndian(n / 256, width - 1);
    }
  }

  lemma {:induction false} ReadLittleEndianRoundTrip(s: Str)
    requires IsBytes(s)
    ensures LittleEndian(ReadLittleEndian(s), |s|) == s
    ensures ReadLittleEndian(s) < Power256(|s|)
  {
    if s != [] {
      ReadLittleEndianRoundTrip(s[1..]);
    }
  }

  // ----- Frames -----

  /** What `sendCommandBytes` writes for one frame. */
  function Encode(f: Frame): Str {
    [f.streamId] + LittleEndian(|f.payload|, 4) + f.payload
  }

  function EncodeAll(fs: seq<Frame>): Str {
    if fs == [] then [] else Encode(fs[0]) + EncodeAll(fs[1..])
  }

  predicate HasFrame(buffer: Str)
    requires IsBytes(buffer)
  {
    |buffer| >= 5 && |buffer| >= 5 + ReadLittleEndian(buffer[1..5])
  }

  /** The frame at the start of the buffer. */
  function FirstFrame(buffer: Str): Frame
    requires IsBytes(buffer) && HasFrame(buffer)
  {
    Frame(buffer[0], buffer[5..5 + ReadLittleEndian(buffer[1..5])])
  }

  lemma Power256Of4()
    ensures Power256(4) == 0x1_0000_0000
  {}

  lemma CutFrame(b: Str, n: nat)
    requires 5 <= n <= |b|
    ensures b == ([b[0]] + b[1..5] + b[5..n]) + b[n..]
  {}

  /** A complete frame at the start of a buffer is an encodable frame, and the buffer is its
      encoding and what follows. */
  lemma FirstFrameEncodes(buffer: Str)
    requires IsBytes(buffer) && HasFrame(buffer)
    ensures var f := FirstFrame(buffer);
      Encodable(f) && buffer == Encode(f) + buffer[5 + |f.payload|..]
  {
    ReadLittleEndianRoundTrip(buffer[1..5]);
    Power256Of4();
    CutFrame(buffer, 5 + ReadLittleEndian(buffer[1..5]));
  }

  /** An encoded frame, whatever follows it, is read back as that frame. */
  lemma EncodeIsFirstFrame(f: Frame, rest: Str)
    requires Encodable(f) && IsBytes(rest)
    ensures IsBytes(Encode(f) + rest) && HasFrame(Encode(f) + rest)
    ensures FirstFrame(Encode(f) + rest) == f
    ensures (Encode(f) + rest)[5 + |f.payload|..] == rest
  {
    var b, length := Encode(f) + rest, LittleEndian(|f.payload|, 4);
    Power256Of4();
    LittleEndianRoundTrip(|f.payload|, 4);
    assert b[1..5] == length;
    assert b[5..5 + |f.payload|] == f.payload;
  }

  /** The bytes on the wire: the stream id, the length with its lowest byte first, the payload. */
  lemma FrameLayout(f: Frame)
    requires Encodable(f)
    ensures var b := Encode(f);
      && IsBytes(b) && |b| == 5 + |f.payload|
      && b[0] == f.streamId && b[5..] == f.payload
      && |f.payload| == b[1] + 0x100 * b[2] + 0x1_0000 * b[3] + 0x100_0000 * b[4]
  {
    var b := Encode(f);
    EncodeIsFirstFrame(f, []);
    assert b + [] == b;
    FourBytes(b[1..5]);
    Power256Of4();
    LittleEndianRoundTrip(|f.payload|, 4);
    assert b[1..5] == LittleEndian(|f.payload|, 4);
  }

  lemma FourBytes(s: Str)
    requires IsBytes(s) && |s| == 4
    ensures ReadLittleEndian(s) == s[0] + 0x100 * s[1] + 0x1_0000 * s[2] + 0x100_0000 * s[3]
  {
    var t, u := s[1..], s[1..][1..];
    assert t[0] == s[1] && u[0] == s[2] && u[1..] == [s[3]] && [s[3]][1..] == [];
    assert ReadLittleEndian([s[3]]) == s[3];
    assert ReadLittleEndian(u) == s[2] + 0x100 * s[3];
  }

  /** A frame is taken from the buffer exactly when its header is there and as many bytes as
      the header says. */
  lemma FrameIsThereExactlyWhen(b: Str)
    requires IsBytes(b)
    ensures HasFrame(b) <==>
      |b| >= 5 && |b| >= 5 + b[1] + 0x100 * b[2] + 0x1_0000 * b[3] + 0x100_0000 * b[4]
  {
    if |b| >= 5 { FourBytes(b[1..5]); }
  }

  lemma EncodeAllOne(f: Frame)
    ensures EncodeAll([f]) == Encode(f)
  {}

  lemma {:induction false} EncodeAllAppend(fs: seq<Frame>, f: Frame)
    ensures EncodeAll(fs + [f]) == EncodeAll(fs) + Encode(f)
  {
    hide Encode;
    if fs == [] {
      EncodeAllOne(f);
      assert fs + [f] == [f];
    } else {
      EncodeAllAppend(fs[1..], f);
      assert (fs + [f])[1..] == fs[1..] + [f];
      Assoc(Encode(fs[0]), EncodeAll(fs[1..]), Encode(f));
    }
  }

  ghost predicate AllEncodable(fs: seq<Frame>) {
    forall i :: 0 <= i < |fs| ==> Encodable(fs[i])
  }

  lemma {:induction false} EncodeAllBytes(fs: seq<Frame>)
    requires AllEncodable(fs)
    ensures IsBytes(EncodeAll(fs))
  {
    if fs != [] { EncodeAllBytes(fs[1..]); }
  }

  lemma FramesAgree(f: Frame, g: Frame, x: Str, y: Str)
    requires Encodable(f) && Encodable(g) && IsBytes(x) && IsBytes(y)
    requires Encode(f) + x == Encode(g) + y
    ensures f == g && x == y
  {
    EncodeIsFirstFrame(f, x);
    EncodeIsFirstFrame(g, y);
  }

  lemma EncodeAllUnfold(fs: seq<Frame>, x: Str)
    requires fs != []
    ensures EncodeAll(fs) + x == Encode(fs[0]) + (EncodeAll(fs[1..]) + x)
  {}

  lemma PeelFirst(got: seq<Frame>, unread: Str, sent: seq<Frame>)
    requires AllEncodable(got) && AllEncodable(sent) && IsBytes(unread) && got != []
    requires EncodeAll(got) + unread == EncodeAll(sent)
    ensures sent != [] && got[0] == sent[0]
    ensures EncodeAll(got[1..]) + unread == EncodeAll(sent[1..])
  {
    EncodeAllUnfold(got, unread);
    assert |EncodeAll(got) + unread| > 0;
    EncodeAllBytes(got[1..]);
    EncodeAllBytes(sent[1..]);
    FramesAgree(got[0], sent[0], EncodeAll(got[1..]) + unread, EncodeAll(sent[1..]));
  }

  lemma PrefixCons(got: seq<Frame>, sent: seq<Frame>)
    requires got != [] && sent != [] && got[0] == sent[0] && got[1..] <= sent[1..]
    ensures got <= sent && sent[|got|..] == sent[1..][|got[1..]|..]
  {}

  /** Frames read from a stream of encoded frames are those frames, in order. */
  lemma {:induction false} DecodedIsPrefix(got: seq<Frame>, unread: Str, sent: seq<Frame>)
    requires AllEncodable(got) && AllEncodable(sent) && IsBytes(unread)
    requires EncodeAll(got) + unread == EncodeAll(sent)
    ensures got <= sent && unread == EncodeAll(sent[|got|..])
  {
    if got == [] {
      assert EncodeAll(got) + unread == unread;
      assert sent[|got|..] == sent;
    } else {
      PeelFirst(got, unread, sent);
      DecodedIsPrefix(got[1..], unread, sent[1..]);
      PrefixCons(got, sent);
    }
  }

  // ----- The reader, as it moves from one await to the next -----

  /** `waiting` is the frame that `handleProxyData` has cut out when it suspends at its
      `await`; `delivered` lists the calls of `handleProxyMessage`. */
  datatype Reader = Reader(buffer: Str, busy: bool, waiting: Option<Frame>, delivered: seq<Frame>)

  datatype Event = Data(chunk: Str) | Resume

  const IDLE := Reader([], false, None, [])

  /** From the head of the loop to its `await`, or out of the loop. */
  function LoopHead(r: Reader): Reader
    requires IsBytes(r.buffer)
  {
    if HasFrame(r.buffer) then r.(busy := true, waiting := Some(FirstFrame(r.buffer)))
    else r.(busy := false, waiting := None)
  }

  function Step(r: Reader, e: Event): Reader
    requires IsBytes(r.buffer) && (e.Data? ==> IsBytes(e.chunk))
    requires r.waiting.Some? ==> |r.buffer| >= 5 + |r.waiting.value.payload|
  {
    match e
    case Data(chunk) =>
      var r1 := r.(buffer := r.buffer + chunk);
      if r.busy then r1 else LoopHead(r1)
    case Resume =>
      if r.waiting.None? then r
      else
        var f := r.waiting.value;
        LoopHead(r.(delivered := r.delivered + [f], buffer := r.buffer[5 + |f.payload|..]))
  }

  /** `msgBuffer` is what has been received and not delivered; the reader is suspended on the
      first frame of it, or there is no complete frame in it. */
  ghost predicate Inv(r: Reader, received: Str) {
    && IsBytes(r.buffer)
    && AllEncodable(r.delivered)
    && received == EncodeAll(r.delivered) + r.buffer
    && (r.busy <==> r.waiting.Some?)
    && (r.busy <==> HasFrame(r.buffer))
    && (r.busy ==> r.waiting == Some(FirstFrame(r.buffer)))
  }

  function Arrived(e: Event): Str {
    match e
    case Data(chunk) => chunk
    case Resume => []
  }

  /** Bytes that arrive behind a complete frame do not change it. */
  lemma FrameStays(buffer: Str, chunk: Str)
    requires IsBytes(buffer) && IsBytes(chunk) && HasFrame(buffer)
    ensures HasFrame(buffer + chunk) && FirstFrame(buffer + chunk) == FirstFrame(buffer)
  {
    var n := 5 + ReadLittleEndian(buffer[1..5]);
    assert (buffer + chunk)[1..5] == buffer[1..5];
    assert (buffer + chunk)[5..n] == buffer[5..n];
  }

  lemma DataKeepsInv(r: Reader, received: Str, chunk: Str)
    requires Inv(r, received) && IsBytes(chunk)
    ensures Inv(Step(r, Data(chunk)), received + chunk)
  {
    Assoc(EncodeAll(r.delivered), r.buffer, chunk);
    if r.busy { FrameStays(r.buffer, chunk); }
  }

  lemma MoveAcross(whole: Str, done: Str, todo: Str, first: Str, rest: Str)
    requires whole == done + todo && todo == first + rest
    ensures whole == (done + first) + rest
  {}

  lemma LoopHeadKeepsInv(r: Reader, received: Str)
    requires IsBytes(r.buffer) && AllEncodable(r.delivered)
    requires received == EncodeAll(r.delivered) + r.buffer
    ensures Inv(LoopHead(r), received)
  {}

  lemma ResumeKeepsInv(r: Reader, received: Str)
    requires Inv(r, received)
    ensures Inv(Step(r, Resume), received)
  {
    if r.busy {
      var f := FirstFrame(r.buffer);
      var rest := r.buffer[5 + |f.payload|..];
      FirstFrameEncodes(r.buffer);
      EncodeAllAppend(r.delivered, f);
      MoveAcross(received, EncodeAll(r.delivered), r.buffer, Encode(f), rest);
      LoopHeadKeepsInv(r.(delivered := r.delivered + [f], buffer := rest), received);
    }
  }

  lemma StepKeepsInv(r: Reader, received: Str, e: Event)
    requires Inv(r, received) && IsBytes(Arrived(e))
    ensures Inv(Step(r, e), received + Arrived(e))
  {
    match e
    case Data(chunk) => DataKeepsInv(r, received, chunk);
    case Resume =>
      assert received + [] == received;
      ResumeKeepsInv(r, received);
  }

  ghost predicate ValidEvents(es: seq<Event>) {
    forall i :: 0 <= i < |es| ==> IsBytes(Arrived(es[i]))
  }

  function Received(es: seq<Event>): Str {
    if es == [] then [] else Received(es[..|es| - 1]) + Arrived(es[|es| - 1])
  }

  /** The state after a run from the idle reader, and that its invariant holds there. */
  ghost function Run(es: seq<Event>): (r: Reader)
    requires ValidEvents(es)
    ensures Inv(r, Received(es))
  {
    if es == [] then IDLE
    else
      var n := |es| - 1;
      var r := Run(es[..n]);
      StepKeepsInv(r, Received(es[..n]), es[n]);
      Step(r, es[n])
  }

  /** For all frames sent and every way the bytes are cut into data events, with data events
      falling anywhere between the awaits: what has been delivered is always a prefix of the
      frames sent, and the buffer holds the rest of what was received. */
  lemma DeliveryIsPrefix(sent: seq<Frame>, es: seq<Event>)
    requires AllEncodable(sent) && ValidEvents(es) && Received(es) <= EncodeAll(sent)
    ensures Run(es).delivered <= sent
    ensures Received(es) == EncodeAll(Run(es).delivered) + Run(es).buffer
  {
    var r := Run(es);
    var unseen := EncodeAll(sent)[|Received(es)|..];
    Assoc(EncodeAll(r.delivered), r.buffer, unseen);
    EncodeAllBytes(sent);
    DecodedIsPrefix(r.delivered, r.buffer + unseen, sent);
  }

  /** When everything has arrived and the reader is not suspended, all frames are delivered. */
  lemma DeliveryIsComplete(sent: seq<Frame>, es: seq<Event>)
    requires AllEncodable(sent) && ValidEvents(es) && Received(es) == EncodeAll(sent)
    requires !Run(es).busy
    ensures Run(es).delivered == sent && Run(es).buffer == []
  {
    var r := Run(es);
    DecodedIsPrefix(r.delivered, r.buffer, sent);
    var rest := sent[|r.delivered|..];
    if rest != [] {
      EncodeAllBytes(rest[1..]);
      EncodeIsFirstFrame(rest[0], EncodeAll(rest[1..]));
    }
    assert sent == r.delivered + rest;
  }

  /** The number of complete frames in a buffer. */
  ghost function FrameCount(buffer: Str): nat
    requires IsBytes(buffer)
    decreases |buffer|
  {
    if !HasFrame(buffer) then 0 else 1 + FrameCount(buffer[5 + |FirstFrame(buffer).payload|..])
  }

  function ResumeTimes(r: Reader, n: nat, ghost received: Str): Reader
    requires Inv(r, received)
    decreases n
  {
    if n == 0 then r else
    ResumeKeepsInv(r, received);
    ResumeTimes(Step(r, Resume), n - 1, received)
  }

  lemma ResumeCounts(r: Reader, received: Str)
    requires Inv(r, received) && r.busy
    ensures FrameCount(r.buffer) > 0 && r.waiting.Some? && |r.buffer| >= 5 + |r.waiting.value.payload|
    ensures IsBytes(Step(r, Resume).buffer) && FrameCount(Step(r, Resume).buffer) == FrameCount(r.buffer) - 1
    ensures |Step(r, Resume).delivered| == |r.delivered| + 1
  {}

  /** No frame is stranded: as many resumptions as there are complete frames in the buffer
      deliver them all and leave the reader idle. */
  lemma {:induction false} ResumesDrain(r: Reader, received: Str)
    requires Inv(r, received)
    ensures var last := ResumeTimes(r, FrameCount(r.buffer), received);
      !last.busy && |last.delivered| == |r.delivered| + FrameCount(r.buffer)
    decreases FrameCount(r.buffer)
  {
    hide Step, HasFrame, FirstFrame;
    if r.busy {
      ResumeCounts(r, received);
      ResumeKeepsInv(r, received);
      ResumesDrain(Step(r, Resume), received);
    }
  }

  // ----- ProxyClient's two ends of the funnel -----

  class ProxySocket {
    var connected: bool
    var written: Str

    constructor ()
      ensures connected && written == []
    {
      connected, written := true, [];
    }

    /** `sendCommandBytes`: nothing is written without a socket, and an impossible header
        throws before anything is written. */
    method SendCommandBytes(streamId: int, data: Str) returns (threw: bool)
      requires IsBytes(data)
      modifies `written
      ensures threw <==> connected && !Encodable(Frame(streamId, data))
      ensures written == old(written) + (if connected && !threw then Encode(Frame(streamId, data)) else [])
    {
      threw := false;
      if !connected {
        return;
      }
      if streamId < 0 || streamId >= 256 || |data| >= 0x1_0000_0000 {
        threw := true;
        return;
      }
      var header := [streamId] + LittleEndian(|data|, 4);
      written := written + (header + data);
    }
  }

  class ProxyReader {
    var msgBuffer: Str
    var proxyBufferBusy: bool
    var suspended: Option<Frame>
    var delivered: seq<Frame>

    ghost function State(): Reader
      reads this
    {
      Reader(msgBuffer, proxyBufferBusy, suspended, delivered)
    }

    constructor ()
      ensures State() == IDLE
    {
      msgBuffer, proxyBufferBusy, suspended, delivered := [], false, None, [];
    }

    /** The loop of `handleProxyData` up to its next `await`, or to its end. */
    method RunToAwait()
      requires IsBytes(msgBuffer)
      modifies `proxyBufferBusy, `suspended
      ensures State() == LoopHead(old(State()))
    {
      proxyBufferBusy := true;
      suspended := None;
      if |msgBuffer| >= 5 {
        var streamId := msgBuffer[0];
        var length := ReadLittleEndian(msgBuffer[1..5]);
        if |msgBuffer| >= 5 + length {
          suspended := Some(Frame(streamId, msgBuffer[5..5 + length]));
          return;
        }
      }
      proxyBufferBusy := false;
    }

    /** `handleProxyData` on a data event. */
    method HandleProxyData(data: Str, ghost received: Str)
      requires Inv(State(), received) && IsBytes(data)
      modifies this
      ensures State() == Step(old(State()), Data(data)) && Inv(State(), received + data)
    {
      DataKeepsInv(State(), received, data);
      msgBuffer := msgBuffer + data;
      if proxyBufferBusy {
        return;
      }
      RunToAwait();
    }

    /** The rest of the loop body once the `await` is over, and the loop from there. */
    method AfterAwait(ghost received: Str)
      requires Inv(State(), received) && suspended.Some?
      modifies this
      ensures State() == Step(old(State()), Resume) && Inv(State(), received)
    {
      ResumeKeepsInv(State(), received);
      var f := suspended.value;
      delivered := delivered + [f];
      msgBuffer := msgBuffer[5 + |f.payload|..];
      RunToAwait();
    }
  }
}
