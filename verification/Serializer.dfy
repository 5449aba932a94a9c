/** The request serializer of `SeqDebugSession`: queued requests are handled one at a time. */
module Serializer {

  datatype Kind = ExitLike | ContinueLike | Ordinary

  datatype Request = Request(seqNo: int, kind: Kind)

  /** The promise that `processQueue` awaits: none, not resolved yet, or resolved while the
      loop has not gone on yet. */
  datatype InFlight = Nothing | Awaiting(seqNo: int) | Resolved(seqNo: int)

  /** What the handler does while it is being dispatched. */
  datatype Handling = AnswersLater | AnswersAtOnce | Throws

  /** `queue`, `isProcessing`, `current` and `exiting` are the session's fields. The rest is
      history: requests queued, dispatched from the queue, cancelled, and completed; and of
      each request that has left the queue whether it was dispatched. */
  datatype Session = Session(
    queue: seq<Request>, isProcessing: bool, current: InFlight, exiting: bool,
    arrived: seq<Request>, dispatched: seq<Request>, cancelled: seq<Request>,
    completed: seq<int>, fates: seq<bool>)

  const FRESH := Session([], false, Nothing, false, [], [], [], [], [])

  datatype Event =
    | Arrive(request: Request, handling: Handling)
    | Respond(seqNo: int)
    | GoOn(handling: Handling)

  // ----- The session as a state machine -----

  /** `sendResponse`: resolves the awaited promise if the response belongs to it. */
  function SendResponse(s: Session, seqNo: int): Session {
    if s.current == Awaiting(seqNo) then s.(current := Resolved(seqNo)) else s
  }

  /** `processQueue` from the head of its loop to the next `await`, or to its end. */
  function LoopHead(s: Session, handling: Handling): Session {
    if s.queue == [] || s.exiting then s.(isProcessing := false)
    else
      var request := s.queue[0];
      s.(queue := s.queue[1..], dispatched := s.dispatched + [request], fates := s.fates + [true],
         current := if handling == AnswersLater then Awaiting(request.seqNo) else Resolved(request.seqNo))
  }

  /** The cancellation responses for a list of requests, one after the other. */
  function Answer(s: Session, requests: seq<Request>): Session
    decreases |requests|
  {
    if requests == [] then s else Answer(SendResponse(s, requests[0].seqNo), requests[1..])
  }

  function Cancelling(s: Session): Session {
    Answer(s, s.queue).(queue := [], cancelled := s.cancelled + s.queue,
                        fates := s.fates + seq(|s.queue|, i => false))
  }

  function Enqueue(s: Session, request: Request, handling: Handling): Session {
    var q := s.(queue := s.queue + [request], arrived := s.arrived + [request]);
    if q.isProcessing then q else LoopHead(q.(isProcessing := true), handling)
  }

  function Step(s: Session, e: Event): Session {
    match e
    case Arrive(request, handling) =>
      if request.kind == ExitLike then s.(exiting := true)
      else Enqueue(if request.kind == ContinueLike then Cancelling(s) else s, request, handling)
    case Respond(seqNo) => SendResponse(s, seqNo)
    case GoOn(handling) =>
      if s.current.Resolved? then
        LoopHead(s.(current := Nothing, completed := s.completed + [s.current.seqNo]), handling)
      else s
  }

  // ----- The invariant -----

  /** The elements whose mark is `which`, in order. */
  function Select(requests: seq<Request>, marks: seq<bool>, which: bool): seq<Request>
    requires |requests| == |marks|
  {
    if requests == [] then []
    else
      var n := |requests| - 1;
      Select(requests[..n], marks[..n], which) + (if marks[n] == which then [requests[n]] else [])
  }

  function SeqNos(requests: seq<Request>): (r: seq<int>)
    ensures |r| == |requests|
    ensures forall i :: 0 <= i < |r| ==> r[i] == requests[i].seqNo
  {
    seq(|requests|, i requires 0 <= i < |requests| => requests[i].seqNo)
  }

  ghost predicate Distinct(requests: seq<Request>) {
    forall i, j :: 0 <= i < j < |requests| ==> requests[i].seqNo != requests[j].seqNo
  }

  /** The queue is what arrived last; everything before it was dispatched or cancelled, each
      once and in the order of arrival. All dispatched requests but the one in flight are
      completed, and when nothing is in flight nothing waits, unless the session is exiting. */
  ghost predicate Inv(s: Session) {
    && Distinct(s.arrived)
    && |s.fates| + |s.queue| == |s.arrived|
    && s.queue == s.arrived[|s.fates|..]
    && s.dispatched == Select(s.arrived[..|s.fates|], s.fates, true)
    && s.cancelled == Select(s.arrived[..|s.fates|], s.fates, false)
    && SeqNos(s.dispatched) == s.completed + (if s.current.Nothing? then [] else [s.current.seqNo])
    && (s.isProcessing <==> !s.current.Nothing?)
    && (!s.isProcessing ==> s.queue == [] || s.exiting)
  }

  ghost predicate Allowed(s: Session, e: Event) {
    e.Arrive? ==> forall r :: r in s.arrived ==> r.seqNo != e.request.seqNo
  }

  lemma SelectSnoc(requests: seq<Request>, marks: seq<bool>, request: Request, mark: bool, which: bool)
    requires |requests| == |marks|
    ensures Select(requests + [request], marks + [mark], which)
            == Select(requests, marks, which) + (if mark == which then [request] else [])
  {}

  lemma {:induction false} SelectAll(requests: seq<Request>, marks: seq<bool>, more: seq<Request>,
                                     mark: bool, which: bool)
    requires |requests| == |marks|
    ensures Select(requests + more, marks + seq(|more|, i => mark), which)
            == Select(requests, marks, which) + (if mark == which then more else [])
    decreases |more|
  {
    hide Select;
    if more == [] {
      assert requests + more == requests && marks + seq(0, i => mark) == marks;
    } else {
      var m := |more| - 1;
      var before, beforeMarks := requests + more[..m], marks + seq(m, i => mark);
      SelectAll(requests, marks, more[..m], mark, which);
      SelectSnoc(before, beforeMarks, more[m], mark, which);
      assert requests + more == before + [more[m]] && marks + seq(m + 1, i => mark) == beforeMarks + [mark];
      assert more == more[..m] + [more[m]];
    }
  }

  lemma {:induction false} SelectMembers(requests: seq<Request>, marks: seq<bool>, which: bool, r: Request)
    requires |requests| == |marks| && r in Select(requests, marks, which)
    ensures r in requests
  {
    if requests != [] {
      var n := |requests| - 1;
      if r != requests[n] { SelectMembers(requests[..n], marks[..n], which, r); }
    }
  }

  /** The request in flight is not one that is still queued. */
  lemma CurrentIsNotQueued(s: Session, i: nat)
    requires Inv(s) && !s.current.Nothing? && i < |s.queue|
    ensures s.queue[i].seqNo != s.current.seqNo
  {
    var n := |s.fates|;
    var last := s.dispatched[|s.dispatched| - 1];
    assert SeqNos(s.dispatched)[|s.dispatched| - 1] == s.current.seqNo;
    SelectMembers(s.arrived[..n], s.fates, true, last);
    var k :| 0 <= k < n && s.arrived[k] == last;
    assert s.arrived[n + i] == s.queue[i];
  }

  lemma {:induction false} AnswerKeeps(s: Session, requests: seq<Request>)
    requires forall i :: 0 <= i < |requests| ==> s.current != Awaiting(requests[i].seqNo)
    ensures Answer(s, requests) == s
    decreases |requests|
  {
    if requests != [] { AnswerKeeps(s, requests[1..]); }
  }

  /** Cancelling the queue answers every queued request and leaves the one in flight alone. */
  lemma CancellingKeepsInv(s: Session)
    requires Inv(s)
    ensures Inv(Cancelling(s)) && Cancelling(s).current == s.current && Cancelling(s).arrived == s.arrived
  {
    hide Select, SeqNos, Distinct;
    forall i | 0 <= i < |s.queue| ensures s.current != Awaiting(s.queue[i].seqNo) {
      if !s.current.Nothing? { CurrentIsNotQueued(s, i); }
    }
    AnswerKeeps(s, s.queue);
    var n := |s.fates|;
    SelectAll(s.arrived[..n], s.fates, s.queue, false, true);
    SelectAll(s.arrived[..n], s.fates, s.queue, false, false);
    assert s.arrived == s.arrived[..n] + s.queue;
    assert s.arrived[..|s.arrived|] == s.arrived;
  }

  /** The invariant in the middle of a step, when the loop is about to look at the queue. */
  ghost predicate AtLoopHead(s: Session) {
    Inv(s.(isProcessing := false, exiting := true)) && s.isProcessing
  }

  lemma LoopHeadKeepsInv(s: Session, handling: Handling)
    requires AtLoopHead(s)
    ensures Inv(LoopHead(s, handling))
  {
    if s.queue != [] && !s.exiting {
      var n, request := |s.fates|, s.queue[0];
      SelectAll(s.arrived[..n], s.fates, [request], true, true);
      SelectAll(s.arrived[..n], s.fates, [request], true, false);
      assert seq(1, i => true) == [true];
      assert s.arrived[..n + 1] == s.arrived[..n] + [request];
      assert s.arrived[n + 1..] == s.queue[1..];
      assert SeqNos(s.dispatched + [request]) == SeqNos(s.dispatched) + [request.seqNo];
      assert s.completed + [] == s.completed;
    }
  }

  lemma ArrivalKeepsInv(s: Session, request: Request)
    requires Inv(s) && forall r :: r in s.arrived ==> r.seqNo != request.seqNo
    ensures Inv(s.(queue := s.queue + [request], arrived := s.arrived + [request], exiting := true))
  {
    hide Select, SeqNos, Distinct;
    var n, all := |s.fates|, s.arrived + [request];
    assert all[..n] == s.arrived[..n] && all[n..] == s.queue + [request];
    DistinctSnoc(s.arrived, request);
  }

  lemma DistinctSnoc(requests: seq<Request>, request: Request)
    requires Distinct(requests) && forall r :: r in requests ==> r.seqNo != request.seqNo
    ensures Distinct(requests + [request])
  {}

  lemma EnqueueKeepsInv(s: Session, request: Request, handling: Handling)
    requires Inv(s) && Allowed(s, Arrive(request, handling))
    ensures Inv(Enqueue(s, request, handling))
  {
    ArrivalKeepsInv(s, request);
    if !s.isProcessing {
      var q := s.(queue := s.queue + [request], arrived := s.arrived + [request]);
      LoopHeadKeepsInv(q.(isProcessing := true), handling);
    }
  }

  lemma StepKeepsInv(s: Session, e: Event)
    requires Inv(s) && Allowed(s, e)
    ensures Inv(Step(s, e))
  {
    match e
    case Arrive(request, handling) =>
      if request.kind == ContinueLike { CancellingKeepsInv(s); }
      if request.kind != ExitLike {
        EnqueueKeepsInv(if request.kind == ContinueLike then Cancelling(s) else s, request, handling);
      }
    case Respond(seqNo) =>
    case GoOn(handling) =>
      if s.current.Resolved? {
        assert s.completed + [s.current.seqNo] + [] == s.completed + [s.current.seqNo];
        LoopHeadKeepsInv(s.(current := Nothing, completed := s.completed + [s.current.seqNo]), handling);
      }
  }

  // ----- Every run -----

  function Run(es: seq<Event>): Session
    decreases |es|
  {
    if es == [] then FRESH else Step(Run(es[..|es| - 1]), es[|es| - 1])
  }

  /** No two requests carry the same sequence number. */
  ghost predicate UniqueRequests(es: seq<Event>)
    decreases |es|
  {
    es == [] || (UniqueRequests(es[..|es| - 1]) && Allowed(Run(es[..|es| - 1]), es[|es| - 1]))
  }

  lemma {:induction false} RunKeepsInv(es: seq<Event>)
    requires UniqueRequests(es)
    ensures Inv(Run(es))
    decreases |es|
  {
    if es != [] {
      RunKeepsInv(es[..|es| - 1]);
      StepKeepsInv(Run(es[..|es| - 1]), es[|es| - 1]);
    }
  }

  lemma {:induction false} SelectPartitions(requests: seq<Request>, marks: seq<bool>)
    requires |requests| == |marks|
    ensures multiset(Select(requests, marks, true)) + multiset(Select(requests, marks, false)) == multiset(requests)
  {
    if requests != [] {
      hide Select;
      var n := |requests| - 1;
      var front, marked, r, mark := requests[..n], marks[..n], requests[n], marks[n];
      assert requests == front + [r] && marks == marked + [mark];
      SelectPartitions(front, marked);
      SelectSnoc(front, marked, r, mark, true);
      SelectSnoc(front, marked, r, mark, false);
      OneMoreSelected(Select(front, marked, true), Select(front, marked, false), front, r, mark,
                      Select(requests, marks, true), Select(requests, marks, false));
    }
  }

  lemma OneMoreSelected(kept: seq<Request>, left: seq<Request>, all: seq<Request>, r: Request, mark: bool,
                        nowKept: seq<Request>, nowLeft: seq<Request>)
    requires multiset(kept) + multiset(left) == multiset(all)
    requires nowKept == kept + (if mark then [r] else [])
    requires nowLeft == left + (if mark then [] else [r])
    ensures multiset(nowKept) + multiset(nowLeft) == multiset(all + [r])
  {}

  /** `sub` is `whole` with some elements left out. */
  ghost predicate Subsequence(sub: seq<Request>, whole: seq<Request>)
    decreases |whole|
  {
    if sub == [] then true
    else if whole == [] then false
    else
      var s, w := |sub| - 1, |whole| - 1;
      (sub[s] == whole[w] && Subsequence(sub[..s], whole[..w])) || Subsequence(sub, whole[..w])
  }

  lemma {:induction false} SelectIsSubsequence(requests: seq<Request>, marks: seq<bool>, which: bool)
    requires |requests| == |marks|
    ensures Subsequence(Select(requests, marks, which), requests)
  {
    if requests != [] {
      var n := |requests| - 1;
      SelectIsSubsequence(requests[..n], marks[..n], which);
      var sub := Select(requests[..n], marks[..n], which);
      assert (sub + [requests[n]])[..|sub|] == sub && sub + [] == sub;
    }
  }

  lemma {:induction false} SubsequenceGrows(sub: seq<Request>, whole: seq<Request>, more: seq<Request>)
    requires Subsequence(sub, whole)
    ensures Subsequence(sub, whole + more)
    decreases |more|
  {
    if more == [] {
      assert whole + more == whole;
    } else {
      SubsequenceGrows(sub, whole, more[..|more| - 1]);
      assert (whole + more)[..|whole + more| - 1] == whole + more[..|more| - 1];
    }
  }

  /** Over every run: at most one queued request is in flight, the others that were dispatched
      are completed in the order of their dispatch, that order is the order of arrival, and
      every request that arrived was dispatched once, was cancelled once, or still waits. */
  lemma OneAtATimeInOrder(es: seq<Event>)
    requires UniqueRequests(es)
    ensures var s := Run(es);
      && s.completed <= SeqNos(s.dispatched) && |s.dispatched| <= |s.completed| + 1
      && Subsequence(s.dispatched, s.arrived)
      && multiset(s.arrived) == multiset(s.dispatched) + multiset(s.cancelled) + multiset(s.queue)
      && Distinct(s.arrived)
  {
    hide Select, Subsequence;
    RunKeepsInv(es);
    var s := Run(es);
    hide Run;
    var n := |s.fates|;
    assert s.arrived == s.arrived[..n] + s.queue;
    SelectPartitions(s.arrived[..n], s.fates);
    SelectIsSubsequence(s.arrived[..n], s.fates, true);
    SubsequenceGrows(s.dispatched, s.arrived[..n], s.queue);
  }

  /** Nothing waits for ever: a session that is not processing has an empty queue. */
  lemma IdleMeansEmpty(es: seq<Event>)
    requires UniqueRequests(es) && !Run(es).isProcessing && !Run(es).exiting
    ensures Run(es).queue == []
  {}

  /** A response to a request that was cancelled or completed comes too late to release the
      one in flight. */
  lemma LateResponseChangesNothing(s: Session, r: Request)
    requires Inv(s) && (r in s.cancelled || (r in s.dispatched && r.seqNo in s.completed))
    ensures Step(s, Respond(r.seqNo)) == s
  {
    var n := |s.fates|;
    if !s.current.Nothing? {
      var last := s.dispatched[|s.dispatched| - 1];
      assert SeqNos(s.dispatched)[|s.dispatched| - 1] == last.seqNo == s.current.seqNo;
      if r in s.cancelled {
        SelectedApart(s.arrived[..n], s.fates, r, last);
      } else {
        var k :| 0 <= k < |s.completed| && s.completed[k] == r.seqNo;
        assert SeqNos(s.dispatched)[k] == r.seqNo;
        SelectDistinct(s.arrived[..n], s.fates, true);
      }
    }
  }

  lemma {:induction false} SelectDistinct(requests: seq<Request>, marks: seq<bool>, which: bool)
    requires |requests| == |marks| && Distinct(requests)
    ensures Distinct(Select(requests, marks, which))
  {
    if requests != [] {
      var n := |requests| - 1;
      SelectDistinct(requests[..n], marks[..n], which);
      var sub := Select(requests[..n], marks[..n], which);
      forall i | 0 <= i < |sub| ensures sub[i].seqNo != requests[n].seqNo {
        SelectMembers(requests[..n], marks[..n], which, sub[i]);
      }
    }
  }

  /** A cancelled request and a dispatched one differ. */
  lemma {:induction false} SelectedApart(requests: seq<Request>, marks: seq<bool>, r: Request, q: Request)
    requires |requests| == |marks| && Distinct(requests)
    requires r in Select(requests, marks, false) && q in Select(requests, marks, true)
    ensures r.seqNo != q.seqNo
  {
    var n := |requests| - 1;
    if r in Select(requests[..n], marks[..n], false) {
      SelectMembers(requests[..n], marks[..n], false, r);
      if q in Select(requests[..n], marks[..n], true) {
        SelectedApart(requests[..n], marks[..n], r, q);
      }
    } else {
      SelectMembers(requests[..n], marks[..n], true, q);
    }
  }

  /** Once an exit-like request has come, nothing more is taken from the queue. */
  lemma ExitingStopsTheQueue(s: Session, e: Event)
    requires s.exiting
    ensures Step(s, e).exiting && Step(s, e).dispatched == s.dispatched
  {
    AnswerKeepsHistory(s, s.queue);
  }

  lemma NobodyAnswered()
    ensures forall s :: Answer(s, []) == s
  {}

  lemma AnswerNext(s: Session, requests: seq<Request>, i: nat)
    requires i < |requests|
    ensures Answer(s, requests[i..]) == Answer(SendResponse(s, requests[i].seqNo), requests[i + 1..])
  {
    assert requests[i..][1..] == requests[i + 1..];
  }

  lemma {:induction false} AnswerKeepsHistory(s: Session, requests: seq<Request>)
    ensures Answer(s, requests).exiting == s.exiting && Answer(s, requests).dispatched == s.dispatched
    decreases |requests|
  {
    if requests != [] { AnswerKeepsHistory(SendResponse(s, requests[0].seqNo), requests[1..]); }
  }

  // ----- What each event does to the requests -----

  /** A request is in flight after it was dispatched, until its response; a handler that throws
      counts as one that has answered. */
  ghost predicate Dispatches(s: Session, t: Session, request: Request, handling: Handling) {
    && t.dispatched == s.dispatched + [request] && t.isProcessing
    && t.current ==
      match handling
      case AnswersLater => Awaiting(request.seqNo)
      case AnswersAtOnce => Resolved(request.seqNo)
      case Throws => Resolved(request.seqNo)
  }

  /** A continue-like request cancels exactly what is queued, any other request nothing; then
      the request is dispatched when nothing is in flight, and waits otherwise. */
  lemma ArrivalDoes(s: Session, request: Request, handling: Handling)
    requires Inv(s) && request.kind != ExitLike
    ensures var t := Step(s, Arrive(request, handling));
      var cancelled := if request.kind == ContinueLike then s.queue else [];
      && t.cancelled == s.cancelled + cancelled
      && t.arrived == s.arrived + [request] && t.completed == s.completed && t.exiting == s.exiting
      && (if s.isProcessing || s.exiting then
            && t.dispatched == s.dispatched && t.current == s.current
            && t.queue == (if request.kind == ContinueLike then [] else s.queue) + [request]
          else t.queue == [] && Dispatches(s, t, request, handling))
  {
    CancellingKeepsInv(s);
    CancellingDoes(s);
    hide Inv, Cancelling;
    assert s.cancelled + [] == s.cancelled;
    assert [request][1..] == [];
  }

  lemma CancellingDoes(s: Session)
    requires Inv(s)
    ensures var t := Cancelling(s);
      && t.queue == [] && t.cancelled == s.cancelled + s.queue
      && t.dispatched == s.dispatched && t.completed == s.completed
      && t.isProcessing == s.isProcessing && t.exiting == s.exiting
  {
    hide Select, SeqNos, Distinct;
    forall i | 0 <= i < |s.queue| ensures s.current != Awaiting(s.queue[i].seqNo) {
      if !s.current.Nothing? { CurrentIsNotQueued(s, i); }
    }
    AnswerKeeps(s, s.queue);
  }

  /** An exit-like request starts the exit, and is not queued. */
  lemma ExitArrives(s: Session, request: Request, handling: Handling)
    requires request.kind == ExitLike
    ensures Step(s, Arrive(request, handling)) == s.(exiting := true)
  {}

  /** Nothing but a continue-like request cancels anything. */
  lemma OnlyContinueCancels(s: Session, e: Event)
    requires !(e.Arrive? && e.request.kind == ContinueLike)
    ensures Step(s, e).cancelled == s.cancelled
  {}

  /** The response to the request in flight completes it, and the next one in the queue is
      dispatched, unless the session is exiting. */
  lemma ResponseReleases(s: Session, seqNo: int, handling: Handling)
    requires s.current == Awaiting(seqNo)
    ensures var t := Step(Step(s, Respond(seqNo)), GoOn(handling));
      && t.completed == s.completed + [seqNo] && t.cancelled == s.cancelled
      && (if s.queue != [] && !s.exiting then
            && Dispatches(s.(isProcessing := true), t.(isProcessing := true), s.queue[0], handling)
            && t.queue == s.queue[1..]
          else t.dispatched == s.dispatched && t.current == Nothing && !t.isProcessing && t.queue == s.queue)
  {}

  /** A response to any other request changes nothing. */
  lemma OtherResponseChangesNothing(s: Session, seqNo: int)
    requires s.current != Awaiting(seqNo)
    ensures Step(s, Respond(seqNo)) == s
  {}

  function RunFrom(s: Session, es: seq<Event>): Session
    decreases |es|
  {
    if es == [] then s else RunFrom(Step(s, es[0]), es[1..])
  }

  lemma TwoSteps(s: Session, e: Event, f: Event, rest: seq<Event>)
    ensures RunFrom(s, [e, f] + rest) == RunFrom(Step(Step(s, e), f), rest)
  {
    hide Step;
    var es := [e, f] + rest;
    assert es[1..] == [f] + rest && ([f] + rest)[1..] == rest;
  }

  /** Responses, each to the request in flight, empty the queue: everything that waits is
      dispatched and completed in its order, and the session comes to rest. */
  lemma {:induction false} ResponsesEmptyQueue(s: Session) returns (es: seq<Event>)
    requires Inv(s) && !s.exiting && s.current.Awaiting?
    ensures |es| == 2 * (|s.queue| + 1) && forall e <- es :: !e.Arrive?
    ensures var t := RunFrom(s, es);
      && t.queue == [] && !t.isProcessing && t.cancelled == s.cancelled
      && t.dispatched == s.dispatched + s.queue && t.completed == SeqNos(t.dispatched)
    decreases |s.queue|
  {
    var turn := [Respond(s.current.seqNo), GoOn(AnswersLater)];
    var t := Step(Step(s, turn[0]), turn[1]);
    ResponseReleases(s, s.current.seqNo, AnswersLater);
    StepKeepsInv(s, turn[0]);
    StepKeepsInv(Step(s, turn[0]), turn[1]);
    assert s.queue != [] ==> t.current.Awaiting?;
    assert SeqNos(s.dispatched) == s.completed + [s.current.seqNo];
    hide Step, Inv;
    var rest := [];
    if s.queue == [] {
      assert s.dispatched + [] == s.dispatched;
    } else {
      rest := ResponsesEmptyQueue(t);
      assert s.dispatched + [s.queue[0]] + s.queue[1..] == s.dispatched + s.queue;
    }
    es := turn + rest;
    TwoSteps(s, turn[0], turn[1], rest);
  }

  // ----- Cancelled requests over whole runs -----

  /** What was cancelled is neither queued nor dispatched. */
  lemma CancelledIsOut(s: Session, r: Request)
    requires Inv(s) && r in s.cancelled
    ensures r !in s.queue && r !in s.dispatched
  {
    var n := |s.fates|;
    SelectMembers(s.arrived[..n], s.fates, false, r);
    var k :| 0 <= k < n && s.arrived[k] == r;
    assert forall i :: 0 <= i < |s.queue| ==> s.queue[i] == s.arrived[n + i];
    if r in s.dispatched { SelectedApart(s.arrived[..n], s.fates, r, r); }
  }

  lemma {:induction false} CancelledGrows(es: seq<Event>, m: nat, n: nat)
    requires m <= n <= |es| && UniqueRequests(es[..n])
    ensures Run(es[..m]).cancelled <= Run(es[..n]).cancelled
    decreases n
  {
    if m < n {
      var before, e := es[..n - 1], es[n - 1];
      assert es[..n][..n - 1] == before;
      CancelledGrows(es, m, n - 1);
      RunKeepsInv(before);
      var s := Run(before);
      if e.Arrive? && e.request.kind == ContinueLike { ArrivalDoes(s, e.request, e.handling); }
      else { OnlyContinueCancels(s, e); }
    }
  }

  lemma {:induction false} UniquePrefix(es: seq<Event>, n: nat)
    requires UniqueRequests(es) && n <= |es|
    ensures UniqueRequests(es[..n])
    decreases |es|
  {
    if n == |es| {
      assert es[..n] == es;
    } else {
      UniquePrefix(es[..|es| - 1], n);
      assert es[..|es| - 1][..n] == es[..n];
    }
  }

  /** In every run: what is queued when a continue-like request arrives is cancelled with it,
      in the order of the queue, and is never queued or dispatched afterwards. */
  lemma ContinueCancelsForGood(es: seq<Event>, m: nat, n: nat)
    requires UniqueRequests(es) && m < n <= |es|
    requires es[m].Arrive? && es[m].request.kind == ContinueLike
    ensures Run(es[..m + 1]).cancelled == Run(es[..m]).cancelled + Run(es[..m]).queue
    ensures Run(es[..m + 1]).cancelled <= Run(es[..n]).cancelled
    ensures forall r <- Run(es[..m]).queue ::
      r in Run(es[..n]).cancelled && r !in Run(es[..n]).queue && r !in Run(es[..n]).dispatched
  {
    hide Inv, Step, Run, UniqueRequests;
    UniquePrefix(es, n);
    RunKeepsInv(es[..n]);
    ContinueCancels(es, m);
    CancelledGrows(es, m + 1, n);
    var before, after := Run(es[..m + 1]).cancelled, Run(es[..n]).cancelled;
    forall r <- Run(es[..m]).queue
      ensures r in after && r !in Run(es[..n]).queue && r !in Run(es[..n]).dispatched
    {
      assert r in before;
      assert r in after[..|before|];
      CancelledIsOut(Run(es[..n]), r);
    }
  }

  lemma ContinueCancels(es: seq<Event>, m: nat)
    requires UniqueRequests(es) && m < |es| && es[m].Arrive? && es[m].request.kind == ContinueLike
    ensures Run(es[..m + 1]).cancelled == Run(es[..m]).cancelled + Run(es[..m]).queue
  {
    hide Inv, Step;
    UniquePrefix(es, m);
    RunKeepsInv(es[..m]);
    assert es[..m + 1][..m] == es[..m];
    ArrivalDoes(Run(es[..m]), es[m].request, es[m].handling);
  }

  /** In every run: nothing is taken from the queue after an exit-like request. */
  lemma {:induction false} NothingAfterExit(es: seq<Event>, m: nat, n: nat)
    requires m < n <= |es| && es[m].Arrive? && es[m].request.kind == ExitLike
    ensures Run(es[..n]).exiting && Run(es[..n]).dispatched == Run(es[..m]).dispatched
    decreases n
  {
    assert es[..n][..n - 1] == es[..n - 1];
    assert Run(es[..n]) == Step(Run(es[..n - 1]), es[n - 1]);
    hide Run, Step;
    if n == m + 1 {
      ExitArrives(Run(es[..m]), es[m].request, es[m].handling);
    } else {
      NothingAfterExit(es, m, n - 1);
      ExitingStopsTheQueue(Run(es[..n - 1]), es[n - 1]);
    }
  }

  // ----- SeqDebugSession -----

  class SeqDebugSession {
    var requestQueue: seq<Request>
    var isProcessing: bool
    var currentRequest: InFlight
    var exiting: bool
    ghost var history: Session

    ghost function State(): Session
      reads this
    {
      history.(queue := requestQueue, isProcessing := isProcessing, current := currentRequest, exiting := exiting)
    }

    constructor ()
      ensures State() == FRESH
    {
      requestQueue, isProcessing, currentRequest, exiting := [], false, Nothing, false;
      history := FRESH;
    }

    method DispatchRequest(request: Request, handling: Handling)
      modifies this
      ensures State() == Step(old(State()), Arrive(request, handling))
      ensures State().cancelled
              == old(State().cancelled) + if request.kind == ContinueLike then old(requestQueue) else []
      ensures request.kind == ContinueLike ==> forall r <- requestQueue :: r == request
    {
      if request.kind == ExitLike {
        exiting := true;
        return;
      }
      if request.kind == ContinueLike {
        CancelQueue();
      }
      requestQueue := requestQueue + [request];
      history := history.(arrived := history.arrived + [request]);
      ProcessQueue(handling);
    }

    /** Every queued request is answered with "cancelled", in the order of the queue. */
    method CancelQueue()
      modifies `currentRequest, `history, `requestQueue
      ensures State() == Cancelling(old(State())) && requestQueue == []
      ensures history.cancelled == old(history.cancelled) + old(requestQueue)
    {
      hide Answer;
      ghost var s, c := State(), history.cancelled;
      NobodyAnswered();
      assert s == s.(cancelled := c) && requestQueue[0..] == requestQueue;
      var i := 0;
      while i < |requestQueue|
        modifies `currentRequest, `history
        invariant 0 <= i <= |requestQueue|
        invariant history == old(history).(cancelled := c + requestQueue[..i])
        invariant Answer(State().(cancelled := c), requestQueue[i..]) == Answer(s, s.queue)
      {
        AnswerNext(State().(cancelled := c), requestQueue, i);
        CancelQueued(i);
        i := i + 1;
      }
      assert requestQueue[..i] == requestQueue && requestQueue[i..] == [];
      history := history.(fates := history.fates + seq(|requestQueue|, i => false));
      requestQueue := [];
    }

    /** The response "cancelled" to a queued request. */
    method CancelQueued(i: nat)
      requires i < |requestQueue|
      modifies `currentRequest, `history
      ensures history == old(history).(cancelled := old(history.cancelled) + [requestQueue[i]])
      ensures State() == SendResponse(old(State()), requestQueue[i].seqNo).(cancelled := State().cancelled)
    {
      SendResponseTo(requestQueue[i].seqNo);
      history := history.(cancelled := history.cancelled + [requestQueue[i]]);
    }

    method SendResponseTo(seqNo: int)
      modifies `currentRequest
      ensures State() == SendResponse(old(State()), seqNo)
    {
      if currentRequest == Awaiting(seqNo) {
        currentRequest := Resolved(seqNo);
      }
    }

    /** `processQueue` up to its first `await`. */
    method ProcessQueue(handling: Handling)
      modifies this
      ensures State() ==
        if old(isProcessing) then old(State()) else LoopHead(old(State()).(isProcessing := true), handling)
    {
      if isProcessing {
        return;
      }
      isProcessing := true;
      RunToAwait(handling);
    }

    /** The loop of `processQueue` once the awaited promise is resolved. */
    method AfterAwait(handling: Handling)
      requires currentRequest.Resolved?
      modifies this
      ensures State() == Step(old(State()), GoOn(handling))
    {
      history := history.(completed := history.completed + [currentRequest.seqNo]);
      currentRequest := Nothing;
      RunToAwait(handling);
    }

    method RunToAwait(handling: Handling)
      modifies this
      ensures State() == LoopHead(old(State()), handling)
    {
      if |requestQueue| > 0 && !exiting {
        var request := requestQueue[0];
        requestQueue := requestQueue[1..];
        history := history.(dispatched := history.dispatched + [request], fates := history.fates + [true]);
        currentRequest := Awaiting(request.seqNo);
        if handling == AnswersAtOnce {
          SendResponseTo(request.seqNo);
        } else if handling == Throws {
          currentRequest := Resolved(request.seqNo);
        }
      } else {
        isProcessing := false;
      }
    }
  }
}
