/** The breakpoint tables of the adapter against the set of breakpoints that GDB holds. */
module Breakpoints {
  import opened Options
  import opened Text

  /** The four tables: one for each source file, and one for each other kind. */
  datatype Kind = SourceFile(path: Str) | Instruction | Function | Data

  /** A requested breakpoint; `parses` says whether its instruction reference and offset make a
      number. */
  datatype Bp = Bp(line: int, text: Str, parses: bool)

  /** GDB's reply to an insertion: an error, a new breakpoint, or a new breakpoint whose record
      the adapter does not find in the reply. GDB may skip numbers, and never reuses one. */
  datatype Reply = Refused(message: Str) | Accepted(skip: nat, line: int) | Garbled(skip: nat, message: Str)

  datatype Answer = Failed(message: Str) | Inserted(id: nat, line: int) | NoRecord(id: nat, message: Str)

  /** A breakpoint of a response. */
  datatype Breakpoint = Unverified(message: Str) | Verified(id: nat, line: Option<int>)

  datatype Outcome = Threw | Done(breakpoints: seq<Breakpoint>)

  type Table = map<nat, Bp>

  datatype State = State(files: map<Str, Table>, instr: Table, func: Table, data: Table, held: set<nat>, next: nat)

  /** A request of the client, with what GDB will answer to its commands. */
  datatype Request = Request(kind: Kind, bps: seq<Bp>, deleteRefused: bool, replies: seq<Reply>) {
    predicate Valid() { |replies| == |bps| }
  }

  // ----- GDB -----

  function AnswerTo(next: nat, reply: Reply): Answer {
    match reply
    case Refused(message) => Failed(message)
    case Accepted(skip, line) => Inserted(next + skip, line)
    case Garbled(skip, message) => NoRecord(next + skip, message)
  }

  function NextAfter(next: nat, reply: Reply): nat {
    if reply.Refused? then next else next + reply.skip + 1
  }

  function LastNext(next: nat, replies: seq<Reply>): (last: nat)
    ensures next <= last
  {
    if replies == [] then next
    else NextAfter(LastNext(next, replies[..|replies| - 1]), replies[|replies| - 1])
  }

  function Answers(next: nat, replies: seq<Reply>): (answers: seq<Answer>)
    ensures |answers| == |replies|
  {
    if replies == [] then []
    else
      var before := replies[..|replies| - 1];
      Answers(next, before) + [AnswerTo(LastNext(next, before), replies[|replies| - 1])]
  }

  /** The numbers that GDB gave out. */
  ghost function Taken(answers: seq<Answer>): set<nat> {
    set a <- answers | !a.Failed? :: a.id
  }

  /** The numbers that no table will know. */
  ghost function Unnoticed(answers: seq<Answer>): set<nat> {
    set a <- answers | a.NoRecord? :: a.id
  }

  lemma {:induction false} AnswersAre(next: nat, replies: seq<Reply>, i: nat)
    requires i < |replies|
    ensures Answers(next, replies)[i] == AnswerTo(LastNext(next, replies[..i]), replies[i])
  {
    var n := |replies| - 1;
    if i < n {
      AnswersAre(next, replies[..n], i);
      assert replies[..n][..i] == replies[..i];
    }
  }

  /** Numbers are new, and grow. */
  ghost predicate Growing(answers: seq<Answer>, low: nat, high: nat) {
    && (forall i :: 0 <= i < |answers| && !answers[i].Failed? ==> low <= answers[i].id < high)
    && forall i, j :: 0 <= i < j < |answers| && !answers[i].Failed? && !answers[j].Failed? ==>
         answers[i].id < answers[j].id
  }

  lemma {:induction false} NumbersAreNew(next: nat, replies: seq<Reply>)
    ensures Growing(Answers(next, replies), next, LastNext(next, replies))
  {
    if replies != [] { NumbersAreNew(next, replies[..|replies| - 1]); }
  }

  // ----- What one request does -----

  function Lookup(s: State, kind: Kind): Table {
    match kind
    case SourceFile(path) => if path in s.files then s.files[path] else map[]
    case Instruction => s.instr
    case Function => s.func
    case Data => s.data
  }

  function With(s: State, kind: Kind, table: Table): State {
    match kind
    case SourceFile(path) => s.(files := s.files[path := table])
    case Instruction => s.(instr := table)
    case Function => s.(func := table)
    case Data => s.(data := table)
  }

  /** How many insertions are sent: for instruction breakpoints, those before the first
      reference that is not a number. */
  function SentCount(kind: Kind, bps: seq<Bp>): (sent: nat)
    ensures sent <= |bps|
    ensures kind != Instruction ==> sent == |bps|
    ensures forall i :: 0 <= i < sent && kind == Instruction ==> bps[i].parses
    ensures sent < |bps| ==> !bps[sent].parses
  {
    if bps == [] then 0
    else
      var before := SentCount(kind, bps[..|bps| - 1]);
      if before < |bps| - 1 || (kind == Instruction && !bps[|bps| - 1].parses) then before else |bps|
  }

  /** A source breakpoint is recorded on the line GDB chose. */
  function Placed(kind: Kind, bp: Bp, line: int): Bp {
    if kind.SourceFile? then bp.(line := line) else bp
  }

  function NewTable(kind: Kind, bps: seq<Bp>, answers: seq<Answer>): Table
    requires |bps| == |answers|
  {
    if bps == [] then map[]
    else
      var n := |bps| - 1;
      var before := NewTable(kind, bps[..n], answers[..n]);
      if answers[n].Inserted? then before[answers[n].id := Placed(kind, bps[n], answers[n].line)] else before
  }

  /** The line GDB chose is part of the response for source breakpoints. */
  function ResponseTo(kind: Kind, a: Answer): Breakpoint {
    if a.Inserted? then Verified(a.id, if kind.SourceFile? then Some(a.line) else None) else Unverified(a.message)
  }

  function NewResponse(kind: Kind, answers: seq<Answer>): (response: seq<Breakpoint>)
    ensures |response| == |answers|
    ensures forall i :: 0 <= i < |answers| ==> response[i] == ResponseTo(kind, answers[i])
  {
    seq(|answers|, i requires 0 <= i < |answers| => ResponseTo(kind, answers[i]))
  }

  predicate DeleteThrows(s: State, r: Request) {
    Lookup(s, r.kind) != map[] && r.deleteRefused
  }

  /** The answers to the insertions that are sent. */
  function AnswersOf(s: State, r: Request): (answers: seq<Answer>)
    requires r.Valid()
    ensures |answers| == SentCount(r.kind, r.bps)
  {
    Answers(s.next, r.replies[..SentCount(r.kind, r.bps)])
  }

  ghost function After(s: State, r: Request): State
    requires r.Valid()
  {
    if DeleteThrows(s, r) then s
    else
      var answers := AnswersOf(s, r);
      var table := if |answers| < |r.bps| then map[] else NewTable(r.kind, r.bps, answers);
      With(s, r.kind, table).(
        held := s.held - Lookup(s, r.kind).Keys + Taken(answers),
        next := LastNext(s.next, r.replies[..SentCount(r.kind, r.bps)]))
  }

  function OutcomeOf(s: State, r: Request): Outcome
    requires r.Valid()
  {
    if DeleteThrows(s, r) || SentCount(r.kind, r.bps) < |r.bps| then Threw
    else Done(NewResponse(r.kind, AnswersOf(s, r)))
  }

  // ----- Responses and tables -----

  /** Responses stand in the order of the request: the response to each breakpoint names the
      table's entry for that very breakpoint, or says that GDB did not take it; the table
      holds nothing else. */
  ghost predicate Aligned(kind: Kind, bps: seq<Bp>, answers: seq<Answer>, table: Table)
    requires |bps| == |answers|
  {
    && (forall i :: 0 <= i < |bps| && answers[i].Inserted? ==>
      answers[i].id in table && table[answers[i].id] == Placed(kind, bps[i], answers[i].line))
    && forall id <- table :: Names(answers, id)
  }

  ghost predicate Names(answers: seq<Answer>, id: nat) {
    exists i :: 0 <= i < |answers| && answers[i].Inserted? && answers[i].id == id
  }

  lemma {:induction false} TablePlaces(kind: Kind, bps: seq<Bp>, answers: seq<Answer>, low: nat, high: nat, i: nat)
    requires |bps| == |answers| && Growing(answers, low, high) && i < |bps| && answers[i].Inserted?
    ensures var table := NewTable(kind, bps, answers);
      answers[i].id in table && table[answers[i].id] == Placed(kind, bps[i], answers[i].line)
  {
    hide Placed;
    var n := |bps| - 1;
    if i < n {
      assert Growing(answers[..n], low, high);
      TablePlaces(kind, bps[..n], answers[..n], low, high, i);
    }
  }

  lemma {:induction false} TableNames(kind: Kind, bps: seq<Bp>, answers: seq<Answer>, id: nat)
    requires |bps| == |answers| && id in NewTable(kind, bps, answers)
    ensures Names(answers, id)
  {
    hide Placed;
    var n := |bps| - 1;
    if answers[n].Inserted? && answers[n].id == id {
    } else {
      TableNames(kind, bps[..n], answers[..n], id);
      var i :| 0 <= i < n && answers[..n][i].Inserted? && answers[..n][i].id == id;
      assert answers[i].Inserted? && answers[i].id == id;
    }
  }

  lemma TableIsAligned(kind: Kind, bps: seq<Bp>, answers: seq<Answer>, low: nat, high: nat)
    requires |bps| == |answers| && Growing(answers, low, high)
    ensures Aligned(kind, bps, answers, NewTable(kind, bps, answers))
  {
    hide Placed, Growing, Names, NewTable;
    forall i: nat | i < |bps| && answers[i].Inserted?
      ensures answers[i].id in NewTable(kind, bps, answers)
      ensures NewTable(kind, bps, answers)[answers[i].id] == Placed(kind, bps[i], answers[i].line)
    {
      TablePlaces(kind, bps, answers, low, high, i);
    }
    forall id <- NewTable(kind, bps, answers) ensures Names(answers, id) { TableNames(kind, bps, answers, id); }
  }

  /** A request throws when there is something to delete and GDB refuses to, or when the
      reference of an instruction breakpoint is not a number. */
  ghost predicate Throws(s: State, r: Request) {
    || (Lookup(s, r.kind) != map[] && r.deleteRefused)
    || (r.kind.Instruction? && exists bp <- r.bps :: !bp.parses)
  }

  lemma ThrowsExactlyWhen(s: State, r: Request)
    requires r.Valid()
    ensures OutcomeOf(s, r).Threw? <==> Throws(s, r)
  {}

  /** A request that does not throw is answered in its order: with the number under which the
      breakpoint is filed if GDB took it, on the line GDB chose for a breakpoint in a source
      file, and otherwise with GDB's message. */
  lemma ResponsesMatchRequests(s: State, r: Request, i: nat)
    requires r.Valid() && !Throws(s, r) && i < |r.bps|
    ensures OutcomeOf(s, r).Done? && |OutcomeOf(s, r).breakpoints| == |r.bps|
    ensures var response, table, bp := OutcomeOf(s, r).breakpoints[i], Lookup(After(s, r), r.kind), r.bps[i];
      match r.replies[i]
      case Accepted(_, line) =>
        && response.Verified? && response.id in table
        && response.line == (if r.kind.SourceFile? then Some(line) else None)
        && table[response.id] == if r.kind.SourceFile? then bp.(line := line) else bp
      case Refused(message) => response == Unverified(message)
      case Garbled(_, message) => response == Unverified(message)
  {
    hide Growing, Taken, LastNext, NewTable, Answers;
    ThrowsExactlyWhen(s, r);
    var answers := AnswersOf(s, r);
    assert r.replies[..|r.bps|] == r.replies;
    AnswersAre(s.next, r.replies, i);
    NumbersAreNew(s.next, r.replies);
    TableIsAligned(r.kind, r.bps, answers, s.next, LastNext(s.next, r.replies));
  }

  ghost predicate AnsweredWith(outcome: Outcome, id: nat) {
    outcome.Done? && exists b <- outcome.breakpoints :: b.Verified? && b.id == id
  }

  /** The table holds nothing that the response does not name. */
  lemma TableIsInResponse(s: State, r: Request, id: nat)
    requires r.Valid() && !Throws(s, r) && id in Lookup(After(s, r), r.kind)
    ensures AnsweredWith(OutcomeOf(s, r), id)
  {
    ThrowsExactlyWhen(s, r);
    var answers := AnswersOf(s, r);
    assert r.replies[..|r.bps|] == r.replies;
    NumbersAreNew(s.next, r.replies);
    TableIsAligned(r.kind, r.bps, answers, s.next, LastNext(s.next, r.replies));
    var i :| 0 <= i < |answers| && answers[i].Inserted? && answers[i].id == id;
    assert OutcomeOf(s, r).breakpoints[i] in OutcomeOf(s, r).breakpoints && OutcomeOf(s, r).breakpoints[i].id == id;
  }

  // ----- Agreement -----

  /** The tables are disjoint, and hold only breakpoints that GDB holds. */
  ghost predicate Sound(s: State) {
    && (forall j, k, id: nat :: id in Lookup(s, j) && id in Lookup(s, k) ==> j == k)
    && (forall k, id: nat :: id in Lookup(s, k) ==> id in s.held)
    && forall id <- s.held :: id < s.next
  }

  ghost predicate Recorded(s: State, id: nat) {
    exists k :: id in Lookup(s, k)
  }

  /** Breakpoints that GDB holds and no table knows. */
  ghost function Lost(s: State): set<nat> {
    set id <- s.held | !Recorded(s, id)
  }

  /** The union of the disjoint tables is what GDB holds. */
  ghost predicate Agrees(s: State) {
    Sound(s) && forall id: nat :: id in s.held <==> Recorded(s, id)
  }

  lemma AgreesIffNoneLost(s: State)
    requires Sound(s)
    ensures Agrees(s) <==> Lost(s) == {}
  {
    if Lost(s) == {} {
      forall id: nat ensures id in s.held <==> Recorded(s, id) {
        if id in s.held { assert id !in Lost(s); }
      }
    } else {
      var id :| id in Lost(s);
      assert id in s.held && !Recorded(s, id);
    }
  }

  /** The breakpoints that this request makes GDB hold without a table knowing them. */
  ghost function NewlyLost(s: State, r: Request): set<nat>
    requires r.Valid()
  {
    if DeleteThrows(s, r) then {}
    else if SentCount(r.kind, r.bps) < |r.bps| then Taken(AnswersOf(s, r))
    else Unnoticed(AnswersOf(s, r))
  }

  lemma AfterIs(s: State, r: Request)
    requires r.Valid() && !DeleteThrows(s, r)
    ensures forall k :: k != r.kind ==> Lookup(After(s, r), k) == Lookup(s, k)
    ensures After(s, r).held == s.held - Lookup(s, r.kind).Keys + Taken(AnswersOf(s, r))
    ensures s.next <= After(s, r).next
  {
    hide AnswersOf, Taken, LastNext, Answers, NewTable;
  }

  /** The table a request leaves knows exactly the numbers GDB gave out, less those lost. */
  lemma NewTableKeys(s: State, r: Request)
    requires r.Valid() && !DeleteThrows(s, r)
    ensures var taken, table := Taken(AnswersOf(s, r)), Lookup(After(s, r), r.kind);
      table.Keys == taken - NewlyLost(s, r) && NewlyLost(s, r) <= taken
    ensures forall id <- Taken(AnswersOf(s, r)) :: s.next <= id < After(s, r).next
  {
    var replies := r.replies[..SentCount(r.kind, r.bps)];
    var answers := Answers(s.next, replies);
    NumbersAreNew(s.next, replies);
    if |answers| == |r.bps| {
      TableIsAligned(r.kind, r.bps, answers, s.next, LastNext(s.next, replies));
      KeysOfTable(r.kind, r.bps, answers, s.next, LastNext(s.next, replies));
    }
  }

  lemma KeysOfTable(kind: Kind, bps: seq<Bp>, answers: seq<Answer>, low: nat, high: nat)
    requires |bps| == |answers| && Growing(answers, low, high)
    ensures NewTable(kind, bps, answers).Keys == Taken(answers) - Unnoticed(answers)
  {}

  /** One request keeps the tables sound; what it loses is lost in addition to what was. */
  lemma StepLoses(s: State, r: Request)
    requires Sound(s) && r.Valid()
    ensures Sound(After(s, r)) && Lost(After(s, r)) == Lost(s) + NewlyLost(s, r)
  {
    if !DeleteThrows(s, r) {
      NewTableKeys(s, r);
      AfterIs(s, r);
      TablesChange(s, After(s, r), r.kind, Taken(AnswersOf(s, r)), NewlyLost(s, r));
    }
  }

  /** Exchanging one table for new numbers, some of which are lost. */
  lemma TablesChange(s: State, t: State, kind: Kind, taken: set<nat>, lost: set<nat>)
    requires Sound(s) && lost <= taken && s.next <= t.next
    requires forall k :: k != kind ==> Lookup(t, k) == Lookup(s, k)
    requires Lookup(t, kind).Keys == taken - lost
    requires t.held == s.held - Lookup(s, kind).Keys + taken
    requires forall id <- taken :: s.next <= id < t.next
    ensures Sound(t) && Lost(t) == Lost(s) + lost
  {
    hide Lookup;
    assert forall id: nat :: id in Lookup(t, kind) <==> id in taken && id !in lost;
    assert Sound(t) by { hide Recorded, Lost; }
    forall id: nat ensures id in Lost(t) <==> id in Lost(s) || id in lost {
      if id in s.held && !(id in Lost(s)) {
        var k :| id in Lookup(s, k);
      }
    }
  }

  // ----- Runs -----

  ghost function Run(s: State, rs: seq<Request>): State
    requires forall i :: 0 <= i < |rs| ==> rs[i].Valid()
  {
    if rs == [] then s else After(Run(s, rs[..|rs| - 1]), rs[|rs| - 1])
  }

  /** The request throws before sending anything, or all references parse and GDB's replies are
      all readable, or GDB refuses everything sent before the reference that does not parse. */
  predicate Complete(s: State, r: Request)
    requires r.Valid()
  {
    || DeleteThrows(s, r)
    || (var sent := SentCount(r.kind, r.bps);
        forall i :: 0 <= i < sent ==> !r.replies[i].Garbled? && (sent < |r.bps| ==> r.replies[i].Refused?))
  }

  lemma CompleteLosesNothing(s: State, r: Request)
    requires r.Valid()
    ensures Complete(s, r) <==> NewlyLost(s, r) == {}
  {
    if !DeleteThrows(s, r) {
      var sent := SentCount(r.kind, r.bps);
      var answers := AnswersOf(s, r);
      forall i | 0 <= i < sent
        ensures r.replies[i].Refused? <==> answers[i].Failed?
        ensures r.replies[i].Garbled? <==> answers[i].NoRecord?
      {
        AnswersAre(s.next, r.replies[..sent], i);
      }
      forall i | 0 <= i < sent && !answers[i].Failed? ensures answers[i].id in Taken(answers) {}
      forall i | 0 <= i < sent && answers[i].NoRecord? ensures answers[i].id in Unnoticed(answers) {}
    }
  }

  /** What a client can check: whatever GDB takes or refuses, as long as its replies are
      readable, nothing is lost exactly when the old breakpoints cannot be deleted, or every
      reference parses, or the first one does not. */
  lemma CompleteWhateverGdbTakes(s: State, r: Request)
    requires r.Valid()
    ensures (forall replies: seq<Reply> :: |replies| == |r.bps| && Readable(replies) ==>
               Complete(s, r.(replies := replies)))
      <==> DeleteThrows(s, r) || SentCount(r.kind, r.bps) == |r.bps| || SentCount(r.kind, r.bps) == 0
  {
    var sent := SentCount(r.kind, r.bps);
    if !DeleteThrows(s, r) && 0 < sent < |r.bps| {
      var taken: seq<Reply> := seq(|r.bps|, _ => Accepted(0, 0));
      assert Readable(taken) && !taken[0].Refused? && !Complete(s, r.(replies := taken));
    }
  }

  predicate Readable(replies: seq<Reply>) {
    forall i :: 0 <= i < |replies| ==> !replies[i].Garbled?
  }

  ghost predicate AllComplete(s: State, rs: seq<Request>)
    requires forall i :: 0 <= i < |rs| ==> rs[i].Valid()
  {
    rs == [] || (AllComplete(s, rs[..|rs| - 1]) && Complete(Run(s, rs[..|rs| - 1]), rs[|rs| - 1]))
  }

  /** Over every run of requests the tables stay disjoint and within what GDB holds, and they
      are all that GDB holds exactly when they were so before and every request of the run was
      complete: what one request loses, no later one finds again. */
  lemma {:induction false} RunAgreesExactlyWhen(s: State, rs: seq<Request>)
    requires Sound(s) && forall i :: 0 <= i < |rs| ==> rs[i].Valid()
    ensures Sound(Run(s, rs))
    ensures Agrees(Run(s, rs)) <==> Agrees(s) && AllComplete(s, rs)
  {
    if rs != [] {
      var before, r := rs[..|rs| - 1], rs[|rs| - 1];
      RunAgreesExactlyWhen(s, before);
      RequestAgreesExactlyWhen(Run(s, before), r);
    }
  }

  lemma RequestAgreesExactlyWhen(s: State, r: Request)
    requires Sound(s) && r.Valid()
    ensures Sound(After(s, r))
    ensures Agrees(After(s, r)) <==> Agrees(s) && Complete(s, r)
  {
    hide Sound, Agrees, Lost, NewlyLost, Complete, After;
    StepLoses(s, r);
    AgreesIffNoneLost(s);
    AgreesIffNoneLost(After(s, r));
    CompleteLosesNothing(s, r);
  }

  /** Instruction breakpoints "*0x100" and "main" in one request: the request fails, and GDB
      keeps the first breakpoint, which no table knows. */
  lemma MalformedReferenceStrandsEarlierOnes()
    ensures var s := State(map[], map[], map[], map[], {}, 1);
      var r := Request(Instruction, [Bp(0, Ascii("0x100"), true), Bp(0, Ascii("main"), false)], false,
                       [Accepted(0, 7), Refused([])]);
      && Agrees(s) && OutcomeOf(s, r) == Threw
      && 1 in After(s, r).held && !Recorded(After(s, r), 1)
  {
    var s := State(map[], map[], map[], map[], {}, 1);
    var bps := [Bp(0, Ascii("0x100"), true), Bp(0, Ascii("main"), false)];
    var replies := [Accepted(0, 7), Refused([])];
    assert bps[..1] == [bps[0]] && bps[..1][..0] == [];
    assert SentCount(Instruction, bps) == 1;
    assert replies[..1] == [replies[0]] && replies[..1][..0] == [];
    assert Answers(1, replies[..1]) == [Inserted(1, 7)];
    assert Inserted(1, 7) in Answers(1, replies[..1]);
  }

  // ----- GdbInstance and BreakpointManager -----

  datatype Command = Interrupt | Delete(ids: set<nat>) | Insert(bp: Bp) | Continue

  /** GDB and its target, as far as breakpoints go. */
  class Gdb {
    var held: set<nat>
    var next: nat
    var running: bool
    var log: seq<Command>

    constructor ()
      ensures held == {} && next == 1 && !running && log == []
    {
      held, next, running, log := {}, 1, false, [];
    }

    method InterruptTarget()
      modifies `running, `log
      ensures !running && log == old(log) + [Interrupt]
    {
      running, log := false, log + [Interrupt];
    }

    /** A refused `-exec-interrupt`, and the `-exec-continue` that follows all the same. */
    method InterruptFails()
      requires running
      modifies `log
      ensures log == old(log) + [Interrupt, Continue]
    {
      log := log + [Interrupt, Continue];
    }

    method ContinueTarget()
      modifies `running, `log
      ensures running && log == old(log) + [Continue]
    {
      running, log := true, log + [Continue];
    }

    /** `-break-delete`: all of them, or none. */
    method DeleteBreakpoints(ids: set<nat>, refused: bool)
      modifies `held, `log
      ensures held == (if refused then old(held) else old(held) - ids)
      ensures log == old(log) + [Delete(ids)]
    {
      log := log + [Delete(ids)];
      if !refused { held := held - ids; }
    }

    method InsertBreakpoint(bp: Bp, reply: Reply) returns (answer: Answer)
      modifies `held, `next, `log
      ensures answer == AnswerTo(old(next), reply) && next == NextAfter(old(next), reply)
      ensures held == old(held) + (if answer.Failed? then {} else {answer.id})
      ensures log == old(log) + [Insert(bp)]
    {
      log := log + [Insert(bp)];
      answer := AnswerTo(next, reply);
      if !answer.Failed? { held := held + {answer.id}; }
      next := NextAfter(next, reply);
    }
  }

  /** What the log shows of one insertion after the other. */
  function Inserts(bps: seq<Bp>): (commands: seq<Command>)
    ensures |commands| == |bps|
    ensures forall i :: 0 <= i < |bps| ==> commands[i] == Insert(bps[i])
  {
    seq(|bps|, i requires 0 <= i < |bps| => Insert(bps[i]))
  }

  /** The commands of one request: old breakpoints are deleted first, then the new ones are
      inserted in the order of the request. */
  function Commands(s: State, r: Request): seq<Command> {
    (if Lookup(s, r.kind) == map[] then [] else [Delete(Lookup(s, r.kind).Keys)])
    + if DeleteThrows(s, r) then [] else Inserts(r.bps[..SentCount(r.kind, r.bps)])
  }

  /** One deletion of everything in the table, if there is anything, comes first; then, unless
      GDB has refused that, the insertions in the order of the request: all of them, or those
      before the first reference of an instruction breakpoint that is not a number. */
  lemma CommandsInOrder(s: State, r: Request)
    ensures var cs, table := Commands(s, r), Lookup(s, r.kind);
      var first := if table == map[] then 0 else 1;
      var sent := |cs| - first;
      && sent >= 0 && (first == 1 ==> cs[0] == Delete(table.Keys))
      && sent <= |r.bps| && (forall i :: 0 <= i < sent ==> cs[first + i] == Insert(r.bps[i]))
      && (if first == 1 && r.deleteRefused then sent == 0
          else
            && (r.kind.Instruction? ==> forall i :: 0 <= i < sent ==> r.bps[i].parses)
            && (sent < |r.bps| ==> r.kind.Instruction? && !r.bps[sent].parses))
  {}

  lemma OneMoreInsert(kind: Kind, bps: seq<Bp>, i: nat, log: seq<Command>)
    requires i < |bps| && SentCount(kind, bps[..i]) == i
    ensures SentCount(kind, bps[..i + 1]) == if kind == Instruction && !bps[i].parses then i else i + 1
    ensures log + Inserts(bps[..i + 1]) == log + Inserts(bps[..i]) + [Insert(bps[i])]
  {
    assert bps[..i + 1][..i] == bps[..i];
    assert Inserts(bps[..i + 1]) == Inserts(bps[..i]) + [Insert(bps[i])];
  }

  lemma OneMoreTaken(answers: seq<Answer>, answer: Answer)
    ensures Taken(answers + [answer]) == Taken(answers) + if answer.Failed? then {} else {answer.id}
  {}

  /** The commands of several requests. */
  ghost function AllCommands(s: State, rs: seq<Request>): seq<Command>
    requires forall i :: 0 <= i < |rs| ==> rs[i].Valid()
  {
    if rs == [] then []
    else AllCommands(s, rs[..|rs| - 1]) + Commands(Run(s, rs[..|rs| - 1]), rs[|rs| - 1])
  }

  lemma {:induction false} OneMoreRequest(s: State, rs: seq<Request>, r: Request)
    requires r.Valid() && forall i :: 0 <= i < |rs| ==> rs[i].Valid()
    ensures Run(s, rs + [r]) == After(Run(s, rs), r)
    ensures AllCommands(s, rs + [r]) == AllCommands(s, rs) + Commands(Run(s, rs), r)
  {
    assert (rs + [r])[..|rs|] == rs;
  }

  class BreakpointManager {
    const gdb: Gdb
    // Requests whose interrupt failed: their listeners wait for the target to stop.
    var abandoned: seq<Request>
    var fileBreakpoints: map<Str, Table>
    var instrBreakpoints: Table
    var functionBreakpoints: Table
    var dataBreakpoints: Table

    ghost function View(): State
      reads this, gdb
    {
      State(fileBreakpoints, instrBreakpoints, functionBreakpoints, dataBreakpoints, gdb.held, gdb.next)
    }

    constructor (gdb: Gdb)
      requires gdb.held == {}
      ensures this.gdb == gdb && Agrees(View()) && Valid() && abandoned == []
      ensures View() == State(map[], map[], map[], map[], {}, gdb.next)
    {
      this.gdb := gdb;
      fileBreakpoints, instrBreakpoints, functionBreakpoints, dataBreakpoints := map[], map[], map[], map[];
      abandoned := [];
    }

    /** The tables are sound, and what waits for a stop is well formed. */
    ghost predicate Valid()
      reads this, gdb
    {
      Sound(View()) && forall i :: 0 <= i < |abandoned| ==> abandoned[i].Valid()
    }

    /** `deleteBreakpoints`: no command for an empty list. */
    method DeleteOld(recorded: Table, refused: bool) returns (threw: bool)
      modifies gdb`held, gdb`log
      ensures threw <==> recorded != map[] && refused
      ensures gdb.held == (if threw then old(gdb.held) else old(gdb.held) - recorded.Keys)
      ensures gdb.log == old(gdb.log) + (if recorded == map[] then [] else [Delete(recorded.Keys)])
    {
      if |recorded| == 0 { return false; }
      gdb.DeleteBreakpoints(recorded.Keys, refused);
      threw := refused;
    }

    /** The loop that sends the insertions without waiting; parsing a reference may throw. */
    method SendInserts(kind: Kind, bps: seq<Bp>, replies: seq<Reply>) returns (answers: seq<Answer>)
      requires |replies| == |bps|
      modifies gdb`held, gdb`next, gdb`log
      ensures |answers| == SentCount(kind, bps)
      ensures answers == Answers(old(gdb.next), replies[..|answers|])
      ensures gdb.next == LastNext(old(gdb.next), replies[..|answers|])
      ensures gdb.held == old(gdb.held) + Taken(answers)
      ensures gdb.log == old(gdb.log) + Inserts(bps[..|answers|])
    {
      hide Inserts, SentCount, AnswerTo, NextAfter;
      answers := [];
      var i := 0;
      while i < |bps|
        invariant i <= |bps| && |answers| == i == SentCount(kind, bps[..i])
        invariant answers == Answers(old(gdb.next), replies[..i])
        invariant gdb.next == LastNext(old(gdb.next), replies[..i])
        invariant gdb.held == old(gdb.held) + Taken(answers)
        invariant gdb.log == old(gdb.log) + Inserts(bps[..i])
      {
        OneMoreInsert(kind, bps, i, old(gdb.log));
        assert replies[..i + 1][..i] == replies[..i];
        if kind == Instruction && !bps[i].parses {
          StopsAt(kind, bps, i);
          return;
        }
        var answer := gdb.InsertBreakpoint(bps[i], replies[i]);
        OneMoreTaken(answers, answer);
        answers := answers + [answer];
        i := i + 1;
      }
      assert bps[..i] == bps;
    }

    /** The loop that awaits the replies in the order they were asked for. */
    method RecordReplies(kind: Kind, bps: seq<Bp>, answers: seq<Answer>)
      returns (table: Table, response: seq<Breakpoint>)
      requires |bps| == |answers|
      ensures table == NewTable(kind, bps, answers) && response == NewResponse(kind, answers)
    {
      table, response := map[], [];
      var counter := 0;
      while counter < |bps|
        invariant counter <= |bps| && |response| == counter
        invariant table == NewTable(kind, bps[..counter], answers[..counter])
        invariant forall i :: 0 <= i < counter ==> response[i] == ResponseTo(kind, answers[i])
      {
        assert bps[..counter + 1][..counter] == bps[..counter];
        assert answers[..counter + 1][..counter] == answers[..counter];
        match answers[counter] {
          case Inserted(id, line) =>
            table := table[id := Placed(kind, bps[counter], line)];
            response := response + [Verified(id, if kind.SourceFile? then Some(line) else None)];
          case Failed(message) => response := response + [Unverified(message)];
          case NoRecord(_, message) => response := response + [Unverified(message)];
        }
        counter := counter + 1;
      }
      assert bps[..counter] == bps && answers[..counter] == answers;
    }

    method SetBreakpoints(r: Request) returns (outcome: Outcome)
      requires r.Valid() && r.kind.SourceFile?
      modifies `fileBreakpoints, gdb`held, gdb`next, gdb`log
      ensures View() == After(old(View()), r) && outcome == OutcomeOf(old(View()), r)
      ensures gdb.log == old(gdb.log) + Commands(old(View()), r)
      ensures outcome.Threw? <==>
        r.deleteRefused && r.kind.path in old(fileBreakpoints) && old(fileBreakpoints)[r.kind.path] != map[]
    {
      hide Taken, NewTable, NewResponse, Answers, LastNext, Inserts;
      var path := r.kind.path;
      var threw := DeleteOld(if path in fileBreakpoints then fileBreakpoints[path] else map[], r.deleteRefused);
      if threw { return Threw; }
      if path in fileBreakpoints {
        fileBreakpoints := fileBreakpoints[path := map[]];
      }
      var answers := SendInserts(r.kind, r.bps, r.replies);
      var table, response := RecordReplies(r.kind, r.bps, answers);
      fileBreakpoints := fileBreakpoints[path := table];
      assert fileBreakpoints == old(fileBreakpoints)[path := table];
      outcome := Done(response);
    }

    method SetInstructionBreakpoints(r: Request) returns (outcome: Outcome)
      requires r.Valid() && r.kind.Instruction?
      modifies `instrBreakpoints, gdb`held, gdb`next, gdb`log
      ensures View() == After(old(View()), r) && outcome == OutcomeOf(old(View()), r)
      ensures gdb.log == old(gdb.log) + Commands(old(View()), r)
      ensures outcome.Threw? <==>
        (r.deleteRefused && old(instrBreakpoints) != map[]) || exists bp <- r.bps :: !bp.parses
    {
      hide Taken, NewTable, NewResponse, Answers, LastNext, Inserts;
      var threw := DeleteOld(instrBreakpoints, r.deleteRefused);
      if threw { return Threw; }
      instrBreakpoints := map[];
      var answers := SendInserts(r.kind, r.bps, r.replies);
      if |answers| < |r.bps| { return Threw; }
      var table, response := RecordReplies(r.kind, r.bps, answers);
      instrBreakpoints := table;
      outcome := Done(response);
    }

    method SetFunctionBreakpoints(r: Request) returns (outcome: Outcome)
      requires r.Valid() && r.kind.Function?
      modifies `functionBreakpoints, gdb`held, gdb`next, gdb`log
      ensures View() == After(old(View()), r) && outcome == OutcomeOf(old(View()), r)
      ensures gdb.log == old(gdb.log) + Commands(old(View()), r)
      ensures outcome.Threw? <==> r.deleteRefused && old(functionBreakpoints) != map[]
    {
      hide Taken, NewTable, NewResponse, Answers, LastNext, Inserts;
      var threw := DeleteOld(functionBreakpoints, r.deleteRefused);
      if threw { return Threw; }
      functionBreakpoints := map[];
      var answers := SendInserts(r.kind, r.bps, r.replies);
      var table, response := RecordReplies(r.kind, r.bps, answers);
      functionBreakpoints := table;
      outcome := Done(response);
    }

    method SetDataBreakpoints(r: Request) returns (outcome: Outcome)
      requires r.Valid() && r.kind.Data?
      modifies `dataBreakpoints, gdb`held, gdb`next, gdb`log
      ensures View() == After(old(View()), r) && outcome == OutcomeOf(old(View()), r)
      ensures gdb.log == old(gdb.log) + Commands(old(View()), r)
      ensures outcome.Threw? <==> r.deleteRefused && old(dataBreakpoints) != map[]
    {
      hide Taken, NewTable, NewResponse, Answers, LastNext, Inserts;
      var threw := DeleteOld(dataBreakpoints, r.deleteRefused);
      if threw { return Threw; }
      dataBreakpoints := map[];
      var answers := SendInserts(r.kind, r.bps, r.replies);
      var table, response := RecordReplies(r.kind, r.bps, answers);
      dataBreakpoints := table;
      outcome := Done(response);
    }

    method Perform(r: Request) returns (outcome: Outcome)
      requires r.Valid()
      modifies `fileBreakpoints, `instrBreakpoints, `functionBreakpoints, `dataBreakpoints, gdb`held, gdb`next, gdb`log
      ensures View() == After(old(View()), r) && outcome == OutcomeOf(old(View()), r)
      ensures gdb.log == old(gdb.log) + Commands(old(View()), r)
      ensures outcome.Threw? <==> Throws(old(View()), r)
    {
      hide After, OutcomeOf, Commands;
      ThrowsExactlyWhen(View(), r);
      match r.kind {
        case SourceFile(_) => outcome := SetBreakpoints(r);
        case Instruction => outcome := SetInstructionBreakpoints(r);
        case Function => outcome := SetFunctionBreakpoints(r);
        case Data => outcome := SetDataBreakpoints(r);
      }
    }

    /** The listeners that earlier requests have left, in the order they were added. */
    method ServeAbandoned()
      requires Valid()
      modifies this, gdb`held, gdb`next, gdb`log
      ensures Valid() && abandoned == [] && View() == Run(old(View()), old(abandoned))
      ensures gdb.log == old(gdb.log) + AllCommands(old(View()), old(abandoned))
    {
      hide After, OutcomeOf, Commands, Sound;
      ghost var start := View();
      var rs := abandoned;
      abandoned := [];
      RunAgreesExactlyWhen(start, rs);
      var i := 0;
      while i < |rs|
        invariant i <= |rs| && abandoned == []
        invariant View() == Run(start, rs[..i]) && gdb.log == old(gdb.log) + AllCommands(start, rs[..i])
      {
        OneMoreRequest(start, rs[..i], rs[i]);
        assert rs[..i + 1] == rs[..i] + [rs[i]];
        ghost var log := gdb.log;
        var _ := Perform(rs[i]);
        Assoc(old(gdb.log), AllCommands(start, rs[..i]), Commands(Run(start, rs[..i]), rs[i]));
        i := i + 1;
      }
      assert rs[..i] == rs;
    }

    /** The target stops by itself, at a breakpoint for instance. */
    method TargetStops()
      requires Valid()
      modifies this, gdb
      ensures Valid() && abandoned == [] && !gdb.running
      ensures View() == Run(old(View()), old(abandoned))
      ensures Agrees(View()) <==> Agrees(old(View())) && AllComplete(old(View()), old(abandoned))
    {
      hide Sound, Agrees;
      RunAgreesExactlyWhen(View(), abandoned);
      gdb.running := false;
      ServeAbandoned();
    }

    /** `executeWhileStopped`: a running target is stopped before the first command and resumed
        after the last one, whether or not the operation throws. When the interrupt fails the
        request fails with it, but its listener stays and acts at the next stop. */
    method ExecuteWhileStopped(r: Request, interruptRefused: bool) returns (outcome: Outcome)
      requires r.Valid() && Valid()
      modifies this, gdb
      ensures Valid() && gdb.running == old(gdb.running)
      ensures gdb.running && interruptRefused ==>
        && outcome == Threw && View() == old(View()) && abandoned == old(abandoned) + [r]
        && gdb.log == old(gdb.log) + [Interrupt, Continue]
      ensures gdb.running && !interruptRefused ==>
        && outcome == OutcomeOf(Run(old(View()), old(abandoned)), r) && abandoned == []
        && (outcome.Threw? <==> Throws(Run(old(View()), old(abandoned)), r))
        && View() == Run(old(View()), old(abandoned) + [r])
        && gdb.log == old(gdb.log) + ([Interrupt] + AllCommands(old(View()), old(abandoned) + [r]) + [Continue])
        && (Agrees(View()) <==> Agrees(old(View())) && AllComplete(old(View()), old(abandoned) + [r]))
      ensures !gdb.running ==>
        && outcome == OutcomeOf(old(View()), r) && abandoned == old(abandoned)
        && (outcome.Threw? <==> Throws(old(View()), r))
        && View() == After(old(View()), r)
        && gdb.log == old(gdb.log) + Commands(old(View()), r)
        && (Agrees(View()) <==> Agrees(old(View())) && Complete(old(View()), r))
    {
      hide After, OutcomeOf, Commands, Sound, Agrees, Complete, AllComplete, Run, AllCommands, Throws;
      ThrowsExactlyWhen(View(), r);
      ThrowsExactlyWhen(Run(View(), abandoned), r);
      if !gdb.running {
        RequestAgreesExactlyWhen(View(), r);
        outcome := Perform(r);
      } else if interruptRefused {
        outcome := FailToInterrupt(r);
      } else {
        RunAgreesExactlyWhen(View(), abandoned + [r]);
        outcome := StopAndPerform(r);
      }
    }

    method FailToInterrupt(r: Request) returns (outcome: Outcome)
      requires r.Valid() && Valid() && gdb.running
      modifies `abandoned, gdb`log
      ensures outcome == Threw && abandoned == old(abandoned) + [r] && Valid()
      ensures View() == old(View()) && gdb.log == old(gdb.log) + [Interrupt, Continue]
    {
      gdb.InterruptFails();
      abandoned := abandoned + [r];
      outcome := Threw;
    }

    /** A running target is interrupted, serves its listeners, and is resumed. */
    method StopAndPerform(r: Request) returns (outcome: Outcome)
      requires r.Valid() && Valid()
      modifies this, gdb
      ensures gdb.running && abandoned == [] && outcome == OutcomeOf(Run(old(View()), old(abandoned)), r)
      ensures View() == Run(old(View()), old(abandoned) + [r])
      ensures gdb.log == old(gdb.log) + ([Interrupt] + AllCommands(old(View()), old(abandoned) + [r]) + [Continue])
    {
      hide After, OutcomeOf, Commands, Sound;
      ghost var start, log, waiting := View(), gdb.log, abandoned;
      OneMoreRequest(start, waiting, r);
      gdb.InterruptTarget();
      ServeAbandoned();
      outcome := Perform(r);
      gdb.ContinueTarget();
      FourParts(log, [Interrupt], AllCommands(start, waiting), Commands(Run(start, waiting), r), [Continue]);
    }
  }

  lemma OneBreakpointAfterwards(bp: Bp)
    ensures var s, r := State(map[], map[], map[], map[], {}, 1), Request(Function, [bp], false, [Accepted(0, 7)]);
      Run(s, [r]) == State(map[], map[], map[1 := bp], map[], {1}, 2)
  {
    var s, r := State(map[], map[], map[], map[], {}, 1), Request(Function, [bp], false, [Accepted(0, 7)]);
    assert [r][..0] == [];
    assert r.replies[..1] == r.replies && r.replies[..0] == [];
    assert Answers(1, r.replies) == [Inserted(1, 7)];
    assert Taken([Inserted(1, 7)]) == {1};
    assert [bp][..0] == [];
    assert NewTable(Function, [bp], [Inserted(1, 7)]) == map[1 := bp];
  }

  /** A function breakpoint while the target runs and cannot be interrupted: the request fails,
      without a trace, and the breakpoint is set when the target stops later. */
  method FailedRequestActsLater(bp: Bp) returns (manager: BreakpointManager, outcome: Outcome, ghost between: State)
    ensures outcome == Threw && between == State(map[], map[], map[], map[], {}, 1)
    ensures manager.View() == between.(func := map[1 := bp], held := {1}, next := 2)
  {
    hide After, Sound, Agrees, Run;
    var gdb := new Gdb();
    manager := new BreakpointManager(gdb);
    gdb.ContinueTarget();
    var r := Request(Function, [bp], false, [Accepted(0, 7)]);
    outcome := manager.ExecuteWhileStopped(r, true);
    between := manager.View();
    manager.TargetStops();
    assert [] + [r] == [r];
    OneBreakpointAfterwards(bp);
  }

  lemma FourParts<T>(log: seq<T>, a: seq<T>, b: seq<T>, c: seq<T>, d: seq<T>)
    ensures log + a + b + c + d == log + (a + (b + c) + d)
  {}

  lemma {:induction false} StopsAt(kind: Kind, bps: seq<Bp>, i: nat)
    requires i < |bps| && SentCount(kind, bps[..i]) == i && kind == Instruction && !bps[i].parses
    ensures SentCount(kind, bps) == i
  {}
}
