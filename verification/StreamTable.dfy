/** Which connection a stream id leads to: the table of a `RemoteServer` over whole runs of
    connecting, closing, answers of the proxy, and data. */
module StreamTable {
  import opened Options
  import opened Text

  // ----- The changes of the table -----

  /** `resetStreamId`, called by `setStreamId` for a connection without an id. */
  function Refiled<C>(table: map<int, C>, c: C, was: int, id: int): map<int, C> {
    if id != was && was < 0 && id !in table then (table - {was})[id := c] else table
  }

  /** `cleanupSocket` */
  function Cleaned<C(==)>(table: map<int, C>, c: C): map<int, C> {
    map k | k in table && table[k] != c :: table[k]
  }

  function Without<C(==)>(sockets: seq<C>, c: C): seq<C> {
    if sockets == [] then []
    else if sockets[0] == c then Without(sockets[1..], c)
    else [sockets[0]] + Without(sockets[1..], c)
  }

  lemma {:induction false} WithoutMember<C>(sockets: seq<C>, c: C, s: C)
    ensures s in Without(sockets, c) <==> s in sockets && s != c
  {
    if sockets != [] {
      WithoutMember(sockets[1..], c, s);
      assert s in sockets <==> s == sockets[0] || s in sockets[1..];
    }
  }

  /** The connection that data for `id` goes to. */
  function Target<C>(table: map<int, C>, id: int): Option<C> {
    if id in table then Some(table[id]) else if -1 in table then Some(table[-1]) else None
  }

  // ----- The server as a state machine -----

  /** Connections are numbered in order of connecting. `sockets` are the open ones; `ids` are
      the ids of all; `sent` is what the proxy sent for each, `given` what each was given. */
  datatype Net = Net(sockets: seq<nat>, table: map<int, nat>, ids: seq<int>, sent: seq<Str>, given: seq<Str>)

  const NO_CLIENTS := Net([], map[], [], [], [])

  /** `Connects` carries whether the stream is started, and the id the adapter keeps for it.
      `Answer` is the proxy's, for a connection that may have closed meanwhile. `Data` was sent
      for `owner` under `id`. */
  datatype Event =
    | Connects(started: bool, id: nat)
    | Closes(c: nat)
    | Answer(c: nat, id: nat)
    | Data(owner: nat, id: nat, data: Str)

  predicate Wf(n: Net) {
    && |n.sent| == |n.given| == |n.ids|
    && (forall c <- n.sockets :: c < |n.ids|)
    && (forall k <- n.table :: n.table[k] < |n.ids|)
    && (forall c :: 0 <= c < |n.ids| ==> n.ids[c] >= -1)
  }

  predicate Possible(n: Net, e: Event) {
    match e
    case Connects(_, _) => true
    case Closes(c) => c < |n.ids|
    case Answer(c, _) => c < |n.ids|
    case Data(owner, _, _) => owner < |n.ids|
  }

  function Step(n: Net, e: Event): (r: Net)
    requires Wf(n) && Possible(n, e)
  {
    match e
    case Connects(started, id) =>
      if -1 in n.table then n
      else
        var c, first := |n.ids|, n.sockets == [] && started;
        var table := n.table[-1 := c];
        Net(n.sockets + [c], if first then Refiled(table, c, -1, id) else table,
            n.ids + [if first then id else -1], n.sent + [[]], n.given + [[]])
    case Closes(c) => n.(sockets := Without(n.sockets, c), table := Cleaned(n.table, c))
    case Answer(c, id) => n.(table := Refiled(n.table, c, n.ids[c], id), ids := n.ids[c := id])
    case Data(owner, id, data) =>
      var target := Target(n.table, id);
      n.(sent := n.sent[owner := n.sent[owner] + data],
         given := if target.None? then n.given else n.given[target.value := n.given[target.value] + data])
  }

  lemma StepWf(n: Net, e: Event)
    requires Wf(n) && Possible(n, e)
    ensures Wf(Step(n, e)) && |n.ids| <= |Step(n, e).ids|
  {
    if e.Closes? {
      forall s: nat | s in Without(n.sockets, e.c) ensures s < |n.ids| { WithoutMember(n.sockets, e.c, s); }
    }
  }

  // ----- When everything is where it belongs -----

  ghost predicate Filed(n: Net)
    requires Wf(n)
  {
    && (forall k <- n.table :: n.table[k] in n.sockets && n.ids[n.table[k]] == k)
    && (forall c <- n.sockets :: n.ids[c] in n.table && n.table[n.ids[c]] == c)
  }

  /** Table and ids are inverse to each other, and every open connection was given what was
      sent for it. */
  ghost predicate Right(n: Net)
    requires Wf(n)
  {
    Filed(n) && forall c <- n.sockets :: n.given[c] == n.sent[c]
  }

  /** Data for `id` is meant for the open connection with that id, or, when there is none, for
      the one that waits for its id. */
  predicate Receives(n: Net, id: int, c: nat)
    requires Wf(n)
  {
    c in n.sockets && (n.ids[c] == id || (n.ids[c] == -1 && forall d <- n.sockets :: n.ids[d] != id))
  }

  /** An answer is in time and its id is new, or it changes nothing; data finds its owner, or
      nobody when the owner has closed. */
  predicate EventIsRight(n: Net, e: Event)
    requires Wf(n) && Possible(n, e)
  {
    match e
    case Connects(_, _) => true
    case Closes(_) => true
    case Answer(c, id) =>
      || id == n.ids[c]
      || (c in n.sockets && n.ids[c] < 0 && forall d <- n.sockets :: n.ids[d] != id)
      || (c !in n.sockets && (n.ids[c] >= 0 || exists d <- n.sockets :: n.ids[d] == id))
    case Data(owner, id, data) =>
      data == [] || forall c <- n.sockets :: Receives(n, id, c) <==> c == owner
  }

  lemma TargetReceives(n: Net, id: int, c: nat)
    requires Wf(n) && Filed(n)
    ensures Target(n.table, id) == Some(c) <==> Receives(n, id, c)
  {
    var target := Target(n.table, id);
    if target.Some? { assert target.value in n.sockets; }
    if Receives(n, id, c) { assert n.ids[c] in n.table && n.table[n.ids[c]] == c; }
  }

  /** Data is given to the connection that should receive it, and nothing is given to any other. */
  lemma DataIsGivenToReceiver(n: Net, owner: nat, id: nat, data: Str)
    requires Wf(n) && Filed(n) && owner < |n.ids|
    ensures var t := Step(n, Data(owner, id, data));
      && t.sockets == n.sockets && t.table == n.table && t.ids == n.ids && |t.given| == |n.given|
      && forall c: nat :: c < |n.given| ==> t.given[c] == n.given[c] + if Receives(n, id, c) then data else []
  {
    hide Receives, Filed;
    forall c: nat ensures Target(n.table, id) == Some(c) <==> Receives(n, id, c) { TargetReceives(n, id, c); }
    assert forall s: Str :: s + [] == s;
  }

  /** An open connection gets the data that is sent for it under its id, also while another
      one waits. */
  lemma OwnerGetsData(n: Net, owner: nat, id: nat, data: Str)
    requires Wf(n) && Right(n) && owner in n.sockets && n.ids[owner] == id
    ensures var t := Step(n, Data(owner, id, data));
      Wf(t) && Right(t) && t.given == n.given[owner := n.given[owner] + data]
  {
    hide Filed;
    OnlyOneReceives(n, id, owner);
    DataIsRightExactlyWhen(n, owner, id, data);
    DataIsGivenToReceiver(n, owner, id, data);
    assert forall s: Str :: s + [] == s;
  }

  lemma OnlyOneReceives(n: Net, id: int, owner: nat)
    requires Wf(n) && Filed(n) && owner in n.sockets && n.ids[owner] == id
    ensures forall c: nat :: Receives(n, id, c) <==> c == owner
  {}

  /** A client is turned away exactly while another connection waits for its id. The others
      are filed: under the stream's id at once when the stream is started and nobody else is
      connected, and otherwise among those that wait. */
  lemma ClientIsTurnedAwayExactlyWhen(n: Net, started: bool, id: nat)
    requires Wf(n) && Right(n)
    ensures var t := Step(n, Connects(started, id));
      if exists c <- n.sockets :: n.ids[c] == -1 then t == n
      else
        && t.sockets == n.sockets + [|n.ids|]
        && t.ids == n.ids + [if started && n.sockets == [] then id else -1]
        && t.given == n.given + [[]] && t.sent == n.sent + [[]]
  {
    if -1 in n.table { assert n.ids[n.table[-1]] == -1; }
  }

  lemma ConnectingIsRight(n: Net, started: bool, id: nat)
    requires Wf(n) && Right(n)
    ensures Wf(Step(n, Connects(started, id))) && Right(Step(n, Connects(started, id)))
  {
    StepWf(n, Connects(started, id));
    assert forall k <- n.table :: n.table[k] in n.sockets;
    if n.sockets == [] { assert n.table.Keys == {}; }
    assert |n.ids| !in n.sockets;
  }

  lemma ClosingIsRight(n: Net, c: nat)
    requires Wf(n) && Right(n) && c < |n.ids|
    ensures Wf(Step(n, Closes(c))) && Right(Step(n, Closes(c)))
  {
    StepWf(n, Closes(c));
    forall s: nat ensures s in Without(n.sockets, c) <==> s in n.sockets && s != c { WithoutMember(n.sockets, c, s); }
  }

  lemma TakenIds(n: Net, id: int)
    requires Wf(n) && Filed(n)
    ensures id in n.table <==> exists d <- n.sockets :: n.ids[d] == id
  {
    if id in n.table { assert n.table[id] in n.sockets; }
  }

  lemma AnswerIsRightExactlyWhen(n: Net, c: nat, id: nat)
    requires Wf(n) && Right(n) && c < |n.ids|
    ensures Wf(Step(n, Answer(c, id)))
    ensures Right(Step(n, Answer(c, id))) <==> EventIsRight(n, Answer(c, id))
  {
    StepWf(n, Answer(c, id));
    var t := Step(n, Answer(c, id));
    TakenIds(n, id);
    if EventIsRight(n, Answer(c, id)) {
      assert forall k <- n.table :: n.table[k] == c ==> k == n.ids[c];
    } else if c in n.sockets {
      assert n.ids[c] in n.table && n.table[n.ids[c]] == c;
      assert t.table == n.table && t.ids[c] != n.ids[c];
    } else {
      assert id in t.table && t.table[id] !in t.sockets;
    }
  }

  lemma StepSends(n: Net, owner: nat, id: nat, data: Str)
    requires Wf(n) && owner < |n.ids|
    ensures Step(n, Data(owner, id, data)).sent == n.sent[owner := n.sent[owner] + data]
  {}

  lemma DataIsRightExactlyWhen(n: Net, owner: nat, id: nat, data: Str)
    requires Wf(n) && Right(n) && owner < |n.ids|
    ensures Wf(Step(n, Data(owner, id, data)))
    ensures Right(Step(n, Data(owner, id, data))) <==> EventIsRight(n, Data(owner, id, data))
  {
    StepWf(n, Data(owner, id, data));
    var t := Step(n, Data(owner, id, data));
    DataIsGivenToReceiver(n, owner, id, data);
    assert Filed(t);
    hide Step, Receives, Filed;
    assert t.sent == n.sent[owner := n.sent[owner] + data] by { StepSends(n, owner, id, data); }
    forall c <- n.sockets
      ensures t.given[c] == t.sent[c] <==> data == [] || (Receives(n, id, c) <==> c == owner)
    {
      assert n.given[c] == n.sent[c] && n.given[c] + [] == n.given[c];
      assert data != [] ==> n.given[c] + data != n.given[c];
    }
  }

  lemma StepIsRightExactlyWhen(n: Net, e: Event)
    requires Wf(n) && Possible(n, e) && Right(n)
    ensures Wf(Step(n, e)) && (Right(Step(n, e)) <==> EventIsRight(n, e))
  {
    match e
    case Connects(started, id) => ConnectingIsRight(n, started, id);
    case Closes(c) => ClosingIsRight(n, c);
    case Answer(c, id) => AnswerIsRightExactlyWhen(n, c, id);
    case Data(owner, id, data) => DataIsRightExactlyWhen(n, owner, id, data);
  }

  // ----- Runs -----

  /** The states of a run, one more than its events. */
  ghost predicate IsRun(ns: seq<Net>, es: seq<Event>) {
    && |ns| == |es| + 1 && ns[0] == NO_CLIENTS
    && forall i :: 0 <= i < |es| ==> Wf(ns[i]) && Possible(ns[i], es[i]) && Step(ns[i], es[i]) == ns[i + 1]
  }

  lemma {:induction false} RunIsWf(ns: seq<Net>, es: seq<Event>, n: nat)
    requires IsRun(ns, es) && n < |ns|
    ensures Wf(ns[n])
  {
    if n > 0 { StepWf(ns[n - 1], es[n - 1]); }
  }

  ghost predicate RightAt(ns: seq<Net>, i: nat) {
    i < |ns| && Wf(ns[i]) && Right(ns[i])
  }

  ghost predicate EventRightAt(ns: seq<Net>, es: seq<Event>, i: nat) {
    i < |ns| && i < |es| && Wf(ns[i]) && Possible(ns[i], es[i]) && EventIsRight(ns[i], es[i])
  }

  /** In every run the table and the flows are right in all states if and only if every event
      is right in the state it meets. */
  lemma {:induction false} RunIsRightExactlyWhen(ns: seq<Net>, es: seq<Event>, n: nat)
    requires IsRun(ns, es) && n < |ns|
    ensures (forall i :: 0 <= i <= n ==> RightAt(ns, i)) <==> (forall i :: 0 <= i < n ==> EventRightAt(ns, es, i))
    decreases n
  {
    if n > 0 {
      RunIsRightExactlyWhen(ns, es, n - 1);
      RunIsWf(ns, es, n - 1);
      assert Step(ns[n - 1], es[n - 1]) == ns[n];
      if Right(ns[n - 1]) { StepIsRightExactlyWhen(ns[n - 1], es[n - 1]); }
      hide Right, EventIsRight, Step;
      assert RightAt(ns, n - 1) ==> (RightAt(ns, n) <==> EventRightAt(ns, es, n - 1));
    }
  }

  /** A closed connection that is in the table stays there, and the table stays wrong, whatever
      follows: clients, answers, data. */
  lemma {:induction false} MisfiledStaysMisfiled(ns: seq<Net>, es: seq<Event>, m: nat, n: nat, c: nat, id: nat)
    requires IsRun(ns, es) && m <= n < |ns| && c < |ns[m].ids|
    requires c !in ns[m].sockets && id in ns[m].table && ns[m].table[id] == c
    requires forall i :: m <= i < n ==> es[i] != Closes(c)
    ensures c < |ns[n].ids| && c !in ns[n].sockets && id in ns[n].table && ns[n].table[id] == c
    ensures !RightAt(ns, n)
    decreases n - m
  {
    if m < n {
      MisfiledStaysMisfiled(ns, es, m, n - 1, c, id);
      var before, e := ns[n - 1], es[n - 1];
      assert Step(before, e) == ns[n];
      StepWf(before, e);
      if e.Closes? { WithoutMember(before.sockets, e.c, c); }
    }
  }

  /** While the table is right at most one open connection waits for its id. */
  lemma AtMostOneWaits(n: Net, c: nat, d: nat)
    requires Wf(n) && Right(n) && c in n.sockets && d in n.sockets && n.ids[c] == n.ids[d]
    ensures c == d
  {}

  function OneMade(sockets: seq<nat>, table: map<int, nat>): Net {
    Net(sockets, table, [-1], [[]], [[]])
  }

  function TwoMade(table: map<int, nat>, first: int): Net {
    Net([1], table, [first, -1], [[], []], [[], []])
  }

  lemma OneClientComesAndGoes()
    ensures Step(NO_CLIENTS, Connects(false, 0)) == OneMade([0], map[-1 := 0])
    ensures Step(OneMade([0], map[-1 := 0]), Closes(0)) == OneMade([], map[])
  {
    assert [0][1..] == [];
    assert Without([0], 0) == [];
  }

  lemma LateAnswerAndThirdClient()
    ensures Step(OneMade([], map[]), Connects(false, 0)) == TwoMade(map[-1 := 1], -1)
    ensures Step(TwoMade(map[-1 := 1], -1), Answer(0, 5)) == TwoMade(map[5 := 0], 5)
    ensures Step(TwoMade(map[5 := 0], 5), Connects(false, 0))
      == Net([1, 2], map[5 := 0, -1 := 2], [5, -1, -1], [[], [], []], [[], [], []])
  {}

  /** A client closes before its id arrives, another connects, the late answer takes its place,
      and a third client is let in beside it: two open connections wait for their ids. */
  lemma LateAnswerLetsTwoWait() returns (ns: seq<Net>, es: seq<Event>)
    ensures IsRun(ns, es) && |ns| == 6
    ensures ns[5].sockets == [1, 2] && ns[5].ids == [5, -1, -1] && ns[5].table == map[5 := 0, -1 := 2]
  {
    hide Step;
    OneClientComesAndGoes();
    LateAnswerAndThirdClient();
    ns := [NO_CLIENTS, OneMade([0], map[-1 := 0]), OneMade([], map[]), TwoMade(map[-1 := 1], -1),
           TwoMade(map[5 := 0], 5), Net([1, 2], map[5 := 0, -1 := 2], [5, -1, -1], [[], [], []], [[], [], []])];
    es := [Connects(false, 0), Closes(0), Connects(false, 0), Answer(0, 5), Connects(false, 0)];
  }
}
