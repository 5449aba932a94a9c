/** Names of GDB variables, and how updates of live-watch variables find the client that
    created them. */
module LiveWatch {
  import opened Options
  import opened Text

  const DASH := 45

  // ----- createGdbName -----

  function Template(prefix: Str, base: Str, thread: int, frame: int): Str {
    prefix + base + [DASH] + DecInt(thread) + [DASH] + DecInt(frame)
  }

  /** The names `createGdbName` tries, in order. */
  function Candidate(template: Str, k: nat): Str {
    if k == 0 then template else template + [DASH] + Dec(k)
  }

  lemma CandidateInjective(template: Str, j: nat, k: nat)
    requires Candidate(template, j) == Candidate(template, k)
    ensures j == k
  {
    var a, b := Candidate(template, j), Candidate(template, k);
    assert j > 0 ==> a[|template| + 1..] == Dec(j);
    assert k > 0 ==> b[|template| + 1..] == Dec(k);
    DecRoundTrip(j);
    DecRoundTrip(k);
  }

  /** The name that is asked for, and then the same with "-1", "-2" and so on. */
  lemma CandidatesAre(template: Str)
    ensures Candidate(template, 0) == template && Candidate(template, 1) == template + [DASH, 49]
    ensures Candidate(template, 12) == template + [DASH, 49, 50]
  {
    assert Dec(1) == [49] && Dec(12) == Dec(1) + [50];
    assert [DASH, 49] == [DASH] + [49] && [DASH, 49, 50] == [DASH] + ([49] + [50]);
    Assoc(template, [DASH], [49]);
    Assoc(template, [DASH], [49] + [50]);
  }

  ghost function FirstCandidates(template: Str, n: nat): set<Str> {
    set k | 0 <= k < n :: Candidate(template, k)
  }

  /** Distinct suffixes make distinct names. */
  lemma {:induction false} CandidatesAreDistinct(template: Str, n: nat)
    ensures |FirstCandidates(template, n)| == n
  {
    if n > 0 {
      CandidatesAreDistinct(template, n - 1);
      var fewer := FirstCandidates(template, n - 1);
      if Candidate(template, n - 1) in fewer {
        var k :| 0 <= k < n - 1 && Candidate(template, k) == Candidate(template, n - 1);
        CandidateInjective(template, k, n - 1);
        assert false;
      }
      assert FirstCandidates(template, n) == fewer + {Candidate(template, n - 1)};
    }
  }

  /** So many candidates cannot all be taken. */
  lemma TakenCandidates(template: Str, names: set<Str>, n: nat)
    requires forall k :: 0 <= k < n ==> Candidate(template, k) in names
    ensures n <= |names|
  {
    CandidatesAreDistinct(template, n);
    SubsetSize(FirstCandidates(template, n), names);
  }

  lemma {:induction false} SubsetSize(a: set<Str>, b: set<Str>)
    requires a <= b
    ensures |a| <= |b|
  {
    if a != {} {
      var x :| x in a;
      SubsetSize(a - {x}, b - {x});
    }
  }

  /** `createGdbName`: the first candidate that the container does not know, found after at
      most one try more than it knows names. */
  method CreateGdbName(names: set<Str>, prefix: Str, base: Str, thread: int, frame: int)
    returns (name: Str, ghost tries: nat)
    ensures name !in names
    ensures 1 <= tries <= |names| + 1
    ensures name == Candidate(Template(prefix, base, thread, frame), tries - 1)
    ensures forall k :: 0 <= k < tries - 1 ==> Candidate(Template(prefix, base, thread, frame), k) in names
    ensures prefix <= name
  {
    var template := Template(prefix, base, thread, frame);
    name := template;
    var count := 1;
    while name in names
      invariant count >= 1 && name == Candidate(template, count - 1) && prefix <= name
      invariant forall k :: 0 <= k < count - 1 ==> Candidate(template, k) in names
      decreases |names| + 1 - count
    {
      TakenCandidates(template, names, count);
      name := template + [DASH] + Dec(count);
      count := count + 1;
    }
    TakenCandidates(template, names, count - 1);
    tries := count;
  }

  // ----- Prefixes of clients -----

  /** `W${size}-`, for the client registered when there were `size` clients. */
  function Prefix(size: nat): Str {
    [87] + Dec(size) + [DASH]
  }

  function SessionId(size: nat, uuid: Str): Str {
    Ascii("mcu-debug-live-") + Dec(size) + [DASH] + uuid
  }

  /** The part of a GDB variable's name that is looked up: up to and with the first dash. */
  function PrefixOf(name: Str): Str {
    var i := IndexOf(name, DASH);
    if i == |name| then [] else name[..i + 1]
  }

  lemma UpToDash(a: Str, x: Str, b: Str, y: Str)
    requires DASH !in a && DASH !in b && a + [DASH] + x == b + [DASH] + y
    ensures a == b && x == y
  {
    var s := a + [DASH] + x;
    assert s[..|a|] == a && (b + [DASH] + y)[..|b|] == b;
    IndexOfIs(s, DASH, |a|);
    IndexOfIs(s, DASH, |b|);
    SplitAt(a + [DASH], x, b + [DASH], y);
  }

  /** A name made with a client's prefix leads back to that prefix. */
  lemma NameLeadsToPrefix(size: nat, rest: Str)
    ensures PrefixOf(Prefix(size) + rest) == Prefix(size)
  {
    var name, i := Prefix(size) + rest, 1 + |Dec(size)|;
    assert name[..i] == [87] + Dec(size);
    assert DASH !in name[..i] && name[i] == DASH;
    IndexOfIs(name, DASH, i);
    assert name[..i + 1] == Prefix(size);
  }

  lemma PrefixInjective(m: nat, n: nat)
    requires Prefix(m) == Prefix(n)
    ensures m == n
  {
    assert Prefix(m)[1..] == Dec(m) + [DASH] && Prefix(n)[1..] == Dec(n) + [DASH];
    assert Dec(m) + [DASH] + [] == Dec(n) + [DASH] + [];
    UpToDash(Dec(m), [], Dec(n), []);
    DecRoundTrip(m);
    DecRoundTrip(n);
  }

  lemma SessionIdTellsSize(m: nat, u: Str, n: nat, v: Str)
    requires SessionId(m, u) == SessionId(n, v)
    ensures m == n
  {
    var h := Ascii("mcu-debug-live-");
    assert SessionId(m, u)[|h|..] == Dec(m) + [DASH] + u;
    assert SessionId(n, v)[|h|..] == Dec(n) + [DASH] + v;
    UpToDash(Dec(m), u, Dec(n), v);
    DecRoundTrip(m);
    DecRoundTrip(n);
  }

  // ----- Routing -----

  datatype Update = Update(name: Str, value: Str)

  /** The client an update goes to, if there is one. */
  ghost predicate RoutedTo(u: Update, k: nat) {
    PrefixOf(u.name) == Prefix(k)
  }

  /** What the client with number `k` is sent: for each of its names the last update. */
  ghost function Collected(us: seq<Update>, k: nat): map<Str, Update> {
    if us == [] then map[]
    else
      var u := us[|us| - 1];
      var before := Collected(us[..|us| - 1], k);
      if RoutedTo(u, k) then before[u.name := u] else before
  }

  /** GDB's reply to `-var-update`: an error, a result without a changelist, or the changes. */
  datatype Reply = Failed | NoChangelist | Changed(list: seq<Update>)

  datatype LiveUpdate = LiveUpdate(client: nat, updates: map<Str, Update>)

  /** The events of one round: one for each client with updates, in order of registration. */
  ghost function Events(us: seq<Update>, clients: nat): seq<LiveUpdate> {
    if clients == 0 then []
    else
      var c := Collected(us, clients - 1);
      Events(us, clients - 1) + (if c == map[] then [] else [LiveUpdate(clients - 1, c)])
  }

  /** What a client is sent under a name is one of the updates that go to it. */
  lemma {:induction false} OnlyOwnUpdates(us: seq<Update>, name: Str, k: nat)
    ensures name in Collected(us, k) ==> PrefixOf(name) == Prefix(k)
  {
    if us != [] { OnlyOwnUpdates(us[..|us| - 1], name, k); }
  }

  /** The last update under a name is the one that is sent. */
  lemma {:induction false} LatestIsCollected(us: seq<Update>, i: nat, k: nat)
    requires i < |us| && RoutedTo(us[i], k)
    requires forall m :: i < m < |us| ==> us[m].name != us[i].name
    ensures us[i].name in Collected(us, k) && Collected(us, k)[us[i].name] == us[i]
  {
    hide PrefixOf, Prefix;
    var n := |us| - 1;
    if i < n {
      var fewer := us[..n];
      assert fewer[i] == us[i];
      LatestIsCollected(fewer, i, k);
    }
  }

  /** Every update of a variable is sent to the client whose container made its name, with the
      latest value, and to no other. */
  lemma SentToItsCreator(us: seq<Update>, i: nat, k: nat, rest: Str, j: nat)
    requires i < |us| && us[i].name == Prefix(k) + rest
    requires forall m :: i < m < |us| ==> us[m].name != us[i].name
    ensures us[i].name in Collected(us, j) <==> j == k
    ensures us[i].name in Collected(us, k) && Collected(us, k)[us[i].name] == us[i]
  {
    hide PrefixOf, Prefix, Collected;
    NameLeadsToPrefix(k, rest);
    LatestIsCollected(us, i, k);
    OnlyOwnUpdates(us, us[i].name, j);
    if Prefix(j) == Prefix(k) { PrefixInjective(j, k); }
  }

  /** Nothing is sent under a name that is not in the round: a written value that another write
      has replaced before the round, and that GDB no longer reports as a change, is never sent. */
  lemma {:induction false} OnlyRoundsNames(us: seq<Update>, name: Str, k: nat)
    ensures name in Collected(us, k) ==>
      exists i :: 0 <= i < |us| && us[i].name == name && Collected(us, k)[name] == us[i]
  {
    hide PrefixOf, Prefix;
    if us != [] {
      var n := |us| - 1;
      var fewer := us[..n];
      OnlyRoundsNames(fewer, name, k);
      if name in Collected(us, k) && !(us[n].name == name && RoutedTo(us[n], k)) {
        var i :| 0 <= i < n && fewer[i].name == name && Collected(fewer, k)[name] == fewer[i];
        assert us[i] == fewer[i];
      }
    }
  }

  ghost predicate Named(us: seq<Update>, name: Str) {
    exists i :: 0 <= i < |us| && us[i].name == name
  }

  /** A client is sent exactly the names of the round that lead to it. */
  lemma {:induction false} CollectedNames(us: seq<Update>, name: Str, k: nat)
    ensures name in Collected(us, k) <==> PrefixOf(name) == Prefix(k) && Named(us, name)
  {
    hide PrefixOf, Prefix;
    if us != [] {
      var n := |us| - 1;
      CollectedNames(us[..n], name, k);
      NamedSnoc(us[..n], us[n], name);
      assert us == us[..n] + [us[n]];
    }
  }

  lemma NamedSnoc(us: seq<Update>, u: Update, name: Str)
    ensures Named(us + [u], name) <==> Named(us, name) || u.name == name
  {
    var all := us + [u];
    assert all[|us|] == u;
    assert forall i :: 0 <= i < |us| ==> all[i] == us[i];
  }

  lemma {:induction false} NamedConcat(us: seq<Update>, more: seq<Update>, name: Str)
    ensures Named(us + more, name) <==> Named(us, name) || Named(more, name)
  {
    var all := us + more;
    assert forall i :: 0 <= i < |us| ==> all[i] == us[i];
    assert forall i :: 0 <= i < |more| ==> all[|us| + i] == more[i];
  }

  /** The updates of a round: written values first, then what GDB reports, which is nothing
      when its command fails. A reply without a changelist, and written values that are
      undefined, throw before anything is sent. */
  ghost function RoundOf(written: Option<seq<Update>>, reply: Reply): Option<seq<Update>> {
    if written.None? || reply.NoChangelist? then None
    else Some(written.value + if reply.Changed? then reply.list else [])
  }

  /** What a write leaves for the next round. */
  ghost function LeftBy(left: Option<seq<Update>>, readBack: Reply): Option<seq<Update>> {
    match readBack
    case Failed => left
    case NoChangelist => None
    case Changed(list) => Some(list)
  }

  /** The round takes place, and the write has left the value alone or GDB names it again. */
  ghost predicate SurvivesWrite(name: Str, readBack: Reply, reply: Reply) {
    !reply.NoChangelist? && !readBack.NoChangelist? &&
    (readBack.Failed? || Named(readBack.list, name) || (reply.Changed? && Named(reply.list, name)))
  }

  /** A value that earlier writes have left for a client outlives one more write, and reaches
      the client in the next round, if and only if the round takes place and the value was not
      replaced, or GDB names it again. */
  lemma ValueIsSentExactlyWhen(left: seq<Update>, u: Update, readBack: Reply, reply: Reply, k: nat)
    requires u in left && RoutedTo(u, k)
    ensures var round := RoundOf(LeftBy(Some(left), readBack), reply);
      round.Some? && u.name in Collected(round.value, k) <==> SurvivesWrite(u.name, readBack, reply)
  {
    hide Collected, Named, PrefixOf, Prefix;
    var round := RoundOf(LeftBy(Some(left), readBack), reply);
    if round.Some? {
      var written, reported := LeftBy(Some(left), readBack).value, if reply.Changed? then reply.list else [];
      CollectedNames(round.value, u.name, k);
      NamedConcat(written, reported, u.name);
      NamedIfIn(left, u);
      NothingNamed();
    }
  }

  lemma NamedIfIn(us: seq<Update>, u: Update)
    requires u in us
    ensures Named(us, u.name)
  {}

  lemma NothingNamed()
    ensures forall name :: !Named([], name)
  {}

  /** A round's events are exactly the non-empty collections of the registered clients. */
  lemma {:induction false} EventsAre(us: seq<Update>, clients: nat, e: LiveUpdate)
    ensures e in Events(us, clients) <==>
      e.client < clients && e.updates == Collected(us, e.client) && e.updates != map[]
  {
    hide Collected;
    if clients > 0 { EventsAre(us, clients - 1, e); }
  }

  /** The events of a round send `name` to client `k`. */
  ghost predicate SentIn(events: seq<LiveUpdate>, k: nat, name: Str) {
    exists e :: e in events && e.client == k && name in e.updates
  }

  lemma SentInRound(us: seq<Update>, clients: nat, k: nat, name: Str)
    requires k < clients
    ensures SentIn(Events(us, clients), k, name) <==> name in Collected(us, k)
  {
    hide Collected, Events;
    var e := LiveUpdate(k, Collected(us, k));
    EventsAre(us, clients, e);
    forall f | f in Events(us, clients) && f.client == k ensures f == e { EventsAre(us, clients, f); }
  }

  ghost predicate SentValue(events: seq<LiveUpdate>, k: nat, u: Update) {
    exists e :: e in events && e.client == k && u.name in e.updates && e.updates[u.name] == u
  }

  /** No later update has the same name. */
  ghost predicate IsLast(us: seq<Update>, i: nat)
    requires i < |us|
  {
    forall m :: i < m < |us| ==> us[m].name != us[i].name
  }

  lemma LatestIsSent(us: seq<Update>, clients: nat, i: nat, k: nat)
    requires i < |us| && k < clients && RoutedTo(us[i], k) && IsLast(us, i)
    ensures SentValue(Events(us, clients), k, us[i])
  {
    hide Collected, Events, PrefixOf, Prefix;
    LatestIsCollected(us, i, k);
    EventsAre(us, clients, LiveUpdate(k, Collected(us, k)));
  }

  /** In a round that takes place, what GDB reports last for a variable is sent to its client,
      also when a written value waits; a written value is sent when GDB reports none. */
  lemma ReportedBeatsWritten(written: seq<Update>, reply: Reply, clients: nat, i: nat, k: nat)
    requires k < clients && !reply.NoChangelist?
    ensures var reported, events := if reply.Changed? then reply.list else [],
                                    Events(RoundOf(Some(written), reply).value, clients);
      && (i < |reported| && RoutedTo(reported[i], k) && IsLast(reported, i) ==> SentValue(events, k, reported[i]))
      && (i < |written| && RoutedTo(written[i], k) && IsLast(written, i) && !Named(reported, written[i].name) ==>
            SentValue(events, k, written[i]))
  {
    hide Events, RoutedTo, SentValue;
    var reported := if reply.Changed? then reply.list else [];
    var us := written + reported;
    if i < |reported| && RoutedTo(reported[i], k) && IsLast(reported, i) {
      assert us[|written| + i] == reported[i];
      assert forall m :: |written| + i < m < |us| ==> us[m] == reported[m - |written|];
      LatestIsSent(us, clients, |written| + i, k);
    }
    if i < |written| && RoutedTo(written[i], k) && IsLast(written, i) && !Named(reported, written[i].name) {
      assert us[i] == written[i];
      assert forall m :: |written| <= m < |us| ==> us[m] == reported[m - |written|];
      LatestIsSent(us, clients, i, k);
    }
  }

  /** Each client is sent the last value of each of its variables in the list. */
  ghost predicate AllSent(list: seq<Update>, clients: nat, events: seq<LiveUpdate>) {
    forall i, k: nat :: 0 <= i < |list| && k < clients && RoutedTo(list[i], k) && IsLast(list, i) ==>
      SentValue(events, k, list[i])
  }

  lemma ReportedAreSent(written: seq<Update>, list: seq<Update>, clients: nat)
    ensures AllSent(list, clients, Events(written + list, clients))
  {
    hide Events, RoutedTo, SentValue, IsLast;
    forall i, k: nat | 0 <= i < |list| && k < clients && RoutedTo(list[i], k) && IsLast(list, i)
      ensures SentValue(Events(written + list, clients), k, list[i])
    {
      ReportedBeatsWritten(written, Changed(list), clients, i, k);
    }
  }

  /** `LiveWatchMonitor`: the clients are numbered in order of registration. */
  class LiveMonitor {
    var sessionsByClientId: map<Str, nat>
    var sessionsByPrefix: map<Str, nat>
    var updates: seq<map<Str, Update>>
    // `None` is the source's `undefined`.
    var pvrWriteUpdates: Option<seq<Update>>

    /** Between rounds no session holds an update; session ids and prefixes are those of the
        numbers below the number of sessions. */
    ghost predicate Valid()
      reads this
    {
      && |sessionsByClientId| == |updates|
      && (forall id <- sessionsByClientId :: sessionsByClientId[id] < |updates| && Numbered(id, sessionsByClientId[id]))
      && PrefixesAre(sessionsByPrefix, |updates|)
      && forall k :: 0 <= k < |updates| ==> updates[k] == map[]
    }

    static ghost predicate Numbered(id: Str, k: nat) {
      exists uuid :: id == SessionId(k, uuid)
    }

    static ghost predicate PrefixesAre(m: map<Str, nat>, clients: nat) {
      && (forall k :: 0 <= k < clients ==> Prefix(k) in m && m[Prefix(k)] == k)
      && forall p <- m :: m[p] < clients && p == Prefix(m[p])
    }

    constructor ()
      ensures Valid() && updates == [] && pvrWriteUpdates == Some([])
    {
      sessionsByClientId, sessionsByPrefix, updates, pvrWriteUpdates := map[], map[], [], Some([]);
    }

    /** `registerClientRequest`: a client gets a session id and a prefix that no client has. */
    method RegisterClient(uuid: Str) returns (sessionId: Str, prefix: Str)
      requires Valid()
      modifies this
      ensures Valid() && pvrWriteUpdates == old(pvrWriteUpdates)
      ensures sessionId !in old(sessionsByClientId) && prefix !in old(sessionsByPrefix)
      ensures prefix == Prefix(|old(updates)|) && |updates| == |old(updates)| + 1
      ensures sessionsByClientId == old(sessionsByClientId)[sessionId := |old(updates)|]
    {
      var size := |sessionsByClientId|;
      sessionId := SessionId(size, uuid);
      prefix := Prefix(size);
      FreshSession(sessionId, prefix, uuid);
      var number := |updates|;
      updates := updates + [map[]];
      sessionsByClientId := sessionsByClientId[sessionId := number];
      sessionsByPrefix := sessionsByPrefix[prefix := number];
      PrefixAdded(old(sessionsByPrefix), number);
      assert Numbered(sessionId, number);
    }

    static lemma PrefixAdded(m: map<Str, nat>, n: nat)
      requires PrefixesAre(m, n)
      ensures PrefixesAre(m[Prefix(n) := n], n + 1)
    {
      hide Prefix;
      forall k: nat | k < n ensures Prefix(k) != Prefix(n) {
        if Prefix(k) == Prefix(n) { PrefixInjective(k, n); }
      }
    }

    lemma FreshSession(sessionId: Str, prefix: Str, uuid: Str)
      requires Valid() && sessionId == SessionId(|updates|, uuid) && prefix == Prefix(|updates|)
      ensures sessionId !in sessionsByClientId && prefix !in sessionsByPrefix
    {
      hide SessionId, Prefix;
      if sessionId in sessionsByClientId {
        var k := sessionsByClientId[sessionId];
        var other :| sessionId == SessionId(k, other);
        SessionIdTellsSize(k, other, |updates|, uuid);
      }
      if prefix in sessionsByPrefix {
        PrefixInjective(sessionsByPrefix[prefix], |updates|);
      }
    }

    static lemma NothingCollected(k: nat)
      ensures Collected([], k) == map[]
    {
    }

    /** Filing one update in the session its prefix leads to. */
    lemma Filed(us: seq<Update>, i: nat)
      requires PrefixesAre(sessionsByPrefix, |updates|)
      requires i < |us| && forall k :: 0 <= k < |updates| ==> updates[k] == Collected(us[..i], k)
      ensures forall p <- sessionsByPrefix :: sessionsByPrefix[p] < |updates|
      ensures forall k :: 0 <= k < |updates| ==>
        Collected(us[..i + 1], k) ==
          if PrefixOf(us[i].name) in sessionsByPrefix && sessionsByPrefix[PrefixOf(us[i].name)] == k
          then updates[k][us[i].name := us[i]] else updates[k]
    {
      hide Prefix, PrefixOf;
      assert us[..i + 1][..i] == us[..i];
      forall j: nat, k: nat | j < |updates| && k < |updates| && Prefix(j) == Prefix(k) ensures j == k {
        PrefixInjective(j, k);
      }
    }

    /** The part of `tryWriteViaMonitorCommand` that reads a written value back: what GDB
        reports replaces what earlier writes have left for the next round. The write succeeds
        exactly when the first change has the value asked for. */
    method WriteViaMonitor(asked: int, readBack: Reply, number: Str -> Option<int>) returns (ok: bool)
      requires Valid()
      modifies `pvrWriteUpdates
      ensures Valid()
      ensures pvrWriteUpdates == LeftBy(old(pvrWriteUpdates), readBack)
      ensures sessionsByPrefix == old(sessionsByPrefix) && updates == old(updates)
      ensures ok <==> readBack.Changed? && readBack.list != [] && number(readBack.list[0].value) == Some(asked)
    {
      if readBack.Failed? { return false; }
      pvrWriteUpdates := if readBack.Changed? then Some(readBack.list) else None;
      if pvrWriteUpdates.None? || |pvrWriteUpdates.value| == 0 { return false; }
      ok := number(pvrWriteUpdates.value[0].value) == Some(asked);
    }

    /** `updateVariables`: a round sends its updates and leaves nothing behind; a round that
        throws sends nothing and leaves everything as it is. */
    method UpdateVariables(reply: Reply) returns (events: seq<LiveUpdate>)
      requires Valid()
      modifies this
      ensures Valid() && |updates| == |old(updates)|
      ensures sessionsByClientId == old(sessionsByClientId) && sessionsByPrefix == old(sessionsByPrefix)
      ensures var round := RoundOf(old(pvrWriteUpdates), reply);
        if round.None? then events == [] && pvrWriteUpdates == old(pvrWriteUpdates)
        else events == Events(round.value, |old(updates)|) && pvrWriteUpdates == Some([])
      ensures old(pvrWriteUpdates).Some? && reply.Changed? ==> AllSent(reply.list, |updates|, events)
    {
      hide Collected, Prefix, PrefixOf, Numbered, PrefixesAre;
      events := [];
      var fromGdb := UpdateAllGdbVariables(reply);
      if fromGdb.None? || pvrWriteUpdates.None? { return; }
      var us := pvrWriteUpdates.value + fromGdb.value;
      var i := 0;
      assert us[..i] == [];
      forall k: nat ensures Collected([], k) == map[] { NothingCollected(k); }
      while i < |us|
        invariant i <= |us| && |updates| == |old(updates)|
        invariant sessionsByClientId == old(sessionsByClientId) && sessionsByPrefix == old(sessionsByPrefix)
        invariant forall k :: 0 <= k < |updates| ==> updates[k] == Collected(us[..i], k)
      {
        Filed(us, i);
        var prefix := PrefixOf(us[i].name);
        if prefix in sessionsByPrefix {
          var s := sessionsByPrefix[prefix];
          updates := updates[s := updates[s][us[i].name := us[i]]];
        }
        i := i + 1;
      }
      assert us[..i] == us;
      pvrWriteUpdates := Some([]);
      var k := 0;
      while k < |updates|
        invariant k <= |updates| == |old(updates)| && pvrWriteUpdates == Some([])
        invariant sessionsByClientId == old(sessionsByClientId) && sessionsByPrefix == old(sessionsByPrefix)
        invariant events == Events(us, k)
        invariant forall m :: 0 <= m < |updates| ==> updates[m] == if m < k then map[] else Collected(us, m)
      {
        if updates[k] != map[] {
          events := events + [LiveUpdate(k, updates[k])];
          updates := updates[k := map[]];
        }
        k := k + 1;
      }
      if reply.Changed? { ReportedAreSent(old(pvrWriteUpdates).value, reply.list, |updates|); }
    }

    /** `updateAllGdbVariables`: a failing command is caught and gives no updates. */
    method UpdateAllGdbVariables(reply: Reply) returns (records: Option<seq<Update>>)
      ensures records.None? <==> reply.NoChangelist?
      ensures records.Some? ==> records.value == if reply.Changed? then reply.list else []
    {
      match reply
      case Failed => records := Some([]);
      case NoChangelist => records := None;
      case Changed(list) => records := Some(list);
    }
  }

  /** A write and the round after it: each client gets what earlier writes have left for it
      exactly under the condition above. */
  method WriteAndUpdate(monitor: LiveMonitor, asked: int, readBack: Reply, number: Str -> Option<int>, reply: Reply)
    returns (events: seq<LiveUpdate>)
    requires monitor.Valid() && monitor.pvrWriteUpdates.Some?
    modifies monitor
    ensures monitor.Valid()
    ensures forall k: nat, u <- old(monitor.pvrWriteUpdates.value) :: k < |monitor.updates| && RoutedTo(u, k) ==>
      (SentIn(events, k, u.name) <==> SurvivesWrite(u.name, readBack, reply))
  {
    hide Collected, Events, PrefixOf, Prefix, Named, SentIn;
    ghost var left := monitor.pvrWriteUpdates.value;
    var _ := monitor.WriteViaMonitor(asked, readBack, number);
    events := monitor.UpdateVariables(reply);
    ghost var round := RoundOf(LeftBy(Some(left), readBack), reply);
    NothingSent();
    forall k: nat, u <- left | k < |monitor.updates| && RoutedTo(u, k)
      ensures SentIn(events, k, u.name) <==> SurvivesWrite(u.name, readBack, reply)
    {
      NamedIfIn(left, u);
      if round.Some? { SentInRound(round.value, |monitor.updates|, k, u.name); }
      ValueIsSentExactlyWhen(left, u, readBack, reply, k);
    }
  }

  lemma NothingSent()
    ensures forall k, name :: !SentIn([], k, name)
  {}

  /** Two writes before one round: the first one's value is sent to nobody. */
  method SecondWriteReplacesFirst(first: Update, second: Update) returns (events: seq<LiveUpdate>)
    requires first.name != second.name
    ensures events == Events([second], 1)
    ensures forall e <- events :: first.name !in e.updates
  {
    hide Events, Collected, SessionId, Prefix, PrefixOf;
    var monitor := new LiveMonitor();
    var _, _ := monitor.RegisterClient([]);
    var _ := monitor.WriteViaMonitor(1, Changed([first]), _ => None);
    var _ := monitor.WriteViaMonitor(1, Changed([second]), _ => None);
    events := monitor.UpdateVariables(Changed([]));
    assert [second] + [] == [second];
    forall e <- events ensures first.name !in e.updates {
      EventsAre([second], 1, e);
      CollectedNames([second], first.name, e.client);
    }
  }

  /** A write whose reply has no changelist: the next round sends nothing, and leaves the next
      but one in the same state. */
  method NoChangelistSilencesRounds(u: Update) returns (monitor: LiveMonitor, events: seq<LiveUpdate>)
    ensures events == [] && monitor.pvrWriteUpdates == None && |monitor.updates| == 1
  {
    monitor := new LiveMonitor();
    var _, _ := monitor.RegisterClient([]);
    var _ := monitor.WriteViaMonitor(1, NoChangelist, _ => None);
    events := monitor.UpdateVariables(Changed([u]));
  }

  /** Writes and rounds in any order, as far as the pending values go. */
  datatype Act = Write(readBack: Reply) | Round(reply: Reply)

  ghost function Pending(left: Option<seq<Update>>, act: Act): Option<seq<Update>> {
    match act
    case Write(readBack) => LeftBy(left, readBack)
    case Round(reply) => if RoundOf(left, reply).None? then left else Some([])
  }

  ghost function PendingAfter(left: Option<seq<Update>>, acts: seq<Act>): Option<seq<Update>> {
    if acts == [] then left else Pending(PendingAfter(left, acts[..|acts| - 1]), acts[|acts| - 1])
  }

  /** After any writes and rounds the pending values are undefined, so that no round sends
      anything, exactly when the last write that got an answer got one without a changelist. */
  lemma {:induction false} RoundsAreSilentExactlyWhen(acts: seq<Act>)
    ensures PendingAfter(Some([]), acts) == None <==>
      exists i :: 0 <= i < |acts| && acts[i] == Write(NoChangelist) &&
        forall j :: i < j < |acts| ==> acts[j].Round? || acts[j].readBack.Failed? || acts[j].readBack.NoChangelist?
  {
    if acts != [] {
      var n := |acts| - 1;
      var fewer := acts[..n];
      RoundsAreSilentExactlyWhen(fewer);
      assert forall i :: 0 <= i < n ==> fewer[i] == acts[i];
    }
  }
}
