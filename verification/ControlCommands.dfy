/** The request table of `ProxyClient`: each control command is raced by its response, its
    timeout and the closing of the socket. */
module ControlCommands {

  datatype Outcome = Resolved | Rejected | TimedOut | SocketClosed | SendFailed | NotConnected

  /** The one call of `resolve` or `reject` that settles a command's promise. */
  datatype Settlement = Settlement(seqNo: nat, outcome: Outcome)

  /** What happens to the client, in any order the event loop pleases. `Send` carries the
      timeout and whether writing to the socket works. */
  datatype Event =
    | Send(timeout: int, writeWorks: bool)
    | Response(seqNo: nat, success: bool)
    | TimerFires(seqNo: nat)
    | SocketCloses

  /** `pending` is the key set of `pendingPromises`, `timers` the commands whose timer is
      running, `log` every settlement so far. */
  datatype Table = Table(connected: bool, nextSeq: nat, pending: set<nat>, timers: set<nat>, log: seq<Settlement>)

  const CONNECTED := Table(true, 1, {}, {}, [])

  // ----- The table as a state machine -----

  function Settle(t: Table, s: nat, outcome: Outcome): Table {
    t.(pending := t.pending - {s}, timers := t.timers - {s}, log := t.log + [Settlement(s, outcome)])
  }

  function Register(t: Table, timeout: int): Table {
    t.(nextSeq := t.nextSeq + 1, pending := t.pending + {t.nextSeq},
       timers := if timeout > 0 then t.timers + {t.nextSeq} else t.timers)
  }

  ghost predicate Step(t: Table, e: Event, u: Table) {
    match e
    case Send(timeout, writeWorks) =>
      if !t.connected then
        u == t.(nextSeq := t.nextSeq + 1, log := t.log + [Settlement(t.nextSeq, NotConnected)])
      else if writeWorks then u == Register(t, timeout)
      else u == Settle(Register(t, timeout), t.nextSeq, SendFailed)
    case Response(s, success) =>
      u == if s != 0 && s in t.pending then Settle(t, s, if success then Resolved else Rejected) else t
    case TimerFires(s) =>
      s in t.timers && u == Settle(t, s, TimedOut)
    case SocketCloses =>
      && u.connected == false && u.nextSeq == t.nextSeq
      && u.pending == {} && u.timers == t.timers - t.pending
      && ClosesAll(t.pending, t.log, u.log)
  }

  /** The log grows by one `SocketClosed` settlement per command, in some order. */
  ghost predicate ClosesAll(commands: set<nat>, before: seq<Settlement>, after: seq<Settlement>) {
    before <= after && OncePer(commands, after[|before|..])
  }

  ghost predicate OncePer(commands: set<nat>, log: seq<Settlement>) {
    && (forall i :: 0 <= i < |log| ==> log[i].outcome == SocketClosed && log[i].seqNo in commands)
    && (forall i, j :: 0 <= i < j < |log| ==> log[i].seqNo != log[j].seqNo)
    && (forall s :: s in commands ==> Settlement(s, SocketClosed) in log)
  }

  ghost predicate SettledIn(log: seq<Settlement>, s: nat) {
    exists i :: 0 <= i < |log| && log[i].seqNo == s
  }

  /** Every command handed out so far is either pending or settled exactly once, and only
      pending commands have a running timer. */
  ghost predicate Inv(t: Table) {
    && t.nextSeq >= 1
    && t.timers <= t.pending
    && (forall s :: s in t.pending ==> 0 < s < t.nextSeq)
    && (forall i :: 0 <= i < |t.log| ==> 0 < t.log[i].seqNo < t.nextSeq)
    && (forall s :: 0 < s < t.nextSeq ==> (s in t.pending <==> !SettledIn(t.log, s)))
    && (forall i, j :: 0 <= i < j < |t.log| ==> t.log[i].seqNo != t.log[j].seqNo)
  }

  lemma SettleKeepsInv(t: Table, s: nat, outcome: Outcome)
    requires Inv(t) && s in t.pending
    ensures Inv(Settle(t, s, outcome))
  {
    var u := Settle(t, s, outcome);
    assert !SettledIn(t.log, s);
    forall x | 0 < x < u.nextSeq ensures x in u.pending <==> !SettledIn(u.log, x) {
      if x == s {
        assert u.log[|t.log|].seqNo == x;
      } else if SettledIn(t.log, x) {
        var i :| 0 <= i < |t.log| && t.log[i].seqNo == x;
        assert u.log[i].seqNo == x;
      }
    }
    forall i, j | 0 <= i < j < |u.log| ensures u.log[i].seqNo != u.log[j].seqNo {
      assert j == |t.log| ==> t.log[i].seqNo != s;
    }
  }

  lemma RegisterKeepsInv(t: Table, timeout: int)
    requires Inv(t)
    ensures Inv(Register(t, timeout)) && t.nextSeq in Register(t, timeout).pending
  {}

  lemma RefuseKeepsInv(t: Table)
    requires Inv(t)
    ensures Inv(t.(nextSeq := t.nextSeq + 1, log := t.log + [Settlement(t.nextSeq, NotConnected)]))
  {
    RegisterKeepsInv(t, 0);
    SettleKeepsInv(Register(t, 0), t.nextSeq, NotConnected);
    assert t.pending + {t.nextSeq} - {t.nextSeq} == t.pending;
    assert t.timers - {t.nextSeq} == t.timers;
  }

  lemma CloseSettles(t: Table, u: Table, x: nat)
    requires Inv(t) && Step(t, SocketCloses, u) && 0 < x < t.nextSeq
    ensures SettledIn(u.log, x)
  {
    var extra := u.log[|t.log|..];
    if x in t.pending {
      assert Settlement(x, SocketClosed) in extra;
      var i :| 0 <= i < |extra| && extra[i] == Settlement(x, SocketClosed);
      assert u.log[|t.log| + i] == extra[i];
    } else {
      var i :| 0 <= i < |t.log| && t.log[i].seqNo == x;
      assert u.log[i].seqNo == x;
    }
  }

  lemma CloseKeepsInv(t: Table, u: Table)
    requires Inv(t) && Step(t, SocketCloses, u)
    ensures Inv(u)
  {
    var extra := u.log[|t.log|..];
    assert u.log == t.log + extra;
    forall x | 0 < x < u.nextSeq ensures SettledIn(u.log, x) { CloseSettles(t, u, x); }
    forall i, j | 0 <= i < j < |u.log| ensures u.log[i].seqNo != u.log[j].seqNo {
      if i < |t.log| <= j {
        assert u.log[j] == extra[j - |t.log|];
        assert SettledIn(t.log, t.log[i].seqNo);
      } else if |t.log| <= i {
        assert u.log[i] == extra[i - |t.log|] && u.log[j] == extra[j - |t.log|];
      }
    }
  }

  lemma StepKeepsInv(t: Table, e: Event, u: Table)
    requires Inv(t) && Step(t, e, u)
    ensures Inv(u) && t.log <= u.log
  {
    match e
    case Send(timeout, writeWorks) =>
      RegisterKeepsInv(t, timeout);
      RefuseKeepsInv(t);
      SettleKeepsInv(Register(t, timeout), t.nextSeq, SendFailed);
    case Response(s, success) => if s in t.pending { SettleKeepsInv(t, s, if success then Resolved else Rejected); }
    case TimerFires(s) => SettleKeepsInv(t, s, TimedOut);
    case SocketCloses => CloseKeepsInv(t, u);
  }

  /** A run: the tables between the events. */
  ghost predicate IsRun(ts: seq<Table>, es: seq<Event>) {
    && |ts| == |es| + 1
    && ts[0] == CONNECTED
    && forall i :: 0 <= i < |es| ==> Step(ts[i], es[i], ts[i + 1])
  }

  lemma {:induction false} RunKeepsInv(ts: seq<Table>, es: seq<Event>, n: nat)
    requires IsRun(ts, es) && n < |ts|
    ensures Inv(ts[n])
  {
    if n > 0 {
      RunKeepsInv(ts, es, n - 1);
      StepKeepsInv(ts[n - 1], es[n - 1], ts[n]);
    }
  }

  lemma {:induction false} LogGrows(ts: seq<Table>, es: seq<Event>, m: nat, n: nat)
    requires IsRun(ts, es) && m <= n < |ts|
    ensures ts[m].log <= ts[n].log && ts[m].nextSeq <= ts[n].nextSeq
    decreases n
  {
    if m < n {
      hide Inv;
      LogGrows(ts, es, m, n - 1);
      RunKeepsInv(ts, es, n - 1);
      StepKeepsInv(ts[n - 1], es[n - 1], ts[n]);
    }
  }

  /** In every reachable state, a command that was handed out is either still pending and has
      no settlement, or is gone from the table, has no timer, and has exactly one settlement;
      that settlement stands for the rest of the run. */
  lemma EachCommandSettlesAtMostOnce(ts: seq<Table>, es: seq<Event>, n: nat, s: nat)
    requires IsRun(ts, es) && n < |ts| && 0 < s < ts[n].nextSeq
    ensures s in ts[n].pending ==> !SettledIn(ts[n].log, s)
    ensures s !in ts[n].pending ==>
      s !in ts[n].timers &&
      exists i :: 0 <= i < |ts[n].log| && ts[n].log[i].seqNo == s &&
        (forall j :: 0 <= j < |ts[n].log| && j != i ==> ts[n].log[j].seqNo != s) &&
        (forall m :: n <= m < |ts| ==> i < |ts[m].log| && ts[m].log[i] == ts[n].log[i])
  {
    RunKeepsInv(ts, es, n);
    if s !in ts[n].pending {
      var i :| 0 <= i < |ts[n].log| && ts[n].log[i].seqNo == s;
      forall m | n <= m < |ts| ensures i < |ts[m].log| && ts[m].log[i] == ts[n].log[i] {
        LogGrows(ts, es, n, m);
      }
    }
  }

  /** A response or a timeout that comes after a command was settled does nothing: a late or
      stray response leaves the table as it is, and the timer can no longer fire. */
  lemma SettledIsFinal(t: Table, s: nat, u: Table)
    requires Inv(t) && SettledIn(t.log, s)
    ensures forall success :: Step(t, Response(s, success), u) ==> u == t
    ensures !Step(t, TimerFires(s), u)
  {}

  /** Once the socket has closed, no command is pending and no timer runs, for good. */
  lemma {:induction false} ClosedStaysEmpty(ts: seq<Table>, es: seq<Event>, k: nat, n: nat)
    requires IsRun(ts, es) && k < |es| && es[k] == SocketCloses && k < n < |ts|
    ensures !ts[n].connected && ts[n].pending == {} && ts[n].timers == {}
    decreases n
  {
    RunKeepsInv(ts, es, n);
    if n == k + 1 {
      assert Step(ts[k], es[k], ts[k + 1]);
    } else {
      ClosedStaysEmpty(ts, es, k, n - 1);
      assert Step(ts[n - 1], es[n - 1], ts[n]);
    }
  }

  // ----- What an outcome says about the run -----

  /** The event that settles a command with this outcome. */
  ghost predicate Explains(t: Table, e: Event, x: Settlement) {
    match x.outcome
    case Resolved => e == Response(x.seqNo, true) && x.seqNo in t.pending
    case Rejected => e == Response(x.seqNo, false) && x.seqNo in t.pending
    case TimedOut => e == TimerFires(x.seqNo) && x.seqNo in t.timers
    case SocketClosed => e == SocketCloses && x.seqNo in t.pending
    case SendFailed => e.Send? && !e.writeWorks && t.connected && x.seqNo == t.nextSeq
    case NotConnected => e.Send? && !t.connected && x.seqNo == t.nextSeq
  }

  /** An event adds exactly the settlements that it explains. */
  lemma SettlesExactlyWhen(t: Table, e: Event, u: Table, x: Settlement)
    requires Inv(t) && Step(t, e, u)
    ensures t.log <= u.log && (x in u.log[|t.log|..] <==> Explains(t, e, x))
  {
    match e
    case Send(timeout, writeWorks) =>
    case Response(s, success) =>
    case TimerFires(s) =>
    case SocketCloses =>
  }

  /** Over every run: a command was resolved by a response that reports success, rejected by
      one that does not, timed out by its own timer, and so on; each settlement has one event
      that explains it. */
  lemma {:induction false} OutcomeTellsCause(ts: seq<Table>, es: seq<Event>, n: nat, i: nat) returns (k: nat)
    requires IsRun(ts, es) && n < |ts| && i < |ts[n].log|
    ensures k < n && |ts[k].log| <= i && Explains(ts[k], es[k], ts[n].log[i])
    decreases n
  {
    hide Explains;
    RunKeepsInv(ts, es, n - 1);
    SettlesExactlyWhen(ts[n - 1], es[n - 1], ts[n], ts[n].log[i]);
    if i < |ts[n - 1].log| {
      k := OutcomeTellsCause(ts, es, n - 1, i);
    } else {
      k := n - 1;
      assert ts[n].log[|ts[k].log|..][i - |ts[k].log|] == ts[n].log[i];
    }
  }

  /** The command was sent at this event, with a timeout. */
  ghost predicate SentWithTimeout(ts: seq<Table>, es: seq<Event>, k: nat, s: nat) {
    k < |es| && k < |ts| && es[k].Send? && es[k].timeout > 0 && ts[k].nextSeq == s
  }

  lemma TimerStep(t: Table, e: Event, u: Table, s: nat)
    requires Inv(t) && Step(t, e, u)
    ensures s in u.timers <==>
      s in u.pending && (s in t.timers || (e.Send? && e.timeout > 0 && s == t.nextSeq))
    ensures s in u.pending ==> s in t.pending || (e.Send? && s == t.nextSeq)
  {}

  /** Over every run: a timer runs for exactly the pending commands that were sent with a
      positive timeout. */
  lemma {:induction false} TimerRunsExactlyWhen(ts: seq<Table>, es: seq<Event>, n: nat, s: nat)
    requires IsRun(ts, es) && n < |ts|
    ensures s in ts[n].timers <==> s in ts[n].pending && exists k :: 0 <= k < n && SentWithTimeout(ts, es, k, s)
    decreases n
  {
    if n > 0 {
      RunKeepsInv(ts, es, n - 1);
      TimerRunsExactlyWhen(ts, es, n - 1, s);
      TimerStep(ts[n - 1], es[n - 1], ts[n], s);
      hide Step;
      assert es[n - 1].Send? && es[n - 1].timeout > 0 && s == ts[n - 1].nextSeq ==> SentWithTimeout(ts, es, n - 1, s);
      forall k | 0 <= k < n - 1 && SentWithTimeout(ts, es, k, s) ensures s < ts[n - 1].nextSeq {
        SentBefore(ts, es, k, n - 1, s);
      }
      assert SentWithTimeout(ts, es, n - 1, s) ==> s == ts[n - 1].nextSeq;
    }
  }

  lemma SentBefore(ts: seq<Table>, es: seq<Event>, k: nat, n: nat, s: nat)
    requires IsRun(ts, es) && k < n < |ts| && SentWithTimeout(ts, es, k, s)
    ensures s < ts[n].nextSeq
  {
    assert Step(ts[k], es[k], ts[k + 1]);
    LogGrows(ts, es, k + 1, n);
  }

  // ----- ProxyClient -----

  class ProxyCommands {
    var connected: bool
    var nextSeq: nat
    // The callbacks stored under a sequence number settle the command they were made for.
    var pendingPromises: map<nat, nat>
    var timers: set<nat>
    ghost var log: seq<Settlement>

    ghost predicate Valid()
      reads this
    {
      Inv(State()) && forall s :: s in pendingPromises ==> pendingPromises[s] == s
    }

    ghost function State(): Table
      reads this
    {
      Table(connected, nextSeq, pendingPromises.Keys, timers, log)
    }

    constructor ()
      ensures Valid() && State() == CONNECTED
    {
      connected, nextSeq, pendingPromises, timers, log := true, 1, map[], {}, [];
    }

    /** `settle`: every exit of a command goes through here. */
    method SettleCommand(s: nat, outcome: Outcome)
      modifies `timers, `pendingPromises, `log
      ensures State() == Settle(old(State()), s, outcome)
      ensures pendingPromises == old(pendingPromises) - {s}
    {
      timers := timers - {s};
      pendingPromises := pendingPromises - {s};
      log := log + [Settlement(s, outcome)];
    }

    method SendControlCommand(timeout: int, writeWorks: bool) returns (s: nat)
      requires Valid()
      modifies this
      ensures Valid() && s == old(nextSeq)
      ensures Step(old(State()), Send(timeout, writeWorks), State())
      ensures s in pendingPromises <==> old(connected) && writeWorks
      ensures s in timers <==> old(connected) && writeWorks && timeout > 0
      ensures log == old(log) +
        if !old(connected) then [Settlement(s, NotConnected)]
        else if writeWorks then [] else [Settlement(s, SendFailed)]
    {
      s := nextSeq;
      nextSeq := nextSeq + 1;
      if !connected {
        log := log + [Settlement(s, NotConnected)];
      } else {
        pendingPromises := pendingPromises[s := s];
        if timeout > 0 {
          timers := timers + {s};
        }
        assert State() == Register(old(State()), timeout);
        if !writeWorks {
          SettleCommand(s, SendFailed);
        }
      }
      StepKeepsInv(old(State()), Send(timeout, writeWorks), State());
    }

    /** The response branch of `handleProxyMessageInternal`. */
    method HandleResponse(s: nat, success: bool)
      requires Valid()
      modifies this
      ensures Valid() && Step(old(State()), Response(s, success), State())
      ensures log == old(log) +
        if s !in old(pendingPromises) then [] else [Settlement(s, if success then Resolved else Rejected)]
      ensures pendingPromises == old(pendingPromises) - {s}
    {
      if s != 0 && s in pendingPromises {
        var command := pendingPromises[s];
        pendingPromises := pendingPromises - {s};
        SettleCommand(command, if success then Resolved else Rejected);
        assert State() == Settle(old(State()), s, if success then Resolved else Rejected);
      }
      StepKeepsInv(old(State()), Response(s, success), State());
    }

    method TimerCallback(s: nat)
      requires Valid() && s in timers
      modifies this
      ensures Valid() && Step(old(State()), TimerFires(s), State())
      ensures log == old(log) + [Settlement(s, TimedOut)] && pendingPromises == old(pendingPromises) - {s}
    {
      SettleCommand(s, TimedOut);
      StepKeepsInv(old(State()), TimerFires(s), State());
    }

    /** The loop of `failPendingCommands`, over the commands taken from the cleared map. */
    method RejectAll(commands: set<nat>)
      requires pendingPromises == map[]
      modifies `timers, `pendingPromises, `log
      ensures pendingPromises == map[] && timers == old(timers) - commands
      ensures ClosesAll(commands, old(log), log)
    {
      hide OncePer;
      NoneClosed();
      var rest := commands;
      ghost var done: set<nat>, extra: seq<Settlement> := {}, [];
      while rest != {}
        invariant done !! rest && done + rest == commands
        invariant pendingPromises == map[] && timers == old(timers) - done
        invariant log == old(log) + extra && OncePer(done, extra)
        decreases |rest|
      {
        var s :| s in rest;
        rest := rest - {s};
        SettleCommand(s, SocketClosed);
        CloseOneMore(done, extra, s);
        Regroup(old(log), extra, Settlement(s, SocketClosed));
        done, extra := done + {s}, extra + [Settlement(s, SocketClosed)];
      }
      assert log[|old(log)|..] == extra;
    }

    /** The `close` handler of the socket, with `failPendingCommands`. */
    method OnClose()
      requires Valid()
      modifies this
      ensures Valid() && Step(old(State()), SocketCloses, State())
      ensures pendingPromises == map[]
    {
      connected := false;
      SelfMapped(pendingPromises);
      var pending := pendingPromises.Values;
      pendingPromises := map[];
      RejectAll(pending);
      CloseKeepsInv(old(State()), State());
    }
  }

  lemma SelfMapped(m: map<nat, nat>)
    requires forall s :: s in m ==> m[s] == s
    ensures m.Values == m.Keys
  {}

  lemma NoneClosed()
    ensures OncePer({}, [])
  {}

  lemma CloseOneMore(done: set<nat>, log: seq<Settlement>, s: nat)
    requires OncePer(done, log) && s !in done
    ensures OncePer(done + {s}, log + [Settlement(s, SocketClosed)])
  {}

  lemma Regroup(a: seq<Settlement>, b: seq<Settlement>, c: Settlement)
    ensures (a + b) + [c] == a + (b + [c])
  {}
}
