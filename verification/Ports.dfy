/** The port allocator: scanning for free ports, and holding them with listening sockets. */
module Ports {
  import opened Options

  const MAX_PORT := 65535
  const EPHEMERAL_PORT_START := 32768
  const SCANNER_BASE := 2500

  /** A listening socket: binding is exclusive per port and host. */
  datatype Socket = Socket(port: int, host: int)

  /** The sockets that hold a port. */
  ghost function SocketsOf(port: int, hosts: seq<int>): set<Socket> {
    set i | 0 <= i < |hosts| :: Socket(port, hosts[i])
  }

  /** Everything that decides whether a port can be claimed. */
  datatype Machine = Machine(hosts: seq<int>, bound: set<Socket>, avoid: set<int>)

  ghost predicate Claimable(m: Machine, port: int) {
    port !in m.avoid && SocketsOf(port, m.hosts) !! m.bound
  }

  // ----- First fit -----

  function FirstPort(preferred: int): int {
    var p := if preferred == 0 then SCANNER_BASE else preferred;
    var atLeast := if p < 1 then 1 else p;
    if atLeast > MAX_PORT then MAX_PORT else atLeast
  }

  function Ceiling(start: int): int {
    if start >= EPHEMERAL_PORT_START then MAX_PORT else EPHEMERAL_PORT_START - 1
  }

  ghost predicate IsWindow(m: Machine, first: int, count: nat) {
    forall p :: first <= p < first + count ==> Claimable(m, p)
  }

  /** The claimable ports from `lo` up to but not including `hi`, lowest first. */
  ghost function ClaimablePorts(m: Machine, lo: int, hi: int): seq<int>
    decreases hi - lo
  {
    if hi <= lo then []
    else ClaimablePorts(m, lo, hi - 1) + (if Claimable(m, hi - 1) then [hi - 1] else [])
  }

  function Consecutive(first: int, count: nat): seq<int> {
    seq(count, i => first + i)
  }

  /** What first fit promises: the lowest window, or the lowest claimable ports. */
  ghost predicate IsFirstFit(m: Machine, start: int, ceiling: int, count: nat, consecutive: bool, ports: seq<int>) {
    if consecutive then
      exists first :: start <= first <= ceiling + 1 - count && ports == Consecutive(first, count) &&
        IsWindow(m, first, count) && forall b :: start <= b < first ==> !IsWindow(m, b, count)
    else
      count <= |ClaimablePorts(m, start, ceiling + 1)| && ports == ClaimablePorts(m, start, ceiling + 1)[..count]
  }

  ghost predicate NoFit(m: Machine, start: int, ceiling: int, count: nat, consecutive: bool) {
    if consecutive then forall b :: start <= b <= ceiling + 1 - count ==> !IsWindow(m, b, count)
    else |ClaimablePorts(m, start, ceiling + 1)| < count
  }

  ghost predicate FitsFrom(m: Machine, start: int, ceiling: int, count: nat, consecutive: bool, ports: Option<seq<int>>)
  {
    if ports.Some? then IsFirstFit(m, start, ceiling, count, consecutive, ports.value)
    else NoFit(m, start, ceiling, count, consecutive)
  }

  /** The scan starts at the port asked for, at 2500 when that is zero, and at the nearest port
      when there is no such port; started below the ephemeral ports it stays below them. */
  ghost predicate FoundFrom(m: Machine, preferred: int, count: nat, consecutive: bool, ports: Option<seq<int>>) {
    && (1 <= preferred < 32768 ==> FitsFrom(m, preferred, 32767, count, consecutive, ports))
    && (32768 <= preferred <= 65535 ==> FitsFrom(m, preferred, 65535, count, consecutive, ports))
    && (preferred == 0 ==> FitsFrom(m, 2500, 32767, count, consecutive, ports))
    && (preferred < 0 ==> FitsFrom(m, 1, 32767, count, consecutive, ports))
    && (preferred > 65535 ==> FitsFrom(m, 65535, 65535, count, consecutive, ports))
  }

  lemma ScanIsFoundFrom(m: Machine, preferred: int, count: nat, consecutive: bool, ports: Option<seq<int>>)
    requires FitsFrom(m, FirstPort(preferred), Ceiling(FirstPort(preferred)), count, consecutive, ports)
    ensures FoundFrom(m, preferred, count, consecutive, ports)
  {
    hide FitsFrom;
  }

  lemma ScanEnds(m: Machine, preferred: int, count: nat, consecutive: bool, ports: Option<seq<int>>)
    requires FitsFrom(m, FirstPort(preferred), Ceiling(FirstPort(preferred)), count, consecutive, ports) && count > 0
    ensures FoundFrom(m, preferred, count, consecutive, ports)
    ensures 1 <= preferred <= 65535 ==> FirstPort(preferred) == preferred
    ensures 1 <= preferred < 32768 ==> Ceiling(FirstPort(preferred)) == 32767
    ensures 1 <= preferred <= 65535 ==>
      && (ports.Some? ==> forall p <- ports.value :: preferred <= p)
      && (count == 1 && Claimable(m, preferred) ==> ports == Some([preferred]))
  {
    hide FoundFrom, FitsFrom;
    ScanIsFoundFrom(m, preferred, count, consecutive, ports);
    if 1 <= preferred <= 65535 { PreferredPortIsTaken(m, preferred, count, consecutive, ports); }
  }

  /** A port that is asked for and can be claimed is the first of those found, and no port below
      it is found. */
  lemma PreferredPortIsTaken(m: Machine, preferred: int, count: nat, consecutive: bool, ports: Option<seq<int>>)
    requires FoundFrom(m, preferred, count, consecutive, ports) && count > 0 && 1 <= preferred <= 65535
    ensures ports.Some? ==> forall p <- ports.value :: preferred <= p <= if preferred < 32768 then 32767 else 65535
    ensures count == 1 && Claimable(m, preferred) ==> ports == Some([preferred])
    ensures ports.Some? && !consecutive && Claimable(m, preferred) ==> ports.value[0] == preferred
  {
    var ceiling := if preferred < 32768 then 32767 else 65535;
    assert FitsFrom(m, preferred, ceiling, count, consecutive, ports);
    if ports.Some? { FirstFitIsClaimable(m, preferred, ceiling, count, consecutive, ports.value); }
    if Claimable(m, preferred) { LowestFits(m, preferred, ceiling, count, consecutive, ports); }
  }

  lemma LowestFits(m: Machine, start: int, ceiling: int, count: nat, consecutive: bool, ports: Option<seq<int>>)
    requires FitsFrom(m, start, ceiling, count, consecutive, ports)
    requires start <= ceiling && count > 0 && Claimable(m, start)
    ensures count == 1 ==> ports == Some([start])
    ensures ports.Some? && !consecutive ==> ports.value[0] == start
  {
    hide Claimable;
    if !consecutive {
      LowestIsFirst(m, start, ceiling + 1);
      assert ClaimablePorts(m, start, ceiling + 1)[..1] == [start];
    } else if count == 1 {
      assert IsWindow(m, start, 1);
      assert Consecutive(start, 1) == [start];
    }
  }

  lemma LowestIsFirst(m: Machine, lo: int, hi: int)
    requires lo < hi && Claimable(m, lo)
    ensures ClaimablePorts(m, lo, hi) != [] && ClaimablePorts(m, lo, hi)[0] == lo
  {
    hide Claimable;
    ClaimablePortsSplit(m, lo, lo + 1, hi);
    assert ClaimablePorts(m, lo, lo) == [];
    assert ClaimablePorts(m, lo, lo + 1) == [lo];
  }

  lemma {:induction false} ClaimablePortsSplit(m: Machine, lo: int, mid: int, hi: int)
    requires lo <= mid <= hi
    ensures ClaimablePorts(m, lo, hi) == ClaimablePorts(m, lo, mid) + ClaimablePorts(m, mid, hi)
    decreases hi - mid
  {
    if mid < hi {
      ClaimablePortsSplit(m, lo, mid, hi - 1);
    }
  }

  ghost predicate Increasing(ps: seq<int>) {
    forall i, j :: 0 <= i < j < |ps| ==> ps[i] < ps[j]
  }

  lemma {:induction false} ClaimablePortsAre(m: Machine, lo: int, hi: int)
    ensures forall p :: p in ClaimablePorts(m, lo, hi) <==> lo <= p < hi && Claimable(m, p)
    ensures Increasing(ClaimablePorts(m, lo, hi))
    decreases hi - lo
  {
    if lo < hi {
      ClaimablePortsAre(m, lo, hi - 1);
      var ps, qs := ClaimablePorts(m, lo, hi), ClaimablePorts(m, lo, hi - 1);
      forall p ensures p in ps <==> p in qs || (p == hi - 1 && Claimable(m, p)) {
        assert Claimable(m, hi - 1) ==> ps[|qs|] == hi - 1;
      }
      forall i, j | 0 <= i < j < |ps| ensures ps[i] < ps[j] {
        assert ps[i] == qs[i] && qs[i] in qs;
        if j < |qs| { assert ps[j] == qs[j]; } else { assert ps[j] == hi - 1; }
      }
    }
  }

  /** First fit and failure exclude each other, and first fit names one list. */
  lemma FirstFitIsUnique(m: Machine, start: int, ceiling: int, count: nat, consecutive: bool,
                         ps: seq<int>, qs: seq<int>)
    requires IsFirstFit(m, start, ceiling, count, consecutive, ps)
    ensures !NoFit(m, start, ceiling, count, consecutive)
    ensures IsFirstFit(m, start, ceiling, count, consecutive, qs) ==> ps == qs
  {}

  ghost function PortsOf(lock: Option<PortRangeLock>): Option<seq<int>> {
    if lock.Some? then Some(lock.value.ports) else None
  }

  // ----- The scanner -----

  class PortRangeLock {
    var released: bool
    var servers: set<Socket>
    const ports: seq<int>

    constructor (servers: set<Socket>, ports: seq<int>)
      ensures !released && this.servers == servers && this.ports == ports
    {
      released := false;
      this.servers := servers;
      this.ports := ports;
    }
  }

  class TcpPortScanner {
    // The addresses a claim has to hold, and what other programs have bound.
    const hosts: seq<int>
    const others: set<Socket>
    // The listening sockets of this process.
    var open: set<Socket>
    var avoidPorts: set<int>
    var heldLocks: seq<PortRangeLock>
    // Every port a claim was attempted on, and every port ever handed out.
    ghost var probed: seq<int>
    ghost var issued: seq<int>

    ghost function MachineFor(avoid: set<int>): Machine
      reads this
    {
      Machine(hosts, others + open, avoid + avoidPorts)
    }

    /** The loopback and the wildcard address, or the wildcard address alone. */
    ghost predicate DistinctHosts() {
      forall i, j :: 0 <= i < j < |hosts| ==> hosts[i] != hosts[j]
    }

    constructor (hosts: seq<int>, others: set<Socket>)
      requires forall i, j :: 0 <= i < j < |hosts| ==> hosts[i] != hosts[j]
      ensures DistinctHosts()
      ensures open == {} && heldLocks == [] && avoidPorts == {} && issued == [] && probed == []
      ensures this.hosts == hosts && this.others == others
    {
      this.hosts, this.others := hosts, others;
      open, avoidPorts, heldLocks, probed, issued := {}, {}, [], [], [];
    }

    method TryListen(port: int, host: int) returns (ok: bool)
      modifies `open
      ensures ok <==> Socket(port, host) !in others + old(open)
      ensures open == if ok then old(open) + {Socket(port, host)} else old(open)
    {
      ok := Socket(port, host) !in others && Socket(port, host) !in open;
      if ok {
        open := open + {Socket(port, host)};
      }
    }

    method CloseServers(servers: set<Socket>)
      modifies `open
      ensures open == old(open) - servers
    {
      open := open - servers;
    }

    /** `claimPort`: all hosts or nothing. */
    method ClaimPort(port: int, avoid: set<int>) returns (claimed: Option<set<Socket>>)
      requires DistinctHosts()
      modifies `open, `probed
      ensures probed == old(probed) + [port]
      ensures claimed.Some? <==> Claimable(old(MachineFor(avoid)), port)
      ensures claimed.Some? ==>
        claimed.value == SocketsOf(port, hosts) && claimed.value !! old(open) && open == old(open) + claimed.value
      ensures claimed.None? ==> open == old(open)
      ensures claimed.Some? <==>
        port !in avoid && port !in avoidPorts && forall h <- hosts :: Socket(port, h) !in others + old(open)
      ensures claimed.Some? ==> forall h <- hosts :: Socket(port, h) in open
    {
      probed := probed + [port];
      if port in avoid || port in avoidPorts {
        return None;
      }
      var servers: set<Socket> := {};
      var i := 0;
      while i < |hosts|
        invariant 0 <= i <= |hosts|
        invariant servers == SocketsOf(port, hosts[..i])
        invariant servers !! old(open) && open == old(open) + servers
        invariant servers !! others
        invariant probed == old(probed) + [port]
      {
        NextHost(port, hosts, i);
        var ok := TryListen(port, hosts[i]);
        if !ok {
          CloseServers(servers);
          assert Socket(port, hosts[i]) !in servers;
          assert Socket(port, hosts[i]) in SocketsOf(port, hosts);
          return None;
        }
        servers := servers + {Socket(port, hosts[i])};
        i := i + 1;
      }
      assert hosts[..i] == hosts;
      return Some(servers);
    }

    /** `findAvailablePortRange`; `None` stands for the error it throws. A single upward pass:
        the ports tried are `start`, `start + 1`, and so on, each once. */
    method FindAvailablePortRange(count: int, preferredStart: int, consecutive: bool, avoid: set<int>)
      returns (lock: Option<PortRangeLock>)
      requires DistinctHosts()
      modifies `open, `probed
      ensures lock.Some? ==>
        && fresh(lock.value) && !lock.value.released
        && lock.value.servers == HeldBy(lock.value.ports, hosts)
        && lock.value.servers !! old(open) && open == old(open) + lock.value.servers
      ensures lock.None? ==> open == old(open)
      ensures count <= 0 ==> lock.Some? && lock.value.ports == [] && probed == old(probed)
      ensures count > 0 ==>
        var m, start := old(MachineFor(avoid)), FirstPort(preferredStart);
        && old(probed) <= probed
        && probed == old(probed) + Consecutive(start, |probed| - |old(probed)|)
        && FoundFrom(m, preferredStart, count, consecutive, PortsOf(lock))
      ensures count > 0 && 1 <= preferredStart <= 65535 ==>
        && (lock.Some? ==> forall p <- lock.value.ports :: p >= preferredStart)
        && |probed| > |old(probed)| && probed[|old(probed)|] == preferredStart
        && (preferredStart < 32768 ==> forall i :: |old(probed)| <= i < |probed| ==> probed[i] < 32768)
        && (count == 1 && Claimable(old(MachineFor(avoid)), preferredStart) ==>
              lock.Some? && lock.value.ports == [preferredStart])
    {
      if count <= 0 {
        var l := new PortRangeLock({}, []);
        return Some(l);
      }
      hide Claimable, FitsFrom, FoundFrom;
      var start := FirstPort(preferredStart);
      lock := Scan(count, start, Ceiling(start), consecutive, avoid);
      ScanEnds(old(MachineFor(avoid)), preferredStart, count, consecutive, PortsOf(lock));
      StretchIs(old(probed), probed, start);
    }

    method Scan(count: nat, start: int, ceiling: int, consecutive: bool, avoid: set<int>)
      returns (lock: Option<PortRangeLock>)
      requires DistinctHosts() && count > 0 && start <= ceiling
      modifies `open, `probed
      ensures lock.Some? ==>
        && fresh(lock.value) && !lock.value.released
        && lock.value.servers == HeldBy(lock.value.ports, hosts)
        && lock.value.servers !! old(open) && open == old(open) + lock.value.servers
      ensures lock.None? ==> open == old(open)
      ensures FitsFrom(old(MachineFor(avoid)), start, ceiling, count, consecutive, PortsOf(lock))
      ensures old(probed) < probed && |probed| - |old(probed)| <= ceiling + 1 - start
      ensures probed == old(probed) + Consecutive(start, |probed| - |old(probed)|)
    {
      var servers: set<Socket>, ports: seq<int> := {}, [];
      var port := start;
      ghost var m := MachineFor(avoid);
      while port <= ceiling
        invariant start <= port <= ceiling + 1
        invariant |ports| < count
        invariant servers !! old(open) && open == old(open) + servers
        invariant Holds(servers, ports, hosts, port)
        invariant ScanState(m, start, port, count, consecutive, ports)
        invariant probed == old(probed) + Consecutive(start, port - start)
      {
        servers, ports := ScanPort(port, count, consecutive, avoid, servers, ports, m, start);
        OneMorePort(old(probed), start, port);
        if |ports| == count {
          ScanSucceeds(m, start, ceiling, port, count, consecutive, ports);
          var l := new PortRangeLock(servers, ports);
          return Some(l);
        }
        port := port + 1;
      }
      CloseServers(servers);
      return None;
    }

    /** One turn of the scan: keep the port, or give up the run it breaks. */
    method ScanPort(port: int, count: int, consecutive: bool, avoid: set<int>, servers: set<Socket>, ports: seq<int>,
                    ghost m: Machine, ghost start: int)
      returns (newServers: set<Socket>, newPorts: seq<int>)
      requires DistinctHosts() && start <= port && |ports| < count && servers <= open
      requires m == MachineFor(avoid).(bound := m.bound) && others + open == m.bound + servers
      requires Holds(servers, ports, hosts, port) && ScanState(m, start, port, count, consecutive, ports)
      modifies `open, `probed
      ensures probed == old(probed) + [port]
      ensures newServers - servers !! old(open) && open == old(open) - servers + newServers
      ensures |newPorts| <= count && Holds(newServers, newPorts, hosts, port + 1)
      ensures ScanState(m, start, port + 1, count, consecutive, newPorts)
    {
      newServers, newPorts := servers, ports;
      UnaffectedByClaims(m, MachineFor(avoid), servers, port);
      var claimed := ClaimPort(port, avoid);
      if claimed.Some? {
        ScanTakes(m, start, port, count, consecutive, ports);
        HeldByOneMore(ports, port, hosts);
        newServers := servers + claimed.value;
        newPorts := ports + [port];
      } else {
        ScanSkips(m, start, port, count, consecutive, ports);
        if consecutive && |ports| > 0 {
          CloseServers(servers);
          newServers := {};
          newPorts := [];
        }
      }
    }

    // ----- Who owns the open sockets -----

    /** The open sockets are exactly those of the held locks, none of which is released; and
        no port was handed out twice. */
    ghost predicate Valid()
      reads this, heldLocks
    {
      DistinctHosts() && LocksOwn(heldLocks, open) && NoRepeats(issued, avoidPorts)
    }

    /** `PortRangeLock.release` */
    method ReleaseLock(lock: PortRangeLock)
      modifies `open, lock
      ensures lock.released
      ensures old(lock.released) ==> open == old(open) && lock.servers == old(lock.servers)
      ensures !old(lock.released) ==> open == old(open) - old(lock.servers) && lock.servers == {}
    {
      if lock.released {
        return;
      }
      lock.released := true;
      var servers := lock.servers;
      lock.servers := {};
      CloseServers(servers);
    }

    method AddLock(lock: PortRangeLock)
      requires LocksOwn(heldLocks, open - lock.servers) && lock.servers <= open
      requires lock !in heldLocks && !lock.released
      modifies `heldLocks
      ensures heldLocks == old(heldLocks) + [lock] && LocksOwn(heldLocks, open)
    {
      OwnedByOneMore(heldLocks, lock);
      OwnersAreDisjoint(heldLocks, open - lock.servers);
      heldLocks := heldLocks + [lock];
    }

    /** `heldLocks.splice(i, 1)`, and release of the lock. */
    method DropLock(i: nat)
      requires Valid() && i < |heldLocks|
      modifies `heldLocks, `open, heldLocks[i]
      ensures Valid() && heldLocks == old(heldLocks)[..i] + old(heldLocks)[i + 1..]
    {
      var locks := heldLocks;
      OwnedWithout(locks, i);
      heldLocks := heldLocks[..i] + heldLocks[i + 1..];
      assert Owned(heldLocks) == open - locks[i].servers;
      ReleaseLock(locks[i]);
      assert forall l :: l in heldLocks ==> l in locks && l != locks[i];
      assert Owned(heldLocks) == open;
    }

    method FindFreePorts(numPorts: int, start: Option<int>, consecutive: bool, avoid: set<int>)
      returns (ports: Option<seq<int>>)
      requires Valid()
      modifies this
      ensures Valid()
      ensures ports.None? ==>
        heldLocks == old(heldLocks) && open == old(open) && avoidPorts == old(avoidPorts) && issued == old(issued)
      ensures ports.Some? ==>
        && avoidPorts == old(avoidPorts) + (set p | p in ports.value)
        && issued == old(issued) + ports.value
        && |heldLocks| == |old(heldLocks)| + 1 && old(heldLocks) <= heldLocks
        && fresh(heldLocks[|old(heldLocks)|]) && heldLocks[|old(heldLocks)|].ports == ports.value
      ensures numPorts > 0 ==>
        FoundFrom(old(MachineFor(avoid)), if start.Some? then start.value else 2500, numPorts, consecutive, ports)
      ensures numPorts > 0 && start.Some? && 1 <= start.value <= 65535 ==>
        && (ports.Some? ==> forall p <- ports.value :: p >= start.value)
        && (numPorts == 1 && Claimable(old(MachineFor(avoid)), start.value) ==> ports == Some([start.value]))
      ensures ports.Some? ==> forall p <- ports.value ::
        p !in avoid && p !in old(avoidPorts) && forall h <- hosts :: Socket(p, h) !in others + old(open)
    {
      hide NoRepeats, NoFit, FoundFrom, Claimable, Increasing;
      var from := if start.Some? then start.value else SCANNER_BASE;
      var lock := FindAvailablePortRange(numPorts, from, consecutive, avoid);
      if lock.None? {
        return None;
      }
      ports := Some(lock.value.ports);
      if numPorts > 0 {
        FoundIsClaimable(old(MachineFor(avoid)), from, numPorts, consecutive, ports.value);
        ClaimableAreFree(old(MachineFor(avoid)), ports.value);
      }
      AddLock(lock.value);
      IssueMore(issued, avoidPorts, ports.value);
      avoidPorts := avoidPorts + (set p | p in ports.value);
      issued := issued + ports.value;
    }

    method ReleaseHeldPorts()
      requires Valid()
      modifies this, heldLocks
      ensures Valid() && heldLocks == [] && open == {}
      ensures avoidPorts == old(avoidPorts) && issued == old(issued)
      ensures forall l :: l in old(heldLocks) ==> l.released
    {
      var locks := heldLocks;
      heldLocks := [];
      var i := 0;
      while i < |locks|
        modifies `open, locks
        invariant 0 <= i <= |locks|
        invariant forall j :: 0 <= j < i ==> locks[j].released
        invariant forall j :: i <= j < |locks| ==> !locks[j].released && locks[j].servers == old(locks[j].servers)
        invariant open == Owned(locks[i..])
      {
        OwnedSplit(locks, i);
        ReleaseLock(locks[i]);
        i := i + 1;
      }
    }

    /** `unlockPortsIfFree`: gives up exactly the locks all of whose ports are named. */
    method UnlockPortsIfFree(ports: seq<int>)
      requires Valid()
      modifies this, heldLocks
      ensures Valid() && heldLocks == Unnamed(old(heldLocks), ports)
      ensures avoidPorts == old(avoidPorts) && issued == old(issued)
    {
      hide LocksOwn, NoRepeats, Unnamed;
      NoneUnnamed(ports);
      ghost var locks := heldLocks;
      var i := |heldLocks|;
      assert locks[i..] == [] && locks[..i] == locks;
      while i > 0
        invariant Valid()
        invariant 0 <= i <= |heldLocks| && i <= |old(heldLocks)|
        invariant heldLocks == locks[..i] + Unnamed(locks[i..], ports)
        invariant avoidPorts == old(avoidPorts) && issued == old(issued)
        invariant forall l :: l in heldLocks ==> l in locks
      {
        i := i - 1;
        SpliceStep(locks, i, ports);
        var lock := heldLocks[i];
        if forall p :: p in lock.ports ==> p in ports {
          DropLock(i);
        }
      }
    }
  }

  ghost function Owned(locks: seq<PortRangeLock>): set<Socket>
    reads locks
  {
    set l, s | l in locks && s in l.servers :: s
  }

  /** The locks with a port that is not among `ports`, in their order. */
  function Unnamed(locks: seq<PortRangeLock>, ports: seq<int>): seq<PortRangeLock> {
    if locks == [] then []
    else
      (if forall p :: p in locks[0].ports ==> p in ports then [] else [locks[0]]) + Unnamed(locks[1..], ports)
  }

  /** A lock stays exactly when it holds a port that is not named. */
  lemma {:induction false} UnnamedKeeps(locks: seq<PortRangeLock>, ports: seq<int>, l: PortRangeLock)
    ensures l in Unnamed(locks, ports) <==> l in locks && exists p :: p in l.ports && p !in ports
  {
    if locks != [] {
      UnnamedKeeps(locks[1..], ports, l);
      assert l in locks <==> l == locks[0] || l in locks[1..];
    }
  }

  lemma NoneUnnamed(ports: seq<int>)
    ensures Unnamed([], ports) == []
  {}

  /** Looking at one more lock from the back, and splicing it out when all its ports are named. */
  lemma SpliceStep(locks: seq<PortRangeLock>, i: nat, ports: seq<int>)
    requires i < |locks|
    ensures var now := locks[..i + 1] + Unnamed(locks[i + 1..], ports);
      && now[i] == locks[i]
      && locks[..i] + Unnamed(locks[i..], ports)
         == if forall p :: p in locks[i].ports ==> p in ports then now[..i] + now[i + 1..] else now
  {
    var rest := Unnamed(locks[i + 1..], ports);
    assert locks[i..][1..] == locks[i + 1..] && locks[i..][0] == locks[i];
    assert Unnamed(locks[i..], ports)
           == (if forall p :: p in locks[i].ports ==> p in ports then [] else [locks[i]]) + rest;
    hide Unnamed;
    assert locks[..i + 1] == locks[..i] + [locks[i]];
    Splice(locks[..i], locks[i], rest);
  }

  lemma Splice<T>(front: seq<T>, x: T, rest: seq<T>)
    ensures var all := front + [x] + rest;
      all[|front|] == x && all[..|front|] + all[|front| + 1..] == front + ([] + rest) && all == front + ([x] + rest)
  {
    var all := front + [x] + rest;
    assert all[..|front|] == front && all[|front| + 1..] == rest && [] + rest == rest;
  }

  ghost predicate LocksOwn(locks: seq<PortRangeLock>, open: set<Socket>)
    reads locks
  {
    && (forall i, j :: 0 <= i < j < |locks| ==> locks[i] != locks[j] && locks[i].servers !! locks[j].servers)
    && (forall i :: 0 <= i < |locks| ==> !locks[i].released)
    && open == Owned(locks)
  }

  ghost predicate NoRepeats(issued: seq<int>, avoid: set<int>) {
    && (forall i, j :: 0 <= i < j < |issued| ==> issued[i] != issued[j])
    && (forall i :: 0 <= i < |issued| ==> issued[i] in avoid)
  }

  lemma IssueMore(issued: seq<int>, avoid: set<int>, ports: seq<int>)
    requires NoRepeats(issued, avoid)
    requires forall i :: 0 <= i < |ports| ==> ports[i] !in avoid
    requires Increasing(ports)
    ensures NoRepeats(issued + ports, avoid + (set p | p in ports))
  {}

  lemma OwnersAreDisjoint(locks: seq<PortRangeLock>, open: set<Socket>)
    requires LocksOwn(locks, open)
    ensures forall i :: 0 <= i < |locks| ==> locks[i].servers <= open
  {}

  lemma OwnedWithout(locks: seq<PortRangeLock>, i: nat)
    requires i < |locks| && LocksOwn(locks, Owned(locks))
    ensures Owned(locks[..i] + locks[i + 1..]) == Owned(locks) - locks[i].servers
  {}

  lemma OwnedByOneMore(locks: seq<PortRangeLock>, lock: PortRangeLock)
    ensures Owned(locks + [lock]) == Owned(locks) + lock.servers
  {}

  lemma OwnedSplit(locks: seq<PortRangeLock>, i: nat)
    requires i < |locks|
    ensures Owned(locks[i..]) == locks[i].servers + Owned(locks[i + 1..])
  {}

  lemma FirstFitIsClaimable(m: Machine, start: int, ceiling: int, count: nat, consecutive: bool, ports: seq<int>)
    requires IsFirstFit(m, start, ceiling, count, consecutive, ports)
    ensures |ports| == count
    ensures forall i :: 0 <= i < |ports| ==> start <= ports[i] <= ceiling && Claimable(m, ports[i])
    ensures Increasing(ports)
  {
    ClaimablePortsAre(m, start, ceiling + 1);
    if consecutive {
      var first :| start <= first <= ceiling + 1 - count && ports == Consecutive(first, count) &&
        IsWindow(m, first, count);
      forall i | 0 <= i < |ports| ensures start <= ports[i] <= ceiling && Claimable(m, ports[i]) {
        assert ports[i] == first + i;
      }
    } else {
      var all := ClaimablePorts(m, start, ceiling + 1);
      forall i | 0 <= i < |ports| ensures start <= ports[i] <= ceiling && Claimable(m, ports[i]) {
        assert ports[i] == all[i] && all[i] in all;
      }
      forall i, j | 0 <= i < j < |ports| ensures ports[i] < ports[j] {
        assert ports[i] == all[i] && ports[j] == all[j];
      }
    }
  }

  ghost predicate Holds(servers: set<Socket>, ports: seq<int>, hosts: seq<int>, below: int) {
    servers == HeldBy(ports, hosts) && forall i :: 0 <= i < |ports| ==> ports[i] < below
  }

  lemma StretchIs(before: seq<int>, after: seq<int>, start: int)
    requires before < after && after == before + Consecutive(start, |after| - |before|)
    ensures forall i :: |before| <= i < |after| ==> after[i] == start + i - |before|
  {}

  lemma OneMorePort(before: seq<int>, start: int, port: int)
    requires start <= port
    ensures before + Consecutive(start, port - start) + [port] == before + Consecutive(start, port + 1 - start)
  {}

  lemma ClaimableAreFree(m: Machine, ports: seq<int>)
    requires forall i :: 0 <= i < |ports| ==> Claimable(m, ports[i])
    ensures forall p <- ports :: p !in m.avoid && forall h <- m.hosts :: Socket(p, h) !in m.bound
  {
    forall p <- ports, h <- m.hosts ensures Socket(p, h) in SocketsOf(p, m.hosts) {}
  }

  lemma FoundIsClaimable(m: Machine, preferred: int, count: nat, consecutive: bool, ports: seq<int>)
    requires FoundFrom(m, preferred, count, consecutive, Some(ports))
    ensures |ports| == count && Increasing(ports) && forall i :: 0 <= i < |ports| ==> Claimable(m, ports[i])
  {
    var start := if 1 <= preferred <= 65535 then preferred
                 else if preferred == 0 then 2500 else if preferred < 0 then 1 else 65535;
    var ceiling := if start < 32768 then 32767 else 65535;
    assert FitsFrom(m, start, ceiling, count, consecutive, Some(ports));
    FirstFitIsClaimable(m, start, ceiling, count, consecutive, ports);
  }

  /** The sockets that hold a list of ports. */
  ghost function HeldBy(ports: seq<int>, hosts: seq<int>): set<Socket> {
    set i, j | 0 <= i < |ports| && 0 <= j < |hosts| :: Socket(ports[i], hosts[j])
  }

  lemma HeldByOneMore(ports: seq<int>, port: int, hosts: seq<int>)
    ensures HeldBy(ports + [port], hosts) == HeldBy(ports, hosts) + SocketsOf(port, hosts)
  {
    var all := ports + [port];
    forall s | s in HeldBy(ports, hosts) + SocketsOf(port, hosts) ensures s in HeldBy(all, hosts) {
      if s in HeldBy(ports, hosts) {
        var i, j :| 0 <= i < |ports| && 0 <= j < |hosts| && s == Socket(ports[i], hosts[j]);
        assert s == Socket(all[i], hosts[j]);
      } else {
        var j :| 0 <= j < |hosts| && s == Socket(port, hosts[j]);
        assert s == Socket(all[|ports|], hosts[j]);
      }
    }
  }

  /** What the scanner has established when it is about to try `port`. */
  ghost predicate ScanState(m: Machine, start: int, port: int, count: nat, consecutive: bool, ports: seq<int>) {
    if consecutive then
      var first := port - |ports|;
      && start <= first && ports == Consecutive(first, |ports|) && IsWindow(m, first, |ports|)
      && forall b :: start <= b < first ==> !IsWindow(m, b, count)
    else
      ports == ClaimablePorts(m, start, port)
  }

  lemma UnaffectedByClaims(m: Machine, now: Machine, servers: set<Socket>, port: int)
    requires now == m.(bound := m.bound + servers) && forall s :: s in servers ==> s.port != port
    ensures Claimable(now, port) <==> Claimable(m, port)
  {}

  lemma ScanTakes(m: Machine, start: int, port: int, count: nat, consecutive: bool, ports: seq<int>)
    requires ScanState(m, start, port, count, consecutive, ports) && start <= port && Claimable(m, port)
    ensures ScanState(m, start, port + 1, count, consecutive, ports + [port])
  {}

  lemma ScanSkips(m: Machine, start: int, port: int, count: nat, consecutive: bool, ports: seq<int>)
    requires ScanState(m, start, port, count, consecutive, ports) && start <= port && !Claimable(m, port)
    requires |ports| < count
    ensures ScanState(m, start, port + 1, count, consecutive, if consecutive then [] else ports)
  {}

  lemma ScanSucceeds(m: Machine, start: int, ceiling: int, port: int, count: nat, consecutive: bool, ports: seq<int>)
    requires ScanState(m, start, port + 1, count, consecutive, ports) && |ports| == count
    requires start <= port <= ceiling
    ensures IsFirstFit(m, start, ceiling, count, consecutive, ports)
  {
    if consecutive {
      assert ports == Consecutive(port + 1 - count, count);
    } else {
      ClaimablePortsSplit(m, start, port + 1, ceiling + 1);
    }
  }

  lemma NextHost(port: int, hosts: seq<int>, i: nat)
    requires i < |hosts|
    ensures SocketsOf(port, hosts[..i + 1]) == SocketsOf(port, hosts[..i]) + {Socket(port, hosts[i])}
    ensures SocketsOf(port, hosts[..i]) <= SocketsOf(port, hosts)
  {}
}
