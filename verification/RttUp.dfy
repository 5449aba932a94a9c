/** Draining an RTT up-channel while the firmware keeps writing to it. */
module RttUp {
  import opened Options
  import opened Text
  import opened RttRing

  const CHUNK := 512

  ghost function Sum(ns: seq<nat>): nat {
    if ns == [] then 0 else Sum(ns[..|ns| - 1]) + ns[|ns| - 1]
  }

  /** `length` bytes were asked for in reads of at most 512 bytes each. */
  ghost predicate ReadInParts(before: seq<nat>, after: seq<nat>, length: nat) {
    && before <= after && Sum(after) == Sum(before) + length
    && forall i :: |before| <= i < |after| ==> 0 < after[i] <= 512
  }

  lemma OneMoreRead(before: seq<nat>, ns: seq<nat>, length: nat, n: nat)
    requires ReadInParts(before, ns, length) && 0 < n <= 512
    ensures ReadInParts(before, ns + [n], length + n)
  {
    assert (ns + [n])[..|ns|] == ns;
  }

  lemma NothingRead(ns: seq<nat>)
    ensures ReadInParts(ns, ns, 0)
  {}

  lemma PartsAdd(a: seq<nat>, b: seq<nat>, c: seq<nat>, m: nat, n: nat)
    requires ReadInParts(a, b, m) && ReadInParts(b, c, n)
    ensures ReadInParts(a, c, m + n)
  {
    hide Sum;
  }

  function Next(schedule: seq<seq<FirmwareStep>>): seq<FirmwareStep> {
    if schedule == [] then [] else schedule[0]
  }

  /** Number of published bytes the host has not released. */
  function Unread(t: Source): nat
    requires ValidSource(t)
  {
    Distance(|t.mem|, t.rd, t.wr)
  }

  /** One up-channel: the target with its firmware, and the host's transport. Every access
      to the target waits for GDB, so before each one the firmware may take any number of
      steps; `schedule` holds what it will do, and no method may look at it. */
  class UpChannel {
    const bufAddr: nat
    var target: Source
    var schedule: seq<seq<FirmwareStep>>
    var transported: Str
    // The lengths asked for, one for each read of the ring.
    ghost var asked: seq<nat>

    /** Between accesses the transport has received exactly the released bytes. */
    ghost predicate Valid()
      reads this
    {
      ValidSource(target) && transported == Released(target)
    }

    constructor (bufAddr: nat, target: Source, schedule: seq<seq<FirmwareStep>>)
      requires ValidSource(target)
      ensures Valid() && this.bufAddr == bufAddr && this.target == target
    {
      this.bufAddr := bufAddr;
      this.target := target;
      this.schedule := schedule;
      this.transported := target.stored[..|target.stored| - Distance(|target.mem|, target.rd, target.st)];
    }

    method FirmwareRuns()
      requires ValidSource(target)
      modifies `target, `schedule
      ensures target == FirmwareRun(old(target), Next(old(schedule)))
    {
      if schedule != [] {
        target := FirmwareRun(target, schedule[0]);
        schedule := schedule[1..];
      }
    }

    /** `writeWord` on the `rdOff` field of the descriptor. */
    method WriteRdOff(rdOff: nat)
      requires ValidSource(target)
      modifies `target, `schedule
      ensures target == FirmwareRun(old(target), Next(old(schedule))).(rd := rdOff)
    {
      FirmwareRuns();
      target := target.(rd := rdOff);
    }

    /** The host's offset arithmetic and its wrap-around guard. */
    static method NextRdOff(rdOff: nat, n: nat, size: nat) returns (newRdOff: nat, ok: bool)
      requires rdOff < size && rdOff + n <= size
      ensures ok && newRdOff == (rdOff + n) % size
    {
      var writeValue := rdOff + n;
      newRdOff := writeValue % size;
      ok := !(newRdOff != writeValue && writeValue > size);
    }

    /** `updateWriteForChunk`: hand a chunk to the transport, then publish the new `rdOff`.
        `ok` is false when the wrap-around guard throws, which it never does. */
    method OnChunk(chunk: Str, rdOff: nat) returns (newRdOff: nat, ok: bool)
      requires Valid() && rdOff == target.rd
      requires 0 < |chunk| <= Unread(target) && rdOff + |chunk| <= |target.mem|
      requires chunk == target.mem[rdOff..rdOff + |chunk|]
      modifies `target, `schedule, `transported
      ensures ok && Valid() && |target.mem| == old(|target.mem|)
      ensures newRdOff == target.rd == Advance(|target.mem|, rdOff, |chunk|)
      ensures transported == old(transported) + chunk
      ensures old(Published(target)) <= Published(target)
      ensures old(Unread(target)) - |chunk| <= Unread(target)
    {
      ghost var before, steps := target, Next(schedule);
      ChunkIsReleased(before, steps, |chunk|);
      transported := transported + chunk;
      assert transported <= Published(before);
      newRdOff, ok := NextRdOff(rdOff, |chunk|, |target.mem|);
      if ok {
        WriteRdOff(newRdOff);
      }
    }

    /** One turn of the loop in `readMemoryBytes`: read a chunk as the memory is by then,
        and run the callback on it. */
    method ReadChunk(address: nat, size: nat, rdOff: nat) returns (chunk: Str, newRdOff: nat, ok: bool)
      requires Valid() && rdOff == target.rd && address == bufAddr + rdOff
      requires 0 < size <= Unread(target) && rdOff + size <= |target.mem|
      modifies `target, `schedule, `transported, `asked
      ensures asked == old(asked) + [size]
      ensures ok && Valid() && |target.mem| == old(|target.mem|)
      ensures newRdOff == target.rd == Advance(|target.mem|, rdOff, size)
      ensures |chunk| == size && transported == old(transported) + chunk
      ensures old(Published(target)) <= Published(target)
      ensures old(Unread(target)) - size <= Unread(target)
    {
      FirmwareRunKeeps(target, Next(schedule));
      FirmwareRuns();
      var at := address - bufAddr;
      asked := asked + [size];
      chunk := target.mem[at..at + size];
      newRdOff, ok := OnChunk(chunk, rdOff);
    }

    /** `readMemoryBytes` with the drain's callback: `length` bytes in chunks of at most 512. */
    method ReadMemoryBytes(start: nat, length: nat, startRdOff: nat) returns (data: Str, rdOff: nat, ok: bool)
      requires Valid() && startRdOff == target.rd && start == bufAddr + startRdOff
      requires length <= Unread(target) && startRdOff + length <= |target.mem|
      modifies `target, `schedule, `transported, `asked
      ensures ReadInParts(old(asked), asked, length)
      ensures ok && Valid() && |target.mem| == old(|target.mem|)
      ensures |data| == length && transported == old(transported) + data
      ensures rdOff == target.rd == Advance(|target.mem|, startRdOff, length)
      ensures old(Published(target)) <= Published(target)
      ensures old(Unread(target)) - length <= Unread(target)
    {
      hide Published, ReadInParts;
      NothingRead(asked);
      data, rdOff, ok := [], startRdOff, true;
      var address, remaining := start, length;
      ghost var size := |target.mem|;
      assert startRdOff < size;
      while remaining > 0
        invariant 0 <= remaining <= length && address == start + (length - remaining)
        invariant ok && Valid() && |target.mem| == size
        invariant rdOff == target.rd == Advance(size, startRdOff, length - remaining)
        invariant |data| == length - remaining && transported == old(transported) + data
        invariant old(Published(target)) <= Published(target)
        invariant old(Unread(target)) - |data| <= Unread(target)
        invariant ReadInParts(old(asked), asked, length - remaining)
      {
        var chunkSize := if remaining < CHUNK then remaining else CHUNK;
        var chunk;
        OneMoreRead(old(asked), asked, length - remaining, chunkSize);
        chunk, rdOff, ok := ReadChunk(address, chunkSize, rdOff);
        if !ok {
          return;
        }
        data := data + chunk;
        remaining := remaining - chunkSize;
        address := address + chunkSize;
      }
    }

    /** The copying part of `tryDrainFromDevice`: one stretch, or two around the end. */
    method Drain(wrOff: nat, rdOff: nat) returns (data: Str, ok: bool)
      requires Valid() && target.wr == wrOff && target.rd == rdOff && wrOff != rdOff
      modifies `target, `schedule, `transported, `asked
      ensures ReadInParts(old(asked), asked, old(Unread(target)))
      ensures ok && Valid() && |target.mem| == old(|target.mem|)
      ensures |data| == old(Unread(target)) && transported == old(transported) + data
      ensures target.rd == wrOff
      ensures old(Published(target)) <= Published(target)
    {
      var size := |target.mem|;
      var newRdOff;
      if wrOff > rdOff {
        data, newRdOff, ok := ReadMemoryBytes(bufAddr + rdOff, wrOff - rdOff, rdOff);
      } else {
        var part2;
        data, newRdOff, ok := ReadMemoryBytes(bufAddr + rdOff, size - rdOff, rdOff);
        part2, newRdOff, ok := ReadMemoryBytes(bufAddr, wrOff, newRdOff);
        data := data + part2;
      }
    }

    /** `tryDrainFromDevice`. `sampled` is the target when its descriptor was read; the drain
        hands over exactly what the firmware had published by then, and no byte twice. */
    method TryDrainFromDevice() returns (result: Option<Str>, ok: bool, ghost sampled: Source)
      requires Valid()
      modifies `target, `schedule, `transported, `asked
      ensures |old(transported)| <= |transported| && ReadInParts(old(asked), asked, |transported| - |old(transported)|)
      ensures ValidSource(sampled) && |transported| == |old(transported)| + Unread(sampled)
      ensures ok && Valid() && |target.mem| == old(|target.mem|)
      ensures ValidSource(sampled) && old(Published(target)) <= Published(sampled) <= Published(target)
      ensures transported == Published(sampled)
      ensures target.rd == sampled.wr
      ensures transported == old(transported) + (if result.Some? then result.value else [])
    {
      FirmwareRunKeeps(target, Next(schedule));
      FirmwareRuns();
      sampled := target;
      PublishedIsReleasedAndUnread(target);
      SpanLength(target.mem, target.rd, target.wr);
      ok, result := true, None;
      if target.wr != target.rd {
        var data;
        data, ok := Drain(target.wr, target.rd);
        result := Some(data);
        PublishedIsReleasedAndUnread(target);
        assert transported <= Published(target) && |transported| == |Published(sampled)|;
      }
    }

    /** Any number of polls, whatever the firmware does meanwhile: the transport always holds
        a prefix of what the firmware published. */
    method Poll(rounds: nat) returns (ok: bool)
      requires Valid()
      modifies `target, `schedule, `transported, `asked
      ensures |old(transported)| <= |transported| && ReadInParts(old(asked), asked, |transported| - |old(transported)|)
      ensures ok && Valid()
      ensures old(transported) <= transported <= Published(target)
      ensures rounds > 0 ==> old(Published(target)) <= transported
    {
      hide Published, Released, ValidSource, ReadInParts, Unread;
      ok := true;
      PublishedIsReleasedAndUnread(target);
      assert ReadInParts(asked, asked, 0) by { NothingRead(asked); }
      for i := 0 to rounds
        invariant ok && Valid()
        invariant old(transported) <= transported <= Published(target)
        invariant old(Published(target)) <= Published(target)
        invariant i > 0 ==> old(Published(target)) <= transported
        invariant ReadInParts(old(asked), asked, |transported| - |old(transported)|)
      {
        ghost var sampled;
        var result;
        ghost var before, got := asked, |transported|;
        result, ok, sampled := TryDrainFromDevice();
        PartsAdd(old(asked), before, asked, got - |old(transported)|, |transported| - got);
      }
    }
  }
}
