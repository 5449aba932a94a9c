/** Forwarded connections: each local socket of a `RemoteServer` gets its stream id from the
    proxy only after it may already have carried data both ways. */
module Streams {
  import opened Funnel
  import opened Options
  import opened StreamTable
  import opened Text

  function Payloads(fs: seq<Frame>): Str {
    if fs == [] then [] else Payloads(fs[..|fs| - 1]) + fs[|fs| - 1].payload
  }

  ghost predicate AllFor(fs: seq<Frame>, streamId: int) {
    forall i :: 0 <= i < |fs| ==> fs[i].streamId == streamId
  }

  lemma NoPayloads()
    ensures Payloads([]) == []
  {}

  lemma PayloadsAppend(fs: seq<Frame>, f: Frame)
    ensures Payloads(fs + [f]) == Payloads(fs) + f.payload
  {}

  /** One forwarded connection. `frames` are its calls of `sendCommandBytes`, `written` what
      it wrote to the local socket. */
  class RemoteStream {
    var streamId: int
    var toServerBuffer: Str
    var fromServerBuffer: Str
    var frames: seq<Frame>
    var written: Str
    // Everything the local client, and the proxy, have given to this connection.
    ghost var clientInput: Str
    ghost var serverInput: Str

    ghost predicate Waiting()
      reads this
    {
      frames == [] && toServerBuffer == clientInput && written == [] && fromServerBuffer == serverInput
    }

    /** Before the id is known all input waits in the buffers; from then on it has been
        forwarded, in order, each byte once, under that id. */
    ghost predicate Flow()
      reads this
    {
      if streamId < 0 then Waiting()
      else
        && AllFor(frames, streamId) && Payloads(frames) == clientInput
        && written == serverInput && fromServerBuffer == []
    }

    constructor ()
      ensures streamId == -1 && Flow() && clientInput == [] && serverInput == [] && Given() == []
    {
      streamId, toServerBuffer, fromServerBuffer, frames, written := -1, [], [], [], [];
      clientInput, serverInput := [], [];
    }

    /** The body of `dataFromClent`, also used to flush the buffer. */
    method ForwardToServer(data: Str)
      modifies `toServerBuffer, `frames
      ensures old(streamId) < 0 ==> toServerBuffer == old(toServerBuffer) + data && frames == old(frames)
      ensures old(streamId) >= 0 ==>
        toServerBuffer == old(toServerBuffer) && frames == old(frames) + [Frame(streamId, data)]
    {
      if streamId < 0 {
        toServerBuffer := toServerBuffer + data;
        return;
      }
      frames := frames + [Frame(streamId, data)];
    }

    /** The body of `dataFromServer`, also used to flush the buffer. */
    method ForwardToClient(data: Str)
      modifies `fromServerBuffer, `written
      ensures old(streamId) < 0 ==> fromServerBuffer == old(fromServerBuffer) + data && written == old(written)
      ensures old(streamId) >= 0 ==> fromServerBuffer == [] && written == old(written) + data
    {
      if streamId < 0 {
        fromServerBuffer := fromServerBuffer + data;
      } else {
        written := written + data;
        fromServerBuffer := [];
      }
    }

    method DataFromClient(data: Str)
      requires Flow()
      modifies `toServerBuffer, `frames, `clientInput
      ensures Flow() && clientInput == old(clientInput) + data
    {
      PayloadsAppend(frames, Frame(streamId, data));
      ForwardToServer(data);
      clientInput := clientInput + data;
    }

    /** What has been written to the client, or waits to be. */
    ghost function Given(): Str
      reads this
    {
      written + fromServerBuffer
    }

    /** `own` says whether the proxy sent the data for this connection. */
    method DataFromServer(data: Str, ghost own: bool)
      requires Flow()
      modifies `fromServerBuffer, `written, `serverInput
      ensures serverInput == old(serverInput) + (if own then data else []) && Given() == old(Given()) + data
      ensures Flow() <==> own || data == []
    {
      ForwardToClient(data);
      if own { serverInput := serverInput + data; }
    }

    /** Data that was sent for this connection and went elsewhere, or nowhere. */
    ghost method Misses(data: Str)
      requires Flow()
      modifies `serverInput
      ensures serverInput == old(serverInput) + data && (Flow() <==> data == [])
    {
      serverInput := serverInput + data;
    }

    /** `initStreamId`: take the id, then flush both buffers. The buffer towards the proxy is
        not emptied, so a second call would send it again. */
    method InitStreamId(id: int)
      requires id >= 0
      modifies `streamId, `frames, `toServerBuffer, `fromServerBuffer, `written
      ensures streamId == id
      ensures old(Waiting()) ==> Flow()
      ensures toServerBuffer == old(toServerBuffer)
      ensures frames == old(frames) + (if toServerBuffer == [] then [] else [Frame(id, toServerBuffer)])
    {
      hide Payloads;
      NoPayloads();
      streamId := id;
      if |toServerBuffer| > 0 {
        PayloadsAppend(frames, Frame(id, toServerBuffer));
        ForwardToServer(toServerBuffer);
      }
      if |fromServerBuffer| > 0 {
        ForwardToClient(fromServerBuffer);
      }
    }
  }

  /** The table and the ids of the connections are inverse to each other. */
  ghost predicate IsFiled(sockets: seq<RemoteStream>, table: map<int, RemoteStream>, ids: map<RemoteStream, int>) {
    && (forall s :: s in sockets ==> s in ids)
    && (forall s :: s in ids ==> s in sockets)
    && (forall k :: k in table ==> table[k] in ids && ids[table[k]] == k)
    && (forall s :: s in ids ==> ids[s] >= -1 && ids[s] in table && table[ids[s]] == s)
  }

  lemma FreshIdIsFiled(sockets: seq<RemoteStream>, table: map<int, RemoteStream>, ids: map<RemoteStream, int>,
                       stream: RemoteStream, id: int)
    requires IsFiled(sockets, table, ids) && stream in ids && id >= 0 && id !in table
    ensures IsFiled(sockets, (table - {ids[stream]})[id := stream], ids[stream := id])
  {}

  lemma OtherIdIsMisfiled(sockets: seq<RemoteStream>, table: map<int, RemoteStream>, ids: map<RemoteStream, int>,
                          stream: RemoteStream, id: int)
    requires IsFiled(sockets, table, ids) && stream in ids && id != ids[stream]
    ensures !IsFiled(sockets, table, ids[stream := id])
  {}

  lemma NothingIsFiled(table: map<int, RemoteStream>, ids: map<RemoteStream, int>)
    requires IsFiled([], table, ids)
    ensures table == map[]
  {
    assert forall k <- table :: table[k] in ids;
  }

  lemma FiledIds(sockets: seq<RemoteStream>, table: map<int, RemoteStream>, ids: map<RemoteStream, int>)
    requires IsFiled(sockets, table, ids)
    ensures forall k <- table :: table[k] in sockets
  {}

  /** An id that is filed for a connection that has closed meanwhile. */
  lemma LateIdIsMisfiled(sockets: seq<RemoteStream>, table: map<int, RemoteStream>, ids: map<RemoteStream, int>,
                         stream: RemoteStream, was: int, id: int)
    requires stream !in sockets
    ensures !IsFiled(sockets, (table - {was})[id := stream], ids)
  {
    assert id in (table - {was})[id := stream];
  }

  lemma AddedIsFiled(sockets: seq<RemoteStream>, table: map<int, RemoteStream>, ids: map<RemoteStream, int>,
                     stream: RemoteStream)
    requires IsFiled(sockets, table, ids) && stream !in ids && -1 !in table
    ensures IsFiled(sockets + [stream], table[-1 := stream], ids[stream := -1])
  {}

  lemma RemovedIsFiled(sockets: seq<RemoteStream>, table: map<int, RemoteStream>, ids: map<RemoteStream, int>,
                       stream: RemoteStream)
    requires IsFiled(sockets, table, ids)
    ensures IsFiled(Without(sockets, stream), Cleaned(table, stream), ids - {stream})
  {
    WithoutMembers(sockets, stream);
  }

  lemma WithoutMembers(sockets: seq<RemoteStream>, stream: RemoteStream)
    ensures forall s :: s in Without(sockets, stream) ==> s in sockets && s != stream
    ensures forall s :: s in sockets && s != stream ==> s in Without(sockets, stream)
  {
    forall s <- sockets + Without(sockets, stream)
      ensures s in Without(sockets, stream) <==> s in sockets && s != stream
    {
      WithoutMember(sockets, stream, s);
    }
  }

  lemma TargetIsReceiver(sockets: seq<RemoteStream>, table: map<int, RemoteStream>, ids: map<RemoteStream, int>,
                         id: int, s: RemoteStream)
    requires IsFiled(sockets, table, ids)
    ensures Target(table, id) == Some(s)
            <==> s in ids && (ids[s] == id || (ids[s] == -1 && forall d <- ids :: ids[d] != id))
    ensures Target(table, id).None? <==> forall d <- ids :: ids[d] != id && ids[d] != -1
  {
    var target := Target(table, id);
    if target.Some? { assert target.value in ids; }
    if s in ids { assert ids[s] in table && table[ids[s]] == s; }
    if target.None? { assert forall d <- ids :: ids[d] in table; }
  }

  class RemoteServer {
    var sockets: seq<RemoteStream>
    var socketsByStreamId: map<int, RemoteStream>

    ghost function Ids(): map<RemoteStream, int>
      reads this, sockets
    {
      map s | s in sockets :: if s in sockets then s.streamId else 0
    }

    ghost predicate Valid()
      reads this, sockets
    {
      IsFiled(sockets, socketsByStreamId, Ids()) && forall s :: s in sockets ==> s.Flow()
    }

    /** Data for `id` is meant for the connection with that id, or, when there is none, for the
        one that waits for its id. */
    ghost predicate Receives(s: RemoteStream, id: int)
      reads this, sockets
    {
      s in sockets && (s.streamId == id || (s.streamId == -1 && forall d <- sockets :: d.streamId != id))
    }

    constructor ()
      ensures Valid() && sockets == [] && socketsByStreamId == map[]
    {
      sockets, socketsByStreamId := [], map[];
    }

    /** `resetStreamId`: refuses an id that is already taken. */
    method ResetStreamId(id: int, stream: RemoteStream)
      modifies `socketsByStreamId, stream`streamId
      ensures id == old(stream.streamId) || id in old(socketsByStreamId) ==>
        socketsByStreamId == old(socketsByStreamId) && stream.streamId == old(stream.streamId)
      ensures id != old(stream.streamId) && id !in old(socketsByStreamId) ==>
        socketsByStreamId == (old(socketsByStreamId) - {old(stream.streamId)})[id := stream] && stream.streamId == id
    {
      if id == stream.streamId || id in socketsByStreamId {
        return;
      }
      socketsByStreamId := socketsByStreamId - {stream.streamId};
      stream.streamId := id;
      socketsByStreamId := socketsByStreamId[id := stream];
    }

    /** `setStreamId`, called when the proxy has answered; the local socket may have closed
        meanwhile. The tables and the forwarded bytes stay right exactly when the connection
        has that id already; or is open, has none yet, and the id is not in use; or is closed
        and keeps its hands off the table. */
    method SetStreamId(stream: RemoteStream, id: int)
      requires Valid() && id >= 0
      modifies `socketsByStreamId, stream
      ensures stream.streamId == id && sockets == old(sockets)
      ensures stream.clientInput == old(stream.clientInput) && stream.serverInput == old(stream.serverInput)
      ensures socketsByStreamId == Refiled(old(socketsByStreamId), stream, old(stream.streamId), id)
      ensures Valid() <==>
        || id == old(stream.streamId)
        || (stream in sockets && old(stream.streamId) < 0 && id !in old(socketsByStreamId))
        || (stream !in sockets && (old(stream.streamId) >= 0 || id in old(socketsByStreamId)))
    {
      if stream.streamId == id {
        return;
      }
      ghost var ids: map<RemoteStream, int>, table: map<int, RemoteStream> := Ids(), socketsByStreamId;
      ghost var was := stream.streamId;
      AssignStreamId(stream, id);
      if stream !in sockets {
        if was < 0 && id !in table { LateIdIsMisfiled(sockets, table, ids, stream, was, id); }
      } else if ids[stream] < 0 && id !in table {
        FreshIdIsFiled(sockets, table, ids, stream, id);
      } else {
        OtherIdIsMisfiled(sockets, table, ids, stream, id);
      }
    }

    /** The part of `setStreamId` that changes something. */
    method AssignStreamId(stream: RemoteStream, id: int)
      requires id >= 0 && id != stream.streamId
      modifies `socketsByStreamId, stream
      ensures stream.streamId == id
      ensures stream in sockets ==> Ids() == old(Ids())[stream := id]
      ensures stream !in sockets ==> Ids() == old(Ids())
      ensures stream.clientInput == old(stream.clientInput) && stream.serverInput == old(stream.serverInput)
      ensures old(stream.streamId) < 0 && old(stream.Flow()) ==> stream.Flow()
      ensures socketsByStreamId == Refiled(old(socketsByStreamId), stream, old(stream.streamId), id)
    {
      ghost var waiting := stream.Waiting();
      if stream.streamId < 0 {
        ResetStreamId(id, stream);
        assert stream.Waiting() == waiting;
      }
      stream.InitStreamId(id);
      assert forall s :: s in sockets && s != stream ==> s.streamId == old(s.streamId);
    }

    /** A local client connects. It is turned away while another connection still has no id.
        When the stream is started, a connection that is alone gets the id of the stream at once,
        also when an earlier one had it; otherwise an id comes later, with the proxy's answer. */
    method Connect(started: bool, pInfoStreamId: int) returns (stream: RemoteStream?)
      requires Valid() && pInfoStreamId >= 0
      modifies this
      ensures Valid()
      ensures stream == null <==> -1 in old(socketsByStreamId)
      ensures stream == null ==> sockets == old(sockets) && socketsByStreamId == old(socketsByStreamId)
      ensures stream != null ==> fresh(stream) && sockets == old(sockets) + [stream]
      ensures stream != null ==>
        && stream.streamId == (if old(sockets) == [] && started then pInfoStreamId else -1)
        && socketsByStreamId == old(socketsByStreamId)[stream.streamId := stream]
        && stream.Given() == [] && stream.serverInput == [] && stream.clientInput == []
    {
      hide IsFiled, Ids;
      if -1 in socketsByStreamId {
        return null;
      }
      if |sockets| == 0 { NothingIsFiled(socketsByStreamId, Ids()); }
      stream := Admit();
      if |sockets| == 1 && started {
        SetStreamId(stream, pInfoStreamId);
      }
    }

    /** The part of a connect that files the new connection among those without an id. */
    method Admit() returns (stream: RemoteStream)
      requires Valid() && -1 !in socketsByStreamId
      modifies this
      ensures Valid() && fresh(stream) && sockets == old(sockets) + [stream] && stream.streamId == -1
      ensures socketsByStreamId == old(socketsByStreamId)[-1 := stream]
      ensures stream.Given() == [] && stream.serverInput == [] && stream.clientInput == []
    {
      hide IsFiled;
      FiledIds(sockets, socketsByStreamId, Ids());
      ghost var ids := Ids();
      stream := new RemoteStream();
      AddedIsFiled(sockets, socketsByStreamId, ids, stream);
      sockets := sockets + [stream];
      socketsByStreamId := socketsByStreamId[-1 := stream];
      assert Ids() == ids[stream := -1];
    }

    /** `cleanupSocket`: the local socket closed or failed. */
    method CleanupSocket(stream: RemoteStream)
      requires Valid()
      modifies this
      ensures Valid() && sockets == Without(old(sockets), stream)
      ensures socketsByStreamId == Cleaned(old(socketsByStreamId), stream)
    {
      RemovedIsFiled(sockets, socketsByStreamId, Ids(), stream);
      WithoutMembers(sockets, stream);
      ghost var ids := Ids();
      sockets := Without(sockets, stream);
      socketsByStreamId := Cleaned(socketsByStreamId, stream);
      assert Ids() == ids - {stream};
    }

    /** Data for a stream goes to the connection with that id, or else to the one that has
        none yet. The proxy sent it for `owner`, which may have closed, and whose id another
        connection may have by now. The flows stay right exactly when there is no data, or the
        owner gets it, or nobody does and the owner has closed; they do whenever the owner is
        open and has that id. */
    method DataFromServer(data: Str, id: int, ghost owner: RemoteStream) returns (found: bool)
      requires Valid()
      modifies sockets
      ensures sockets == old(sockets) && forall s <- sockets :: s.streamId == old(s.streamId)
      ensures found <==> exists s <- sockets :: s.streamId == id || s.streamId == -1
      ensures forall s <- sockets :: s.Given() == old(s.Given()) + (if Receives(s, id) then data else [])
      ensures forall s <- sockets :: s.serverInput == old(s.serverInput) + (if s == owner then data else [])
      ensures Valid() <==> data == [] || forall s <- sockets :: Receives(s, id) <==> s == owner
      ensures owner in sockets && owner.streamId == id ==>
        found && Valid() && forall s <- sockets :: Receives(s, id) <==> s == owner
    {
      hide IsFiled;
      var target := Target(socketsByStreamId, id);
      found := target.Some?;
      FindsReceiver(id, owner);
      ghost var ids: map<RemoteStream, int> := Ids();
      Deliver(data, if found then target.value else null, owner);
      assert Ids() == ids;
      assert forall s <- sockets :: Receives(s, id) <==> old(Receives(s, id));
    }

    /** The table leads to the connection that should receive the data. */
    lemma FindsReceiver(id: int, owner: RemoteStream)
      requires Valid()
      ensures forall s: RemoteStream :: Target(socketsByStreamId, id) == Some(s) <==> Receives(s, id)
      ensures Target(socketsByStreamId, id).Some? <==> exists s <- sockets :: s.streamId == id || s.streamId == -1
      ensures owner in sockets && owner.streamId == id ==> forall s <- sockets :: Receives(s, id) <==> s == owner
    {
      hide IsFiled, Target;
      var ids := Ids();
      assert forall s :: s in ids <==> s in sockets;
      assert forall s <- sockets :: ids[s] == s.streamId;
      TargetIsReceiver(sockets, socketsByStreamId, ids, id, owner);
      forall s: RemoteStream ensures Target(socketsByStreamId, id) == Some(s) <==> Receives(s, id) {
        TargetIsReceiver(sockets, socketsByStreamId, ids, id, s);
      }
    }

    /** Hands data to a connection, or to none, and records for whom it was sent. */
    method Deliver(data: Str, target: RemoteStream?, ghost owner: RemoteStream)
      requires (target != null ==> target in sockets) && forall s <- sockets :: s.Flow()
      modifies sockets
      ensures forall s <- sockets :: s.streamId == old(s.streamId)
      ensures forall s <- sockets :: s.Given() == old(s.Given()) + (if s == target then data else [])
      ensures forall s <- sockets :: s.serverInput == old(s.serverInput) + (if s == owner then data else [])
      ensures forall s <- sockets :: s.Flow() <==> data == [] || (s == target <==> s == owner)
    {
      if target != null {
        target.DataFromServer(data, target == owner);
      }
      if owner in sockets && target != owner {
        owner.Misses(data);
      }
    }
  }

  /** A client closes its connection while the proxy's answer is under way, and another one
      connects: the late answer files the closed connection, and takes the place of the one
      that waits. */
  method LateAnswerDisplacesWaiting(id: int) returns (server: RemoteServer, closed: RemoteStream, waiting: RemoteStream)
    requires id >= 0
    ensures closed !in server.sockets && waiting in server.sockets && waiting.streamId == -1
    ensures server.socketsByStreamId == map[id := closed] && !server.Valid()
  {
    hide IsFiled;
    server := new RemoteServer();
    var a := server.Connect(false, 0);
    server.CleanupSocket(a);
    assert server.sockets == [] && server.socketsByStreamId == map[];
    var b := server.Connect(false, 0);
    server.SetStreamId(a, id);
    closed, waiting := a, b;
  }

  /** A client closes its connection while data for it is under way, and another one connects,
      which waits for its id, or takes the id over when `reuses` holds: it gets the data. */
  method NextClientGetsData(id: int, data: Str, reuses: bool) returns (server: RemoteServer, next: RemoteStream)
    requires id >= 0 && data != []
    ensures next in server.sockets && next.streamId == (if reuses then id else -1)
    ensures next.Given() == data && next.serverInput == [] && !server.Valid()
  {
    hide IsFiled;
    server := new RemoteServer();
    var a := server.Connect(true, id);
    server.CleanupSocket(a);
    assert server.sockets == [] && server.socketsByStreamId == map[];
    var b := server.Connect(reuses, id);
    assert server.socketsByStreamId == map[b.streamId := b] && server.sockets == [b];
    var _ := server.DataFromServer(data, id, a);
    assert [] + data == data && [] + [] == data[..0];
    next := b;
  }

  /** At most one connection is waiting for its id. */
  lemma AtMostOneUnassigned(server: RemoteServer, s: RemoteStream, t: RemoteStream)
    requires server.Valid() && s in server.sockets && t in server.sockets
    ensures s.streamId == t.streamId ==> s == t
  {}
}
