/**
 * Model of `AsyncSocketWrapper` (src/AsyncSocket.Core/IoCompletionPort/AsyncSocketWrapper.cs)
 * and of the events it publishes.
 *
 * All wrappers that come from one `Create` share one pool of I/O contexts, whose chunks
 * lie in one shared byte array, and one event queue. The OS is a source of outcomes:
 * each call is told whether its operation stays pending or completes synchronously
 * (`Issue`), and a pending one later completes through `Complete`. In both cases the OS
 * first records the outcome on the context (`OsComplete`) and then the wrapper's handler
 * runs. The message framer `Protocol.TryReadMessage` is a function parameter (`Framer`).
 */
module SocketWrapper {
  import opened Wrappers
  import opened EventArgs
  import Pool
  import opened SharedBuffer
  import Net

  /** The kinds of event the wrapper publishes. */
  datatype AsyncOperation = NewClient | ConnectionAccepted | DataReceived | DataSent

  /** `AsyncEvent`: its `Buffer` is `None` (null) unless a positive size was given. */
  datatype AsyncEvent = AsyncEvent(operation: AsyncOperation, peer: AsyncSocketWrapper, buffer: Option<seq<bv8>>)

  /**
   * `Protocol.TryReadMessage(buffer, offset, bytesTransferred, ref message)`: whether a
   * whole message has been read, and the updated message.
   */
  type Framer = (seq<bv8>, nat, nat, IncomingMessage) -> (bool, IncomingMessage)

  /** What the OS reports when an operation ends: its socket error, the bytes available, the accepted socket. */
  datatype Completion = Completion(success: bool, data: seq<bv8>, acceptSocket: Option<Socket>)

  /** What `XxxAsync` does: return `true` (pending) or complete at once (`false`). */
  datatype Issue = Pending | Immediate(completion: Completion)

  /** What a public call did before returning. */
  datatype CallResult =
    | Dropped                          // nothing to do it with: nothing happened
    | IssuedPending                    // the operation was started and completes later
    | HandledSync(outcome: Outcome)    // it completed at once and its handler ran
    | Raised(exception: Exception)     // an exception escaped before the operation started

  /** The contents of a nullable buffer; `[]` for `null`. */
  function Contents(a: array?<bv8>): (s: seq<bv8>)
    reads a
    ensures a == null ==> s == []
    ensures a != null ==> |s| == a.Length && forall i :: 0 <= i < a.Length ==> s[i] == a[i]
  {
    if a == null then [] else a[..]
  }

  function Zeros(n: nat): (z: seq<bv8>)
    ensures |z| == n && forall i :: 0 <= i < n ==> z[i] == 0
  {
    seq(n, _ => 0)
  }

  /** `Buffer.BlockCopy(src, 0, dst, dstOffset, src.Length)` on the contents of `dst`. */
  function BlockCopy(dst: seq<bv8>, dstOffset: nat, src: seq<bv8>): (r: seq<bv8>)
    requires dstOffset + |src| <= |dst|
    ensures |r| == |dst|
    ensures forall i :: 0 <= i < |src| ==> r[dstOffset + i] == src[i]
    ensures forall i :: 0 <= i < |dst| && !(dstOffset <= i < dstOffset + |src|) ==> r[i] == dst[i]
  {
    dst[..dstOffset] + src + dst[dstOffset + |src|..]
  }

  /** `Buffer.BlockCopy` into an array, byte by byte. */
  method CopyInto(dst: array<bv8>, dstOffset: nat, src: seq<bv8>)
    requires dstOffset + |src| <= dst.Length
    modifies dst
    ensures dst[..] == BlockCopy(old(dst[..]), dstOffset, src)
  {
    var i := 0;
    while i < |src|
      invariant 0 <= i <= |src|
      invariant forall j :: 0 <= j < dst.Length && !(dstOffset <= j < dstOffset + i) ==> dst[j] == old(dst[j])
      invariant forall j :: 0 <= j < i ==> dst[dstOffset + j] == src[j]
    {
      dst[dstOffset + i] := src[i];
      i := i + 1;
    }
  }

  /**
   * Writing `src` at the start of chunk `id` leaves every byte of every other chunk as it
   * was when `src` fits the chunk; a longer write overwrites the first `|src| - chunkSize`
   * bytes of the next chunk `id + 1` with the tail of `src`.
   */
  lemma ChunkWriteFootprint(dst: seq<bv8>, chunkSize: nat, id: nat, src: seq<bv8>)
    requires ChunkOffset(chunkSize, id) + |src| <= |dst|
    ensures |src| <= chunkSize ==>
      forall j: nat, p: int :: j != id && ChunkOffset(chunkSize, j) <= p < ChunkOffset(chunkSize, j) + chunkSize && p < |dst| ==>
        BlockCopy(dst, ChunkOffset(chunkSize, id), src)[p] == dst[p]
    ensures |src| > chunkSize ==>
      forall p :: ChunkOffset(chunkSize, id + 1) <= p < ChunkOffset(chunkSize, id) + |src| ==>
        BlockCopy(dst, ChunkOffset(chunkSize, id), src)[p] == src[p - ChunkOffset(chunkSize, id)]
  {
    var off := ChunkOffset(chunkSize, id);
    assert ChunkOffset(chunkSize, id + 1) == off + chunkSize;
    if |src| <= chunkSize {
      forall j: nat, p: int | j != id && ChunkOffset(chunkSize, j) <= p < ChunkOffset(chunkSize, j) + chunkSize && p < |dst|
        ensures BlockCopy(dst, off, src)[p] == dst[p]
      {
        if j < id {
          ChunksDisjoint(chunkSize, j, id);
        } else {
          ChunksDisjoint(chunkSize, id, j);
        }
      }
    }
  }

  /** How many bytes a completed receive takes: all that are available, up to the window's `Count`. */
  function ReceivedCount(s: ContextState, c: Completion): (n: nat)
    ensures n <= s.count && n <= |c.data|
    ensures s.buffer == null || !c.success ==> n == 0
    ensures s.buffer != null && c.success ==> n == s.count || n == |c.data|
  {
    if s.buffer == null || !c.success then 0 else if |c.data| < s.count then |c.data| else s.count
  }

  /** The context's fields once the OS has completed its last operation with `c`. */
  function AfterCompletion(s: ContextState, c: Completion): (t: ContextState)
    ensures t.buffer == s.buffer && t.offset == s.offset && t.count == s.count
    ensures t.userToken == s.userToken && t.lastOperation == s.lastOperation && t.completed == s.completed
    ensures t.remoteEndPoint == s.remoteEndPoint
    ensures t.socketError == Succeeded <==> c.success
    ensures t.acceptSocket == if s.lastOperation == SocketAsyncOperation.Accept then c.acceptSocket else s.acceptSocket
    ensures s.lastOperation == SocketAsyncOperation.Receive ==> t.bytesTransferred == ReceivedCount(s, c)
    ensures s.lastOperation == SocketAsyncOperation.Send ==> t.bytesTransferred == if c.success then s.count else 0
  {
    s.(socketError := if c.success then Succeeded else Failed,
       acceptSocket := if s.lastOperation == SocketAsyncOperation.Accept then c.acceptSocket else s.acceptSocket,
       bytesTransferred :=
         if s.lastOperation == SocketAsyncOperation.Receive then ReceivedCount(s, c)
         else if s.lastOperation == SocketAsyncOperation.Send && c.success then s.count
         else 0)
  }

  /** The buffer contents once the OS has completed the operation of `s` with `c`. */
  function ContentsAfterCompletion(contents: seq<bv8>, s: ContextState, c: Completion): (r: seq<bv8>)
    requires s.buffer != null ==> s.offset + s.count <= |contents|
    ensures |r| == |contents|
    ensures s.lastOperation == SocketAsyncOperation.Receive && s.buffer != null ==>
      r == BlockCopy(contents, s.offset, c.data[..ReceivedCount(s, c)])
    ensures s.lastOperation != SocketAsyncOperation.Receive || s.buffer == null ==> r == contents
  {
    if s.lastOperation == SocketAsyncOperation.Receive && s.buffer != null then
      BlockCopy(contents, s.offset, c.data[..ReceivedCount(s, c)])
    else
      contents
  }

  /**
   * What the OS does to a context when its operation ends, before any handler runs:
   * it records the socket error, the accepted socket of an accept, the bytes
   * transferred, and copies the bytes of a receive into the window.
   */
  method OsComplete(ea: SocketAsyncEventArgs, c: Completion)
    requires ea.Valid()
    modifies ea, if ea.lastOperation == SocketAsyncOperation.Receive then {ea.buffer} else {}
    ensures ea.Valid()
    ensures ea.State() == AfterCompletion(old(ea.State()), c)
    ensures Contents(ea.buffer) == ContentsAfterCompletion(old(Contents(ea.buffer)), old(ea.State()), c)
  {
    var n := ReceivedCount(ea.State(), c);
    if ea.lastOperation == SocketAsyncOperation.Receive && ea.buffer != null {
      CopyInto(ea.buffer, ea.offset, c.data[..n]);
    }
    ea.socketError := if c.success then Succeeded else Failed;
    if ea.lastOperation == SocketAsyncOperation.Accept {
      ea.acceptSocket := c.acceptSocket;
    }
    ea.bytesTransferred :=
      if ea.lastOperation == SocketAsyncOperation.Receive then n
      else if ea.lastOperation == SocketAsyncOperation.Send && c.success then ea.count
      else 0;
  }

  /**
   * The buffer of a `DataReceived` event: `bytesTransferred` bytes, the first
   * `bodyBytesReceived` of them copied from the message body and the rest zero.
   */
  function ReceivedPayload(body: seq<bv8>, bodyBytesReceived: nat, bytesTransferred: nat): (p: seq<bv8>)
    requires bodyBytesReceived <= |body| && bodyBytesReceived <= bytesTransferred
    ensures |p| == bytesTransferred
    ensures forall i :: 0 <= i < bodyBytesReceived ==> p[i] == body[i]
    ensures forall i :: bodyBytesReceived <= i < bytesTransferred ==> p[i] == 0
  {
    BlockCopy(Zeros(bytesTransferred), 0, body[..bodyBytesReceived])
  }

  /** What the receive handler decides. */
  datatype ReceiveVerdict =
    | NoToken                          // the context carries no token: nothing happens
    | Incomplete                       // the framer has not got a whole message yet
    | Delivered(payload: seq<bv8>)     // a `DataReceived` event with this buffer
    | CopyFailed(exception: Exception) // copying the body into the event buffer throws

  /**
   * The receive handler's decision on a context with `token` whose buffer holds `buffer`,
   * and the token it leaves on the context (the framer updates its message even when it
   * reports no whole message).
   */
  function ReceiveStep(token: Option<UserToken>, buffer: seq<bv8>, offset: nat, bytesTransferred: nat, tryRead: Framer)
    : (r: (Option<UserToken>, ReceiveVerdict))
    ensures token.None? ==> r == (None, NoToken)
    ensures token.Some? ==>
      var (done, m) := tryRead(buffer, offset, bytesTransferred, token.value.incomingMessage);
      && r.0.Some? && r.0.value.incomingMessage == m
      && r.0.value.heapBufferOffset == token.value.heapBufferOffset && r.0.value.socket == token.value.socket
      && (r.1 == Incomplete <==> !done)
      && (done && bytesTransferred == 0 ==> r.1 == CopyFailed(ArgumentNull))
      && (done && bytesTransferred > 0 && (m.bodyBytesReceived > |m.bodyFrameBytes| || m.bodyBytesReceived > bytesTransferred)
          ==> r.1 == CopyFailed(Argument))
      && (done && bytesTransferred > 0 && m.bodyBytesReceived <= |m.bodyFrameBytes| && m.bodyBytesReceived <= bytesTransferred
          ==> r.1 == Delivered(ReceivedPayload(m.bodyFrameBytes, m.bodyBytesReceived, bytesTransferred)))
  {
    match token
    case None => (None, NoToken)
    case Some(t) =>
      var (done, m) := tryRead(buffer, offset, bytesTransferred, t.incomingMessage);
      var updated := Some(t.(incomingMessage := m));
      if !done then (updated, Incomplete)
      else if bytesTransferred == 0 then (updated, CopyFailed(ArgumentNull))
      else if m.bodyBytesReceived > |m.bodyFrameBytes| || m.bodyBytesReceived > bytesTransferred then
        (updated, CopyFailed(Argument))
      else
        (updated, Delivered(ReceivedPayload(m.bodyFrameBytes, m.bodyBytesReceived, bytesTransferred)))
  }

  /**
   * `Send`'s staging step: the bytes go into the shared buffer at the context's offset
   * (`Buffer.BlockCopy`), and the window is cut to their length (`SetBuffer(Offset, n)`).
   */
  method CopyToWindow(eventArgs: SocketAsyncEventArgs, bytes: seq<bv8>)
    requires eventArgs.Valid() && eventArgs.buffer != null && eventArgs.offset + |bytes| <= eventArgs.buffer.Length
    modifies eventArgs, eventArgs.buffer
    ensures eventArgs.Valid()
    ensures eventArgs.State() == old(eventArgs.State()).(count := |bytes|)
    ensures eventArgs.buffer[..] == BlockCopy(old(eventArgs.buffer[..]), eventArgs.offset, bytes)
  {
    CopyInto(eventArgs.buffer, eventArgs.offset, bytes);
    eventArgs.SetWindow(eventArgs.offset, |bytes|);
  }

  /** The event queue (a `ConcurrentQueue<AsyncEvent>`, used sequentially). */
  class EventQueue {
    var items: seq<AsyncEvent>

    constructor ()
      ensures items == []
    {
      items := [];
    }

    /** `TryAdd`: always succeeds on a queue. */
    method TryAdd(e: AsyncEvent) returns (added: bool)
      modifies this
      ensures added && items == old(items) + [e]
    {
      items := items + [e];
      added := true;
    }

    /** `TryTake`: the oldest event, if any. */
    method TryTake() returns (e: Option<AsyncEvent>)
      modifies this
      ensures old(items) == [] ==> e == None && items == []
      ensures old(items) != [] ==> e == Some(old(items)[0]) && items == old(items)[1..]
    {
      if items == [] {
        e := None;
      } else {
        e := Some(items[0]);
        items := items[1..];
      }
    }
  }

  class AsyncSocketWrapper {
    /** The wrapped OS socket (`None` for a client wrapper made from a null accepted socket). */
    const socket: Option<Socket>
    /** The pool of I/O contexts, shared by the server and its clients. */
    const pool: Pool.Pool<SocketAsyncEventArgs>
    /** The event queue, shared likewise. */
    const events: EventQueue
    /** The context reserved for accepts; only `Create` sets one. */
    var acceptEventArgs: SocketAsyncEventArgs?
    /** `_semaphore.CurrentCount == 1` for the `SemaphoreSlim(1, 1)` gating `Accept`. */
    var gateOpen: bool

    /** Every pooled context keeps its window inside its buffer. */
    ghost predicate PoolValid()
      reads pool, pool.items
    {
      forall c :: c in pool.items ==> c.Valid()
    }

    /** The context `Pop` would return, if any. */
    ghost function Next(): SocketAsyncEventArgs?
      reads pool
    {
      if pool.items == [] then null else pool.items[|pool.items| - 1]
    }

    /** The buffer of that context. */
    ghost function NextBuffer(): array?<bv8>
      reads pool, pool.items
    {
      if pool.items == [] then null else pool.items[|pool.items| - 1].buffer
    }

    /** The pool once `Pop` has taken that context. */
    ghost function Rest(): seq<SocketAsyncEventArgs>
      reads pool
    {
      if pool.items == [] then [] else pool.items[..|pool.items| - 1]
    }

    /** `_socketAsyncEventArgsPool.Pop()`: the next context, or `null` when the pool is empty. */
    method TakeNext() returns (eventArgs: SocketAsyncEventArgs?)
      requires PoolValid()
      modifies pool
      ensures PoolValid()
      ensures eventArgs == old(Next()) && pool.items == old(Rest())
      ensures eventArgs != null ==> eventArgs.Valid()
    {
      var popped := pool.Pop();
      if popped.None? {
        return null;
      }
      eventArgs := popped.value;
      assert old(pool.items) == pool.items + [eventArgs];
      assert eventArgs in old(pool.items);
      assert forall c :: c in pool.items ==> c in old(pool.items);
    }

    /** The private constructor. */
    constructor (socket: Option<Socket>, pool: Pool.Pool<SocketAsyncEventArgs>, events: EventQueue)
      ensures this.socket == socket && this.pool == pool && this.events == events
      ensures acceptEventArgs == null && gateOpen
    {
      this.socket := socket;
      this.pool := pool;
      this.events := events;
      acceptEventArgs := null;
      gateOpen := true;
    }

    /**
     * Context `c` is as `Create` leaves the one at pool index `k`: bound to chunk
     * `poolSize - 1 - k` of `buffer`, with a token holding that chunk's offset and this
     * wrapper, and completing to this wrapper.
     */
    ghost predicate Pooled(c: SocketAsyncEventArgs, buffer: array<bv8>, chunkSize: nat, poolSize: nat, k: int)
      reads c
    {
      && 0 <= k < poolSize
      && c.State() == ContextState(buffer, ChunkOffset(chunkSize, poolSize - 1 - k), chunkSize,
                                   Some(UserToken(ChunkOffset(chunkSize, poolSize - 1 - k), this, EmptyMessage)),
                                   None, None, NoOperation, 0, Succeeded, this)
    }

    /**
     * One turn of `Create`'s loop: a fresh context subscribed to this wrapper, bound to the
     * next free chunk, given its token and pushed into the pool.
     */
    method AddContext(sharedHeapBuffer: SaeaSharedBuffer) returns (eventArgs: SocketAsyncEventArgs)
      requires sharedHeapBuffer.Valid() && |sharedHeapBuffer.chunkIds| > 0
      modifies sharedHeapBuffer, pool
      ensures fresh(eventArgs) && eventArgs.Valid()
      ensures sharedHeapBuffer.Valid()
      ensures sharedHeapBuffer.chunkIds == old(sharedHeapBuffer.chunkIds[..|sharedHeapBuffer.chunkIds| - 1])
      ensures pool.items == old(pool.items) + [eventArgs]
      ensures var id := old(sharedHeapBuffer.chunkIds[|sharedHeapBuffer.chunkIds| - 1]);
        var offset := ChunkOffset(sharedHeapBuffer.ChunkSizeInBytes, id);
        eventArgs.State() == ContextState(sharedHeapBuffer.buffer, offset, sharedHeapBuffer.ChunkSizeInBytes,
                                          Some(UserToken(offset, this, EmptyMessage)),
                                          None, None, NoOperation, 0, Succeeded, this)
    {
      ghost var id := sharedHeapBuffer.chunkIds[|sharedHeapBuffer.chunkIds| - 1];
      eventArgs := new SocketAsyncEventArgs();
      eventArgs.completed := this;
      var outcome := sharedHeapBuffer.AssignBuffer(eventArgs);
      assert eventArgs.offset == ChunkOffset(sharedHeapBuffer.ChunkSizeInBytes, id);
      eventArgs.userToken := Some(UserToken(eventArgs.offset, this, EmptyMessage));
      pool.Push(eventArgs);
    }

    /**
     * `Create(socket, events, poolSize, chunkSize)`: a server wrapper whose fresh pool holds
     * `poolSize` fresh contexts. The context at pool index `k` is bound to chunk
     * `poolSize - 1 - k` of one fresh zeroed shared buffer, carries a `UserToken` with that
     * chunk's offset and the server, and completes to the server; so the chunks of any two
     * contexts are disjoint. There is also a dedicated accept context with no buffer and no
     * token.
     */
    static method Create(socket: Socket, events: EventQueue, poolSize: nat, chunkSize: nat)
      returns (server: AsyncSocketWrapper)
      requires chunkSize * poolSize <= Int32Max
      ensures fresh(server) && fresh(server.pool)
      ensures server.socket == Some(socket) && server.events == events && server.gateOpen
      ensures server.PoolValid()
      ensures |server.pool.items| == poolSize
      ensures forall k, l :: 0 <= k < l < poolSize ==> server.pool.items[k] != server.pool.items[l]
      ensures poolSize > 0 ==>
        var buffer := server.pool.items[0].buffer;
        && buffer != null && fresh(buffer) && buffer.Length == chunkSize * poolSize
        && (forall i :: 0 <= i < buffer.Length ==> buffer[i] == 0)
        && forall k :: 0 <= k < poolSize ==>
             fresh(server.pool.items[k]) && server.Pooled(server.pool.items[k], buffer, chunkSize, poolSize, k)
      ensures forall k, l :: 0 <= k < l < poolSize ==>
        server.pool.items[l].offset + chunkSize <= server.pool.items[k].offset
      ensures server.acceptEventArgs != null && fresh(server.acceptEventArgs)
      ensures server.acceptEventArgs !in server.pool.items
      ensures server.acceptEventArgs.State() == ContextState(null, 0, 0, None, None, None, NoOperation, 0, Succeeded, server)
    {
      var socketAsyncEventArgsPool := new Pool.Pool<SocketAsyncEventArgs>();
      var sharedHeapBuffer := new SaeaSharedBuffer(chunkSize, poolSize);
      var buffer := sharedHeapBuffer.buffer;
      server := new AsyncSocketWrapper(Some(socket), socketAsyncEventArgsPool, events);
      var accept := new SocketAsyncEventArgs();
      accept.completed := server;
      server.acceptEventArgs := accept;
      var index := 0;
      while index < poolSize
        invariant 0 <= index <= poolSize
        invariant sharedHeapBuffer.Valid() && |sharedHeapBuffer.chunkIds| == poolSize - index
        invariant forall i :: 0 <= i < |sharedHeapBuffer.chunkIds| ==> sharedHeapBuffer.chunkIds[i] == i
        invariant fresh(sharedHeapBuffer) && fresh(buffer)
        invariant forall i :: 0 <= i < buffer.Length ==> buffer[i] == 0
        invariant |socketAsyncEventArgsPool.items| == index
        invariant forall k :: 0 <= k < index ==>
          && fresh(socketAsyncEventArgsPool.items[k]) && socketAsyncEventArgsPool.items[k] != accept
          && server.Pooled(socketAsyncEventArgsPool.items[k], buffer, chunkSize, poolSize, k)
        invariant forall k, l :: 0 <= k < l < index ==> socketAsyncEventArgsPool.items[k] != socketAsyncEventArgsPool.items[l]
        invariant server.acceptEventArgs == accept && server.gateOpen
        invariant accept.State() == ContextState(null, 0, 0, None, None, None, NoOperation, 0, Succeeded, server)
      {
        var eventArgs := server.AddContext(sharedHeapBuffer);
        index := index + 1;
      }
      server.PooledDisjoint(server.pool.items, buffer, chunkSize, poolSize);
      server.PooledValid(server.pool.items, buffer, chunkSize, poolSize);
    }

    /** Contexts pooled by `Create` have pairwise disjoint windows, later ones lower in the buffer. */
    lemma PooledDisjoint(items: seq<SocketAsyncEventArgs>, buffer: array<bv8>, chunkSize: nat, poolSize: nat)
      requires |items| == poolSize
      requires forall k :: 0 <= k < poolSize ==> Pooled(items[k], buffer, chunkSize, poolSize, k)
      ensures forall k, l :: 0 <= k < l < poolSize ==> items[l].offset + chunkSize <= items[k].offset
    {
      forall k, l | 0 <= k < l < poolSize
        ensures items[l].offset + chunkSize <= items[k].offset
      {
        assert Pooled(items[k], buffer, chunkSize, poolSize, k) && Pooled(items[l], buffer, chunkSize, poolSize, l);
        ChunksDisjoint(chunkSize, poolSize - 1 - l, poolSize - 1 - k);
      }
    }

    /** Contexts pooled by `Create` over a buffer of `chunkSize * poolSize` bytes have valid windows. */
    lemma PooledValid(items: seq<SocketAsyncEventArgs>, buffer: array<bv8>, chunkSize: nat, poolSize: nat)
      requires |items| == poolSize && buffer.Length == chunkSize * poolSize
      requires forall k :: 0 <= k < poolSize ==> Pooled(items[k], buffer, chunkSize, poolSize, k)
      ensures forall c :: c in items ==> c.Valid()
    {
      forall c | c in items ensures c.Valid() {
        var k :| 0 <= k < poolSize && items[k] == c;
        assert Pooled(items[k], buffer, chunkSize, poolSize, k);
        ChunkInBounds(chunkSize, poolSize, poolSize - 1 - k);
      }
    }

    /** `GetEvent`: takes the oldest published event, if any. */
    method GetEvent() returns (asyncEvent: Option<AsyncEvent>)
      modifies events
      ensures old(events.items) == [] ==> asyncEvent == None && events.items == []
      ensures old(events.items) != [] ==>
        asyncEvent == Some(old(events.items)[0]) && events.items == old(events.items)[1..]
    {
      asyncEvent := events.TryTake();
    }

    /** `CleanUp`: forgets the remote end point and the accepted socket. */
    method CleanUp(eventArgs: SocketAsyncEventArgs)
      modifies eventArgs
      ensures eventArgs.State() == old(eventArgs.State()).(remoteEndPoint := None, acceptSocket := None)
    {
      eventArgs.remoteEndPoint := None;
      eventArgs.acceptSocket := None;
    }

    /** The accept handler's effect: one `NewClient` event for a client on `accepted`, sharing pool and queue. */
    ghost predicate AcceptHandled(accepted: Option<Socket>, eventsBefore: seq<AsyncEvent>)
      reads events
    {
      && |events.items| == |eventsBefore| + 1 && events.items[..|eventsBefore|] == eventsBefore
      && var e := events.items[|eventsBefore|];
        e.operation == NewClient && e.buffer == None
        && e.peer.socket == accepted && e.peer.pool == pool && e.peer.events == events
    }

    /**
     * `HandleAccept`: publishes `NewClient` for a new client wrapper on the accepted socket
     * (without a dedicated accept context of its own), cleans the context, then releases
     * the gate, which throws `SemaphoreFullException` if the gate is already open.
     */
    method HandleAccept(eventArgs: SocketAsyncEventArgs) returns (o: Outcome)
      modifies this, events, eventArgs
      ensures eventArgs.State() == old(eventArgs.State()).(remoteEndPoint := None, acceptSocket := None)
      ensures AcceptHandled(old(eventArgs.acceptSocket), old(events.items))
      ensures var peer := events.items[|old(events.items)|].peer;
        fresh(peer) && peer.acceptEventArgs == null && peer.gateOpen
      ensures acceptEventArgs == old(acceptEventArgs) && gateOpen
      ensures o == if old(gateOpen) then Threw(SemaphoreFull) else Done
    {
      var client := new AsyncSocketWrapper(eventArgs.acceptSocket, pool, events);
      CleanUp(eventArgs);
      var _ := events.TryAdd(AsyncEvent(NewClient, client, None));
      if gateOpen {
        return Threw(SemaphoreFull);
      }
      gateOpen := true;
      return Done;
    }

    /** `HandleConnect`: publishes `ConnectionAccepted`, cleans the context and pools it back. */
    method HandleConnect(eventArgs: SocketAsyncEventArgs)
      requires PoolValid() && eventArgs.Valid()
      modifies events, eventArgs, pool
      ensures PoolValid()
      ensures events.items == old(events.items) + [AsyncEvent(ConnectionAccepted, this, None)]
      ensures pool.items == old(pool.items) + [eventArgs]
      ensures eventArgs.State() == old(eventArgs.State()).(remoteEndPoint := None, acceptSocket := None)
    {
      var _ := events.TryAdd(AsyncEvent(ConnectionAccepted, this, None));
      CleanUp(eventArgs);
      pool.Push(eventArgs);
    }

    /** `HandleSend`: publishes `DataSent` and pools the context back as it is. */
    method HandleSend(eventArgs: SocketAsyncEventArgs)
      requires PoolValid() && eventArgs.Valid()
      modifies events, pool
      ensures PoolValid()
      ensures events.items == old(events.items) + [AsyncEvent(DataSent, this, None)]
      ensures pool.items == old(pool.items) + [eventArgs]
    {
      var _ := events.TryAdd(AsyncEvent(DataSent, this, None));
      pool.Push(eventArgs);
    }

    /**
     * The receive handler's effect on a context that was in state `before` with buffer
     * contents `window`: it leaves the updated token on the context; only a delivered
     * message cleans the context, pools it back and publishes `DataReceived`.
     */
    ghost predicate ReceiveHandled(eventArgs: SocketAsyncEventArgs, before: ContextState, window: seq<bv8>, tryRead: Framer,
                                   poolBefore: seq<SocketAsyncEventArgs>, eventsBefore: seq<AsyncEvent>, o: Outcome)
      reads eventArgs, pool, events
    {
      var (token, verdict) := ReceiveStep(before.userToken, window, before.offset, before.bytesTransferred, tryRead);
      if verdict.Delivered? then
        && eventArgs.State() == before.(userToken := token, remoteEndPoint := None, acceptSocket := None)
        && pool.items == poolBefore + [eventArgs]
        && events.items == eventsBefore + [AsyncEvent(DataReceived, this, Some(verdict.payload))]
        && o == Done
      else
        && eventArgs.State() == before.(userToken := token)
        && pool.items == poolBefore && events.items == eventsBefore
        && o == if verdict.CopyFailed? then Threw(verdict.exception) else Done
    }

    /**
     * `HandleReceive`: runs the framer on the received bytes; once it has a whole message,
     * copies its body into a fresh event buffer of `BytesTransferred` bytes, cleans the
     * context, pools it back and publishes `DataReceived`.
     */
    method HandleReceive(eventArgs: SocketAsyncEventArgs, tryRead: Framer) returns (o: Outcome)
      requires PoolValid() && eventArgs.Valid()
      modifies eventArgs, pool, events
      ensures PoolValid()
      ensures ReceiveHandled(eventArgs, old(eventArgs.State()), old(Contents(eventArgs.buffer)), tryRead,
                             old(pool.items), old(events.items), o)
    {
      var step := ReceiveStep(eventArgs.userToken, Contents(eventArgs.buffer), eventArgs.offset,
                              eventArgs.bytesTransferred, tryRead);
      if eventArgs.userToken.None? {
        return Done;
      }
      eventArgs.userToken := step.0;
      match step.1
      case Delivered(payload) =>
        CleanUp(eventArgs);
        pool.Push(eventArgs);
        var _ := events.TryAdd(AsyncEvent(DataReceived, this, Some(payload)));
        return Done;
      case CopyFailed(e) =>
        return Threw(e);
      case _ =>
        return Done;
    }

    /**
     * What `OperationCompleted` does to a context that was in state `before` with buffer
     * contents `window`. On a socket error: the accepted socket of a failed accept is
     * closed (a `NullReferenceException` when there is none), then the context is cleaned
     * and pushed into the pool with no event, whatever it is, and the gate stays as it
     * was. Otherwise the handler for the last operation runs.
     */
    ghost predicate CompletionHandled(eventArgs: SocketAsyncEventArgs, before: ContextState, window: seq<bv8>,
                                      tryRead: Framer, gateBefore: bool, poolBefore: seq<SocketAsyncEventArgs>,
                                      eventsBefore: seq<AsyncEvent>, o: Outcome)
      reads this, eventArgs, pool, events
    {
      var op := before.lastOperation;
      if before.socketError == Failed then
        && gateOpen == gateBefore && events.items == eventsBefore
        && if op == SocketAsyncOperation.Accept && before.acceptSocket.None? then
             eventArgs.State() == before && pool.items == poolBefore && o == Threw(NullReference)
           else
             && eventArgs.State() == before.(remoteEndPoint := None, acceptSocket := None)
             && pool.items == poolBefore + [eventArgs] && o == Done
      else if op == SocketAsyncOperation.Accept then
        && eventArgs.State() == before.(remoteEndPoint := None, acceptSocket := None)
        && AcceptHandled(before.acceptSocket, eventsBefore) && pool.items == poolBefore
        && gateOpen && o == (if gateBefore then Threw(SemaphoreFull) else Done)
      else if op == SocketAsyncOperation.Connect then
        && eventArgs.State() == before.(remoteEndPoint := None, acceptSocket := None)
        && events.items == eventsBefore + [AsyncEvent(ConnectionAccepted, this, None)]
        && pool.items == poolBefore + [eventArgs] && gateOpen == gateBefore && o == Done
      else if op == SocketAsyncOperation.Receive then
        ReceiveHandled(eventArgs, before, window, tryRead, poolBefore, eventsBefore, o) && gateOpen == gateBefore
      else if op == SocketAsyncOperation.Send then
        && eventArgs.State() == before
        && events.items == eventsBefore + [AsyncEvent(DataSent, this, None)]
        && pool.items == poolBefore + [eventArgs] && gateOpen == gateBefore && o == Done
      else
        eventArgs.State() == before && pool.items == poolBefore && events.items == eventsBefore
        && gateOpen == gateBefore && o == Done
    }

    /** `OperationCompleted`: the `Completed` callback of every context this wrapper subscribed to. */
    method OperationCompleted(eventArgs: SocketAsyncEventArgs, tryRead: Framer) returns (o: Outcome)
      requires PoolValid() && eventArgs.Valid()
      modifies this, eventArgs, pool, events
      ensures PoolValid() && acceptEventArgs == old(acceptEventArgs)
      ensures CompletionHandled(eventArgs, old(eventArgs.State()), old(Contents(eventArgs.buffer)), tryRead,
                                old(gateOpen), old(pool.items), old(events.items), o)
      ensures old(eventArgs.socketError) == Succeeded && old(eventArgs.lastOperation) == SocketAsyncOperation.Accept ==>
        var peer := events.items[|old(events.items)|].peer;
        fresh(peer) && peer.acceptEventArgs == null && peer.gateOpen
    {
      if eventArgs.socketError == Failed {
        if eventArgs.lastOperation == SocketAsyncOperation.Accept {
          if eventArgs.acceptSocket.None? {
            return Threw(NullReference);
          }
        }
        CleanUp(eventArgs);
        pool.Push(eventArgs);
        return Done;
      }
      o := Done;
      if eventArgs.lastOperation == SocketAsyncOperation.Accept {
        o := HandleAccept(eventArgs);
      } else if eventArgs.lastOperation == SocketAsyncOperation.Connect {
        HandleConnect(eventArgs);
      } else if eventArgs.lastOperation == SocketAsyncOperation.Receive {
        o := HandleReceive(eventArgs, tryRead);
      } else if eventArgs.lastOperation == SocketAsyncOperation.Send {
        HandleSend(eventArgs);
      }
    }

    /**
     * The OS completes the pending operation of `eventArgs` with `c` and raises its
     * `Completed` event, which runs the subscribed wrapper's `OperationCompleted`.
     */
    method Complete(eventArgs: SocketAsyncEventArgs, c: Completion, tryRead: Framer) returns (o: Outcome)
      requires eventArgs.completed == this
      requires PoolValid() && eventArgs.Valid()
      modifies this, eventArgs, eventArgs.buffer, pool, events
      ensures PoolValid() && acceptEventArgs == old(acceptEventArgs)
      ensures Contents(eventArgs.buffer) == ContentsAfterCompletion(old(Contents(eventArgs.buffer)), old(eventArgs.State()), c)
      ensures CompletionHandled(eventArgs, AfterCompletion(old(eventArgs.State()), c),
                                ContentsAfterCompletion(old(Contents(eventArgs.buffer)), old(eventArgs.State()), c),
                                tryRead, old(gateOpen), old(pool.items), old(events.items), o)
    {
      OsComplete(eventArgs, c);
      o := OperationCompleted(eventArgs, tryRead);
    }

    /**
     * `Accept`: a no-op while the gate is taken. Otherwise it takes the gate and starts an
     * accept on the dedicated context; a wrapper without a socket raises
     * `NullReferenceException`, and one without an accept context `ArgumentNullException`,
     * both with the gate left taken. An immediate completion is handled whatever its socket
     * error, so it publishes `NewClient` even for a failed accept.
     */
    method Accept(issue: Issue) returns (r: CallResult)
      modifies this, events, acceptEventArgs
      ensures acceptEventArgs == old(acceptEventArgs)
      ensures !old(gateOpen) ==>
        r == Dropped && !gateOpen && events.items == old(events.items)
        && (acceptEventArgs != null ==> acceptEventArgs.State() == old(acceptEventArgs.State()))
      ensures old(gateOpen) && socket.None? ==>
        r == Raised(NullReference) && !gateOpen && events.items == old(events.items)
        && (acceptEventArgs != null ==> acceptEventArgs.State() == old(acceptEventArgs.State()))
      ensures old(gateOpen) && socket.Some? && acceptEventArgs == null ==>
        r == Raised(ArgumentNull) && !gateOpen && events.items == old(events.items)
      ensures old(gateOpen) && socket.Some? && acceptEventArgs != null && issue.Pending? ==>
        && r == IssuedPending && !gateOpen && events.items == old(events.items)
        && acceptEventArgs.State() == old(acceptEventArgs.State()).(lastOperation := SocketAsyncOperation.Accept)
      ensures old(gateOpen) && socket.Some? && acceptEventArgs != null && issue.Immediate? ==>
        var s := AfterCompletion(old(acceptEventArgs.State()).(lastOperation := SocketAsyncOperation.Accept), issue.completion);
        && r == HandledSync(Done) && gateOpen
        && acceptEventArgs.State() == s.(remoteEndPoint := None, acceptSocket := None)
        && AcceptHandled(issue.completion.acceptSocket, old(events.items))
        && fresh(events.items[|old(events.items)|].peer)
    {
      if !gateOpen {
        return Dropped;
      }
      gateOpen := false;
      if socket.None? {
        return Raised(NullReference);
      }
      var eventArgs := acceptEventArgs;
      if eventArgs == null {
        return Raised(ArgumentNull);
      }
      eventArgs.lastOperation := SocketAsyncOperation.Accept;
      if issue.Pending? {
        return IssuedPending;
      }
      eventArgs.socketError := if issue.completion.success then Succeeded else Failed;
      eventArgs.acceptSocket := issue.completion.acceptSocket;
      eventArgs.bytesTransferred := 0;
      var o := HandleAccept(eventArgs);
      return HandledSync(o);
    }

    /**
     * `Connect`: pops a context (a silent drop when the pool is empty), records the end point
     * and starts the connect; a wrapper without a socket raises `NullReferenceException`
     * there, and the popped context is lost.
     */
    method Connect(endPoint: Net.EndPoint, issue: Issue) returns (r: CallResult)
      requires PoolValid()
      modifies pool, events, Next()
      ensures PoolValid()
      ensures old(pool.items) == [] ==>
        r == Dropped && pool.items == [] && events.items == old(events.items)
      ensures old(pool.items) != [] && socket.None? ==>
        && r == Raised(NullReference) && pool.items == old(Rest()) && events.items == old(events.items)
        && old(Next()).State() == old(Next().State()).(remoteEndPoint := Some(endPoint))
      ensures old(pool.items) != [] && socket.Some? && issue.Pending? ==>
        && r == IssuedPending && pool.items == old(Rest()) && events.items == old(events.items)
        && old(Next()).State() == old(Next().State()).(remoteEndPoint := Some(endPoint), lastOperation := SocketAsyncOperation.Connect)
      ensures old(pool.items) != [] && socket.Some? && issue.Immediate? ==>
        var s := AfterCompletion(old(Next().State()).(lastOperation := SocketAsyncOperation.Connect), issue.completion);
        && r == HandledSync(Done) && pool.items == old(pool.items)
        && events.items == old(events.items) + [AsyncEvent(ConnectionAccepted, this, None)]
        && old(Next()).State() == s.(remoteEndPoint := None, acceptSocket := None)
    {
      var eventArgs := TakeNext();
      if eventArgs == null {
        return Dropped;
      }
      eventArgs.remoteEndPoint := Some(endPoint);
      if socket.None? {
        return Raised(NullReference);
      }
      eventArgs.lastOperation := SocketAsyncOperation.Connect;
      if issue.Pending? {
        return IssuedPending;
      }
      OsComplete(eventArgs, issue.completion);
      HandleConnect(eventArgs);
      return HandledSync(Done);
    }

    /**
     * `Send`: pops a context (a silent drop when the pool is empty), copies `bytes` into the
     * shared buffer at the context's offset, sets its `Count` to `|bytes|` for good and
     * starts the send. The copy throws, and the popped context is lost, when the context
     * has no buffer or the bytes run past the end of the shared buffer; bytes that only
     * run past the context's chunk overwrite the next chunk (see `ChunkWriteFootprint`).
     * A wrapper without a socket raises `NullReferenceException` after the copy and the new
     * `Count`, and the context is lost too.
     */
    method Send(bytes: seq<bv8>, issue: Issue) returns (r: CallResult)
      requires PoolValid()
      modifies pool, events, Next(), NextBuffer()
      ensures PoolValid()
      ensures old(pool.items) == [] ==>
        r == Dropped && pool.items == [] && events.items == old(events.items)
      ensures old(pool.items) != [] && old(Next().buffer) == null ==>
        && r == Raised(ArgumentNull) && pool.items == old(Rest()) && events.items == old(events.items)
        && old(Next()).State() == old(Next().State())
      ensures old(pool.items) != [] && old(Next().buffer) != null ==>
        var c, b := old(Next()), old(Next().buffer);
        if old(c.offset) + |bytes| > b.Length then
          && r == Raised(Argument) && pool.items == old(Rest()) && events.items == old(events.items)
          && c.State() == old(c.State()) && b[..] == old(b[..])
        else
          var s := old(c.State()).(count := |bytes|, lastOperation := SocketAsyncOperation.Send);
          && b[..] == BlockCopy(old(b[..]), old(c.offset), bytes)
          && (socket.None? ==>
                && r == Raised(NullReference) && c.State() == old(c.State()).(count := |bytes|)
                && pool.items == old(Rest()) && events.items == old(events.items))
          && (socket.Some? && issue.Pending? ==>
                r == IssuedPending && c.State() == s && pool.items == old(Rest()) && events.items == old(events.items))
          && (socket.Some? && issue.Immediate? ==>
                && r == HandledSync(Done) && c.State() == AfterCompletion(s, issue.completion)
                && pool.items == old(pool.items)
                && events.items == old(events.items) + [AsyncEvent(DataSent, this, None)])
    {
      var eventArgs := TakeNext();
      if eventArgs == null {
        return Dropped;
      }
      var buffer := eventArgs.buffer;
      if buffer == null {
        return Raised(ArgumentNull);
      }
      if eventArgs.offset + |bytes| > buffer.Length {
        return Raised(Argument);
      }
      CopyToWindow(eventArgs, bytes);
      if socket.None? {
        return Raised(NullReference);
      }
      eventArgs.lastOperation := SocketAsyncOperation.Send;
      if issue.Pending? {
        return IssuedPending;
      }
      OsComplete(eventArgs, issue.completion);
      HandleSend(eventArgs);
      return HandledSync(Done);
    }

    /**
     * `Receive`: pops a context (a silent drop when the pool is empty) and starts a receive
     * into its current window; an immediate completion is handled by the receive handler.
     * A wrapper without a socket raises `NullReferenceException`, and the popped context is lost.
     */
    method Receive(issue: Issue, tryRead: Framer) returns (r: CallResult)
      requires PoolValid()
      modifies pool, events, Next(), NextBuffer()
      ensures PoolValid()
      ensures old(pool.items) == [] ==>
        r == Dropped && pool.items == [] && events.items == old(events.items)
      ensures old(pool.items) != [] && socket.None? ==>
        && r == Raised(NullReference) && pool.items == old(Rest()) && events.items == old(events.items)
        && old(Next()).State() == old(Next().State())
        && Contents(old(Next()).buffer) == old(Contents(Next().buffer))
      ensures old(pool.items) != [] && socket.Some? && issue.Pending? ==>
        && r == IssuedPending && pool.items == old(Rest()) && events.items == old(events.items)
        && old(Next()).State() == old(Next().State()).(lastOperation := SocketAsyncOperation.Receive)
        && Contents(old(Next()).buffer) == old(Contents(Next().buffer))
      ensures old(pool.items) != [] ==> old(Next().Valid())
      ensures old(pool.items) != [] && socket.Some? && issue.Immediate? ==>
        var c := old(Next());
        var s := old(c.State()).(lastOperation := SocketAsyncOperation.Receive);
        var w := ContentsAfterCompletion(old(Contents(c.buffer)), s, issue.completion);
        && Contents(c.buffer) == w
        && r.HandledSync?
        && ReceiveHandled(c, AfterCompletion(s, issue.completion), w, tryRead, old(Rest()), old(events.items), r.outcome)
    {
      var eventArgs := TakeNext();
      if eventArgs == null {
        return Dropped;
      }
      if socket.None? {
        return Raised(NullReference);
      }
      eventArgs.lastOperation := SocketAsyncOperation.Receive;
      if issue.Pending? {
        return IssuedPending;
      }
      OsComplete(eventArgs, issue.completion);
      var o := HandleReceive(eventArgs, tryRead);
      return HandledSync(o);
    }
  }
}
