/**
 * Runs of a wrapper made by `Create`, driven call by call, that show how the engine's
 * pieces interact: the accept gate after a failed accept, the receive window a send
 * leaves behind, a long send overwriting a send still in flight, and the peer that
 * events of client operations name.
 */
module Scenarios {
  import opened Wrappers
  import opened EventArgs
  import opened SharedBuffer
  import opened SocketWrapper

  /**
   * A failed pending accept pushes the dedicated accept context, which has no chunk,
   * into the shared pool and never reopens the gate: every later `Accept` is a no-op,
   * and the next `Send` pops that context and throws `ArgumentNullException`, losing it.
   * If the failed accept carries no socket, closing it throws instead and nothing is pushed.
   */
  method FailedAcceptClosesGate(poolSize: nat, chunkSize: nat, accepted: Option<Socket>, later: Issue,
                                bytes: seq<bv8>, tryRead: Framer)
    returns (first: CallResult, failure: Outcome, second: CallResult, gateOpen: bool, send: CallResult)
    requires chunkSize * poolSize <= Int32Max
    ensures first == IssuedPending
    ensures failure == if accepted.Some? then Done else Threw(NullReference)
    ensures second == Dropped && !gateOpen
    ensures accepted.Some? ==> send == Raised(ArgumentNull)
  {
    var events := new EventQueue();
    var server := AsyncSocketWrapper.Create(Socket(0), events, poolSize, chunkSize);
    first := server.Accept(Pending);
    failure := server.Complete(server.acceptEventArgs, Completion(false, [], accepted), tryRead);
    second := server.Accept(later);
    gateOpen := server.gateOpen;
    send := server.Send(bytes, later);
  }

  /**
   * `Send` leaves the context's `Count` at the length sent: when the same context is
   * popped by the next `Receive`, it takes at most that many bytes, not a whole chunk.
   */
  method SendShrinksReceiveWindow(poolSize: nat, chunkSize: nat, bytes: seq<bv8>, data: seq<bv8>, tryRead: Framer)
    returns (sent: CallResult, window: nat, transferred: nat)
    requires 0 < poolSize && chunkSize * poolSize <= Int32Max && |bytes| <= chunkSize
    ensures sent == HandledSync(Done)
    ensures window == |bytes|
    ensures transferred == if |data| < |bytes| then |data| else |bytes|
  {
    var events := new EventQueue();
    var server := AsyncSocketWrapper.Create(Socket(0), events, poolSize, chunkSize);
    var context := server.pool.items[poolSize - 1];
    assert server.Pooled(context, context.buffer, chunkSize, poolSize, poolSize - 1);
    ChunkInBounds(chunkSize, poolSize, 0);
    sent := server.Send(bytes, Immediate(Completion(true, [], None)));
    assert server.Next() == context;
    var _ := server.Receive(Immediate(Completion(true, data, None)), tryRead);
    window := context.count;
    transferred := context.bytesTransferred;
  }

  /**
   * A pending `Send` longer than a chunk spills into the next chunk; the next `Send`
   * pops the context of that chunk and overwrites the spilled bytes while the first
   * send, whose window still covers them, is in flight.
   */
  method LongSendIsOverwritten(poolSize: nat, chunkSize: nat, long: seq<bv8>, short: seq<bv8>)
    returns (firstOffset: nat, firstCount: nat, arena: seq<bv8>)
    requires 2 <= poolSize && chunkSize * poolSize <= Int32Max
    requires chunkSize < |long| <= chunkSize * poolSize && |short| <= chunkSize
    ensures firstOffset == 0 && firstCount == |long|
    ensures |arena| == chunkSize * poolSize
    ensures forall p :: chunkSize <= p < chunkSize + |short| ==> arena[p] == short[p - chunkSize]
    ensures forall p :: chunkSize + |short| <= p < |long| ==> arena[p] == long[p]
  {
    var events := new EventQueue();
    var server := AsyncSocketWrapper.Create(Socket(0), events, poolSize, chunkSize);
    var first := server.pool.items[poolSize - 1];
    var next := server.pool.items[poolSize - 2];
    var buffer := first.buffer;
    assert server.Pooled(first, buffer, chunkSize, poolSize, poolSize - 1);
    assert server.Pooled(next, buffer, chunkSize, poolSize, poolSize - 2);
    ChunkInBounds(chunkSize, poolSize, 1);
    var before := buffer[..];
    var _ := server.Send(long, Pending);
    var middle := buffer[..];
    assert middle == BlockCopy(before, 0, long);
    firstOffset, firstCount := first.offset, first.count;
    assert server.Next() == next && next.offset == chunkSize;
    var _ := server.Send(short, Pending);
    arena := buffer[..];
    assert arena == BlockCopy(middle, chunkSize, short);
  }

  /**
   * An accept that completes synchronously is handled whatever its socket error, so a
   * failed one without a socket still publishes `NewClient`, for a client wrapper with no
   * socket: its first `Receive` pops a context and throws `NullReferenceException`,
   * and that context never returns to the shared pool.
   */
  method SocketlessClientLosesContext(poolSize: nat, chunkSize: nat, issue: Issue, tryRead: Framer)
    returns (published: AsyncOperation, received: CallResult, pooled: nat)
    requires 0 < poolSize && chunkSize * poolSize <= Int32Max
    ensures published == NewClient && received == Raised(NullReference) && pooled == poolSize - 1
  {
    var events := new EventQueue();
    var server := AsyncSocketWrapper.Create(Socket(0), events, poolSize, chunkSize);
    var _ := server.Accept(Immediate(Completion(false, [], None)));
    var client := events.items[0].peer;
    published := events.items[0].operation;
    received := client.Receive(issue, tryRead);
    pooled := |server.pool.items|;
  }

  /**
   * A client made by an accept shares the server's pool, and every pooled context
   * completes to the server: the `DataSent` event of a client's pending send names the
   * server as its peer, not the client.
   */
  method ClientEventsNameServer(poolSize: nat, chunkSize: nat, accepted: Socket, bytes: seq<bv8>, tryRead: Framer)
    returns (clientIsServer: bool, peerIsServer: bool, sentOperation: AsyncOperation)
    requires 0 < poolSize && chunkSize * poolSize <= Int32Max && |bytes| <= chunkSize
    ensures !clientIsServer && peerIsServer && sentOperation == DataSent
  {
    var events := new EventQueue();
    var server := AsyncSocketWrapper.Create(Socket(0), events, poolSize, chunkSize);
    var context := server.pool.items[poolSize - 1];
    assert server.Pooled(context, context.buffer, chunkSize, poolSize, poolSize - 1);
    ChunkInBounds(chunkSize, poolSize, 0);
    var _ := server.Accept(Immediate(Completion(true, [], Some(accepted))));
    var client := events.items[0].peer;
    var _ := client.Send(bytes, Pending);
    var _ := server.Complete(context, Completion(true, [], None), tryRead);
    var last := events.items[|events.items| - 1];
    clientIsServer := client == server;
    peerIsServer := last.peer == server;
    sentOperation := last.operation;
  }
}
