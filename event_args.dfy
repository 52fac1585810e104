/**
 * The parts of .NET's `SocketAsyncEventArgs` (an I/O context) that the engine uses,
 * and the `UserToken` record attached to it
 * (src/AsyncSocket.Core/IoCompletionPort/UserToken.cs).
 */
module EventArgs {
  import opened Wrappers
  import Net

  /** The .NET exceptions the modelled code can raise. */
  datatype Exception =
    | InvalidOperation  // InvalidOperationException
    | ArgumentNull      // ArgumentNullException
    | Argument          // ArgumentException
    | NullReference     // NullReferenceException
    | SemaphoreFull     // SemaphoreFullException

  /** A call that returns normally or raises an exception. */
  datatype Outcome = Done | Threw(exception: Exception)

  /** An OS socket, by handle; its I/O is not modelled. */
  datatype Socket = Socket(handle: nat)

  /** `SocketAsyncOperation`: the kind of the context's last operation. */
  datatype SocketAsyncOperation = NoOperation | Accept | Connect | Receive | Send

  /**
   * The state of the message framer kept on a token (`IncomingMessage`): only the
   * body frame's bytes and received count, which the receive handler copies out.
   */
  datatype IncomingMessage = IncomingMessage(bodyFrameBytes: seq<bv8>, bodyBytesReceived: nat)

  const EmptyMessage := IncomingMessage([], 0)

  /**
   * `UserToken`: the chunk's offset in the shared buffer and the wrapper that created
   * the context (typed `object` here; it is always an `AsyncSocketWrapper`).
   */
  datatype UserToken = UserToken(heapBufferOffset: int, socket: object, incomingMessage: IncomingMessage)

  /** `SocketError`: `Success`, or any failure (the failure codes are not distinguished). */
  datatype SocketError = Succeeded | Failed

  /** A snapshot of every field of an I/O context. */
  datatype ContextState = ContextState(
    buffer: array?<bv8>, offset: nat, count: nat, userToken: Option<UserToken>,
    remoteEndPoint: Option<Net.EndPoint>, acceptSocket: Option<Socket>,
    lastOperation: SocketAsyncOperation, bytesTransferred: nat, socketError: SocketError,
    completed: object?)

  /**
   * An I/O context. `buffer == null` until a buffer is set; `bytesTransferred` and
   * `socketError` are written by the OS when an operation completes; `completed` is the
   * wrapper subscribed to the `Completed` event, if any.
   */
  class SocketAsyncEventArgs {
    var buffer: array?<bv8>
    var offset: nat
    var count: nat
    var userToken: Option<UserToken>
    var remoteEndPoint: Option<Net.EndPoint>
    var acceptSocket: Option<Socket>
    var lastOperation: SocketAsyncOperation
    var bytesTransferred: nat
    var socketError: SocketError
    var completed: object?

    function State(): ContextState
      reads this
    {
      ContextState(buffer, offset, count, userToken, remoteEndPoint, acceptSocket,
                   lastOperation, bytesTransferred, socketError, completed)
    }

    /** The window `[offset, offset + count)` lies inside the buffer (`SetBuffer` enforces it). */
    ghost predicate Valid()
      reads this
    {
      if buffer == null then offset == 0 && count == 0 else offset + count <= buffer.Length
    }

    constructor ()
      ensures Valid()
      ensures State() == ContextState(null, 0, 0, None, None, None, NoOperation, 0, Succeeded, null)
    {
      buffer := null;
      offset := 0;
      count := 0;
      userToken := None;
      remoteEndPoint := None;
      acceptSocket := None;
      lastOperation := NoOperation;
      bytesTransferred := 0;
      socketError := Succeeded;
      completed := null;
    }

    /** `SetBuffer(buffer, offset, count)`; the range checks it makes always pass where it is called. */
    method SetBuffer(buf: array<bv8>, off: nat, cnt: nat)
      requires off + cnt <= buf.Length
      modifies this
      ensures Valid()
      ensures State() == old(State()).(buffer := buf, offset := off, count := cnt)
    {
      buffer, offset, count := buf, off, cnt;
    }

    /** `SetBuffer(offset, count)`: moves the window over the buffer already set. */
    method SetWindow(off: nat, cnt: nat)
      requires buffer != null && off + cnt <= buffer.Length
      modifies this
      ensures Valid()
      ensures State() == old(State()).(offset := off, count := cnt)
    {
      offset, count := off, cnt;
    }
  }
}
