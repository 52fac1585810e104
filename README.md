# async-socket engine core in Dafny

This project models the I/O engine of the async-socket library. It has the following parts:

- **`Pool<T>`** (`pool.dfy`) is a last-in-first-out stack of reusable instances. `Pop` on an empty pool returns `default(T)`.
- **`SaeaSharedBuffer`** (`shared_buffer.dfy`) is one arena of `chunkSize * poolSize` bytes. It hands out equal, disjoint chunks to `SocketAsyncEventArgs` contexts, popping chunk ids from a stack that starts as `0 .. poolSize-1` with the last id on top.
- **`SocketAsyncEventArgs`** (`event_args.dfy`) is modelled as a class. Its only fields are those the engine reads or writes: buffer window, user token, remote end point, accepted socket, last operation, bytes transferred, socket error, and the subscriber of its `Completed` event. This file also holds `UserToken`, which is a value.
- **`AsyncSocketWrapper`** (`socket_wrapper.dfy`) is covered in full:
  - `Create` builds the context pool over a fresh arena and builds the dedicated accept context.
  - A one-slot gate (the `SemaphoreSlim(1, 1)`) sits in front of `Accept`.
  - `Connect`, `Send` and `Receive` pop a pooled context.
  - A completion callback dispatches to the accept, connect, send and receive handlers.
  - Handlers publish `AsyncEvent`s to an event queue.
- **The `Address(string)` constructor** (`address.dfy`) matches `(\w*)://(.+):(\d+)` with leftmost-first, greedy semantics. It then parses the protocol, the host and the port, and builds an `IPEndPoint` or a `DnsEndPoint`.
- **`scenarios.dfy`** drives a wrapper built by `Create` through short call sequences. Each one shows how the pieces interact.

The operating system is a parameter:

- Each asynchronous call takes an `Issue`:
  - `Pending` means the operation was started, and its completion arrives later through `Complete`.
  - `Immediate(c)` means the operation completed synchronously with completion `c`.
- A `Completion` carries three things: success or failure, the bytes a receive delivers, and the socket an accept yields.
- `OsComplete` states what the OS writes into a context before its handler runs. A receive copies at most `Count` bytes into the context's window.

The message framer `Protocol.TryReadMessage` is a function parameter (`Framer`). The host parser `IPAddress.TryParse` is a parameter of `Net.Parse`.

Exceptions raised by the source are explicit outcomes (`Outcome.Threw`, `CallResult.Raised`), as is the state they leave behind.

Behaviours of the code worth knowing:

- A failed asynchronous accept does not return to the accept gate. The code puts the chunk-less accept context into the shared pool and never releases the gate, so every later `Accept` is a no-op.
- The event kind for an accepted client is `NewClient`, as the wrapper uses it. `AsyncEvent.cs` still says `NewConnection`.
- An operation on an empty pool returns silently, with no event.
- An operation the OS completes synchronously (an accept, connect, send or receive whose `...Async` call returns `false`) goes straight to its handler, with no check of `SocketError`. Only the asynchronous callback checks for a socket error.

## Model

| member | source | states |
|---|---|---|
| Pool.Pool.constructor | src/AsyncSocket.Core/Patterns/Pool.cs:28-31 | a new pool is empty |
| Pool.Pool.Pop | src/AsyncSocket.Core/Patterns/Pool.cs:45-52 | removes and returns the most recently pushed item; on an empty pool returns `None` (`default(T)`) and changes nothing; the count drops by one exactly when an item is returned |
| Pool.Pool.Push | src/AsyncSocket.Core/Patterns/Pool.cs:59-62 | the item goes on top, the count grows by one, and the next pop returns exactly that item and restores the previous contents |
| Pool.Popped | src/AsyncSocket.Core/Patterns/Pool.cs:45-52 | pop on an empty stack yields `None` and the empty stack; otherwise it yields the top item and a stack that, with that item pushed back, is the original |
| Pool.CountConservation | src/AsyncSocket.Core/Patterns/Pool.cs:36-62 | over any sequence of pushes and pops, items left plus items handed out equals the initial count plus the pushes: the pool never loses or invents an item |
| Pool.LastInFirstOut | src/AsyncSocket.Core/Patterns/Pool.cs:45-62 | pushing `xs` and then popping `|xs|` times returns `xs` in reverse order and leaves the pool as it was |
| Pool.DuplicatePush | src/AsyncSocket.Core/Patterns/Pool.cs:59-62 | the pool does not deduplicate: pushing the same item twice makes two pops return it twice |
| Pool.PopEmpty | src/AsyncSocket.Core/Patterns/Pool.cs:45-52 | any number of pops on an empty pool all yield `None` and leave it empty |
| SharedBuffer.ChunkInBounds | src/AsyncSocket.Core/IoCompletionPort/SaeaSharedBuffer.cs:70-75 | every chunk id below the pool size names a window that lies inside the arena |
| SharedBuffer.ChunksDisjoint | src/AsyncSocket.Core/IoCompletionPort/SaeaSharedBuffer.cs:70-75 | the windows of two different chunk ids do not overlap |
| SharedBuffer.InitialChunkIds | src/AsyncSocket.Core/IoCompletionPort/SaeaSharedBuffer.cs:45 | the initial id stack holds each id `0 .. n-1` exactly once, with `n-1` on top |
| SharedBuffer.SaeaSharedBuffer.constructor | src/AsyncSocket.Core/IoCompletionPort/SaeaSharedBuffer.cs:37-46 | a zero-filled arena of `chunkSize * poolSize` bytes, with every chunk id available and none handed out |
| SharedBuffer.SaeaSharedBuffer.AssignBuffer | src/AsyncSocket.Core/IoCompletionPort/SaeaSharedBuffer.cs:63-82 | succeeds exactly when an id is left: pops the top id and sets the context's window to that chunk, with every other context field unchanged; otherwise throws `InvalidOperationException` and changes nothing; a handed-out id is never handed out again |
| SharedBuffer.ExhaustFreshBuffer | src/AsyncSocket.Core/IoCompletionPort/SaeaSharedBuffer.cs:37-82 | on a fresh arena the first `poolSize` assignments get offsets of chunks `poolSize-1` down to `0`, and one more assignment throws `InvalidOperationException` |
| EventArgs.SocketAsyncEventArgs.SetBuffer | src/AsyncSocket.Core/IoCompletionPort/SaeaSharedBuffer.cs:72-75 | sets buffer, offset and count, and no other field |
| EventArgs.SocketAsyncEventArgs.SetWindow | src/AsyncSocket.Core/IoCompletionPort/AsyncSocketWrapper.cs:186 | sets offset and count on the current buffer, and no other field |
| Net.TryParseProtocol | src/AsyncSocket.Core/Net/Address.cs:47 | accepts `tcp` in any letter case as `Tcp`; a string starting with a digit is accepted exactly when it is a numeral that fits in an `int`, as the protocol with that value; rejects everything else |
| Net.ShortNumeralParses | src/AsyncSocket.Core/Net/Address.cs:81 | every digit string of at most nine digits is accepted by `int.TryParse`, with its decimal value |
| Net.LeadingZeroIgnored | src/AsyncSocket.Core/Net/Address.cs:81 | a leading `0` changes neither whether a digit string parses nor the value it yields |
| Net.FirstMatchFirst | src/AsyncSocket.Core/Net/Address.cs:25 | the scan returns a match at the leftmost start where one exists, and no start before it has a match |
| Net.RegexMatchSpec | src/AsyncSocket.Core/Net/Address.cs:25-35 | a returned match is the leftmost-first, greedy match of `(\w*)://(.+):(\d+)`; no match is returned exactly when the string has none |
| Net.RegexMatchUnique | src/AsyncSocket.Core/Net/Address.cs:25-35 | the leftmost-first, greedy match is unique |
| Net.Parse | src/AsyncSocket.Core/Net/Address.cs:31-96 | on success: keeps the original string, and the address's port is its end point's port and lies in `0 .. Int32.MaxValue` |
| Net.ParseRejectsUnmatched | src/AsyncSocket.Core/Net/Address.cs:35-40 | the format error is raised exactly when the string does not match the pattern |
| Net.ParseProtocol | src/AsyncSocket.Core/Net/Address.cs:43-52 | on a match, the protocol error is raised exactly when the protocol group does not parse; on success the address carries the parsed protocol; with a `tcp` scheme the only possible failure is the port |
| Net.HostIsGreedy | src/AsyncSocket.Core/Net/Address.cs:25 | the host group is never empty and runs to the last colon followed by a digit on the line containing the matched `://`, so `a:1:2` has host `a:1` |
| Net.ParseEndPoint | src/AsyncSocket.Core/Net/Address.cs:55-95 | a host the IP parser accepts gives an `IPEndPoint` on that address; any other host gives a `DnsEndPoint` on the host text; both use the parsed port |
| Net.ParsePort | src/AsyncSocket.Core/Net/Address.cs:77-86 | the port group is the whole digit run after the last colon followed by a digit on the line containing the matched `://` (so `tcp://h:1:x` has port `1`); the port error is raised exactly when its value exceeds `Int32.MaxValue`; otherwise the port is that value |
| SocketWrapper.BlockCopy | src/AsyncSocket.Core/IoCompletionPort/AsyncSocketWrapper.cs:183 | the copy keeps the length, places `src` at the offset, and leaves every other byte as it was |
| SocketWrapper.CopyInto | src/AsyncSocket.Core/IoCompletionPort/AsyncSocketWrapper.cs:183 | the in-place byte copy leaves the array equal to `BlockCopy` of its old contents |
| SocketWrapper.CopyToWindow | src/AsyncSocket.Core/IoCompletionPort/AsyncSocketWrapper.cs:183-186 | the bytes land in the shared buffer at the context's offset, as `BlockCopy` describes, and the context's `Count` becomes their length, with every other field kept |
| SocketWrapper.ChunkWriteFootprint | src/AsyncSocket.Core/IoCompletionPort/AsyncSocketWrapper.cs:183-186 | a send that fits its chunk leaves every other chunk's bytes untouched; a longer one writes its tail into the following chunks |
| SocketWrapper.OsComplete | src/AsyncSocket.Core/IoCompletionPort/AsyncSocketWrapper.cs:136-211 | a completion sets the socket error, the accepted socket (accept only) and the bytes transferred: a receive gets at most `Count` bytes, written into its window, and a send gets its `Count`; no other field changes |
| SocketWrapper.ReceivedPayload | src/AsyncSocket.Core/IoCompletionPort/AsyncSocketWrapper.cs:334-339 | the event buffer is `BytesTransferred` bytes long: the message body's received bytes first, then zeros |
| SocketWrapper.ReceiveStep | src/AsyncSocket.Core/IoCompletionPort/AsyncSocketWrapper.cs:322-348 | without a token nothing happens; otherwise the framer's updated message is kept; an incomplete message delivers nothing; a complete one delivers the payload, unless `BytesTransferred` is 0 (`ArgumentNullException`) or the body's received count exceeds the body or the event buffer (`ArgumentException`) |
| SocketWrapper.EventQueue.TryAdd | src/AsyncSocket.Core/IoCompletionPort/AsyncSocketWrapper.cs:24 | always adds, at the back |
| SocketWrapper.EventQueue.TryTake | src/AsyncSocket.Core/IoCompletionPort/AsyncSocketWrapper.cs:24 | takes the oldest event, or reports that the queue is empty |
| SocketWrapper.AsyncSocketWrapper.constructor | src/AsyncSocket.Core/IoCompletionPort/AsyncSocketWrapper.cs:48-58 | keeps the given socket, pool and queue, with no accept context and the gate open |
| SocketWrapper.AsyncSocketWrapper.AddContext | src/AsyncSocket.Core/IoCompletionPort/AsyncSocketWrapper.cs:90-102 | a fresh context subscribed to this wrapper, given the next chunk, with a token holding its offset and this wrapper, pushed on the pool |
| SocketWrapper.AsyncSocketWrapper.Create | src/AsyncSocket.Core/IoCompletionPort/AsyncSocketWrapper.cs:66-106 | a fresh server whose pool holds `poolSize` distinct fresh contexts over one zeroed arena; the context at pool index `k` owns chunk `poolSize-1-k`; all windows are disjoint; the separate accept context has no buffer and completes to the server |
| SocketWrapper.AsyncSocketWrapper.PooledDisjoint | src/AsyncSocket.Core/IoCompletionPort/AsyncSocketWrapper.cs:88-103 | the contexts the loop of `Create` pools have pairwise disjoint windows, each later one below the earlier ones |
| SocketWrapper.AsyncSocketWrapper.GetEvent | src/AsyncSocket.Core/IoCompletionPort/AsyncSocketWrapper.cs:113-116 | returns the oldest published event and removes it, or `None` on an empty queue |
| SocketWrapper.AsyncSocketWrapper.CleanUp | src/AsyncSocket.Core/IoCompletionPort/AsyncSocketWrapper.cs:223-227 | clears the remote end point and the accepted socket, and nothing else |
| SocketWrapper.AsyncSocketWrapper.HandleAccept | src/AsyncSocket.Core/IoCompletionPort/AsyncSocketWrapper.cs:277-292 | publishes one `NewClient` event whose peer is a fresh wrapper on the accepted socket, sharing pool and queue and with no accept context; cleans the context, does not pool it, and opens the gate; releasing an open gate throws `SemaphoreFullException` after the event is published |
| SocketWrapper.AsyncSocketWrapper.HandleConnect | src/AsyncSocket.Core/IoCompletionPort/AsyncSocketWrapper.cs:298-305 | publishes `ConnectionAccepted` for this wrapper, cleans the context and pushes it back, keeping the pool invariant |
| SocketWrapper.AsyncSocketWrapper.HandleSend | src/AsyncSocket.Core/IoCompletionPort/AsyncSocketWrapper.cs:311-316 | publishes `DataSent` and pushes the context back without cleaning it |
| SocketWrapper.AsyncSocketWrapper.HandleReceive | src/AsyncSocket.Core/IoCompletionPort/AsyncSocketWrapper.cs:322-348 | acts as `ReceiveStep` decides: the token's message is updated even when no message is complete; only a delivered message cleans the context, pushes it back and publishes `DataReceived` with the payload; otherwise the context stays out of the pool |
| SocketWrapper.AsyncSocketWrapper.OperationCompleted | src/AsyncSocket.Core/IoCompletionPort/AsyncSocketWrapper.cs:234-271 | on a socket error: closes the accepted socket of a failed accept (`NullReferenceException` with none, nothing pooled), then cleans the context and pushes it, without an event or a gate release; otherwise dispatches on the last operation to exactly one handler |
| SocketWrapper.AsyncSocketWrapper.Complete | src/AsyncSocket.Core/IoCompletionPort/AsyncSocketWrapper.cs:234-271 | an asynchronous completion is the OS write followed by the subscribed callback, with the effect `OperationCompleted` states on the completed state |
| SocketWrapper.AsyncSocketWrapper.Accept | src/AsyncSocket.Core/IoCompletionPort/AsyncSocketWrapper.cs:121-142 | dropped while the gate is taken; otherwise takes the gate; a wrapper without a socket raises `NullReferenceException`, one without an accept context `ArgumentNullException`, and both keep the gate taken; a pending accept waits; a synchronous one runs the accept handler, whatever its socket error |
| SocketWrapper.AsyncSocketWrapper.Connect | src/AsyncSocket.Core/IoCompletionPort/AsyncSocketWrapper.cs:148-165 | dropped on an empty pool; otherwise the top context gets the end point; a wrapper without a socket then raises `NullReferenceException` and loses the context; pending leaves it out of the pool; synchronous runs the connect handler, which pools the context back |
| SocketWrapper.AsyncSocketWrapper.Send | src/AsyncSocket.Core/IoCompletionPort/AsyncSocketWrapper.cs:171-196 | dropped on an empty pool; otherwise copies the bytes into the arena at the top context's offset and sets its `Count` to their length; a context without a buffer or a copy past the arena's end raises and loses the context; a wrapper without a socket raises `NullReferenceException` after the copy and the new `Count`, and loses the context; synchronous completion runs the send handler |
| SocketWrapper.AsyncSocketWrapper.Receive | src/AsyncSocket.Core/IoCompletionPort/AsyncSocketWrapper.cs:201-217 | dropped on an empty pool; a wrapper without a socket raises `NullReferenceException` and loses the popped context; otherwise the top context starts a receive into its current window; synchronous completion has the effect `HandleReceive` states on the completed state |
| Scenarios.FailedAcceptClosesGate | src/AsyncSocket.Core/IoCompletionPort/AsyncSocketWrapper.cs:121-250 | after a failed asynchronous accept the gate stays taken, so the next accept is dropped; the accept context now in the pool makes the next send raise `ArgumentNullException`; a failed accept without a socket throws `NullReferenceException` |
| Scenarios.SendShrinksReceiveWindow | src/AsyncSocket.Core/IoCompletionPort/AsyncSocketWrapper.cs:186-211 | after a send of `n` bytes, the same context's next receive has a window of `n` bytes and takes at most `n` bytes |
| Scenarios.LongSendIsOverwritten | src/AsyncSocket.Core/IoCompletionPort/AsyncSocketWrapper.cs:173-190 | a pending send longer than a chunk spills into the next chunk, and the next send overwrites those bytes while the first send's window still covers them |
| Scenarios.SocketlessClientLosesContext | src/AsyncSocket.Core/IoCompletionPort/AsyncSocketWrapper.cs:136-217 | a failed synchronous accept without a socket still publishes `NewClient`; that client's first `Receive` throws `NullReferenceException` and its context never returns to the pool |
| Scenarios.ClientEventsNameServer | src/AsyncSocket.Core/IoCompletionPort/AsyncSocketWrapper.cs:283-313 | a client's pending send completes through the server's callback, so its `DataSent` event names the server as peer, not the client |

## Left out

- Concurrency is not modelled. `ConcurrentStack`, the event queue's thread safety and `SemaphoreSlim` become sequential state, and `Accept`'s one-millisecond `Wait` always succeeds when the gate is open.
- The socket I/O is an `Issue`/`Completion` parameter chosen by the caller, since the operating system is not visible. `Socket.Close` on the accepted socket is modelled only by whether it throws.
- `IPAddress.TryParse` is a function parameter, because the IP text grammar is not part of this code.
- DNS resolution is not part of this model, nor are the range checks the `IPEndPoint` and `DnsEndPoint` constructors apply to the port.
- Net.RegexMatchSpec: `\w` and `\d` are ASCII letters, digits and `_`, not the Unicode classes .NET uses by default.
- SharedBuffer.SaeaSharedBuffer.constructor: requires non-negative sizes whose product fits in a signed 32-bit integer. The C# multiplication wraps around otherwise, or the allocation throws, and neither is modelled.
- `SaeaSharedBuffer.Dispose` only throws `NotImplementedException`, and nothing in the core calls it.
- `Protocol.TryReadMessage` is not part of this model. It is the `Framer` parameter, and its effect on the message is whatever that function returns.
- `IncomingMessage`, which `UserToken.cs` does not show, is modelled as a body byte sequence plus a received-byte count that starts at zero.
- Null arguments are not modelled, because `seq`, the `EndPoint` datatype and `string` have no null:
  - `Send(null)` throws `NullReferenceException` inside the wrapper, when `bytes.Length` is evaluated for `Buffer.BlockCopy`.
  - `Connect(null)` is rejected by `ConnectAsync` with `ArgumentNullException`.
  - In both cases the popped context is lost from the pool.
  - `new Address(null)` throws `ArgumentNullException` from `Regex.Match`.
- SocketWrapper.AsyncSocketWrapper.Create: the C# default arguments (`poolSize = 20`, `chunkSize = 4096`) are not modelled; both sizes are always explicit.
- The wrapper accepts any `IProducerConsumerCollection<AsyncEvent>`; the model fixes it to a first-in-first-out queue (`EventQueue`), the `ConcurrentQueue` every caller passes.
- `Pool.Count` has no contract of its own. It is the length of the stack that `Pop` and `Push` specify.
- SocketWrapper.AsyncSocketWrapper.HandleAccept: the `SemaphoreFullException` path is modelled, but no sequential run reaches it, because the gate is always taken while an accept is pending.
- `AsyncSocket.cs`, the awaitable wrappers, `Peer`, `Replier`, `Requester`, `IAsyncSocket` and the console programs lie outside the engine core.
