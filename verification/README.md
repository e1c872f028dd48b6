# A verified model of libgep

libgep carries typed messages over a byte stream between one server and any number of clients.
This project models its hard parts in Dafny and proves what they promise together:

- the wire format and the receive buffer that is filled by reads of any size and emptied frame by
  frame in place (`Framing`, `Channel`);
- the sender, a loop of partial non-blocking sends against a deadline, run by many threads under one
  lock (`FullSend`, `Channel`, `Delivery`), what its result is worth (`Promise`), and the same over
  successive connections (`Connections`);
- the client's life of connecting, receiving, failing, closing and reconnecting (`Client`);
- the server's channel array with its identifiers, callbacks, descriptors and sends, and the thread
  that drives it (`Registry`, `Descriptors`, `Leaks`, `Server`);
- everything that happens to that array, interleaved, down to the callbacks of the clients
  (`Concurrent`, `Broadcast`);
- the order in which every call takes its locks (`Locks`);
- the byte-order macros, the header codec and the bounded printing loops (`Bytes`, `Protocol`,
  `Escape`).

## How it is built

Code that changes fields is a class whose fields are the source's (`GepChannel`, `SocketInterface`,
`GepClient`, `GepChannelArray`, `GepServer`), with loops where the source has loops. Each method is
proved against a function on an abstract state (`AfterRecv`, `AfterTurns`, `AfterReceive`, ...), and
the theorems are about those functions over every run. The channel array holds channel objects, each
with its own buffer and wire, and its methods are proved to change those of one channel only.
`Parse`, the specification of the framing loop, is in turn characterised without reference to the
code: it is the only way to split a stream into encodings of acceptable frames and a tail
(`ParseConserves`, `ParseUnique`). `Delivery` and `Concurrent` are systems of threads whose steps are the critical sections of that code;
`ThreadSendsAsSendTLV`, `ThreeStepsAreReceive` and `BroadcastIsSendAll` tie them back to it. What each
operation does is also stated in its own terms, without those functions' branches: when a send succeeds
(`SendsAll`, `SendSucceeds`), which frames are taken (`FrameIsTaken`, `LongerIsRefused`), and what each
turn of a loop and each operation of the array leads to (`ReadyTurn`, `StaysInLoop`, `ReceiveServes`,
`AcceptAdmits`, ...).

What the system decides is a parameter: what `send`, `recv`, `select`, `accept`, `connect` and the
clock return, when `thread_ctrl_` changes, and how threads interleave. A theorem about "every run"
ranges over all of these. The contracts assumed of the system are: `send` accepts a prefix of what it
is given, `recv` returns a non-empty prefix of what has arrived that fits the space offered, the
network delivers the bytes sent in order, `accept` and `socket` return descriptors that are not open,
and, for the two deadline theorems, the monotonic clock does not go back and a `select` that reports
a timeout has slept for as long as it was told. `Unserialize` is any predicate on a tag and a body;
callbacks are a log of the messages they were called with. Threads past the last turn that the
environment supplies are still running, which is how a loop without end is stated.

The main results:

1. `Channel.ChunkingIndependent`: however a stream is split into reads, the receive buffer dispatches
   what a parser of the whole stream dispatches, fails exactly when it does, and holds what it leaves.
2. `Delivery.OrderedDelivery`: for any threads, interleaving, failures and reads, a receiver that has
   read nothing written behind a torn frame has dispatched exactly the messages whose frames lie within
   what it has read, in lock order.
3. `Promise.ZeroMeansDeliveredUnlessBehindTorn`, `Promise.ZeroIsGuaranteedIffNoFailureBefore`: when a
   result of 0 means that the message arrives, by what is on the wire and by what a caller can see.
   `Connections.EveryConnectionStandsAlone`: both for each of a channel's successive connections.
4. `Framing.ParseTruncated` and `Client.ZeroOrOneAcrossReconnects`: a connection cut anywhere delivers
   exactly the frames received whole, over all the connections of a client's life.
5. `Client.EveryLife`: no byte of one connection is ever parsed with those of another, the reconnect
   counter adds up, and no descriptor is left open.
6. `Registry.RunKeepsInv`, `Registry.EveryClientOnce`, `Registry.StopLeavesOnlyRefused`,
   `Leaks.AcceptedLeaksIffFull`: identifiers, callbacks and descriptors over every run of the channel
   array; `Concurrent.EveryClientEndsOnce`: the same when others run between the critical sections of a
   receive.
7. `Broadcast.BroadcastsAreTotallyOrdered`, `Broadcast.ClientsDispatchSlices`, `Broadcast.ClientsAgree`:
   one total order of broadcasts, in the sends, on the wires and in the callbacks of the clients.
8. `Locks.SomebodyCanRun`, `Locks.NoCyclicWait`, `Locks.ServiceTurnIsDisciplined`: no deadlock.
9. `FullSend.ReturnsSizeIffAllSent`, `FullSend.TimeoutIsNotEarly`, `FullSend.FullSendEnds`.
10. `Escape.TagStringsDiffer`: two tags never print alike, although the escaping is ambiguous in general.

## Where the code does less than one might expect

- A send that fails after part of its frame has left neither closes the socket nor marks it. The next
  send on it is then not delivered although it returns 0, and a message that nobody sent can be
  dispatched in its place (`Promise.TornFrameSwallowsNext`), although include/gep_channel_array.h:37-40
  promises an error when a message does not arrive. The promise is kept for every completed send while
  none completes behind a torn frame, and broken for the next one to write behind the first
  (`Promise.ZeroMeansDeliveredUnlessBehindTorn`); a torn frame with nothing behind it does no harm.
  Several torn frames in a row can happen to make whole ones (`Promise.TornTwiceCanBeWhole`), and a send
  behind them is delivered exactly if the receiver is then between frames (`Promise.DeliveredIffBetween`).
- A caller does not learn whether a failed send has written anything. From the results alone it can
  conclude that a 0 means delivery exactly for those before the first failure on that channel
  (`Promise.ZeroIsGuaranteedIffNoFailureBefore`): after a -1 it should close the connection,
  which is enough (`Connections.EveryConnectionStandsAlone`).
- `SendTLV` does not look at the size of its message, so it returns 0 for messages that every receiver
  refuses, and a length past 32 bits wraps around. A completed send arrives as it was sent if and only
  if the receiver finds the message acceptable (`Framing.ReceivedIffAcceptable`).
- The comment on `kMaxMsgLen` gives the largest message with its header, but the guard is strict: the
  largest frame has one byte less.
- The two deadline tests of `FullSend` treat a negative timeout in opposite ways
  (`FullSend.DeadlineTests`), and close to the smallest integer the second one waits for as long as the
  clock can count (`FullSend.Patience`); libgep itself only passes 5.
- The descriptor of a client refused because the array is full is never closed
  (`Leaks.AcceptedLeaksIffFull`), which can happen for every limit that is not negative
  (`Leaks.LeakIsReachableIffLimited`).
- The buffer in which `RecvTLV` makes the text of a body that does not parse has room for four
  characters a byte and none for the terminator. For an empty body the first store is out of bounds;
  otherwise the text is complete exactly when some byte is printable (`Escape.UnpackableText`,
  `Channel.GepChannel.RecvTLV`). What follows such a store is undefined; `RecvString` goes on as if it
  had hit nothing.

## Model

| member | source | states |
|---|---|---|
| Bytes.ValueOfDigits | src/utils.h:19-41 | the big-endian digits of a number, read back, give the number, for any width that holds it |
| Bytes.DigitsOfValue | src/utils.h:19-41 | the number read from a byte string, written back at the same width, gives the bytes |
| Bytes.Value32OfBytes | src/utils.h:19-21 | the first of the four bytes is the most significant |
| Bytes.FourDigits | src/utils.h:35-41 | the four digits of a number are its bytes, the most significant first |
| Bytes.Uint32 | src/utils.h:19-21 | UINT32 reads from the buffer the number that its four bytes denote in big-endian order |
| Bytes.SetUint32 | src/utils.h:35-41 | SET_UINT32 writes the four big-endian digits in place and leaves the rest of the buffer alone |
| Protocol.ScanHeader | src/gep_protocol.cc:46-54 | reads magic, tag and length at their offsets and says whether the magic is the configured one |
| Protocol.PrintHeader | src/gep_protocol.cc:56-60 | writes the twelve header bytes in place and nothing beyond them |
| Protocol.HeaderLayout | README.md:272-295 | the twelve bytes of a header one by one: magic number, tag and length, each with its most significant byte first |
| Protocol.ScanPrinted | src/gep_protocol.cc:46-60 | what PrintHeader writes, ScanHeader accepts and reads back unchanged, whatever follows |
| Protocol.PrintScanned | src/gep_protocol.cc:46-60 | a header that ScanHeader accepts is byte for byte the one PrintHeader writes for its fields |
| Framing.HeadOfEncoded | src/gep_channel.cc:180-228 | the encoding of a message that fits is taken whole if the message is acceptable and refused as unparseable if not, whatever follows |
| Framing.HeadOfCut | src/gep_channel.cc:204-211 | no strict prefix of a frame is taken for a frame or for an error |
| Framing.WholeIsEncoded | src/gep_channel.cc:179-228 | a frame taken off a stream is acceptable and its encoding is what the stream starts with |
| Framing.HeadIsStable | src/gep_channel.cc:179-228 | once the head of a stream is decided, later bytes do not change the decision |
| Framing.ParseAppend | src/gep_channel.cc:179-243 | parsing in two parts, carrying the rest over, gives what parsing at once gives; an error is final |
| Framing.ParseConserves | src/gep_channel.cc:183-242 | the stream is the encoding of the frames taken followed by a tail that starts no acceptable frame; the verdict says what that tail is, and it stays in the buffer except after a wrong magic number or length |
| Framing.FrameIsTaken | src/gep_channel.cc:194-227 | a frame of up to 2^20 - 1 bytes in all is taken if its tag has no callback or its body parses |
| Framing.LongerIsRefused | src/gep_channel.cc:194-201 | a header that announces a longer frame is refused as too long, whatever follows |
| Framing.OtherMagicIsRefused | src/gep_channel.cc:183-191 | a header with any other magic number is refused |
| Framing.UnparseableIsRefused | src/gep_channel.cc:264-272 | a body that does not parse is refused and stays in the buffer |
| Framing.ParseUnique | src/gep_channel.cc:179-243 | whenever a stream splits into acceptable frames and a tail, the parser takes those frames first: the encoding is uniquely decodable |
| Framing.TakenIffBetweenFrames | src/gep_channel.cc:179-243 | a frame on the wire is taken where it was written, whatever follows, if and only if the receiver of what was written before it is between frames there |
| Framing.WholeFrames | include/gep_channel_array.h:37-40 | counts exactly the frames that end within the first k bytes of their encoding |
| Framing.ParseTruncated | src/gep_channel.cc:204-211 | a stream of valid frames cut at any byte yields exactly the frames before the cut, once and in order, and no error |
| Framing.RestLeavesRoom | src/gep_channel.cc:193-211 | what waits in the buffer has at most MAX_MSG_LEN - 2 bytes, and its whole frame fits the buffer |
| Framing.DispatchedPrefix | src/gep_channel.cc:257-286 | fewer frames lead to a prefix of the callbacks that more frames lead to |
| Framing.DispatchedExactly | src/gep_channel.cc:257-286 | a frame reaches a callback if and only if its tag has one; if all tags have one, all frames do, in order |
| Framing.HeadOfSent | src/gep_channel.cc:245-250 | what a receiver makes of a completed send of a value of any length: refused, cut to the low 32 bits of its length, or taken |
| Framing.ReceivedIffAcceptable | src/gep_channel.cc:194-200 | a completed send is received as the message it sent if and only if that message is acceptable to the receiver |
| FullSend.SocketInterface.Send | src/socket_interface.cc:36-37 | send accepts a non-empty prefix of what it is given |
| FullSend.SocketInterface.FullSend | src/socket_interface.cc:30-78 | for every behaviour of the socket and the clock, the bytes accepted are exactly the first `sent` of the buffer, and the outcome is that of the turns taken one by one |
| FullSend.ReturnsSizeIffAllSent | src/socket_interface.cc:35-77 | it returns its size if and only if all bytes were accepted, and otherwise 0, -1 or -2 with fewer accepted |
| FullSend.SendsAll | src/socket_interface.cc:35-77 | if there is room enough and nothing goes wrong (no shutdown, no error, no select that times out, no deadline passed), all bytes are sent, however often the socket was full in between |
| FullSend.OneMoreTurn | src/socket_interface.cc:36-76 | what each further turn does: -2 exactly on a shutdown, -1 exactly on an error, 0 exactly on a passed deadline or a select that timed out, the size exactly when there is room for the rest; else it goes on |
| FullSend.MsElapseExact | src/time_manager.cc:15-23 | on a clock that does not go back the unsigned arithmetic is the exact difference of millisecond ticks |
| FullSend.DeadlineTests | src/socket_interface.cc:43-61 | exactly when each of the two deadline tests fires, for every timeout including negative ones |
| FullSend.TimeoutIsNotEarly | src/socket_interface.cc:57-75 | a result of 0 is never returned before more than timeout - 1 milliseconds have passed |
| FullSend.FullSendEnds | src/socket_interface.cc:35-76 | if every fruitless wakeup costs a millisecond, size + patience + 2 turns are enough to return, for every timeout: the patience is the timeout, 0 for a negative one, and the range of the clock where `timeout_ms - ms_elapse()` can wrap around |
| Channel.NeverFull | src/gep_channel.cc:123-134 | a channel in step with its stream always has room, so recv is always called and asked for at least one byte; it takes all that is waiting, or fills the buffer |
| Channel.RecvKeepsSync | src/gep_channel.cc:115-157 | one RecvData dispatches what the parser of the longer stream adds, fails exactly when it rejects, returns -2 exactly on a close, holds what the parser leaves over, and changes nothing if nothing was received |
| Channel.RecvRefused | src/gep_channel.cc:116-129 | on a closed socket or with a full buffer RecvData fails and changes nothing |
| Channel.ReadStreamSync | src/gep_channel.cc:115-157 | the same over any number of reads of any sizes |
| Channel.ReadsDrain | src/gep_channel.cc:115-157 | as many calls as there are bytes left drain the stream, unless one fails |
| Channel.ChunkingIndependent | src/gep_channel.cc:115-243 | for every split of a stream into reads, a fresh connection that drained it or failed has dispatched what the whole-stream parser dispatches, failed exactly if it rejects, and holds what it leaves over |
| Channel.SendIsAllOrFailure | src/gep_channel.cc:294-336 | SendTLV returns 0 exactly when its whole frame is on the wire, and -1 exactly when it gave up on a strict prefix |
| Channel.SendSucceeds | src/gep_channel.cc:303-335 | if nothing goes wrong for 5 milliseconds in either call and there is room, header and value go out and the result is 0 |
| Channel.LateSendFails | include/gep_channel.h:57-59 | a send that finds the socket full more than 5 milliseconds after its start gives up |
| Channel.FrameWithoutValue | src/gep_channel.cc:299-320 | a null value is sent as length 0, and a length that is not positive goes into the header with no value behind it |
| Channel.GepChannel.constructor | src/gep_channel.cc:32-43 | a new channel has the given socket, an empty buffer and an empty log |
| Channel.GepChannel.OpenClientSocket | src/gep_channel.cc:51-84 | sets the socket only when connected, with nothing on its wire yet, touches neither buffer nor length, and closes the descriptor it opened if connecting fails |
| Channel.GepChannel.Close | src/gep_channel.cc:86-98 | an open channel closes its descriptor and loses its socket and its buffered bytes, a closed one is left alone |
| Channel.GepChannel.RecvTLV | src/gep_channel.cc:253-289 | drops unsupported tags, fails on unparseable bodies, and otherwise calls the callback once; every store is in bounds except for a registered tag with an empty body that does not parse |
| Channel.GepChannel.MoveToFront | src/gep_channel.cc:233-235 | memmove of the leftover, overlapping or not |
| Channel.GepChannel.RecvString | src/gep_channel.cc:179-243 | the framing loop in place over the buffer dispatches, leaves and returns what the parser of the buffer's contents says |
| Channel.GepChannel.Recv | src/gep_channel.cc:132-135 | recv appends the arrived bytes that fit behind those waiting |
| Channel.GepChannel.RecvData | src/gep_channel.cc:115-157 | the new state and the result are those of AfterRecv, on every branch |
| Channel.GepChannel.SendTLV | src/gep_channel.cc:294-336 | for any length and a value that may be null, appends to the wire the first `written` bytes of the frame and nothing else, with the outcome of its two FullSend calls on the channel's socket; on a closed one it returns -1 and writes nothing |
| Channel.GepChannel.SendString | src/gep_channel.cc:245-251 | for a string of any length, result 0 exactly when the whole frame was written, else -1 |
| Delivery.NextKeepsInv | src/gep_channel.cc:294-336 | each atomic step keeps mutual exclusion, frame atomicity on the wire, truthful results and a reader in step |
| Delivery.AttemptKeepsWire | src/gep_channel.cc:303-335 | after each attempt to send, the wire is what every send before has written of its frame, in lock order, followed by the start of the lock holder's frame |
| Delivery.RunsKeepInv | src/gep_channel.cc:294-336 | the same in every state of every run, for any number of threads |
| Delivery.TriesAreFullSend | src/socket_interface.cc:35-76 | the attempts of one thread, as steps of the system, are the turns of FullSend while it has not returned |
| Delivery.TriesReturnAsFullSend | src/socket_interface.cc:35-77 | and when FullSend returns, the thread goes on with its code and with what it has sent |
| Delivery.ThreadSendsAsSendTLV | src/gep_channel.cc:294-336 | a thread that has taken the lock finishes with the result and the bytes written of SendTLV in that environment, and leaves the lock free |
| Delivery.PiecesAreFrames | src/gep_channel.cc:308-335 | the wire is the frames of the completed sends exactly if no failed send has written anything, and longer otherwise |
| Delivery.PiecesGrow | src/gep_channel.cc:294-336 | later sends leave what is on the wire, and if they have written nothing, none of them is complete |
| Delivery.WireIsCut | src/gep_channel.cc:295-329 | in every reachable state the wire up to the first byte behind a torn frame is a prefix of the encoding of the completed messages and the torn or current one |
| Delivery.OrderedDelivery | src/gep_channel.cc:115-336 | end to end, for any failures: as long as the receiver has read no byte written behind a torn frame, it has reported no error and has dispatched exactly the messages whose frames lie within what it has read, in lock order; once drained, every message whose send returned 0 and no other |
| Delivery.DeliveredInLockOrder | src/gep_channel.cc:294-336 | without failed sends the dispatched messages are a prefix of those sent, in lock-acquisition order, and all of them once drained |
| Promise.BetweenFramesIffNotTorn | src/gep_channel.cc:308-335 | whenever nobody is sending, the receiver finds the messages whose send returned 0 and ends between frames if and only if no failed send has written part of its frame |
| Promise.DeliveredIffBetween | src/gep_channel.cc:179-243 | a completed send is taken where it was written if and only if the receiver is between frames there |
| Promise.SafeToTheEnd | src/gep_channel.cc:294-336 | while nothing is written behind a torn frame, ordered delivery is about the whole wire |
| Promise.ZeroMeansDeliveredUnlessBehindTorn | include/gep_channel_array.h:37-40 | in every reachable state every send that returned 0 is delivered if none has completed behind a torn frame; the next send to write behind the first torn frame is not delivered although it completes; with at most one torn frame, an equivalence |
| Promise.ZeroIsGuaranteedIffNoFailureBefore | include/gep_channel_array.h:37-40 | given only what the sends on a channel returned, all results of 0 are delivered in every run with these results if and only if none of them came after a failure |
| Promise.EveryHistoryIsReachable | src/gep_channel.cc:294-336 | every history of sends in which each result tells whether the whole frame was written is that of some run |
| Promise.TornTwiceCanBeWhole | src/gep_channel.cc:322-329 | two torn frames can make a whole one that nobody sent, and a send behind them is then delivered |
| Promise.TornFrameSwallowsNext | src/gep_channel.cc:322-329 | after a send that failed between header and value, a message nobody sent is dispatched |
| Connections.StepKeepsSane | src/gep_channel.cc:78-97 | closing and opening need the lock, so a connection ends between two sends and the next starts with nothing on its wire and nobody in the middle of a send |
| Connections.ReopenGoesOn | src/gep_channel.cc:78-97 | when nobody is in the middle of a send the channel can be closed and opened again: the old connection is kept, the new one is empty, and the waiting threads wait for it |
| Connections.ClosedWritesNothing | src/gep_channel.cc:159-177 | while the socket is closed no send puts anything on a wire |
| Connections.EveryConnectionStandsAlone | src/gep_channel.cc:51-98 | in every interleaving of sends, closes, reopenings and reads, each connection's wire begins at a frame boundary, and what its receiver has dispatched and what a result of 0 is worth depend on its own sends alone |
| Client.OpenIsolates | src/gep_channel.cc:78-83 | a new connection starts with an empty buffer although opening it clears nothing |
| Client.ReadyIsolates | src/gep_client.cc:131-143 | a receive in the service loop, failing or not, keeps connections apart |
| Client.NextKeepsInv | src/gep_client.cc:51-144 | start, each turn of the service loop and stop keep session isolation, reconnect accounting and descriptor ownership |
| Client.ReadyTurn | src/gep_client.cc:131-143 | a turn with the socket ready closes the connection, counts a failure and goes on disconnected if and only if the peer has closed it, recv fails or the parser rejects the bytes of this connection; else the connection goes on |
| Client.DisconnectedTurn | src/gep_client.cc:109-113 | a turn without a connection tries to open one: a success counts as a reconnect and starts with an empty buffer, a failure leaves the thread trying |
| Client.LeavesLoop | src/gep_client.cc:108-129 | the thread leaves its loop exactly when thread_ctrl_ is cleared or select fails; without the socket ready a turn changes nothing |
| Client.TurnsCompose | src/gep_client.cc:108-144 | turns follow each other until the thread leaves its loop |
| Client.StartAndStop | src/gep_client.cc:51-75 | after a start that connects the thread is in its loop on that socket; after a stop it is gone, the channel is closed and empty and nothing is counted |
| Client.EveryLife | src/gep_client.cc:107-144 | over every life of a client: what was dispatched is the parse of each connection's own bytes, a closed channel holds no bytes, connections since Start are 1 + reconnects, failures are reconnects plus one while disconnected, and the only open descriptor is the channel's |
| Client.ZeroOrOneAcrossReconnects | include/gep_channel_array.h:37-40 | if each connection received a prefix of valid frames, the callbacks saw exactly the frames received whole, once each and in order |
| Client.GepClient.constructor | src/gep_client.cc:34-43 | a new client is disconnected, without a thread, with nothing counted |
| Client.GepClient.Start | src/gep_client.cc:51-64 | opens the channel and starts the thread with that socket, or fails and changes nothing |
| Client.GepClient.Stop | src/gep_client.cc:66-75 | ends the thread, closes the channel and resets the counter |
| Client.GepClient.Reconnect | src/gep_client.cc:77-92 | counts exactly the successful attempts |
| Client.GepClient.RunThread | src/gep_client.cc:98-149 | for every behaviour of the environment the loop does what AfterTurns says |
| Registry.SendAllReachesAll | src/gep_channel_array.cc:169-179 | a broadcast makes exactly one attempt on every open channel, whatever became of the others, and touches nothing else |
| Registry.SendOneReachesOne | src/gep_channel_array.cc:182-190 | a targeted send makes one attempt on the only channel with that identifier, and none if there is none |
| Registry.ReadySelectsOwner | src/gep_channel_array.cc:225-234 | readiness of a descriptor selects the one channel that owns it |
| Registry.ReceiveServes | src/gep_channel_array.cc:222-257 | the first ready channel receives and no other: it is reported, erased and closed if and only if its peer has closed the connection, recv fails or the parser rejects its bytes, and else stays in step |
| Registry.ReceiveServesNobody | src/gep_channel_array.cc:236-237 | with no channel ready nothing happens |
| Registry.AcceptAdmits | src/gep_channel_array.cc:129-166 | an accepted client becomes the last in the vector with the next identifier and an empty channel, and is announced, or is refused if the vector is full |
| Registry.ServerSocketOpensAndCloses | src/gep_channel_array.cc:54-127 | an opened server socket is the one to accept on, a failed one is closed; a stop closes it, reports every client and closes every channel |
| Registry.DelsOfAll | src/gep_channel_array.cc:120-124 | clearing the vector reports every client in it and nobody else |
| Registry.ClosesOfAll | src/gep_channel_array.cc:124-126 | clearing the vector closes each of its sockets once and no other descriptor |
| Registry.ReceiveKeepsInv | src/gep_channel_array.cc:222-258 | receiving on the chosen channel, and erasing it if that fails, keeps identifiers, descriptors and streams in order |
| Registry.NextKeepsInv | src/gep_channel_array.cc:110-257 | every operation keeps the registry invariant: increasing identifiers, the limit, the client list, descriptor ownership, and each channel dispatching its own bytes |
| Registry.RunKeepsInv | src/gep_channel_array.cc:110-257 | so does every run, through any number of stops and restarts |
| Registry.EventsBalance | test/gep_test_lib.h:51-60 | every client announced is either still there or was reported gone, never both |
| Registry.EveryClientOnce | src/gep_channel_array.cc:110-143 | over every run AddClient is called once for each identifier, DelClient at most once, exactly for those no longer in the vector, and a non-negative limit is respected |
| Registry.StopLeavesOnlyRefused | src/gep_channel_array.cc:110-127 | after Stop every client was reported gone exactly once and every descriptor is closed but those refused when full |
| Registry.SendExtendsWire | src/gep_channel_array.cc:173-177 | until a send on a channel fails, its wire is the frames sent on it, whole and in order; every send keeps that |
| Registry.ClientReceivesWhatWasSent | include/gep_channel_array.h:34-54 | from a wire that holds the frames of the sends on it, a client finds exactly the messages it has read whole, once each and in the order of the sends |
| Registry.GepChannelArray.constructor | src/gep_channel_array.cc:32-44 | a new array is empty, with identifiers from 0 |
| Registry.GepChannelArray.OpenServerSocket | src/gep_channel_array.cc:54-108 | keeps the descriptor only if every call succeeds, and closes it otherwise; learns the port if one had to be assigned |
| Registry.GepChannelArray.Stop | src/gep_channel_array.cc:110-127 | closes the server socket, reports every client, and leaves every channel object closed with nothing in its buffer |
| Registry.GepChannelArray.Clear | src/gep_channel_array.cc:124-124 | destroying the channels closes each socket once, in order |
| Registry.GepChannelArray.AddChannel | src/gep_channel_array.cc:129-144 | refuses when full, else adds a new channel object, apart from all the others, with the next identifier, and announces it |
| Registry.GepChannelArray.AcceptConnection | src/gep_channel_array.cc:146-166 | fails only if accept does, even when the new channel is refused |
| Registry.GepChannelArray.SendAt | src/gep_channel_array.cc:174-175 | one channel's send adds to its own wire what was written of the frame, and changes no other channel |
| Registry.GepChannelArray.SendMessage | src/gep_channel_array.cc:169-179 | sends on every channel, adding to each wire what that send wrote, and returns -1 if and only if one of the sends failed |
| Registry.GepChannelArray.SendMessageTo | src/gep_channel_array.cc:182-190 | adds to the wire of the channel with the identifier and to no other, and returns 0 if and only if there is one and its send succeeded |
| Registry.GepChannelArray.GetVectorReadFds | src/gep_channel_array.cc:207-220 | adds exactly the sockets of the channels and keeps the maximum above all |
| Registry.GepChannelArray.SelectReady | src/gep_channel_array.cc:224-234 | finds the first channel whose socket is ready |
| Registry.GepChannelArray.Handle | src/gep_channel_array.cc:239-241 | the chosen channel object receives, and no other changes |
| Registry.GepChannelArray.Erase | src/gep_channel_array.cc:245-256 | reports and erases exactly the channel object that failed, and nothing if it is no longer in the vector |
| Registry.GepChannelArray.Discard | src/gep_channel_array.cc:244-257 | the erased channel is closed when its last reference goes |
| Registry.GepChannelArray.RecvData | src/gep_channel_array.cc:222-258 | receives on the first ready channel object, leaves the others alone, and removes and closes it if that fails |
| Leaks.AcceptedLeaksIffFull | src/gep_channel_array.cc:129-165 | whatever happens before and after, once the array is stopped the descriptor of an accepted client is still open if and only if the vector was full when it was accepted |
| Leaks.LeakIsReachableIffLimited | src/gep_channel_array.cc:131-135 | a descriptor can leak if and only if the limit is not negative |
| Concurrent.HandleKeepsInv | src/gep_channel_array.cc:239-241 | receiving without the lock keeps the invariant, whether or not the channel is still in the vector and whether or not it fails |
| Concurrent.HandleServes | src/gep_channel_array.cc:239-244 | the channel in service receives, also when it has left the vector; if that fails it waits to be erased, else the service thread lets go of it |
| Concurrent.EraseKeepsInv | src/gep_channel_array.cc:244-257 | so does erasing the failed channel, or finding it gone |
| Concurrent.StopKeepsInv | src/gep_channel_array.cc:110-127 | stopping while the service thread holds a channel reports every client and closes every other channel |
| Concurrent.RunsKeepInv | src/gep_channel_array.cc:110-257 | every interleaving of the critical sections, of the sends of broadcasts and of the receives between the critical sections keeps identifiers, descriptors and streams in order |
| Concurrent.EveryClientEndsOnce | src/gep_channel_array.cc:244-257 | in every interleaving each client is announced once and reported gone at most once, exactly when it is no longer in the vector; every descriptor is closed at most once for each opening, and those open are accounted for |
| Concurrent.ThreeStepsAreReceive | src/gep_channel_array.cc:222-258 | select, receive and erase with nothing in between are the one operation that the class performs |
| Concurrent.BroadcastIsSendAll | src/gep_channel_array.cc:169-179 | the steps of a broadcast with nothing in between are the one operation that the class performs |
| Concurrent.OperationsAreSteps | src/gep_channel_array.cc:110-190 | whenever nobody holds the lock each operation of the array can be taken as a step, and does what it does by itself |
| Server.TurnKeepsInv | src/gep_server.cc:87-115 | one turn of the service loop keeps the registry invariant and the server socket |
| Server.TurnsKeepInv | src/gep_server.cc:70-120 | so do all turns, and the polled server socket is never that of a channel |
| Server.StaysInLoop | src/gep_server.cc:87-115 | the thread stays in its loop exactly when thread_ctrl_ is set all three times, select does not fail and no accept fails |
| Server.IdleTurn | src/gep_server.cc:87-115 | with nothing to read a turn leaves the array as it was |
| Server.TurnServesAndAdmits | src/gep_server.cc:106-114 | a turn first serves the first readable channel, then admits the new client behind all others unless the vector is full by then |
| Server.TurnsCompose | src/gep_server.cc:87-115 | turns follow each other until the thread leaves its loop |
| Server.GepServer.Start | src/gep_server.cc:49-58 | opens the server socket or fails |
| Server.GepServer.Stop | src/gep_server.cc:60-68 | ends the thread and clears the array |
| Server.GepServer.Serve | src/gep_server.cc:88-114 | one turn polls every channel up to the largest descriptor, receives before it accepts, and stops where AfterTurn says |
| Server.GepServer.RunThread | src/gep_server.cc:70-120 | for every behaviour of the environment the loop ends as AfterTurns says |
| Broadcast.OneSendKeeps | src/gep_channel_array.cc:173-188 | each send extends the record and the wire of its own channel, by the broadcast in progress or by a message to it alone |
| Broadcast.AcceptKeeps | src/gep_channel_array.cc:136-142 | a new channel starts its slice at the end of the log, with an empty wire |
| Broadcast.RemoveKeeps | src/gep_channel_array.cc:249-253 | erasing a channel leaves the slices and wires of the others alone |
| Broadcast.LeavesSane | src/gep_channel_array.cc:249-253 | a channel leaves the vector with all of the log since it was added |
| Broadcast.StepKeepsInv | src/gep_channel_array.cc:110-257 | every step of the interleaved system, a receive that fails during a broadcast among them, keeps slices, wires and clients in order, those of the channels that have left too |
| Broadcast.BroadcastsAreTotallyOrdered | src/gep_channel_array.cc:129-179 | in every interleaving the broadcasts sent on each channel there has ever been are a contiguous slice of one log, from the moment it was added to now (but for the one in progress) or to the moment it left, and while no send on it fails its wire is exactly the frames of what was sent on it |
| Broadcast.ClientsDispatchSlices | src/gep_channel_array.cc:169-190 | every client there has ever been to which no send has failed, also one whose channel is gone, has dispatched exactly the sends it has read whole, in order; the broadcasts among them are the log from the moment it joined |
| Broadcast.ClientsAgree | src/gep_channel_array.cc:169-179 | any two such clients have dispatched the same broadcasts in the same order since the later one joined, as far as both have come |
| Locks.NextKeepsInv | include/gep_channel_array.h:85-86 | each step of the threads keeps the discipline and mutual exclusion |
| Locks.WaitsGoUp | src/gep_channel.cc:295-297 | whoever is waited for is not done and, if it waits too, waits for a lock further up |
| Locks.SomebodyCanRun | test/gep_end_to_end_test.cc:125-154 | deadlock freedom: in every reachable state in which a thread is not done, some thread can run |
| Locks.NoCyclicWait | test/gep_end_to_end_test.cc:125-154 | no reachable state has a cycle of threads each waiting for the next |
| Locks.SendIsLegalAnywhereBelow | src/gep_channel_array.cc:169-190 | a send may be called exactly where the vector lock may be taken, and leaves the locks as they were |
| Locks.SendFitsUnderVector | src/gep_channel_array.cc:129-143 | AddClient and DelClient may send |
| Locks.ServiceTurnIsDisciplined | src/gep_channel_array.cc:207-257 | the service thread keeps to the hierarchy whatever locks the callbacks take, because it holds none while they run, and whatever channels its two passes over the vector meet |
| Locks.StopIsDisciplined | src/gep_channel_array.cc:110-127 | stopping keeps to the hierarchy |
| Locks.ClientTurnIsDisciplined | src/gep_client.cc:107-144 | so does the client's service loop |
| Locks.WhatCallsTake | src/gep_channel_array.cc:110-257 | which locks each call takes, in order |
| Locks.NothingHeldInCallbacks | src/gep_channel_array.cc:225-241 | while the callbacks of a turn run, the service thread holds nothing |
| Locks.HoldingAcrossCallbackDeadlocks | test/gep_end_to_end_test.cc:118-154 | holding the vector lock across a callback would deadlock |
| Escape.NiceSnprintf | src/utils.cc:88-103 | writes what fits and a NUL, or nothing for a size of 0, touches nothing else, and caps the result |
| Escape.SnprintfPrintable | src/utils.cc:119-132 | for any size: its first store is in bounds if and only if there is a buffer at all; stores the first bufsize - 1 characters of the escaped text and a NUL, touches nothing else, returns the length capped to the size |
| Escape.SnprintfHex | src/utils.cc:106-116 | likewise for two hexadecimal digits a byte |
| Escape.HexDenotes | src/utils.cc:113-113 | the two hexadecimal digits of a byte denote it, the high one first |
| Escape.EscapedDenotes | src/utils.cc:126-129 | a byte from space to tilde is printed as itself, any other as a backslash, an x and the two digits that denote it; what is printed is always printable |
| Escape.EscapedLength | src/utils.cc:125-130 | an escaped text takes between one and four characters a byte, four for every byte if and only if none is printable |
| Escape.UnpackableText | src/gep_channel.cc:265-266 | the text of a body that does not parse stays in its buffer if and only if the body is not empty, and is then complete if and only if some byte is printable; else its last character is lost |
| Escape.TagString | src/gep_protocol.cc:36-40 | for any size, prints the four bytes of the tag, most significant first; at the size the callers use it is never cut short |
| Escape.EscapeIsInjectiveUpToFour | src/utils.cc:119-132 | up to four bytes, escaping loses nothing |
| Escape.TagStringsDiffer | src/gep_protocol.cc:36-40 | two different tags never print alike |
| Escape.EscapeIsNotInjectiveFromFive | src/utils.cc:119-132 | from five bytes on, different data of the same length can print alike |

## Left out

- Protobuf serialization, text and binary modes: `Serialize` is not modelled, `Unserialize` is any predicate; that a tag in the dispatch table has a constructor is taken for granted.
- Sockets, `connect`, `bind`, `listen`, `select` and socket options: only the results the code branches on.
- Logging, dates, time zones, `usecs_to_timeval` and its siblings: presentation and unit changes.
- What a receiver makes of a wire behind several torn frames: it depends on their bytes, beyond what `Promise.DeliveredIffBetween` says.
- Registry.GepChannelArray.RecvData: the class performs it as one operation; what may happen between its critical sections is in `Concurrent`, on values.
- Registry.ReceiveKeepsInv: about that one operation; `Concurrent.HandleKeepsInv` and `Concurrent.EraseKeepsInv` are about its parts with others in between.
- Concurrent.Handle: a receive with its callbacks is one step, so a send made by a callback comes before or after it.
- Registry.AfterAdd: identifiers are unbounded, the overflow of the counter after 2^31 clients is not modelled.
- Locks.Op: threads wait only for locks; waiting for a thread to end, as Stop does, is not modelled, so Stop called from a callback is outside.
- Two concurrent calls of Close, a second Start without Stop, and the setters that only tests use.
- Fairness between channels: RecvData serves only the first ready one in each turn.
- `MakeTag`: tags are any 32-bit number.
