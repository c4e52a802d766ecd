# VRPN TCP relay server — a Dafny model

This project models the message-handling core of the VRPN camera relay server,
`TCPServer::run` in `vrpn/server_src/TCPServer.cpp`, together with its helper
`global_split`. The server is a single-threaded, `select`-driven broadcast relay.
A ready listener accepts a new peer, registers it in the `master` set and sends
the welcome text to that peer only. A ready peer is read into a 4096-byte buffer.
A read of zero or fewer bytes drops the peer. A positive read is fanned out over
`master` in order:

- the listener is skipped;
- the sender gets the delivery acknowledgement, and at that moment the buffer is
  split on `"|"` and dispatched into the device sink;
- every other member gets the first `bytesReceived` bytes verbatim.

The dispatch reads the packet tag with `atoi` from the first piece:

- 100 writes the first tracker's `pos` and `d_quat` and forces `d_quat[3]` to 0;
- 101 writes the first analog source's `channel[]`;
- 102 writes the first button source's `buttons[]`.

Each branch applies only under its exact guards. Any other tag changes nothing.

Modules, one per component:

- `Wrappers` (`wrappers.dfy`): the `Option` type, standing for `std::string::npos`
  and for "index left untouched".
- `Splitting` (`splitting.dfy`): `std::string::find` and the `global_split`
  do/while loop, proved against a recursive specification `Split`. Joining the
  pieces of a split gives back the input for any non-empty token. The converse,
  that splitting a join of token-free pieces gives back those pieces, is proved
  for one-character tokens such as `"|"` only: it fails for longer ones, where a
  token can straddle the join of two pieces.
- `Numerals` (`numerals.dfy`): the C library's `atoi`, written out exactly. It
  skips white space, takes an optional sign and then the leading decimal digits;
  anything else reads as 0.
- `DeviceSink` (`device_sink.dfy`): the sink fields the relay writes. The value
  form is `SinkState` with the pure updates `UpdateTracker`, `UpdateAnalog`,
  `UpdateButtons` and `Apply`. The class form `Sink` holds arrays, and its
  `Dispatch` and `Write*` methods are proved equal to the pure updates.
- `Relay` (`relay.dfy`): Winsock's `FD_SET`/`FD_CLR` on an ordered `fd_array`, the
  receive buffer, and the fan-out loop, both as written (`FanOut`) and as intended
  (`IntendedSends`). It also has the per-event and per-cycle transition functions
  `Handle`/`Cycle`, and the `Server` class with `Accept`, `Recv`, `Close`,
  `Broadcast`, `Service` and `Step`. Each method is proved equal to those
  functions. Every `send` is recorded in a trace `sent: seq<Send>`.

`atof` is an uninterpreted parameter `string -> real`. No floating-point
arithmetic is ever performed: values are only copied, and `0.0` is written into
`d_quat[3]`.

Three behaviours of the code shape the model:

- The decode runs when the fan-out loop reaches the sender, so members ahead
  of the sender in `master` are sent the payload before the sink changes. The
  `Server` class keeps, beside the trace, the sink state at each send, and
  `Relay.Server.Broadcast` states it (`Relay.DecodeAfterEarlierMembers`).
- The button loop at `TCPServer.cpp:255` assigns the fan-out index `i` declared
  at line 159. After a successful button update, the fan-out therefore resumes
  at `num_buttons + 1`, and members past the sender may get nothing. The model
  keeps this literally (see Findings).
- An analog update needs at least 4 pieces as well as a matching channel count
  (line 201), so an analog source with fewer than 3 channels is never updated.

## Model

| member | source | states |
|---|---|---|
| `Splitting.Find` | vrpn/server_src/TCPServer.cpp:105 | `data.find(token)`: the first index where the token occurs, or `None` (npos) when it occurs nowhere |
| `Splitting.GlobalSplit` | vrpn/server_src/TCPServer.cpp:99-111 | the do/while loop returns the pieces of `Split`: at least one piece, joined with the token they give back the input, and no piece contains the token |
| `Splitting.SplitJoin` | vrpn/server_src/TCPServer.cpp:99-111 | joining the pieces of a split with the token reproduces the input |
| `Splitting.SplitPiecesHaveNoToken` | vrpn/server_src/TCPServer.cpp:105-108 | no piece of a split contains the token |
| `Splitting.JoinSplit` | vrpn/server_src/TCPServer.cpp:99-111 | for a one-character token such as `"\|"`, splitting a join of token-free pieces gives back exactly those pieces |
| `Numerals.Atoi` | vrpn/server_src/TCPServer.cpp:176 | C `atoi` (also used per button at line 256): a negative result only when the first non-blank character is `-`, a positive one only when it is not, and a non-zero result only when the text holds a digit |
| `Numerals.AtoiWithoutDigits` | vrpn/server_src/TCPServer.cpp:176 | text with no decimal digit, such as a non-numeric tag, reads as 0 under `atoi` |
| `Numerals.AtoiOfNumeral` | vrpn/server_src/TCPServer.cpp:176 | `atoi` reads back any integer written in decimal, whatever non-digit text follows it |
| `DeviceSink.WriteFields` | vrpn/server_src/TCPServer.cpp:221-224 | the first `count` slots take the conversions of pieces 1..count in order, and the later slots are unchanged |
| `DeviceSink.UpdateTracker` | vrpn/server_src/TCPServer.cpp:185-196 | with a tracker and at least 7 pieces, `pos[k]` = parse(piece k+1) and `d_quat[k]` = parse(piece k+4) for k < 3, and `d_quat[3]` = 0; otherwise the sink is unchanged; no other field ever changes |
| `DeviceSink.UpdateAnalog` | vrpn/server_src/TCPServer.cpp:201-230 | with an analog source, at least 4 pieces and `num_channel == pieces - 1`, channel i = parse(piece i+1) for i < `num_channel`, later channels are untouched and `readFlag` ends true; on any mismatch the sink is unchanged |
| `DeviceSink.UpdateButtons` | vrpn/server_src/TCPServer.cpp:235-261 | with a button source, at least 2 pieces and `num_buttons == pieces - 1`, button i = atoi(piece i+1) for i < `num_buttons` and `readFlag` ends true; on any mismatch the sink is unchanged |
| `DeviceSink.Apply` | vrpn/server_src/TCPServer.cpp:175-267 | the `switch` on `atoi(piece 0)`: 100, 101 and 102 select the three updates, and every other tag leaves the sink unchanged; counts and array sizes never change |
| `DeviceSink.IndexAfterDispatch` | vrpn/server_src/TCPServer.cpp:255-257 | the shared loop index is overwritten (to `num_buttons`) exactly when the packet is a successful button update |
| `DeviceSink.UnknownTagIsNoOp` | vrpn/server_src/TCPServer.cpp:264-265 | a tag outside {100, 101, 102} leaves every sink field unchanged |
| `DeviceSink.NonNumericTagIsNoOp` | vrpn/server_src/TCPServer.cpp:175-176 | a tag piece with no digits reads as 0 and leaves every sink field unchanged |
| `DeviceSink.Sink.Dispatch` | vrpn/server_src/TCPServer.cpp:171-267 | the sink arrays after the dispatch equal `Apply` of the old state, and the returned index is what the button loop leaves in `i` |
| `DeviceSink.Sink.WriteTracker` | vrpn/server_src/TCPServer.cpp:185-196 | the in-place tracker writes produce `UpdateTracker` of the old state |
| `DeviceSink.Sink.WriteAnalog` | vrpn/server_src/TCPServer.cpp:201-230 | the channel loop produces `UpdateAnalog` of the old state |
| `DeviceSink.Sink.WriteButtons` | vrpn/server_src/TCPServer.cpp:235-261 | the button loop produces `UpdateButtons` of the old state, and returns `num_buttons` as the loop index exactly when the update applies |
| `Relay.FdSet` | vrpn/server_src/TCPServer.cpp:142 | `FD_SET` appends the socket unless it is present or the set is full; existing members keep their order and no duplicate appears |
| `Relay.FdClr` | vrpn/server_src/TCPServer.cpp:155 | `FD_CLR` shrinks the set by one exactly when the socket was a member, and adds nothing |
| `Relay.FdClrRemovesAt` | vrpn/server_src/TCPServer.cpp:155 | `FD_CLR` removes exactly the socket's slot and keeps the others in order |
| `Relay.FdClrKeepsRegistry` | vrpn/server_src/TCPServer.cpp:153-156 | removing a socket keeps the registry duplicate-free, removes that socket, keeps every other member and keeps the listener first |
| `Relay.Received` | vrpn/server_src/TCPServer.cpp:150-151 | the buffer after `ZeroMemory` and `recv` holds the received bytes followed by NULs |
| `Relay.CString` | vrpn/server_src/TCPServer.cpp:174 | the buffer read as a C string is the prefix before the first NUL |
| `Relay.Admit` | vrpn/server_src/TCPServer.cpp:139-145 | accepting appends one send, the welcome to the new socket and to no one else; the sink and buffer are untouched; a registry headed by the listener stays duplicate-free, keeps its head and fits an `fd_set`; the new socket is registered exactly when it already was or there is room |
| `Relay.Drop` | vrpn/server_src/TCPServer.cpp:153-156 | dropping sends nothing and leaves the sink and buffer alone; on a duplicate-free registry the socket is gone and every other member is kept |
| `Relay.FanOut` | vrpn/server_src/TCPServer.cpp:159-273 | the loop as written, including the index reuse: every send goes to a registered socket other than the listener, and carries the ack when it goes to the sender and the payload otherwise |
| `Relay.FanOutUpToSender` | vrpn/server_src/TCPServer.cpp:159-166 | up to the sender's slot the loop sends the intended messages to the members ahead of it, then the ack, then continues from the index the button loop leaves |
| `Relay.FanOutSeenSplits` | vrpn/server_src/TCPServer.cpp:159-267 | every send up to and including the sender's ack happens with the sink as it was; every later send happens with the decoded sink |
| `Relay.DecodeAfterEarlierMembers` | vrpn/server_src/TCPServer.cpp:159-267 | the trace starts with one payload copy to each member ahead of the sender and then the ack, all sent before the sink changes; everything after sees the decoded sink |
| `Relay.Forward` | vrpn/server_src/TCPServer.cpp:157-277 | a positive read keeps the registry consistent and the buffer; it only appends to the trace, never to the listener nor to an unregistered socket; an unregistered sender leaves the sink alone; without a successful button update the appended sends are the intended broadcast |
| `Relay.FanOutIsIntended` | vrpn/server_src/TCPServer.cpp:159-277 | when the sender is not met again (always so without a button update), the as-written loop performs the intended broadcast |
| `Relay.FanOutResumes` | vrpn/server_src/TCPServer.cpp:255 | after a button update, the loop sends the intended messages up to the sender, skips to `num_buttons + 1` and sends the intended messages from there |
| `Relay.IntendedDelivery` | vrpn/server_src/TCPServer.cpp:159-273 | in the intended broadcast the listener and non-members get nothing, the sender exactly one ack, and every other member exactly one verbatim copy |
| `Relay.IntendedOrder` | vrpn/server_src/TCPServer.cpp:159-162 | the intended broadcast addresses the registry in `master` order with the listener left out |
| `Relay.ButtonResumeRevisitsSender` | vrpn/server_src/TCPServer.cpp:255 | as written, when `num_buttons + 1` is not past the sender's slot, the loop index returns to the sender, so the fan-out never ends |
| `Relay.Pieces` | vrpn/server_src/TCPServer.cpp:174-175 | the split of the received C string always has a piece 0 for the tag |
| `Relay.Handle` | vrpn/server_src/TCPServer.cpp:137-287 | handling one ready socket keeps the listener first in a duplicate-free registry that fits an `fd_set`, and keeps the sink well formed |
| `Relay.Cycle` | vrpn/server_src/TCPServer.cpp:132-288 | handling the ready sockets of a cycle in order keeps the same invariant |
| `Relay.AcceptWelcomesNewSocketOnly` | vrpn/server_src/TCPServer.cpp:139-145 | on accept, the new socket joins `master` and receives the 25-byte welcome (text plus NUL); no other socket receives anything and the sink is untouched |
| `Relay.DisconnectRemovesOnlySender` | vrpn/server_src/TCPServer.cpp:153-156 | a read of zero or fewer bytes removes exactly that socket, keeps the others in order with the listener first, sends nothing and leaves the sink alone |
| `Relay.RelayDeliversOnce` | vrpn/server_src/TCPServer.cpp:157-277 | a positive read that is not a successful button update gives the sender one ack, the listener nothing and every other member one copy of `buf[0..bytesReceived)`, in `master` order; the sink gets the decoded update |
| `Relay.ResumedDelivery` | vrpn/server_src/TCPServer.cpp:255 | after a successful button update, a member past the sender gets one copy only if its index exceeds `num_buttons`, and nothing otherwise |
| `Relay.RelaySkipsPeersAfterButtonUpdate` | vrpn/server_src/TCPServer.cpp:164-277 | for a positive read that is a successful button update, each member after the sender gets a copy only if its slot lies past `num_buttons`; with 256 buttons, none does |
| `Relay.ButtonUpdateSkipsLaterPeerExample` | vrpn/server_src/TCPServer.cpp:255 | registry [listener 1, sender 2, peer 3] with 255 buttons: the fan-out sends only the ack, so peer 3 is skipped |
| `Relay.Server.constructor` | vrpn/server_src/TCPServer.cpp:125-128 | the registry starts with the listener alone, the trace and its log of sink states are empty and the buffer is zeroed |
| `Relay.Server.SendTo` | vrpn/server_src/TCPServer.cpp:273 | a `send` appends exactly one entry to the trace, and logs the sink state it happens in |
| `Relay.Server.Accept` | vrpn/server_src/TCPServer.cpp:139-145 | the new state is `Admit` of the old one: `FD_SET` and one welcome |
| `Relay.Server.Recv` | vrpn/server_src/TCPServer.cpp:150-151 | the buffer is zeroed, then filled with the received bytes when the count is positive |
| `Relay.Server.Close` | vrpn/server_src/TCPServer.cpp:153-156 | the new state is `Drop` of the old one: `FD_CLR` of the socket |
| `Relay.Server.Broadcast` | vrpn/server_src/TCPServer.cpp:159-277 | the fan-out loop appends exactly `FanOut` (as written, including the index reuse) to the trace, updates the sink with `Apply` when the sender is a member, and logs for each send the sink state given by `FanOutSeen`: the old sink up to the sender's ack, the decoded one after |
| `Relay.Server.Visit` | vrpn/server_src/TCPServer.cpp:160-274 | one iteration: skip the listener, ack and dispatch at the sender, send the payload to anyone else; the send of this iteration happens with the sink as it was before it |
| `Relay.Server.Acknowledge` | vrpn/server_src/TCPServer.cpp:164-267 | the sender gets one ack while the sink is unchanged, then the C string of the buffer is split on `"\|"` and `Apply` is performed on the sink |
| `Relay.Server.Service` | vrpn/server_src/TCPServer.cpp:137-287 | the new state is `Handle` of the old state and the ready event |
| `Relay.Server.Step` | vrpn/server_src/TCPServer.cpp:132-288 | one pass over the sockets `select` reported produces `Cycle` of the old state |

## Left out

- Winsock start-up and clean-up (`initWinsock`, `cleanupWinsock`), `sendMsg`, and the destructor: thin wrappers over platform calls.
- `createSocket` and the outer `while (true)` that stops on `INVALID_SOCKET`: socket/bind/listen plumbing. The listener id is a constructor argument.
- `select` and the `fd_set` copy: the ready sockets are an input to `Relay.Server.Step`. What `accept` and `recv` return is also an input, in the `Ready` record.
- `closesocket`: closing a handle has no model beyond dropping it from `master`.
- A failed `accept`: the accepted id is an arbitrary input, so `INVALID_SOCKET` is just another id that gets registered and welcomed, as in the code.
- Console output (`printf`, `std::cout`), including the log of the received message.
- `atof`: an uninterpreted `string -> real` parameter. Floating point, `vrpn_float64` rounding and the `0` to `double` conversion are not modelled.
- The sink's own `mainloop`/`get_report` publishing and the pointer casts from the generic server object: external. Only the first device of each kind (index 0) is modelled, with its device counts as plain fields.
- Bytes are `char`s. A read that fills all 4096 bytes has no NUL terminator; the model then decodes the whole buffer.
- `Splitting.GlobalSplit`: requires a non-empty token. With an empty token, `find` returns 0 on every pass and the loop never ends; the server only ever passes `"|"`.
- `Numerals.AtoiOfNumeral`: `atoi` is modelled on unbounded integers. Overflow of `int`, which is undefined in C, is not modelled.
- `DeviceSink.Sink.WriteButtons`: vrpn/vrpn_Button.h is not part of this model. The element type of `buttons` is taken as `int`, so any narrowing that a smaller element type would apply to the `atoi` result is not modelled.
- `DeviceSink.Sink.WriteAnalog`: the channel array capacity (fixed in the analog device's header, which is not part of this model) is a constructor argument. The model requires `num_channel` to fit it.
- `Relay.FdSet`: `fd_set` capacity is taken as Winsock's default `FD_SETSIZE` of 64.
- `Relay.Server.Broadcast`: requires that the as-written fan-out ends (`FanOutEnds`). The endless loop that arises when `num_buttons + 1` is not past the sender's slot is exhibited by `Relay.ButtonResumeRevisitsSender`, not executed by the model.
- `Relay.Server.Service`: requires the same of the ready event (`Ends`).
- `Relay.Server.Step`: requires the same of every ready event, each in the state its predecessors leave (`CycleEnds`).
- `Relay.Handle`: requires the same (`Ends`).
- `Relay.Cycle`: requires the same (`CycleEnds`).

## Findings

| source | as written | input that shows it | evidently intended | confidence | as-written member | corrected member |
|---|---|---|---|---|---|---|
| vrpn/server_src/TCPServer.cpp:255 | `for (i = 0; i < button->num_buttons; i++)` assigns the fan-out index `i` of line 159, so after a successful button update the fan-out resumes at `num_buttons + 1` | `master` = [listener, A, B] with 256 buttons; A sends `"102|"` followed by 256 values: B receives nothing | a loop variable of its own, so that every other member still receives the payload | high; not executed | `Relay.RelaySkipsPeersAfterButtonUpdate` | `Relay.IntendedDelivery` |
| vrpn/server_src/TCPServer.cpp:255 | the same index reuse: when `num_buttons + 1` is not past the sender's slot, the loop reaches the sender again, re-acknowledges it, re-dispatches and resets the index, forever | 1 button, `master` = [listener, P, Q, A]; A sends `"102|1"`: the index cycles 3 → 2 → 3 | the fan-out visits each slot once and ends | high; not executed | `Relay.ButtonResumeRevisitsSender` | `Relay.FanOutIsIntended` |
