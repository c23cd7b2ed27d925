# Lobby protocol of the texas-holdem client

This project models the client side of the lobby protocol of the texas-holdem
game (`texas-holdem-client/src/network.rs`) and proves properties of it. The
client runs three systems once per frame while it is in the lobby:

- **the room-list poller** (`get_rooms`). It counts a cooldown down by the
  frame's elapsed time. When the cooldown drops below zero, it sends one list
  request and resets the cooldown to 5 seconds. It then drains the list
  channel, and every response that decodes replaces the whole room list.
- **the create-room tracker** (`create_room`). It sends one create request per
  create event. Each request carries the current timestamp as a nonce and
  always has `room_id = 0`. Each send overwrites a persistent "last timestamp"
  slot. It then drains the create channel. A response moves the client to
  `Gaming` when its timestamp equals the slot.
- **the enter-room tracker** (`enter_room`). It works the same way, except
  that requests carry `success = false` and a response must also carry
  `success = true`.

Modules:

- `App` (app.dfy): the `AppState` enum, `Lobby` or `Gaming`.
- `Channel` (channel.dfy): the three wire messages, 64-bit timestamps and the
  codec. A payload is either the serialisation of exactly one message or
  malformed bytes.
- `Transport` (transport.dfy): the client end of the transport. For each
  channel it holds a queue of payloads that have arrived but not been
  received, and the sequence of payloads sent.
- `Network` (network.dfy): the class `LobbyClient`. Its fields are the
  poller's cooldown, the room list, the two nonce slots and the requested
  state. It has one method per system. `GetRooms` updates the cooldown,
  possibly sends one request, and then drains the list channel in a loop.
  `CreateRoom` and `EnterRoom` each loop over the frame's events, sending one
  request per event. They then drain their channel through one shared method,
  `DrainResponses`, which applies the create or the enter acceptance rule. The
  specification functions that their contracts use are defined here too.
- `Protocol` (protocol.dfy): lemmas over many frames, methods that run the
  client frame after frame and tie it to those lemmas, and four whole-frame
  scenarios run against `LobbyClient`: an accepted create, a stale create
  response, a failed enter, and two snapshots in one frame.

Notes on behaviour the model makes visible:

- The nonce slots start at 0, the default of the source's `Local<u64>`.
  Before any request is sent, a create response that carries timestamp 0 is
  therefore accepted, and so is an enter response that carries timestamp 0
  and `success = true`.
- The cooldown starts at 0 and a request is sent only when it drops below 0.
  A fresh client therefore sends its first list request in its first frame
  with positive elapsed time, and a first frame with zero elapsed time sends
  nothing.
- A match does not clear the slot. After `*last_timestamp = timestamp`
  (network.rs:63 and 93) nothing resets it. A payload is consumed when it is
  drained, but a later payload carrying the same nonce matches again.
  Requesting `Gaming` again changes nothing.
- Correlation needs distinct stamps. Two requests sent within one clock tick
  get the same stamp, and the response to the older one is then accepted
  (`EqualStampsAreIndistinguishable`).
- A matched response's `room_id` is not used. Both trackers only request
  `AppState::Gaming` (network.rs:70 and 100), so the model does not record
  which room was created or entered.

## Model

| member | source | states |
|---|---|---|
| `Channel.Encode` | texas-holdem-client/src/network.rs:29-34 | serialising never fails; decoding a payload as its own message type gives the message back, and decoding it as either other type fails |
| `Channel.DecodedIsEncoded` | texas-holdem-client/src/network.rs:33-34 | in the model's payload type, every payload that decodes is the encoding of the decoded message (real JSON admits many encodings of one message) |
| `Transport.RenetClient.SendMessage` | texas-holdem-client/src/network.rs:59-62 | appends the payload to that channel's sent sequence; other channels and all inbound queues are unchanged |
| `Transport.RenetClient.ReceiveMessage` | texas-holdem-client/src/network.rs:33 | returns the oldest payload waiting on the channel and removes it, or returns nothing when the queue is empty |
| `Network.LobbyClient.constructor` | texas-holdem-client/src/main.rs:26-31 | start-up state: state `Lobby` (the enum's default); also cooldown 0 and both nonce slots 0 (the `Local` defaults at network.rs:19, 46 and 80) and the empty room list inserted at main.rs:60 |
| `Network.LobbyClient.GetRooms` | texas-holdem-client/src/network.rs:16-39 | the cooldown becomes `old - delta`, or 5 when that is below zero; exactly one list request (`rooms` empty) is sent iff `old - delta < 0`; the list channel ends drained; the room list becomes the latest decoded snapshot; the nonce slots and the state are untouched |
| `Network.LobbyClient.CreateRoom` | texas-holdem-client/src/network.rs:41-74 | one create request per event, in order, after the earlier sends; the slot holds the last stamp sent, or is unchanged with no events; the create channel ends drained; the state becomes `Gaming` iff some response echoes the slot as it is after this frame's sends; otherwise the state is unchanged; the enter slot, cooldown, room list and other channels are untouched |
| `Network.LobbyClient.EnterRoom` | texas-holdem-client/src/network.rs:76-104 | the same as `CreateRoom` for the enter channel, and a response is accepted only with a matching nonce and `success`; the create slot is untouched |
| `Network.LobbyClient.DrainResponses` | texas-holdem-client/src/network.rs:66-73 | drains the tracker's channel completely, sends nothing, and requests `Gaming` iff some payload is accepted against the pending nonce; otherwise the state is unchanged |
| `Protocol.QuietRun` | texas-holdem-client/src/network.rs:22-31 | while no list request is sent, the cooldown falls by exactly the elapsed time and stays non-negative after each frame |
| `Protocol.QuietWithinCooldown` | texas-holdem-client/src/network.rs:22-31 | with non-negative frame times, no request is sent while the elapsed time stays within the cooldown |
| `Protocol.PollSpacing` | texas-holdem-client/src/network.rs:22-31 | after a request, the next request comes only once more than 5 seconds have elapsed |
| `Protocol.PollInterval` | texas-holdem-client/src/network.rs:22-31 | with non-negative frame times, a run that starts at a request sends no further request iff its elapsed time is at most 5 seconds |
| `Protocol.SnapshotKeptWithoutResponse` | texas-holdem-client/src/network.rs:33-38 | when no list response decodes, the room list is unchanged |
| `Protocol.SnapshotIsLastDecoded` | texas-holdem-client/src/network.rs:33-38 | the room list equals the rooms of the last list response that decodes |
| `Protocol.SnapshotNeverMerges` | texas-holdem-client/src/network.rs:36 | the room list is either the old list or exactly the rooms of one received response, never a merge |
| `Protocol.SnapshotSkipsUndecodable` | texas-holdem-client/src/network.rs:33-37 | an undecodable payload, wherever it arrives, does not change the resulting room list |
| `Protocol.CreateRequestsCarrySentinel` | texas-holdem-client/src/network.rs:50-64 | one create request per stamp, in order, carrying that stamp, the form's name and password, the player name and `room_id = 0`; the last request carries the pending nonce |
| `Protocol.EnterRequestsNeverClaimSuccess` | texas-holdem-client/src/network.rs:83-94 | one enter request per event, in order, carrying the event's room and password, its own stamp and `success = false`; the last request carries the pending nonce |
| `Protocol.CreateRequestsAppend` | texas-holdem-client/src/network.rs:50-64 | the create requests for two runs of stamps, one after the other, are the requests for all the stamps together, in order |
| `Protocol.PendingAcrossFrames` | texas-holdem-client/src/network.rs:46-64 | over any number of frames, the slot holds the stamp of the last request ever sent, or its initial value if none was sent |
| `Protocol.OverwrittenNonceNeverAccepted` | texas-holdem-client/src/network.rs:63-68 | with strictly increasing stamps, responses that carry an overwritten nonce are never accepted in any later frame |
| `Protocol.EqualStampsAreIndistinguishable` | texas-holdem-client/src/network.rs:51-68 | for any starting slot and any frame of stamps, if an earlier request got the same stamp as the last one, a response to that earlier request is accepted, whatever room it reports |
| `Protocol.FailedEnterNeverAccepted` | texas-holdem-client/src/network.rs:98 | an enter response with `success = false` is never accepted, whatever its nonce |
| `Protocol.ConfirmationSkipsRejected` | texas-holdem-client/src/network.rs:66-72 | a response that is not accepted, wherever it arrives, does not change whether the frame moves to `Gaming` |
| `Protocol.PollRequestsCounted` | texas-holdem-client/src/network.rs:24-31 | a run of frames sends exactly as many list requests as `Poll` counts |
| `Protocol.PollFrames` | texas-holdem-client/src/network.rs:16-39 | running `GetRooms` once per frame leaves the cooldown that `Poll` computes; the list channel gains, in order, a list request stamped with the frame's clock for each frame that sends, as many as `Poll` counts; after at least one frame the list channel is drained and the room list is the latest decoded snapshot among the payloads that were waiting, and with no frames it is unchanged; the nonce slots, the state and the other channels are untouched, so the polling and snapshot lemmas hold of the class |
| `Protocol.CreateFrames` | texas-holdem-client/src/network.rs:41-74 | running `CreateRoom` once per frame leaves the create slot at `PendingOverFrames`; the create channel gains the requests for all stamps of all frames, in order; after at least one frame the create channel is drained, and the state is `Gaming` iff a waiting response echoes the slot as it stood after the first frame's sends, since later frames find the channel empty; the cooldown, the room list, the enter slot and the other channels are untouched, so the create-slot lemmas hold of the class |
| `Protocol.EnterFrames` | texas-holdem-client/src/network.rs:76-104 | running `EnterRoom` once per frame, each event with its own stamp, leaves the enter slot at `PendingOverFrames`; the enter channel gains each frame's requests, frame by frame; after at least one frame the enter channel is drained, and the state is `Gaming` iff a waiting response echoes the slot as it stood after the first frame's sends and carries `success`; the cooldown, the room list, the create slot and the other channels are untouched, so the enter-slot lemmas hold of the class |
| `Protocol.LastEnterRequestCarriesSlot` | texas-holdem-client/src/network.rs:83-94 | over any number of frames, one enter request goes out per stamp, and the latest one carries the nonce the enter slot then holds |
| `Protocol.ScenarioCreateAccepted` | texas-holdem-client/src/network.rs:41-74 | create with nonce 100, a response with nonce 100 and room 7: the client moves to `Gaming` |
| `Protocol.ScenarioCreateStale` | texas-holdem-client/src/network.rs:50-72 | create with nonce 100, then create with nonce 200: the response to 100 leaves the client in `Lobby`, and the response to 200 moves it to `Gaming` |
| `Protocol.ScenarioEnterRejected` | texas-holdem-client/src/network.rs:76-104 | enter room 7 with nonce 50: a `success = false` response leaves `Lobby`, a successful one moves to `Gaming`, and the create slot stays 0 |
| `Protocol.ScenarioLatestSnapshotWins` | texas-holdem-client/src/network.rs:16-39 | two list responses in one frame leave exactly the second snapshot; a fresh client's first frame with positive elapsed time sends one list request, and a first frame with zero elapsed time sends none |

## Left out

- The server's room registry is not modelled. Its handlers (`handle_get_rooms`, `handle_create_room`, `handle_enter_room`) and `Room`/`Player` live in texas-holdem-server/src/network.rs and room.rs, which are not part of this model. texas-holdem-server/src/main.rs only registers them.
- The client's and server's `main` functions are not modelled. They hold the Bevy app wiring, system registration, and UDP socket and renet construction. The model does not capture that the three systems run only while the state is `Lobby`.
- `app_state.set(...)` writes Bevy's `NextState` resource, which the engine applies later. The model writes the requested state straight into `state`.
- The f32 cooldown is modelled with exact `real` arithmetic, so float rounding is not captured.
- JSON serialisation is foreign code. Decoding is modelled as recovering exactly the encoded message. A payload of another message type is assumed to fail to decode.
- The transport's delivery, ordering and loss are not modelled. Each channel is a queue that the client drains in arrival order.
- `timestamp()` and `time.delta_seconds()` are parameters: one stamp per event and one elapsed time per frame.
- `info!` logging, the `lobby` UI module, and the `table`/`room` game setup are not modelled.
- The element type of the room list comes from the shared message crate, which is not part of this model. It is modelled as `RoomSummary(roomId, roomName, playerCount)`.
