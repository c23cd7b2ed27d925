/** The client's lobby systems (texas-holdem-client/src/network.rs): a
    cooldown-driven room-list poller and two request trackers, for creating
    and for entering a room, that correlate responses by timestamp nonce.
    Each system is a method of `LobbyClient` run once per frame; the wall
    clock (`timestamp()` and the frame's elapsed time) comes in as
    parameters. */
module Network {
  import opened App
  import opened Channel
  import opened Transport

  /** Seconds between two room-list requests. */
  const RefreshInterval: real := 5.0

  /** The user asked to create a room. The tracker reads nothing from the
      event (it iterates with `for _ in`), so no fields are modelled. */
  datatype CreateRoomEvent = CreateRoomEvent

  /** The user asked to join room `roomId` with `roomPassword`. */
  datatype EnterRoomEvent = EnterRoomEvent(roomId: u64, roomPassword: string)

  /** The room name and password entered in the create-room form. */
  datatype NewRoomSettings = NewRoomSettings(roomName: string, roomPassword: string)

  // ---------------------------------------------------------------------
  // Room-list poller

  /** The cooldown after one frame, and whether that frame sends a request. */
  datatype PollStep = PollStep(cooldown: real, send: bool)

  function PollTick(cooldown: real, delta: real): PollStep {
    var left := cooldown - delta;
    if left < 0.0 then PollStep(RefreshInterval, true) else PollStep(left, false)
  }

  /** The room-list request sent at time `now`: it asks for, and carries, no rooms. */
  function ListRequest(now: u64): Payload {
    Encode(GetRooms(GetRoomsMessage(now, [])))
  }

  /** The room list after receiving `inbox` in order: each decodable
      response replaces the whole list, so the last one decides. */
  function LatestSnapshot(current: seq<RoomSummary>, inbox: seq<Payload>): seq<RoomSummary>
    decreases |inbox|
  {
    if inbox == [] then current
    else match DecodeGetRooms(inbox[|inbox| - 1])
      case Some(m) => m.rooms
      case None => LatestSnapshot(current, inbox[..|inbox| - 1])
  }

  // ---------------------------------------------------------------------
  // Request trackers

  /** The two kinds of request whose responses are correlated by nonce. */
  datatype Tracked = Create | Enter

  function TrackedChannel(kind: Tracked): ChannelId {
    match kind
    case Create => CreateRoomChannel
    case Enter => EnterRoomChannel
  }

  /** The pending nonce after sending one request per stamp, in order:
      each send overwrites the slot. */
  function PendingAfter(pending: u64, stamps: seq<u64>): u64 {
    if stamps == [] then pending else stamps[|stamps| - 1]
  }

  /** The nonce a message of the kind carries (a request's stamp, or the stamp
      a response echoes), if the payload decodes as one. */
  function Nonce(kind: Tracked, p: Payload): Option<u64> {
    match kind
    case Create => if DecodeCreateRoom(p).Some? then Some(DecodeCreateRoom(p).value.timestamp) else None
    case Enter => if DecodeEnterRoom(p).Some? then Some(DecodeEnterRoom(p).value.timestamp) else None
  }

  /** A response moves the client to `Gaming`: it decodes as the kind's
      message, echoes the pending nonce and, for entering, reports success. */
  predicate Accepts(kind: Tracked, pending: u64, p: Payload) {
    Nonce(kind, p) == Some(pending) &&
    (kind == Enter ==> DecodeEnterRoom(p).value.success)
  }

  /** Some response in `inbox` is accepted against `pending`. */
  predicate Confirmed(kind: Tracked, pending: u64, inbox: seq<Payload>) {
    exists j :: 0 <= j < |inbox| && Accepts(kind, pending, inbox[j])
  }

  function CreateRequest(settings: NewRoomSettings, player: string, stamp: u64): CreateRoomMessage {
    CreateRoomMessage(stamp, settings.roomName, settings.roomPassword, player, 0)
  }

  /** The create requests sent for one frame's events, one per stamp. */
  function CreateRequests(settings: NewRoomSettings, player: string, stamps: seq<u64>): seq<Payload>
    decreases |stamps|
  {
    if stamps == [] then []
    else CreateRequests(settings, player, stamps[..|stamps| - 1]) +
         [Encode(CreateRoom(CreateRequest(settings, player, stamps[|stamps| - 1])))]
  }

  function EnterRequest(event: EnterRoomEvent, player: string, stamp: u64): EnterRoomMessage {
    EnterRoomMessage(stamp, event.roomId, event.roomPassword, player, false)
  }

  /** The enter requests sent for one frame's events, one per event. */
  function EnterRequests(events: seq<EnterRoomEvent>, player: string, stamps: seq<u64>): seq<Payload>
    requires |stamps| == |events|
    decreases |stamps|
  {
    if stamps == [] then []
    else EnterRequests(events[..|events| - 1], player, stamps[..|stamps| - 1]) +
         [Encode(EnterRoom(EnterRequest(events[|events| - 1], player, stamps[|stamps| - 1])))]
  }

  // ---------------------------------------------------------------------
  // The client's lobby state

  class LobbyClient {
    /** Seconds until the next room-list request (the poller's local). */
    var refreshCd: real
    /** The last room list received. */
    var roomList: seq<RoomSummary>
    /** Nonce of the last create request sent (the create tracker's local). */
    var createNonce: u64
    /** Nonce of the last enter request sent (the enter tracker's local). */
    var enterNonce: u64
    /** The requested top-level state. */
    var state: AppState

    /** The state at start-up: the poller's `Local<f32>` and the trackers'
        `Local<u64>` at their defaults (network.rs:19, 46, 80), the empty
        room list inserted at main.rs:60, and the default state `Lobby`. */
    constructor ()
      ensures refreshCd == 0.0 && roomList == []
      ensures createNonce == 0 && enterNonce == 0
      ensures state == Lobby
    {
      refreshCd := 0.0;
      roomList := [];
      createNonce := 0;
      enterNonce := 0;
      state := Lobby;
    }

    /** One frame of the room-list poller: count the cooldown down, send a
        request when it has run out, then drain the list channel. */
    method GetRooms(client: RenetClient, delta: real, now: u64)
      requires client.Valid()
      modifies this`refreshCd, this`roomList, client
      ensures client.Valid()
      ensures refreshCd == PollTick(old(refreshCd), delta).cooldown
      ensures client.sent == old(client.sent)[GetRoomsChannel :=
        old(client.sent[GetRoomsChannel]) +
        (if PollTick(old(refreshCd), delta).send then [ListRequest(now)] else [])]
      ensures client.inbound == old(client.inbound)[GetRoomsChannel := []]
      ensures roomList == LatestSnapshot(old(roomList), old(client.inbound[GetRoomsChannel]))
    {
      refreshCd := refreshCd - delta;
      if refreshCd < 0.0 {
        var message := GetRoomsMessage(now, []);
        client.SendMessage(GetRoomsChannel, Encode(Message.GetRooms(message)));
        refreshCd := RefreshInterval;
      } else {
        assert old(client.sent[GetRoomsChannel]) + [] == old(client.sent[GetRoomsChannel]);
      }

      ghost var queue := client.inbound[GetRoomsChannel];
      ghost var inboundBefore := client.inbound;
      ghost var sentBefore := client.sent;
      ghost var cooldown := refreshCd;
      ghost var taken := 0;
      while true
        invariant client.Valid()
        invariant 0 <= taken <= |queue|
        invariant refreshCd == cooldown
        invariant client.sent == sentBefore
        invariant client.inbound == inboundBefore[GetRoomsChannel := queue[taken..]]
        invariant roomList == LatestSnapshot(old(roomList), queue[..taken])
        decreases |client.inbound[GetRoomsChannel]|
      {
        var received := client.ReceiveMessage(GetRoomsChannel);
        if received.None? {
          break;
        }
        var decoded := DecodeGetRooms(received.value);
        if decoded.Some? {
          roomList := decoded.value.rooms;
        }
        assert queue[..taken + 1][..taken] == queue[..taken];
        taken := taken + 1;
      }
      assert queue[..taken] == queue;
    }

    /** One frame of the create tracker: send one request per event, each
        overwriting the pending nonce, then drain the create channel. */
    method CreateRoom(client: RenetClient, events: seq<CreateRoomEvent>, settings: NewRoomSettings,
                      player: string, stamps: seq<u64>)
      requires client.Valid()
      requires |stamps| == |events|
      modifies this`createNonce, this`state, client
      ensures client.Valid()
      ensures createNonce == PendingAfter(old(createNonce), stamps)
      ensures client.sent == old(client.sent)[CreateRoomChannel :=
        old(client.sent[CreateRoomChannel]) + CreateRequests(settings, player, stamps)]
      ensures client.inbound == old(client.inbound)[CreateRoomChannel := []]
      ensures state ==
        if Confirmed(Create, createNonce, old(client.inbound[CreateRoomChannel])) then Gaming
        else old(state)
    {
      assert CreateRequests(settings, player, stamps[..0]) == [];
      assert old(client.sent[CreateRoomChannel]) + [] == old(client.sent[CreateRoomChannel]);
      var i := 0;
      while i < |events|
        invariant 0 <= i <= |events|
        invariant client.Valid()
        invariant client.inbound == old(client.inbound)
        invariant client.sent == old(client.sent)[CreateRoomChannel :=
          old(client.sent[CreateRoomChannel]) + CreateRequests(settings, player, stamps[..i])]
        invariant createNonce == PendingAfter(old(createNonce), stamps[..i])
        invariant state == old(state)
      {
        var timestamp := stamps[i];
        var message := CreateRoomMessage(timestamp, settings.roomName, settings.roomPassword, player, 0);
        client.SendMessage(CreateRoomChannel, Encode(Message.CreateRoom(message)));
        assert old(client.sent[CreateRoomChannel]) + CreateRequests(settings, player, stamps[..i]) + [Encode(Message.CreateRoom(message))] ==
          old(client.sent[CreateRoomChannel]) + (CreateRequests(settings, player, stamps[..i]) + [Encode(Message.CreateRoom(message))]);
        createNonce := timestamp;
        assert stamps[..i + 1][..i] == stamps[..i];
        assert CreateRequests(settings, player, stamps[..i + 1]) ==
          CreateRequests(settings, player, stamps[..i]) + [Encode(Message.CreateRoom(message))];
        i := i + 1;
      }
      assert stamps[..i] == stamps;

      DrainResponses(client, Create, createNonce);
    }

    /** One frame of the enter tracker: as for creating, except that a
        response must also report success. */
    method EnterRoom(client: RenetClient, events: seq<EnterRoomEvent>, player: string, stamps: seq<u64>)
      requires client.Valid()
      requires |stamps| == |events|
      modifies this`enterNonce, this`state, client
      ensures client.Valid()
      ensures enterNonce == PendingAfter(old(enterNonce), stamps)
      ensures client.sent == old(client.sent)[EnterRoomChannel :=
        old(client.sent[EnterRoomChannel]) + EnterRequests(events, player, stamps)]
      ensures client.inbound == old(client.inbound)[EnterRoomChannel := []]
      ensures state ==
        if Confirmed(Enter, enterNonce, old(client.inbound[EnterRoomChannel])) then Gaming
        else old(state)
    {
      assert EnterRequests(events[..0], player, stamps[..0]) == [];
      assert old(client.sent[EnterRoomChannel]) + [] == old(client.sent[EnterRoomChannel]);
      var i := 0;
      while i < |events|
        invariant 0 <= i <= |events|
        invariant client.Valid()
        invariant client.inbound == old(client.inbound)
        invariant client.sent == old(client.sent)[EnterRoomChannel :=
          old(client.sent[EnterRoomChannel]) + EnterRequests(events[..i], player, stamps[..i])]
        invariant enterNonce == PendingAfter(old(enterNonce), stamps[..i])
        invariant state == old(state)
      {
        var event := events[i];
        var timestamp := stamps[i];
        var message := EnterRoomMessage(timestamp, event.roomId, event.roomPassword, player, false);
        client.SendMessage(EnterRoomChannel, Encode(Message.EnterRoom(message)));
        assert old(client.sent[EnterRoomChannel]) + EnterRequests(events[..i], player, stamps[..i]) + [Encode(Message.EnterRoom(message))] ==
          old(client.sent[EnterRoomChannel]) + (EnterRequests(events[..i], player, stamps[..i]) + [Encode(Message.EnterRoom(message))]);
        enterNonce := timestamp;
        assert stamps[..i + 1][..i] == stamps[..i];
        assert events[..i + 1][..i] == events[..i];
        assert EnterRequests(events[..i + 1], player, stamps[..i + 1]) ==
          EnterRequests(events[..i], player, stamps[..i]) + [Encode(Message.EnterRoom(message))];
        i := i + 1;
      }
      assert stamps[..i] == stamps;
      assert events[..i] == events;

      DrainResponses(client, Enter, enterNonce);
    }

    /** Drains the tracker's channel, requesting `Gaming` for every response
        accepted against `pending`; other responses, and payloads that do
        not decode, are dropped. */
    method DrainResponses(client: RenetClient, kind: Tracked, pending: u64)
      requires client.Valid()
      modifies this`state, client
      ensures client.Valid()
      ensures client.sent == old(client.sent)
      ensures client.inbound == old(client.inbound)[TrackedChannel(kind) := []]
      ensures state ==
        if Confirmed(kind, pending, old(client.inbound[TrackedChannel(kind)])) then Gaming
        else old(state)
    {
      var channel := TrackedChannel(kind);
      ghost var queue := client.inbound[channel];
      ghost var taken := 0;
      while true
        invariant client.Valid()
        invariant 0 <= taken <= |queue|
        invariant client.sent == old(client.sent)
        invariant client.inbound == old(client.inbound)[channel := queue[taken..]]
        invariant state == if Confirmed(kind, pending, queue[..taken]) then Gaming else old(state)
        decreases |client.inbound[channel]|
      {
        var received := client.ReceiveMessage(channel);
        if received.None? {
          break;
        }
        var accepted := match kind
          case Create =>
            var decoded := DecodeCreateRoom(received.value);
            decoded.Some? && decoded.value.timestamp == pending
          case Enter =>
            var decoded := DecodeEnterRoom(received.value);
            decoded.Some? && decoded.value.timestamp == pending && decoded.value.success;
        if accepted {
          state := Gaming;
        }
        assert queue[..taken + 1] == queue[..taken] + [queue[taken]];
        taken := taken + 1;
      }
      assert queue[..taken] == queue;
    }
  }
}
