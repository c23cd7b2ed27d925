/** The lobby wire protocol: the three message shapes exchanged on the
    list, create and enter channels, and their serialisation. The JSON codec
    itself is foreign code; a payload is modelled as either the encoding of
    exactly one typed message or a byte string that decodes to nothing. */
module Channel {
  newtype u64 = x: int | 0 <= x < 0x1_0000_0000_0000_0000

  datatype Option<T> = None | Some(value: T)

  /** The three logical channels the client sends and receives on. */
  datatype ChannelId = GetRoomsChannel | CreateRoomChannel | EnterRoomChannel

  /** One entry of the server's room list. */
  datatype RoomSummary = RoomSummary(roomId: u64, roomName: string, playerCount: nat)

  datatype GetRoomsMessage = GetRoomsMessage(timestamp: u64, rooms: seq<RoomSummary>)

  datatype CreateRoomMessage = CreateRoomMessage(
    timestamp: u64, roomName: string, roomPassword: string, playerName: string, roomId: u64)

  datatype EnterRoomMessage = EnterRoomMessage(
    timestamp: u64, roomId: u64, roomPassword: string, playerName: string, success: bool)

  datatype Message =
    | GetRooms(getRooms: GetRoomsMessage)
    | CreateRoom(createRoom: CreateRoomMessage)
    | EnterRoom(enterRoom: EnterRoomMessage)

  /** The bytes carried by one transport message. */
  datatype Payload = Serialized(message: Message) | Malformed(bytes: seq<bv8>)

  /** Serialisation never fails, and decoding as the message's own type gives
      the message back while decoding as any other type fails. */
  function Encode(m: Message): (p: Payload)
    ensures DecodeGetRooms(p) == (if m.GetRooms? then Some(m.getRooms) else None)
    ensures DecodeCreateRoom(p) == (if m.CreateRoom? then Some(m.createRoom) else None)
    ensures DecodeEnterRoom(p) == (if m.EnterRoom? then Some(m.enterRoom) else None)
  {
    Serialized(m)
  }

  function DecodeGetRooms(p: Payload): Option<GetRoomsMessage> {
    match p
    case Serialized(GetRooms(m)) => Some(m)
    case _ => None
  }

  function DecodeCreateRoom(p: Payload): Option<CreateRoomMessage> {
    match p
    case Serialized(CreateRoom(m)) => Some(m)
    case _ => None
  }

  function DecodeEnterRoom(p: Payload): Option<EnterRoomMessage> {
    match p
    case Serialized(EnterRoom(m)) => Some(m)
    case _ => None
  }

  /** In this model's payload type, whatever decodes was produced by
      `Encode`. This is a fact about the abstraction, not about JSON, where
      many byte strings decode to the same message. */
  lemma DecodedIsEncoded(p: Payload)
    ensures DecodeGetRooms(p).Some? ==> p == Encode(GetRooms(DecodeGetRooms(p).value))
    ensures DecodeCreateRoom(p).Some? ==> p == Encode(CreateRoom(DecodeCreateRoom(p).value))
    ensures DecodeEnterRoom(p).Some? ==> p == Encode(EnterRoom(DecodeEnterRoom(p).value))
  {
  }
}
