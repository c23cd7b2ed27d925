/** The client end of the message transport: per channel, a queue of
    payloads that have arrived and not yet been received, and the payloads
    the client has sent, in order. Delivery itself is not modelled. */
module Transport {
  import opened Channel

  class RenetClient {
    var inbound: map<ChannelId, seq<Payload>>
    var sent: map<ChannelId, seq<Payload>>

    ghost predicate Valid()
      reads this
    {
      forall c: ChannelId :: c in inbound && c in sent
    }

    constructor ()
      ensures Valid()
      ensures forall c: ChannelId :: inbound[c] == [] && sent[c] == []
    {
      inbound := map[GetRoomsChannel := [], CreateRoomChannel := [], EnterRoomChannel := []];
      sent := map[GetRoomsChannel := [], CreateRoomChannel := [], EnterRoomChannel := []];
      new;
      forall c: ChannelId ensures c in inbound && c in sent {
        match c
        case GetRoomsChannel =>
        case CreateRoomChannel =>
        case EnterRoomChannel =>
      }
    }

    /** Queues `payload` for transmission on `channel`. */
    method SendMessage(channel: ChannelId, payload: Payload)
      requires Valid()
      modifies this
      ensures Valid()
      ensures sent == old(sent)[channel := old(sent[channel]) + [payload]]
      ensures inbound == old(inbound)
    {
      sent := sent[channel := sent[channel] + [payload]];
    }

    /** Takes the oldest payload waiting on `channel`, if any. */
    method ReceiveMessage(channel: ChannelId) returns (payload: Option<Payload>)
      requires Valid()
      modifies this
      ensures Valid()
      ensures sent == old(sent)
      ensures old(inbound[channel]) == [] ==> payload == None && inbound == old(inbound)
      ensures old(inbound[channel]) != [] ==>
        payload == Some(old(inbound[channel])[0]) &&
        inbound == old(inbound)[channel := old(inbound[channel])[1..]]
    {
      var queue := inbound[channel];
      if queue == [] {
        payload := None;
      } else {
        payload := Some(queue[0]);
        inbound := inbound[channel := queue[1..]];
      }
    }

    /** The network hands a payload from the server to `channel`. */
    method Deliver(channel: ChannelId, payload: Payload)
      requires Valid()
      modifies this
      ensures Valid()
      ensures inbound == old(inbound)[channel := old(inbound[channel]) + [payload]]
      ensures sent == old(sent)
    {
      inbound := inbound[channel := inbound[channel] + [payload]];
    }
  }
}
