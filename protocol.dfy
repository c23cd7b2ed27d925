/** What the lobby systems guarantee over many frames: the spacing of
    room-list requests, the room list as the last snapshot received, the
    shape of outgoing requests, and the latest-nonce-wins correlation of
    create and enter responses. */
module Protocol {
  import opened App
  import opened Channel
  import opened Transport
  import opened Network

  // ---------------------------------------------------------------------
  // Room-list polling over many frames

  /** Time elapsed over a run of frames. */
  function Elapsed(deltas: seq<real>): real
    decreases |deltas|
  {
    if deltas == [] then 0.0 else Elapsed(deltas[..|deltas| - 1]) + deltas[|deltas| - 1]
  }

  /** The cooldown after a run of frames and how many list requests it sent. */
  datatype PollRun = PollRun(cooldown: real, requests: nat)

  function Poll(cooldown: real, deltas: seq<real>): PollRun
    decreases |deltas|
  {
    if deltas == [] then PollRun(cooldown, 0)
    else
      var before := Poll(cooldown, deltas[..|deltas| - 1]);
      var step := PollTick(before.cooldown, deltas[|deltas| - 1]);
      PollRun(step.cooldown, before.requests + if step.send then 1 else 0)
  }

  predicate NonNegative(deltas: seq<real>) {
    forall i :: 0 <= i < |deltas| ==> deltas[i] >= 0.0
  }

  /** While nothing is sent, the cooldown is counted down by exactly the
      elapsed time and, after at least one frame, is not below zero. */
  lemma {:induction false} QuietRun(cooldown: real, deltas: seq<real>)
    requires Poll(cooldown, deltas).requests == 0
    ensures Poll(cooldown, deltas).cooldown == cooldown - Elapsed(deltas)
    ensures deltas != [] ==> Poll(cooldown, deltas).cooldown >= 0.0
  {
    if deltas != [] {
      QuietRun(cooldown, deltas[..|deltas| - 1]);
    }
  }

  /** With non-negative frame times, nothing is sent while the elapsed time
      stays within the cooldown. */
  lemma {:induction false} QuietWithinCooldown(cooldown: real, deltas: seq<real>)
    requires NonNegative(deltas)
    requires Elapsed(deltas) <= cooldown
    ensures Poll(cooldown, deltas).requests == 0
  {
    if deltas != [] {
      var front := deltas[..|deltas| - 1];
      assert NonNegative(front);
      QuietWithinCooldown(cooldown, front);
      QuietRun(cooldown, front);
    }
  }

  /** Two consecutive list requests are more than `RefreshInterval` apart:
      counting from a request (cooldown reset), the first frame that sends
      again ends a run whose elapsed time exceeds the interval. */
  lemma PollSpacing(deltas: seq<real>)
    requires deltas != []
    requires Poll(RefreshInterval, deltas[..|deltas| - 1]).requests == 0
    requires Poll(RefreshInterval, deltas).requests > 0
    ensures Elapsed(deltas) > RefreshInterval
  {
    QuietRun(RefreshInterval, deltas[..|deltas| - 1]);
  }

  /** With non-negative frame times, a run started by a request sends no
      further request exactly when its elapsed time is within the interval. */
  lemma PollInterval(deltas: seq<real>)
    requires NonNegative(deltas)
    ensures Poll(RefreshInterval, deltas).requests == 0 <==> Elapsed(deltas) <= RefreshInterval
  {
    if Poll(RefreshInterval, deltas).requests == 0 {
      QuietRun(RefreshInterval, deltas);
    }
    if Elapsed(deltas) <= RefreshInterval {
      QuietWithinCooldown(RefreshInterval, deltas);
    }
  }

  // ---------------------------------------------------------------------
  // The room list

  /** When no response decodes, the room list is left as it was. */
  lemma {:induction false} SnapshotKeptWithoutResponse(current: seq<RoomSummary>, inbox: seq<Payload>)
    requires forall j :: 0 <= j < |inbox| ==> DecodeGetRooms(inbox[j]).None?
    ensures LatestSnapshot(current, inbox) == current
  {
    if inbox != [] {
      SnapshotKeptWithoutResponse(current, inbox[..|inbox| - 1]);
    }
  }

  /** The room list is the rooms of the last response that decodes, whatever
      arrived before it. */
  lemma {:induction false} SnapshotIsLastDecoded(current: seq<RoomSummary>, inbox: seq<Payload>, k: nat)
    requires k < |inbox| && DecodeGetRooms(inbox[k]).Some?
    requires forall j :: k < j < |inbox| ==> DecodeGetRooms(inbox[j]).None?
    ensures LatestSnapshot(current, inbox) == DecodeGetRooms(inbox[k]).value.rooms
  {
    if k < |inbox| - 1 {
      var front := inbox[..|inbox| - 1];
      assert front[k] == inbox[k];
      assert forall j :: k < j < |front| ==> front[j] == inbox[j];
      SnapshotIsLastDecoded(current, front, k);
    }
  }

  /** The room list is replaced, never merged: it is either the old list or
      exactly the rooms of one response received. */
  lemma {:induction false} SnapshotNeverMerges(current: seq<RoomSummary>, inbox: seq<Payload>)
    ensures LatestSnapshot(current, inbox) == current ||
      exists k :: 0 <= k < |inbox| && DecodeGetRooms(inbox[k]).Some? &&
        LatestSnapshot(current, inbox) == DecodeGetRooms(inbox[k]).value.rooms
  {
    if inbox != [] && DecodeGetRooms(inbox[|inbox| - 1]).None? {
      var front := inbox[..|inbox| - 1];
      SnapshotNeverMerges(current, front);
      if LatestSnapshot(current, front) != current {
        var k :| 0 <= k < |front| && DecodeGetRooms(front[k]).Some? &&
          LatestSnapshot(current, front) == DecodeGetRooms(front[k]).value.rooms;
        assert front[k] == inbox[k];
      }
    }
  }

  /** A payload that does not decode changes nothing, wherever it arrives. */
  lemma {:induction false} SnapshotSkipsUndecodable(
    current: seq<RoomSummary>, front: seq<Payload>, p: Payload, back: seq<Payload>)
    requires DecodeGetRooms(p).None?
    ensures LatestSnapshot(current, front + [p] + back) == LatestSnapshot(current, front + back)
  {
    if back == [] {
      assert front + [p] + back == front + [p];
      assert (front + [p])[..|front|] == front;
      assert front + back == front;
    } else {
      var last := back[|back| - 1];
      var rest := back[..|back| - 1];
      SnapshotSkipsUndecodable(current, front, p, rest);
      assert (front + [p] + back)[..|front + [p] + back| - 1] == front + [p] + rest;
      assert (front + back)[..|front + back| - 1] == front + rest;
    }
  }

  // ---------------------------------------------------------------------
  // Outgoing requests

  /** One create request per event, in order, each carrying its own stamp
      and the `room_id` sentinel 0; the last one carries the pending nonce. */
  lemma {:induction false} CreateRequestsCarrySentinel(
    settings: NewRoomSettings, player: string, stamps: seq<u64>, pending: u64)
    ensures |CreateRequests(settings, player, stamps)| == |stamps|
    ensures forall i :: 0 <= i < |stamps| ==>
      DecodeCreateRoom(CreateRequests(settings, player, stamps)[i]) ==
        Some(CreateRoomMessage(stamps[i], settings.roomName, settings.roomPassword, player, 0))
    ensures stamps != [] ==>
      Nonce(Create, CreateRequests(settings, player, stamps)[|stamps| - 1]) ==
        Some(PendingAfter(pending, stamps))
  {
    if stamps != [] {
      CreateRequestsCarrySentinel(settings, player, stamps[..|stamps| - 1], pending);
    }
  }

  /** One enter request per event, in order, each naming the event's room and
      password, carrying its own stamp and `success == false`; the last one
      carries the pending nonce. */
  lemma {:induction false} EnterRequestsNeverClaimSuccess(
    events: seq<EnterRoomEvent>, player: string, stamps: seq<u64>, pending: u64)
    requires |stamps| == |events|
    ensures |EnterRequests(events, player, stamps)| == |events|
    ensures forall i :: 0 <= i < |events| ==>
      DecodeEnterRoom(EnterRequests(events, player, stamps)[i]) ==
        Some(EnterRoomMessage(stamps[i], events[i].roomId, events[i].roomPassword, player, false))
    ensures events != [] ==>
      Nonce(Enter, EnterRequests(events, player, stamps)[|events| - 1]) ==
        Some(PendingAfter(pending, stamps))
  {
    if events != [] {
      EnterRequestsNeverClaimSuccess(events[..|events| - 1], player, stamps[..|stamps| - 1], pending);
    }
  }

  /** Requests sent over several frames are the requests for all their
      stamps together. */
  lemma {:induction false} CreateRequestsAppend(
    settings: NewRoomSettings, player: string, front: seq<u64>, back: seq<u64>)
    ensures CreateRequests(settings, player, front + back) ==
      CreateRequests(settings, player, front) + CreateRequests(settings, player, back)
  {
    if back != [] {
      var rest := back[..|back| - 1];
      CreateRequestsAppend(settings, player, front, rest);
      assert (front + back)[..|front + back| - 1] == front + rest;
    } else {
      assert front + back == front;
    }
  }

  // ---------------------------------------------------------------------
  // Correlation of responses

  /** All stamps sent on one tracker, frame by frame, in order. */
  function Flatten(frames: seq<seq<u64>>): seq<u64>
    decreases |frames|
  {
    if frames == [] then [] else Flatten(frames[..|frames| - 1]) + frames[|frames| - 1]
  }

  /** The pending nonce after several frames of sends. */
  function PendingOverFrames(pending: u64, frames: seq<seq<u64>>): u64
    decreases |frames|
  {
    if frames == [] then pending
    else PendingAfter(PendingOverFrames(pending, frames[..|frames| - 1]), frames[|frames| - 1])
  }

  /** The slot survives frames without sends: after any number of frames it
      holds the stamp of the last request ever sent, or its first value. */
  lemma {:induction false} PendingAcrossFrames(pending: u64, frames: seq<seq<u64>>)
    ensures PendingOverFrames(pending, frames) == PendingAfter(pending, Flatten(frames))
  {
    if frames != [] {
      var front := frames[..|frames| - 1];
      var last := frames[|frames| - 1];
      PendingAcrossFrames(pending, front);
      if last == [] {
        assert Flatten(front) + last == Flatten(front);
      }
    }
  }

  predicate Increasing(stamps: seq<u64>) {
    forall i, j :: 0 <= i < j < |stamps| ==> stamps[i] < stamps[j]
  }

  /** With strictly increasing stamps, once a request's nonce has been
      overwritten by a later send, no response carrying it is accepted in
      any later frame. */
  lemma OverwrittenNonceNeverAccepted(
    kind: Tracked, pending: u64, frames: seq<seq<u64>>, k: nat, inbox: seq<Payload>)
    requires Increasing(Flatten(frames))
    requires k + 1 < |Flatten(frames)|
    requires forall j :: 0 <= j < |inbox| ==>
      Nonce(kind, inbox[j]).None? || Nonce(kind, inbox[j]) == Some(Flatten(frames)[k])
    ensures !Confirmed(kind, PendingOverFrames(pending, frames), inbox)
  {
    PendingAcrossFrames(pending, frames);
    var sent := Flatten(frames);
    assert PendingOverFrames(pending, frames) == sent[|sent| - 1] > sent[k];
  }

  /** The correlation needs distinct stamps: when an earlier request of
      the frame got the same stamp as the last one, a response to that
      earlier request is accepted, whatever room it reports. */
  lemma EqualStampsAreIndistinguishable(
    settings: NewRoomSettings, player: string, pending: u64, stamps: seq<u64>, i: nat, roomId: u64)
    requires i + 1 < |stamps| && stamps[i] == stamps[|stamps| - 1]
    ensures Accepts(Create, PendingAfter(pending, stamps),
      Encode(CreateRoom(CreateRoomMessage(stamps[i], settings.roomName, settings.roomPassword, player, roomId))))
  {
  }

  /** An enter response reporting failure never moves the client, whatever
      nonce it carries. */
  lemma FailedEnterNeverAccepted(pending: u64, inbox: seq<Payload>)
    requires forall j :: 0 <= j < |inbox| ==>
      DecodeEnterRoom(inbox[j]).None? || !DecodeEnterRoom(inbox[j]).value.success
    ensures !Confirmed(Enter, pending, inbox)
  {
  }

  /** A response that is not accepted changes nothing, wherever it arrives. */
  lemma ConfirmationSkipsRejected(
    kind: Tracked, pending: u64, front: seq<Payload>, p: Payload, back: seq<Payload>)
    requires !Accepts(kind, pending, p)
    ensures Confirmed(kind, pending, front + [p] + back) == Confirmed(kind, pending, front + back)
  {
    var with := front + [p] + back;
    var without := front + back;
    if Confirmed(kind, pending, with) {
      var j :| 0 <= j < |with| && Accepts(kind, pending, with[j]);
      var i := if j < |front| then j else j - 1;
      assert without[i] == with[j];
    }
    if Confirmed(kind, pending, without) {
      var i :| 0 <= i < |without| && Accepts(kind, pending, without[i]);
      var j := if i < |front| then i else i + 1;
      assert with[j] == without[i];
    }
  }

  // ---------------------------------------------------------------------
  // Running the lobby client frame after frame

  /** The list requests a run of frames sends, in order: one `ListRequest`
      stamped with the frame's clock for every frame whose tick sends. */
  function PollRequests(cooldown: real, deltas: seq<real>, clock: seq<u64>): seq<Payload>
    requires |clock| == |deltas|
    decreases |deltas|
  {
    if deltas == [] then []
    else
      var n := |deltas| - 1;
      PollRequests(cooldown, deltas[..n], clock[..n]) +
      if PollTick(Poll(cooldown, deltas[..n]).cooldown, deltas[n]).send then [ListRequest(clock[n])] else []
  }

  /** As many list requests are sent as `Poll` counts. */
  lemma {:induction false} PollRequestsCounted(cooldown: real, deltas: seq<real>, clock: seq<u64>)
    requires |clock| == |deltas|
    ensures |PollRequests(cooldown, deltas, clock)| == Poll(cooldown, deltas).requests
  {
    if deltas != [] {
      var n := |deltas| - 1;
      PollRequestsCounted(cooldown, deltas[..n], clock[..n]);
    }
  }

  /** Runs the room-list poller for one frame per delta: the cooldown is the
      one `Poll` computes, the list channel gains exactly `PollRequests`
      (as many as `Poll` counts), and the trackers and the other channels'
      sent payloads are untouched. */
  method PollFrames(lobby: LobbyClient, net: RenetClient, deltas: seq<real>, clock: seq<u64>)
    requires net.Valid()
    requires |clock| == |deltas|
    modifies lobby`refreshCd, lobby`roomList, net
    ensures net.Valid()
    ensures lobby.refreshCd == Poll(old(lobby.refreshCd), deltas).cooldown
    ensures net.sent[GetRoomsChannel] ==
      old(net.sent[GetRoomsChannel]) + PollRequests(old(lobby.refreshCd), deltas, clock)
    ensures |net.sent[GetRoomsChannel]| ==
      |old(net.sent[GetRoomsChannel])| + Poll(old(lobby.refreshCd), deltas).requests
    ensures forall c :: c != GetRoomsChannel ==> net.sent[c] == old(net.sent[c])
    ensures forall c :: c != GetRoomsChannel ==> net.inbound[c] == old(net.inbound[c])
    ensures deltas != [] ==> net.inbound[GetRoomsChannel] == []
    ensures lobby.roomList ==
      if deltas == [] then old(lobby.roomList)
      else LatestSnapshot(old(lobby.roomList), old(net.inbound[GetRoomsChannel]))
  {
    var i := 0;
    while i < |deltas|
      invariant 0 <= i <= |deltas|
      invariant net.Valid()
      invariant lobby.refreshCd == Poll(old(lobby.refreshCd), deltas[..i]).cooldown
      invariant net.sent[GetRoomsChannel] ==
        old(net.sent[GetRoomsChannel]) + PollRequests(old(lobby.refreshCd), deltas[..i], clock[..i])
      invariant forall c :: c != GetRoomsChannel ==> net.sent[c] == old(net.sent[c])
      invariant forall c :: c != GetRoomsChannel ==> net.inbound[c] == old(net.inbound[c])
      invariant net.inbound[GetRoomsChannel] == if i == 0 then old(net.inbound[GetRoomsChannel]) else []
      invariant lobby.roomList ==
        if i == 0 then old(lobby.roomList)
        else LatestSnapshot(old(lobby.roomList), old(net.inbound[GetRoomsChannel]))
    {
      ghost var sentBefore := net.sent[GetRoomsChannel];
      ghost var cooldownBefore := lobby.refreshCd;
      lobby.GetRooms(net, deltas[i], clock[i]);
      assert deltas[..i + 1][..i] == deltas[..i];
      assert clock[..i + 1][..i] == clock[..i];
      ghost var added := if PollTick(cooldownBefore, deltas[i]).send then [ListRequest(clock[i])] else [];
      assert PollRequests(old(lobby.refreshCd), deltas[..i + 1], clock[..i + 1]) ==
        PollRequests(old(lobby.refreshCd), deltas[..i], clock[..i]) + added;
      assert net.sent[GetRoomsChannel] == sentBefore + added;
      i := i + 1;
    }
    assert deltas[..i] == deltas;
    assert clock[..i] == clock;
    PollRequestsCounted(old(lobby.refreshCd), deltas, clock);
  }

  /** One more frame of create sends: the slot moves past the frame's
      stamps and the frame's requests follow those of the earlier frames. */
  lemma CreateFramesStep(pending: u64, settings: NewRoomSettings, player: string,
                         frames: seq<seq<u64>>, i: nat)
    requires i < |frames|
    ensures PendingOverFrames(pending, frames[..i + 1]) ==
      PendingAfter(PendingOverFrames(pending, frames[..i]), frames[i])
    ensures CreateRequests(settings, player, Flatten(frames[..i + 1])) ==
      CreateRequests(settings, player, Flatten(frames[..i])) + CreateRequests(settings, player, frames[i])
  {
    assert frames[..i + 1][..i] == frames[..i];
    CreateRequestsAppend(settings, player, Flatten(frames[..i]), frames[i]);
  }

  /** Each frame's events come with one stamp apiece. */
  predicate Stamped(frames: seq<seq<EnterRoomEvent>>, stamps: seq<seq<u64>>) {
    |stamps| == |frames| && forall i :: 0 <= i < |frames| ==> |stamps[i]| == |frames[i]|
  }

  /** The enter requests sent over several frames, frame by frame, in order. */
  function EnterRequestsOverFrames(frames: seq<seq<EnterRoomEvent>>, player: string,
                                   stamps: seq<seq<u64>>): seq<Payload>
    requires Stamped(frames, stamps)
    decreases |frames|
  {
    if frames == [] then []
    else EnterRequestsOverFrames(frames[..|frames| - 1], player, stamps[..|stamps| - 1]) +
         EnterRequests(frames[|frames| - 1], player, stamps[|stamps| - 1])
  }

  /** Over any number of frames, one enter request goes out per stamp, and
      the latest one carries the nonce the enter slot then holds. */
  lemma {:induction false} LastEnterRequestCarriesSlot(
    pending: u64, frames: seq<seq<EnterRoomEvent>>, player: string, stamps: seq<seq<u64>>)
    requires Stamped(frames, stamps)
    ensures |EnterRequestsOverFrames(frames, player, stamps)| == |Flatten(stamps)|
    ensures Flatten(stamps) != [] ==>
      Nonce(Enter, EnterRequestsOverFrames(frames, player, stamps)[|Flatten(stamps)| - 1]) ==
        Some(PendingOverFrames(pending, stamps))
  {
    if frames != [] {
      var n := |frames| - 1;
      LastEnterRequestCarriesSlot(pending, frames[..n], player, stamps[..n]);
      EnterRequestsNeverClaimSuccess(frames[n], player, stamps[n], PendingOverFrames(pending, stamps[..n]));
      if stamps[n] == [] {
        assert Flatten(stamps) == Flatten(stamps[..n]);
      }
    }
  }

  /** One more frame of enter sends: the slot moves past the frame's
      stamps and the frame's requests follow those of the earlier frames. */
  lemma EnterFramesStep(pending: u64, frames: seq<seq<EnterRoomEvent>>, player: string,
                        stamps: seq<seq<u64>>, i: nat)
    requires Stamped(frames, stamps) && i < |frames|
    ensures Stamped(frames[..i], stamps[..i]) && Stamped(frames[..i + 1], stamps[..i + 1])
    ensures PendingOverFrames(pending, stamps[..i + 1]) ==
      PendingAfter(PendingOverFrames(pending, stamps[..i]), stamps[i])
    ensures EnterRequestsOverFrames(frames[..i + 1], player, stamps[..i + 1]) ==
      EnterRequestsOverFrames(frames[..i], player, stamps[..i]) + EnterRequests(frames[i], player, stamps[i])
  {
    assert frames[..i + 1][..i] == frames[..i];
    assert stamps[..i + 1][..i] == stamps[..i];
  }

  /** Runs the create tracker for one frame per entry of `frames`, sending
      one request per stamp of the frame: the slot is `PendingOverFrames`
      and the requests sent are those for all stamps, in order; the poller,
      the enter tracker and the other channels are untouched. The first frame
      drains the create channel and decides the state against its own last
      stamp; later frames find the channel empty. */
  method CreateFrames(lobby: LobbyClient, net: RenetClient, settings: NewRoomSettings,
                      player: string, frames: seq<seq<u64>>)
    requires net.Valid()
    modifies lobby`createNonce, lobby`state, net
    ensures net.Valid()
    ensures lobby.createNonce == PendingOverFrames(old(lobby.createNonce), frames)
    ensures net.sent[CreateRoomChannel] ==
      old(net.sent[CreateRoomChannel]) + CreateRequests(settings, player, Flatten(frames))
    ensures forall c :: c != CreateRoomChannel ==> net.sent[c] == old(net.sent[c])
    ensures forall c :: c != CreateRoomChannel ==> net.inbound[c] == old(net.inbound[c])
    ensures frames != [] ==> net.inbound[CreateRoomChannel] == []
    ensures lobby.state ==
      if frames != [] &&
         Confirmed(Create, PendingAfter(old(lobby.createNonce), frames[0]), old(net.inbound[CreateRoomChannel]))
      then Gaming else old(lobby.state)
  {
    ghost var decided :=
      if frames != [] && Confirmed(Create, PendingAfter(lobby.createNonce, frames[0]), net.inbound[CreateRoomChannel])
      then Gaming else lobby.state;
    var i := 0;
    while i < |frames|
      invariant 0 <= i <= |frames|
      invariant net.Valid()
      invariant lobby.createNonce == PendingOverFrames(old(lobby.createNonce), frames[..i])
      invariant net.sent[CreateRoomChannel] ==
        old(net.sent[CreateRoomChannel]) + CreateRequests(settings, player, Flatten(frames[..i]))
      invariant net.sent[GetRoomsChannel] == old(net.sent[GetRoomsChannel]) &&
        net.sent[EnterRoomChannel] == old(net.sent[EnterRoomChannel])
      invariant net.inbound[GetRoomsChannel] == old(net.inbound[GetRoomsChannel]) &&
        net.inbound[EnterRoomChannel] == old(net.inbound[EnterRoomChannel])
      invariant net.inbound[CreateRoomChannel] == if i == 0 then old(net.inbound[CreateRoomChannel]) else []
      invariant lobby.state == if i == 0 then old(lobby.state) else decided
    {
      var events := seq(|frames[i]|, _ => CreateRoomEvent);
      ghost var sentBefore := net.sent[CreateRoomChannel];
      lobby.CreateRoom(net, events, settings, player, frames[i]);
      CreateFramesStep(old(lobby.createNonce), settings, player, frames, i);
      assert net.sent[CreateRoomChannel] == sentBefore + CreateRequests(settings, player, frames[i]);
      i := i + 1;
    }
    assert frames[..i] == frames;
  }

  /** Runs the enter tracker for one frame per entry of `frames`, stamping
      the frame's events with the matching entry of `stamps`: the enter slot
      is `PendingOverFrames` and the enter channel gains each frame's
      requests, frame by frame; the poller, the create tracker and the other
      channels are untouched. The first frame drains the enter channel and
      decides the state against its own last stamp; later frames find the
      channel empty. */
  method EnterFrames(lobby: LobbyClient, net: RenetClient, player: string,
                     frames: seq<seq<EnterRoomEvent>>, stamps: seq<seq<u64>>)
    requires net.Valid()
    requires Stamped(frames, stamps)
    modifies lobby`enterNonce, lobby`state, net
    ensures net.Valid()
    ensures lobby.enterNonce == PendingOverFrames(old(lobby.enterNonce), stamps)
    ensures net.sent[EnterRoomChannel] ==
      old(net.sent[EnterRoomChannel]) + EnterRequestsOverFrames(frames, player, stamps)
    ensures forall c :: c != EnterRoomChannel ==> net.sent[c] == old(net.sent[c])
    ensures forall c :: c != EnterRoomChannel ==> net.inbound[c] == old(net.inbound[c])
    ensures frames != [] ==> net.inbound[EnterRoomChannel] == []
    ensures lobby.state ==
      if frames != [] &&
         Confirmed(Enter, PendingAfter(old(lobby.enterNonce), stamps[0]), old(net.inbound[EnterRoomChannel]))
      then Gaming else old(lobby.state)
  {
    ghost var decided :=
      if frames != [] && Confirmed(Enter, PendingAfter(lobby.enterNonce, stamps[0]), net.inbound[EnterRoomChannel])
      then Gaming else lobby.state;
    var i := 0;
    while i < |frames|
      invariant 0 <= i <= |frames|
      invariant net.Valid()
      invariant Stamped(frames[..i], stamps[..i])
      invariant lobby.enterNonce == PendingOverFrames(old(lobby.enterNonce), stamps[..i])
      invariant net.sent[EnterRoomChannel] ==
        old(net.sent[EnterRoomChannel]) + EnterRequestsOverFrames(frames[..i], player, stamps[..i])
      invariant net.sent[GetRoomsChannel] == old(net.sent[GetRoomsChannel]) &&
        net.sent[CreateRoomChannel] == old(net.sent[CreateRoomChannel])
      invariant net.inbound[GetRoomsChannel] == old(net.inbound[GetRoomsChannel]) &&
        net.inbound[CreateRoomChannel] == old(net.inbound[CreateRoomChannel])
      invariant i == 0 ==> net.inbound[EnterRoomChannel] == old(net.inbound[EnterRoomChannel])
      invariant i == 0 ==> lobby.state == old(lobby.state)
      invariant i > 0 ==> net.inbound[EnterRoomChannel] == [] && lobby.state == decided
    {
      ghost var sentBefore := net.sent[EnterRoomChannel];
      lobby.EnterRoom(net, frames[i], player, stamps[i]);
      EnterFramesStep(old(lobby.enterNonce), frames, player, stamps, i);
      ghost var added := EnterRequests(frames[i], player, stamps[i]);
      assert net.sent[EnterRoomChannel] == sentBefore + added;
      assert sentBefore + added ==
        old(net.sent[EnterRoomChannel]) + (EnterRequestsOverFrames(frames[..i], player, stamps[..i]) + added);
      i := i + 1;
    }
    assert frames[..i] == frames;
    assert stamps[..i] == stamps;
  }

  // ---------------------------------------------------------------------
  // Whole-frame scenarios run against the lobby client

  /** A create response echoing the request's nonce moves the client to
      `Gaming` in the next frame. */
  method ScenarioCreateAccepted() returns (state: AppState)
    ensures state == Gaming
  {
    var net := new RenetClient();
    var lobby := new LobbyClient();
    var settings := NewRoomSettings("Table1", "");
    lobby.CreateRoom(net, [CreateRoomEvent], settings, "Player1", [100]);
    var response := Encode(CreateRoom(CreateRoomMessage(100, "Table1", "", "Player1", 7)));
    net.Deliver(CreateRoomChannel, response);
    assert net.inbound[CreateRoomChannel] == [response];
    assert Accepts(Create, 100, net.inbound[CreateRoomChannel][0]);
    lobby.CreateRoom(net, [], settings, "Player1", []);
    state := lobby.state;
  }

  /** Two create requests before any response: the response to the first
      is ignored, the response to the second is accepted. */
  method ScenarioCreateStale() returns (afterStale: AppState, afterFresh: AppState)
    ensures afterStale == Lobby
    ensures afterFresh == Gaming
  {
    var net := new RenetClient();
    var lobby := new LobbyClient();
    var settings := NewRoomSettings("Table1", "");
    lobby.CreateRoom(net, [CreateRoomEvent], settings, "Player1", [100]);
    lobby.CreateRoom(net, [CreateRoomEvent], settings, "Player1", [200]);
    net.Deliver(CreateRoomChannel, Encode(CreateRoom(CreateRoomMessage(100, "Table1", "", "Player1", 7))));
    lobby.CreateRoom(net, [], settings, "Player1", []);
    afterStale := lobby.state;
    var response := Encode(CreateRoom(CreateRoomMessage(200, "Table1", "", "Player1", 8)));
    net.Deliver(CreateRoomChannel, response);
    assert net.inbound[CreateRoomChannel] == [response];
    assert Accepts(Create, 200, net.inbound[CreateRoomChannel][0]);
    lobby.CreateRoom(net, [], settings, "Player1", []);
    afterFresh := lobby.state;
  }

  /** An enter response with the right nonce but `success == false` (wrong
      password) is ignored; a successful one is accepted. The create
      tracker's slot is untouched throughout. */
  method ScenarioEnterRejected() returns (afterFailure: AppState, afterSuccess: AppState, createNonce: u64)
    ensures afterFailure == Lobby
    ensures afterSuccess == Gaming
    ensures createNonce == 0
  {
    var net := new RenetClient();
    var lobby := new LobbyClient();
    lobby.EnterRoom(net, [EnterRoomEvent(7, "x")], "Player1", [50]);
    net.Deliver(EnterRoomChannel, Encode(EnterRoom(EnterRoomMessage(50, 7, "x", "Player1", false))));
    lobby.EnterRoom(net, [], "Player1", []);
    afterFailure := lobby.state;
    var response := Encode(EnterRoom(EnterRoomMessage(50, 7, "y", "Player1", true)));
    net.Deliver(EnterRoomChannel, response);
    assert net.inbound[EnterRoomChannel] == [response];
    assert Accepts(Enter, 50, net.inbound[EnterRoomChannel][0]);
    lobby.EnterRoom(net, [], "Player1", []);
    afterSuccess := lobby.state;
    createNonce := lobby.createNonce;
  }

  /** Two list responses in one frame: the room list is exactly the second.
      A fresh client's first frame sends one list request when its elapsed
      time is positive, and none when it is zero (0 - 0 is not below 0). */
  method ScenarioLatestSnapshotWins(first: seq<RoomSummary>, second: seq<RoomSummary>)
    returns (rooms: seq<RoomSummary>, requests: nat, requestsAfterZeroFrame: nat)
    ensures rooms == second
    ensures requests == 1
    ensures requestsAfterZeroFrame == 0
  {
    var idleNet := new RenetClient();
    var idle := new LobbyClient();
    idle.GetRooms(idleNet, 0.0, 3);
    requestsAfterZeroFrame := |idleNet.sent[GetRoomsChannel]|;

    var net := new RenetClient();
    var lobby := new LobbyClient();
    net.Deliver(GetRoomsChannel, Encode(GetRooms(GetRoomsMessage(1, first))));
    net.Deliver(GetRoomsChannel, Encode(GetRooms(GetRoomsMessage(2, second))));
    lobby.GetRooms(net, 0.016, 3);
    rooms := lobby.roomList;
    requests := |net.sent[GetRoomsChannel]|;
  }
}
