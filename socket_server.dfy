/**
  The Socket.IO room server: an in-memory map from room id to room, and for
  every connected socket the room it last created or joined. Events from a
  socket change one room and name what is emitted to the room or back to the
  sender. Nothing the clients send is sanitised here: names, topics, cards
  and accepted values are stored as received.
 */
module SocketServer {
  import opened Wrappers
  import opened Types
  import opened Roster
  import opened Stats
  import PokerLogic
  import PartyServer

  /** The server's own suggestion list; it ends with 21. */
  const FIBONACCI: seq<real> := [0.0, 1.0, 2.0, 3.0, 5.0, 8.0, 13.0, 21.0]

  const ROOM_NOT_FOUND := "Raum nicht gefunden"
  const NAME_IN_USE := "Name bereits vergeben"
  const NOT_HOST := "Only host can accept estimation"

  // ---------------------------------------------------------------- results

  /** The selections that `if (p.selectedCard)` lets through: present and not the empty string. */
  function TruthyCards(ps: seq<Player>): (r: seq<CardValue>)
    ensures |r| <= |ps|
    ensures forall c :: c in r <==> c != "" && exists i :: 0 <= i < |ps| && ps[i].selectedCard == Some(c)
  {
    if ps == [] then []
    else
      var rest := TruthyCards(ps[1..]);
      assert forall i :: 1 <= i < |ps| ==> ps[i] == ps[1..][i - 1];
      match ps[0].selectedCard
      case Some(c) => if c != "" then [c] + rest else rest
      case None => rest
  }

  /** The truthy filter keeps order and repeats: one more player adds their card at the end, if it is truthy. */
  lemma {:induction false} TruthyCardsAppend(ps: seq<Player>, p: Player)
    ensures TruthyCards(ps + [p]) ==
      TruthyCards(ps) + (if p.selectedCard.Some? && p.selectedCard.value != "" then [p.selectedCard.value] else [])
  {
    if ps == [] {
      assert [] + [p] == [p];
    } else {
      assert (ps + [p])[1..] == ps[1..] + [p];
      TruthyCardsAppend(ps[1..], p);
    }
  }

  /**
    What the server's `calculateResults(players)` returns: numbers are read
    from the non-null selections as in the PartyKit engine (with radix 10),
    the breakdown counts only truthy selections, and the suggestion is the
    nearest value of this server's list.
   */
  function ServerResults(players: seq<Player>): Results {
    var breakdown := Breakdown(TruthyCards(players));
    var nums := Numbers(SelectedCards(players), PartyServer.PartyNumber);
    if nums == [] then Results(None, None, Mode(breakdown), None, breakdown, None)
    else
      var average := Mean(nums);
      var suggestion := FIBONACCI[ArgNearest(FIBONACCI, average)];
      Results(Some(Round1(average)), Some(Median(SortAsc(nums))), Mode(breakdown), Some(Number(suggestion)), breakdown, None)
  }

  method CalculateResults(players: seq<Player>) returns (r: Results)
    ensures r == ServerResults(players)
  {
    var validCards := SelectedCards(players);
    var numericValues := Numbers(validCards, PartyServer.PartyNumber);
    var entries := CountCards(TruthyCards(players));
    var breakdown := SortByCount(entries);
    var mode := Mode(breakdown);
    if numericValues == [] {
      return Results(None, None, mode, None, breakdown, None);
    }
    var average := Sum(numericValues) / (|numericValues| as real);
    var median := Median(SortAsc(numericValues));
    var suggestion := Closest(FIBONACCI, average);
    r := Results(Some(Round1(average)), Some(median), mode, Some(Number(suggestion)), breakdown, None);
  }

  lemma {:induction false} TruthyWithoutEmptyCards(ps: seq<Player>)
    requires forall i :: 0 <= i < |ps| ==> ps[i].selectedCard != Some("")
    ensures TruthyCards(ps) == SelectedCards(ps)
  {
    if ps != [] {
      TruthyWithoutEmptyCards(ps[1..]);
    }
  }

  /** The empty-string card never shows up in the breakdown or as the mode. */
  lemma EmptyCardNotCounted(players: seq<Player>)
    ensures var r := ServerResults(players);
      && (forall i :: 0 <= i < |r.breakdown| ==> r.breakdown[i].value != "")
      && (r.mode.Some? ==> r.mode.value != "")
  {
    BreakdownEntriesExact(TruthyCards(players));
  }

  /**
    When no selection is the empty string, the server agrees with the
    PartyKit engine on everything except the suggestion, whose lists differ
    in their last value.
   */
  lemma AgreesWithParty(players: seq<Player>)
    requires forall i :: 0 <= i < |players| ==> players[i].selectedCard != Some("")
    ensures var r, q := ServerResults(players), PartyServer.PartyResults(players);
      && r.average == q.average && r.median == q.median && r.mode == q.mode
      && r.breakdown == q.breakdown && r.suggestion.Some? == q.suggestion.Some?
  {
    TruthyWithoutEmptyCards(players);
  }

  /**
    Average, median and suggestion are absent exactly when no selection has a
    number, whatever the selections are (the empty string included); the mode
    is absent exactly when no selection is truthy.
   */
  lemma ServerResultsShape(players: seq<Player>)
    ensures var r := ServerResults(players); var nums := Numbers(SelectedCards(players), PartyServer.PartyNumber);
      && (r.average.None? <==> nums == [])
      && (r.median.None? <==> nums == [])
      && (r.suggestion.None? <==> nums == [])
      && (r.mode.None? <==> TruthyCards(players) == [])
      && r.breakdown == Breakdown(TruthyCards(players))
      && r.acceptedValue.None?
      && (nums != [] ==> r.average == Some(Round1(Mean(nums))) && MinOf(nums) <= r.median.value <= MaxOf(nums))
  {
    ModeFacts(TruthyCards(players));
    if Numbers(SelectedCards(players), PartyServer.PartyNumber) != [] {
      MedianBounds(Numbers(SelectedCards(players), PartyServer.PartyNumber));
    }
  }

  lemma FibonacciIncreasing()
    ensures PokerLogic.StrictlyIncreasing(FIBONACCI)
  {
  }

  /** With numbers present, the suggestion is the value of `FIBONACCI` nearest the mean, the smaller on a tie. */
  lemma ServerSuggestionNearest(players: seq<Player>)
    requires Numbers(SelectedCards(players), PartyServer.PartyNumber) != []
    ensures var r := ServerResults(players); var mean := Mean(Numbers(SelectedCards(players), PartyServer.PartyNumber));
      && r.suggestion.Some? && r.suggestion.value.Number? && r.suggestion.value.number in FIBONACCI
      && forall v :: v in FIBONACCI ==>
           || Dist(v, mean) > Dist(r.suggestion.value.number, mean)
           || (Dist(v, mean) == Dist(r.suggestion.value.number, mean) && r.suggestion.value.number <= v)
  {
    FibonacciIncreasing();
    PartyServer.IncreasingNearest(FIBONACCI, Mean(Numbers(SelectedCards(players), PartyServer.PartyNumber)));
  }

  // ---------------------------------------------------------------- rooms

  /** What every stored room keeps: its key as id, one host that `hostId` names, results exactly while revealed, unique names. */
  predicate RoomOk(key: string, r: Room) {
    && r.id == key
    && HostInvariant(r.players, r.hostId)
    && (r.isRevealed <==> r.results.Some?)
    && UniqueNames(r.players)
  }

  /** `create-room`: the creator is the only player and the host. */
  function CreatedRoom(roomId: string, socketId: string, name: string): (r: Room)
    ensures RoomOk(roomId, r)
    ensures r.players == [Player(socketId, name, None, true)] && r.hostId == socketId
    ensures r.topic.None? && r.deckType.None? && !r.isRevealed && r.results.None? && r.history == []
  {
    var creator := Player(socketId, name, None, true);
    assert [] + [creator] == [creator];
    HostCountAppend([], creator);
    Room(roomId, socketId, None, None, [creator], false, None, [])
  }

  /** `join-room` as written: the joiner is never host, even in a room left empty. */
  function JoinedAsWritten(r: Room, socketId: string, name: string): Room {
    r.(players := r.players + [Player(socketId, name, None, false)])
  }

  /**
    Joining a room whose players have all left (it is kept for a grace
    period with the last host's id) gives a room with players but no host,
    and `hostId` names none of them, so nobody can reveal, reset or accept.
   */
  lemma JoinAsWrittenLeavesNoHost(r: Room, socketId: string, name: string)
    requires r.players == [] && socketId != r.hostId
    ensures var r' := JoinedAsWritten(r, socketId, name);
      && r'.players != [] && HostCount(r'.players) == 0
      && !HostInvariant(r'.players, r'.hostId)
      && forall i :: 0 <= i < |r'.players| ==> r'.players[i].id != r'.hostId
  {
  }

  /** `join-room` corrected as `rejoin-room` does it: the joiner becomes host of an empty room. */
  function Joined(r: Room, socketId: string, name: string): Room {
    var (ps, hostId) := Admit(r.players, r.hostId, socketId, name);
    r.(players := ps, hostId := hostId)
  }

  /** The correction changes nothing when somebody is in the room. */
  lemma JoinedAgreesWhenOccupied(r: Room, socketId: string, name: string)
    requires r.players != []
    ensures Joined(r, socketId, name) == JoinedAsWritten(r, socketId, name)
  {
  }

  /** The corrected join keeps a room sound, and the joiner is host exactly when the room was empty. */
  lemma JoinedKeepsRoomOk(key: string, r: Room, socketId: string, name: string)
    requires RoomOk(key, r) && !NameTaken(r.players, name)
    ensures var r' := Joined(r, socketId, name);
      && RoomOk(key, r')
      && r'.players == r.players + [Player(socketId, name, None, r.players == [])]
      && (r.players == [] ==> r'.hostId == socketId)
  {
    AdmitKeepsHostInvariant(r.players, r.hostId, socketId, name);
    AdmitKeepsUniqueNames(r.players, r.hostId, socketId, name);
  }

  /** `rejoin-room` for a known name: that player takes the new socket id, and the host id follows it. */
  function Rejoined(r: Room, k: nat, socketId: string): Room
    requires k < |r.players|
  {
    var (ps, hostId) := Rebind(r.players, r.hostId, k, socketId);
    r.(players := ps, hostId := hostId)
  }

  lemma RejoinedKeepsRoomOk(key: string, r: Room, k: nat, socketId: string)
    requires RoomOk(key, r) && k < |r.players|
    ensures var r' := Rejoined(r, k, socketId);
      && RoomOk(key, r')
      && |r'.players| == |r.players|
      && r'.players[k].id == socketId && r'.players[k].name == r.players[k].name
      && (r.players[k].isHost ==> r'.hostId == socketId)
  {
    RebindKeepsHostInvariant(r.players, r.hostId, k, socketId);
    SameNamesUnique(r.players, Rejoined(r, k, socketId).players);
  }

  lemma SelectionKeepsRoomOk(key: string, r: Room, k: nat, card: Option<CardValue>)
    requires RoomOk(key, r) && k < |r.players|
    ensures RoomOk(key, r.(players := SetSelection(r.players, k, card)))
  {
    SetSelectionKeepsHostInvariant(r.players, r.hostId, k, card);
    SameNamesUnique(r.players, SetSelection(r.players, k, card));
  }

  lemma ClearingKeepsRoomOk(key: string, r: Room)
    requires RoomOk(key, r)
    ensures RoomOk(key, r.(players := ClearSelections(r.players), isRevealed := false, results := None))
  {
    ClearSelectionsKeepsRoster(r.players, r.hostId);
    SameNamesUnique(r.players, ClearSelections(r.players));
  }

  lemma DepartureKeepsRoomOk(key: string, r: Room, socketId: string)
    requires RoomOk(key, r)
    ensures var (ps, hostId) := Depart(r.players, r.hostId, socketId);
      RoomOk(key, r.(players := ps, hostId := hostId))
  {
    DepartKeepsHostInvariant(r.players, r.hostId, socketId);
    DepartKeepsUniqueNames(r.players, r.hostId, socketId);
  }

  // ---------------------------------------------------------------- events

  datatype Event =
    | RoomState(room: Room)
    | CardSelected(playerId: string, hasCard: bool)
    | CardsRevealed(room: Room)
    | RoundReset
    | PlayerLeft(playerId: string)
    | Error(message: string)

  /** `io.to(roomId).emit(...)` or `socket.emit(...)`. */
  datatype Emission = ToRoom(roomId: string, event: Event) | ToSender(event: Event)

  class Server {
    /** `rooms`. */
    var rooms: map<string, Room>
    /** `currentRoomId` of every connected socket that has one. */
    var current: map<string, string>

    ghost predicate Valid()
      reads this
    {
      forall key :: key in rooms ==> RoomOk(key, rooms[key])
    }

    constructor ()
      ensures Valid() && rooms == map[] && current == map[]
    {
      rooms := map[];
      current := map[];
    }

    /** `create-room` with `roomId` the first eight characters of a fresh UUID. */
    method CreateRoom(socketId: string, roomId: string, name: string) returns (out: seq<Emission>)
      requires Valid()
      modifies this
      ensures Valid()
      ensures rooms == old(rooms)[roomId := CreatedRoom(roomId, socketId, name)]
      ensures current == old(current)[socketId := roomId]
      ensures out == [ToSender(RoomState(CreatedRoom(roomId, socketId, name)))]
    {
      var room := CreatedRoom(roomId, socketId, name);
      rooms := rooms[roomId := room];
      current := current[socketId := roomId];
      out := [ToSender(RoomState(room))];
    }

    /** `join-room`, with the joiner made host of an empty room (see `JoinAsWrittenLeavesNoHost`). */
    method JoinRoom(socketId: string, roomId: string, name: string) returns (ok: bool, message: Option<string>, out: seq<Emission>)
      requires Valid()
      modifies this
      ensures Valid()
      ensures roomId !in old(rooms) ==> !ok && message == Some(ROOM_NOT_FOUND)
      ensures roomId in old(rooms) && NameTaken(old(rooms)[roomId].players, name) ==> !ok && message == Some(NAME_IN_USE)
      ensures ok <==> roomId in old(rooms) && !NameTaken(old(rooms)[roomId].players, name)
      ensures ok ==>
        && message.None?
        && rooms == old(rooms)[roomId := Joined(old(rooms)[roomId], socketId, name)]
        && current == old(current)[socketId := roomId]
        && out == [ToRoom(roomId, RoomState(rooms[roomId]))]
      ensures !ok ==> rooms == old(rooms) && current == old(current) && out == []
    {
      if roomId !in rooms {
        return false, Some(ROOM_NOT_FOUND), [];
      }
      var room := rooms[roomId];
      if NameTaken(room.players, name) {
        return false, Some(NAME_IN_USE), [];
      }
      JoinedKeepsRoomOk(roomId, room, socketId, name);
      room := Joined(room, socketId, name);
      rooms := rooms[roomId := room];
      current := current[socketId := roomId];
      ok, message, out := true, None, [ToRoom(roomId, RoomState(room))];
    }

    /**
      `rejoin-room`: a player with that name (regardless of case) takes the
      new socket; otherwise the name joins, as host of an empty room.
     */
    method RejoinRoom(socketId: string, roomId: string, name: string) returns (ok: bool, out: seq<Emission>)
      requires Valid()
      modifies this
      ensures Valid()
      ensures ok <==> roomId in old(rooms)
      ensures ok ==>
        && rooms == old(rooms)[roomId := match IndexOfName(old(rooms)[roomId].players, name)
                                         case Some(k) => Rejoined(old(rooms)[roomId], k, socketId)
                                         case None => Joined(old(rooms)[roomId], socketId, name)]
        && current == old(current)[socketId := roomId]
        && out == [ToRoom(roomId, RoomState(rooms[roomId]))]
      ensures !ok ==> rooms == old(rooms) && current == old(current) && out == []
    {
      if roomId !in rooms {
        return false, [];
      }
      var room := rooms[roomId];
      var existing := IndexOfName(room.players, name);
      if existing.Some? {
        RejoinedKeepsRoomOk(roomId, room, existing.value, socketId);
        room := Rejoined(room, existing.value, socketId);
      } else {
        JoinedKeepsRoomOk(roomId, room, socketId, name);
        room := Joined(room, socketId, name);
      }
      rooms := rooms[roomId := room];
      current := current[socketId := roomId];
      ok, out := true, [ToRoom(roomId, RoomState(room))];
    }

    /** `select-card`: a player of an unrevealed room stores the card as sent (`None` for `null`). */
    method SelectCard(socketId: string, roomId: string, card: Option<CardValue>) returns (out: seq<Emission>)
      requires Valid()
      modifies this
      ensures Valid() && current == old(current)
      ensures var applies := roomId in old(rooms) && !old(rooms)[roomId].isRevealed
                             && IndexOfId(old(rooms)[roomId].players, socketId).Some?;
        && (applies ==>
             var r := old(rooms)[roomId];
             && rooms == old(rooms)[roomId := r.(players := SetSelection(r.players, IndexOfId(r.players, socketId).value, card))]
             && out == [ToRoom(roomId, RoomState(rooms[roomId])), ToRoom(roomId, CardSelected(socketId, card.Some?))])
        && (!applies ==> rooms == old(rooms) && out == [])
    {
      if roomId !in rooms || rooms[roomId].isRevealed {
        return [];
      }
      var room := rooms[roomId];
      var k := IndexOfId(room.players, socketId);
      if k.None? {
        return [];
      }
      SelectionKeepsRoomOk(roomId, room, k.value, card);
      room := room.(players := SetSelection(room.players, k.value, card));
      rooms := rooms[roomId := room];
      out := [ToRoom(roomId, RoomState(room)), ToRoom(roomId, CardSelected(socketId, card.Some?))];
    }

    /** `update-topic`: the host stores the topic as sent. */
    method UpdateTopic(socketId: string, roomId: string, topic: Option<string>) returns (out: seq<Emission>)
      requires Valid()
      modifies this
      ensures Valid() && current == old(current)
      ensures var applies := roomId in old(rooms) && old(rooms)[roomId].hostId == socketId;
        && (applies ==>
             && rooms == old(rooms)[roomId := old(rooms)[roomId].(topic := topic)]
             && out == [ToRoom(roomId, RoomState(rooms[roomId]))])
        && (!applies ==> rooms == old(rooms) && out == [])
    {
      if roomId !in rooms || rooms[roomId].hostId != socketId {
        return [];
      }
      var room := rooms[roomId].(topic := topic);
      rooms := rooms[roomId := room];
      out := [ToRoom(roomId, RoomState(room))];
    }

    /** `reveal-cards`: the host reveals and the results are computed; the room gets `cards-revealed`. */
    method RevealCards(socketId: string, roomId: string) returns (out: seq<Emission>)
      requires Valid()
      modifies this
      ensures Valid() && current == old(current)
      ensures var applies := roomId in old(rooms) && old(rooms)[roomId].hostId == socketId;
        && (applies ==>
             var r := old(rooms)[roomId];
             && rooms == old(rooms)[roomId := r.(isRevealed := true, results := Some(ServerResults(r.players)))]
             && out == [ToRoom(roomId, CardsRevealed(rooms[roomId]))])
        && (!applies ==> rooms == old(rooms) && out == [])
    {
      if roomId !in rooms || rooms[roomId].hostId != socketId {
        return [];
      }
      var room := rooms[roomId];
      var results := CalculateResults(room.players);
      room := room.(isRevealed := true, results := Some(results));
      rooms := rooms[roomId := room];
      out := [ToRoom(roomId, CardsRevealed(room))];
    }

    /**
      `accept-estimation`: the host appends the value as sent, under the
      topic (or "Unknown Topic") at time `now`; anyone else gets an error back.
     */
    method AcceptEstimation(socketId: string, roomId: string, value: CardValue, now: int) returns (out: seq<Emission>)
      requires Valid()
      modifies this
      ensures Valid() && current == old(current)
      ensures roomId !in old(rooms) ==> rooms == old(rooms) && out == []
      ensures roomId in old(rooms) && old(rooms)[roomId].hostId != socketId ==>
        rooms == old(rooms) && out == [ToSender(Error(NOT_HOST))]
      ensures roomId in old(rooms) && old(rooms)[roomId].hostId == socketId ==>
        var r := old(rooms)[roomId];
        var item := EstimationHistoryItem(PartyServer.TopicOrUnknown(r.topic), value, now);
        && rooms == old(rooms)[roomId := r.(history := r.history + [item])]
        && out == [ToRoom(roomId, RoomState(rooms[roomId]))]
    {
      if roomId !in rooms {
        return [];
      }
      var room := rooms[roomId];
      if room.hostId != socketId {
        return [ToSender(Error(NOT_HOST))];
      }
      var item := EstimationHistoryItem(PartyServer.TopicOrUnknown(room.topic), value, now);
      room := room.(history := room.history + [item]);
      rooms := rooms[roomId := room];
      out := [ToRoom(roomId, RoomState(room))];
    }

    /** `reset-round`: the host clears cards, results and topic; the room gets `round-reset`, then the state. */
    method ResetRound(socketId: string, roomId: string) returns (out: seq<Emission>)
      requires Valid()
      modifies this
      ensures Valid() && current == old(current)
      ensures var applies := roomId in old(rooms) && old(rooms)[roomId].hostId == socketId;
        && (applies ==>
             var r := old(rooms)[roomId];
             && rooms == old(rooms)[roomId := r.(players := ClearSelections(r.players), isRevealed := false, results := None, topic := None)]
             && out == [ToRoom(roomId, RoundReset), ToRoom(roomId, RoomState(rooms[roomId]))])
        && (!applies ==> rooms == old(rooms) && out == [])
    {
      if roomId !in rooms || rooms[roomId].hostId != socketId {
        return [];
      }
      var room := rooms[roomId];
      ClearingKeepsRoomOk(roomId, room);
      room := room.(players := ClearSelections(room.players), isRevealed := false, results := None, topic := None);
      rooms := rooms[roomId := room];
      out := [ToRoom(roomId, RoundReset), ToRoom(roomId, RoomState(room))];
    }

    /** `request-room-state`: the sender's current room, if it still exists, goes back to the sender. */
    method RequestRoomState(socketId: string) returns (out: seq<Emission>)
      ensures socketId in current && current[socketId] in rooms ==> out == [ToSender(RoomState(rooms[current[socketId]]))]
      ensures !(socketId in current && current[socketId] in rooms) ==> out == []
    {
      if socketId in current && current[socketId] in rooms {
        out := [ToSender(RoomState(rooms[current[socketId]]))];
      } else {
        out := [];
      }
    }

    /**
      `disconnect`: the socket leaves its current room with host succession.
      A room left empty is kept and its id returned, to be passed to
      `GraceExpired` 30 seconds later; otherwise the room is told.
     */
    method Disconnect(socketId: string) returns (emptied: Option<string>, out: seq<Emission>)
      requires Valid()
      modifies this
      ensures Valid()
      ensures current == old(current) - {socketId}
      ensures var applies := socketId in old(current) && old(current)[socketId] in old(rooms);
        && (!applies ==> rooms == old(rooms) && emptied.None? && out == [])
        && (applies ==>
             var roomId := old(current)[socketId];
             var r := old(rooms)[roomId];
             var (ps, hostId) := Depart(r.players, r.hostId, socketId);
             && rooms == old(rooms)[roomId := r.(players := ps, hostId := hostId)]
             && (ps == [] ==> emptied == Some(roomId) && out == [])
             && (ps != [] ==> emptied.None? && out == [ToRoom(roomId, PlayerLeft(socketId)), ToRoom(roomId, RoomState(rooms[roomId]))]))
    {
      emptied, out := None, [];
      if socketId in current && current[socketId] in rooms {
        var roomId := current[socketId];
        var room := rooms[roomId];
        DepartureKeepsRoomOk(roomId, room, socketId);
        var (ps, hostId) := Depart(room.players, room.hostId, socketId);
        room := room.(players := ps, hostId := hostId);
        rooms := rooms[roomId := room];
        if ps == [] {
          emptied := Some(roomId);
        } else {
          out := [ToRoom(roomId, PlayerLeft(socketId)), ToRoom(roomId, RoomState(room))];
        }
      }
      current := current - {socketId};
    }

    /** The grace timer fires: the room is deleted only if it still exists and is still empty. */
    method GraceExpired(roomId: string)
      requires Valid()
      modifies this
      ensures Valid() && current == old(current)
      ensures roomId in old(rooms) && old(rooms)[roomId].players == [] ==> rooms == old(rooms) - {roomId}
      ensures !(roomId in old(rooms) && old(rooms)[roomId].players == []) ==> rooms == old(rooms)
    {
      if roomId in rooms && rooms[roomId].players == [] {
        rooms := rooms - {roomId};
      }
    }
  }
}
