/**
  The PartyKit room engine: one `Room` object per room, holding the stored
  room state. Connections are admitted or closed with a reason, messages
  from connected players drive the round (select, topic, reveal, accept,
  reset, revote), and a closing connection leaves the room with host
  succession. Its own `calculateResults` reads numbers with `parseInt` and
  suggests the nearest value of its own Fibonacci list.
 */
module PartyServer {
  import opened Wrappers
  import opened JsText
  import opened Types
  import opened Roster
  import opened Stats
  import PokerLogic

  const MAX_PLAYERS_PER_ROOM: nat := 50
  /** The engine's own suggestion list; it ends with 20, not 21. */
  const FIBONACCI: seq<real> := [0.0, 1.0, 2.0, 3.0, 5.0, 8.0, 13.0, 20.0]
  /** The sentinel the engine filters: the UTF-8 bytes of `∞` read as Windows-1252. */
  const MOJIBAKE_INFINITY: CardValue := "\U{E2}\U{2C6}\U{17E}"
  /** The WebSocket close code for a policy violation. */
  const POLICY_VIOLATION: nat := 1008

  // ---------------------------------------------------------------- validation

  /** `validateCardValue`: a string listed in `CARD_VALUES`, else `None`. */
  function ValidateCard(value: JsValue): (r: Option<CardValue>)
    ensures r.Some? <==> value.JsString? && value.text in CARD_VALUES
    ensures r.Some? ==> r.value == value.text
  {
    PokerLogic.ValidateCardValue(value, "scrum")
  }

  /** A selection is empty or a card of `CARD_VALUES`. */
  predicate ValidSelection(c: Option<CardValue>) {
    c.None? || c.value in CARD_VALUES
  }

  predicate SelectionsValid(ps: seq<Player>) {
    forall p :: p in ps ==> ValidSelection(p.selectedCard)
  }

  // ---------------------------------------------------------------- results

  /** `card !== '?' && card !== 'âˆž'`, then `parseInt(card)`; `None` for a filtered card or NaN. */
  function PartyNumber(card: CardValue): Option<real> {
    if card == UNKNOWN_CARD || card == MOJIBAKE_INFINITY then None
    else match ParseInt(card)
      case Some(n) => Some(n as real)
      case None => None
  }

  /** What this engine's `calculateResults(players)` returns. */
  function PartyResults(players: seq<Player>): Results {
    var cards := SelectedCards(players);
    var breakdown := Breakdown(cards);
    var nums := Numbers(cards, PartyNumber);
    if nums == [] then Results(None, None, Mode(breakdown), None, breakdown, None)
    else
      var average := Mean(nums);
      var suggestion := FIBONACCI[ArgNearest(FIBONACCI, average)];
      Results(Some(Round1(average)), Some(Median(SortAsc(nums))), Mode(breakdown), Some(Number(suggestion)), breakdown, None)
  }

  /** `calculateResults(players)`: count, sort by count, average, median, nearest Fibonacci value. */
  method CalculateResults(players: seq<Player>) returns (r: Results)
    ensures r == PartyResults(players)
  {
    var allCards := SelectedCards(players);
    var entries := CountCards(allCards);
    var breakdown := SortByCount(entries);
    var mode := Mode(breakdown);
    var numericValues := Numbers(allCards, PartyNumber);
    if numericValues == [] {
      return Results(None, None, mode, None, breakdown, None);
    }
    var average := Sum(numericValues) / (|numericValues| as real);
    var median := Median(SortAsc(numericValues));
    var suggestion := Closest(FIBONACCI, average);
    r := Results(Some(Round1(average)), Some(median), mode, Some(Number(suggestion)), breakdown, None);
  }

  /** A whole-number card counts as that number, exactly as in the library. */
  lemma WholeCardsAgree(n: nat, deckType: string)
    requires deckType != "tshirt"
    ensures PartyNumber(DecimalString(n)) == Some(n as real)
    ensures PokerLogic.CardNumber(DecimalString(n), deckType) == Some(n as real)
  {
    var card := DecimalString(n);
    ParseIntDecimal(n);
    PokerLogic.DecimalCard(n, card);
    assert IsDigit(card[0]);
  }

  /** Unlike the library, which reads 0.5 from `½`, this engine reads no number from it. */
  lemma HalfHasNoNumber()
    ensures PartyNumber(HALF_CARD) == None
    ensures PokerLogic.CardNumber(HALF_CARD, "scrum") == Some(0.5)
  {
  }

  /** `?` is filtered, and `☕` passes the filter but `parseInt` finds no digit in it. */
  lemma SentinelsHaveNoNumber()
    ensures PartyNumber(UNKNOWN_CARD) == None && PartyNumber(COFFEE_CARD) == None
  {
  }

  /** Votes without a number (`?`, `☕`, `½`) change neither the average, nor the median, nor the suggestion. */
  lemma NumberlessVotesContributeNothing(players: seq<Player>, extra: seq<Player>)
    requires forall i :: 0 <= i < |extra| ==> extra[i].selectedCard.Some? && PartyNumber(extra[i].selectedCard.value).None?
    ensures var before, after := PartyResults(players), PartyResults(players + extra);
      after.average == before.average && after.median == before.median && after.suggestion == before.suggestion
  {
    NumbersSkipVotes(players, extra, PartyNumber);
  }

  /**
    Average, median and suggestion are absent exactly when no selected card
    has a number; the breakdown and mode are the library's.
   */
  lemma PartyResultsShape(players: seq<Player>)
    ensures var r := PartyResults(players); var cards := SelectedCards(players);
      && (r.average.None? <==> forall i :: 0 <= i < |cards| ==> PartyNumber(cards[i]).None?)
      && (r.average.None? <==> r.median.None?)
      && (r.average.None? <==> r.suggestion.None?)
      && r.breakdown == Breakdown(cards)
      && (r.mode.None? <==> cards == [])
      && r.acceptedValue.None?
  {
    ModeFacts(SelectedCards(players));
  }

  /** With numbers present: the average is their mean rounded to one decimal, and the median lies between their extremes. */
  lemma PartyResultsNumeric(players: seq<Player>)
    requires Numbers(SelectedCards(players), PartyNumber) != []
    ensures var r := PartyResults(players);
      var nums := Numbers(SelectedCards(players), PartyNumber); var mean := Mean(nums);
      && r.average == Some(Round1(mean)) && mean - 0.05 < r.average.value <= mean + 0.05
      && r.median.Some? && MinOf(nums) <= r.median.value <= MaxOf(nums)
  {
    MedianBounds(Numbers(SelectedCards(players), PartyNumber));
  }

  lemma FibonacciIncreasing()
    ensures PokerLogic.StrictlyIncreasing(FIBONACCI)
  {
  }

  /** Among increasing candidates, the search picks a nearest one, the smaller on a tie. */
  lemma IncreasingNearest(c: seq<real>, t: real)
    requires c != [] && PokerLogic.StrictlyIncreasing(c)
    ensures var s := c[ArgNearest(c, t)];
      && s in c
      && forall v :: v in c ==> Dist(v, t) > Dist(s, t) || (Dist(v, t) == Dist(s, t) && s <= v)
  {
    var k := ArgNearest(c, t);
    NearestTiesGoLow(c, t);
    forall v | v in c ensures Dist(v, t) > Dist(c[k], t) || (Dist(v, t) == Dist(c[k], t) && c[k] <= v) {
      var j :| 0 <= j < |c| && c[j] == v;
    }
  }

  /** With numbers present, the suggestion is the value of `FIBONACCI` nearest the mean, the smaller on a tie. */
  lemma PartySuggestionNearest(players: seq<Player>)
    requires Numbers(SelectedCards(players), PartyNumber) != []
    ensures var r := PartyResults(players); var mean := Mean(Numbers(SelectedCards(players), PartyNumber));
      && r.suggestion.Some? && r.suggestion.value.Number? && r.suggestion.value.number in FIBONACCI
      && forall v :: v in FIBONACCI ==>
           || Dist(v, mean) > Dist(r.suggestion.value.number, mean)
           || (Dist(v, mean) == Dist(r.suggestion.value.number, mean) && r.suggestion.value.number <= v)
  {
    FibonacciIncreasing();
    IncreasingNearest(FIBONACCI, Mean(Numbers(SelectedCards(players), PartyNumber)));
  }

  // ---------------------------------------------------------------- room state

  /** Why a connection is closed on arrival. */
  datatype CloseReason = NameRequired | InvalidName | RoomFull | DuplicateName

  /** The reason string sent with the close frame. */
  function ReasonText(r: CloseReason): string {
    match r
    case NameRequired => "NAME_REQUIRED"
    case InvalidName => "INVALID_NAME"
    case RoomFull => "ROOM_FULL"
    case DuplicateName => "NAME_TAKEN"
  }

  datatype ConnectOutcome = Admitted(name: string) | Closed(code: nat, reason: CloseReason)

  /** A `name` parameter that is present, non-empty, and non-empty after sanitising. */
  predicate UsableName(name: Option<string>) {
    && name.Some? && name.value != ""
    && PokerLogic.ValidatePlayerName(JsString(name.value)).Some?
    && PokerLogic.ValidatePlayerName(JsString(name.value)).value != ""
  }

  /** The sanitised form of a usable name. */
  function SanitisedName(name: Option<string>): string
    requires UsableName(name)
  {
    PokerLogic.ValidatePlayerName(JsString(name.value)).value
  }

  /**
    `onConnect`'s decision for the `name` query parameter (absent is `None`),
    checked in this order: present and non-empty, valid after sanitising,
    room below 50 players, name not taken regardless of case.
   */
  function Admission(players: seq<Player>, name: Option<string>): (o: ConnectOutcome)
    ensures o.Closed? ==> o.code == POLICY_VIOLATION
    ensures o.Admitted? ==>
      && UsableName(name) && o.name == SanitisedName(name)
      && o.name != "" && Utf16Length(o.name) <= PokerLogic.MAX_NAME_LENGTH
      && (forall i :: 0 <= i < |o.name| ==> !IsMarkup(o.name[i]))
      && |players| < MAX_PLAYERS_PER_ROOM && !NameTaken(players, o.name)
  {
    if name.None? || name.value == "" then Closed(POLICY_VIOLATION, NameRequired)
    else
      match PokerLogic.ValidatePlayerName(JsString(name.value))
      case None => Closed(POLICY_VIOLATION, InvalidName)
      case Some(validName) =>
        if validName == "" then Closed(POLICY_VIOLATION, InvalidName)
        else if |players| >= MAX_PLAYERS_PER_ROOM then Closed(POLICY_VIOLATION, RoomFull)
        else if NameTaken(players, validName) then Closed(POLICY_VIOLATION, DuplicateName)
        else Admitted(validName)
  }

  /**
    The checks come in order: a missing or empty name first, then one that
    sanitises to nothing, then a full room, then a taken name; each reason
    is given exactly when its check is the first to fail.
   */
  lemma AdmissionOrder(players: seq<Player>, name: Option<string>)
    ensures var o := Admission(players, name);
      && (o.Closed? && o.reason == NameRequired <==> name.None? || name.value == "")
      && (o.Closed? && o.reason == InvalidName <==> name.Some? && name.value != "" && !UsableName(name))
      && (o.Closed? && o.reason == RoomFull <==> UsableName(name) && |players| >= MAX_PLAYERS_PER_ROOM)
      && (o.Closed? && o.reason == DuplicateName <==>
            UsableName(name) && |players| < MAX_PLAYERS_PER_ROOM && NameTaken(players, SanitisedName(name)))
      && (o.Admitted? <==> UsableName(name) && |players| < MAX_PLAYERS_PER_ROOM && !NameTaken(players, SanitisedName(name)))
  {
  }

  /**
    What every stored room keeps: one host that `hostId` names, results
    exactly while revealed, at most 50 players, names unique regardless of
    case, and every selection a card of `CARD_VALUES`.
   */
  predicate RoomInvariant(players: seq<Player>, hostId: string, isRevealed: bool, results: Option<Results>) {
    && HostInvariant(players, hostId)
    && (isRevealed <==> results.Some?)
    && |players| <= MAX_PLAYERS_PER_ROOM
    && UniqueNames(players)
    && SelectionsValid(players)
  }

  /** A message after `JSON.parse`; anything that fails to parse or has another type is `Unrecognised`. */
  datatype Message =
    | SelectCard(card: JsValue)
    | UpdateTopic(topic: JsValue)
    | RevealCards
    | AcceptEstimation(value: JsValue)
    | ResetRound
    | Revote
    | Unrecognised

  /** `room.topic || 'Unknown Topic'`. */
  function TopicOrUnknown(topic: Option<string>): (t: string)
    ensures t != ""
    ensures topic.Some? && topic.value != "" ==> t == topic.value
  {
    if topic.None? || topic.value == "" then "Unknown Topic" else topic.value
  }

  lemma SelectionKeepsInvariant(ps: seq<Player>, hostId: string, isRevealed: bool, results: Option<Results>,
                                k: nat, card: Option<CardValue>)
    requires RoomInvariant(ps, hostId, isRevealed, results) && k < |ps| && ValidSelection(card)
    ensures RoomInvariant(SetSelection(ps, k, card), hostId, isRevealed, results)
  {
    var q := ps[k].(selectedCard := card);
    SetSelectionKeepsHostInvariant(ps, hostId, k, card);
    SameNamesUnique(ps, SetSelection(ps, k, card));
    UpdateMembers(ps, k, q);
  }

  lemma AdmissionKeepsInvariant(ps: seq<Player>, hostId: string, isRevealed: bool, results: Option<Results>,
                                id: string, name: string)
    requires RoomInvariant(ps, hostId, isRevealed, results)
    requires |ps| < MAX_PLAYERS_PER_ROOM && !NameTaken(ps, name)
    ensures var (ps', hostId') := Admit(ps, hostId, id, name); RoomInvariant(ps', hostId', isRevealed, results)
  {
    AdmitKeepsHostInvariant(ps, hostId, id, name);
    AdmitKeepsUniqueNames(ps, hostId, id, name);
    var p := Player(id, name, None, ps == []);
    assert forall q :: q in ps + [p] ==> q == p || q in ps;
  }

  /**
    `onConnect` on the stored players and host: the decision, and the players
    and host stored afterwards; the room invariant is kept either way.
   */
  function Connect(ps: seq<Player>, hostId: string, isRevealed: bool, results: Option<Results>,
                   id: string, name: Option<string>): (c: (ConnectOutcome, seq<Player>, string))
    requires RoomInvariant(ps, hostId, isRevealed, results)
    ensures RoomInvariant(c.1, c.2, isRevealed, results)
    ensures c.0 == Admission(ps, name)
    ensures c.0.Closed? ==> c.1 == ps && c.2 == hostId
    ensures c.0.Admitted? ==>
      && c.1 == ps + [Player(id, c.0.name, None, ps == [])]
      && c.2 == (if ps == [] then id else hostId)
  {
    var o := Admission(ps, name);
    if o.Closed? then (o, ps, hostId)
    else
      AdmissionKeepsInvariant(ps, hostId, isRevealed, results, id, o.name);
      var (ps', hostId') := Admit(ps, hostId, id, o.name);
      (o, ps', hostId')
  }

  lemma DepartureKeepsInvariant(ps: seq<Player>, hostId: string, isRevealed: bool, results: Option<Results>, id: string)
    requires RoomInvariant(ps, hostId, isRevealed, results)
    ensures var (ps', hostId') := Depart(ps, hostId, id); RoomInvariant(ps', hostId', isRevealed, results)
  {
    DepartKeepsHostInvariant(ps, hostId, id);
    DepartKeepsUniqueNames(ps, hostId, id);
    var rest := Without(ps, id);
    if hostId == id && |rest| > 0 {
      UpdateMembers(rest, 0, rest[0].(isHost := true));
      assert rest[0] in rest;
    }
  }

  lemma ClearingKeepsInvariant(ps: seq<Player>, hostId: string, isRevealed: bool, results: Option<Results>)
    requires RoomInvariant(ps, hostId, isRevealed, results)
    ensures RoomInvariant(ClearSelections(ps), hostId, false, None)
  {
    ClearSelectionsKeepsRoster(ps, hostId);
    SameNamesUnique(ps, ClearSelections(ps));
  }

  class Room {
    const id: string
    var hostId: string
    var topic: Option<string>
    var players: seq<Player>
    var isRevealed: bool
    var results: Option<Results>
    var history: seq<EstimationHistoryItem>

    ghost predicate Valid()
      reads this
    {
      RoomInvariant(players, hostId, isRevealed, results)
    }

    /** `onStart` with nothing stored: an empty room with no host yet. */
    constructor (roomId: string)
      ensures Valid()
      ensures id == roomId && hostId == "" && topic.None? && players == []
      ensures !isRevealed && results.None? && history == []
    {
      id := roomId;
      hostId := "";
      topic := None;
      players := [];
      isRevealed := false;
      results := None;
      history := [];
    }

    /**
      `onConnect`: a closed connection changes nothing; an admitted one is
      appended with no card, as host when the room was empty.
     */
    method OnConnect(connectionId: string, name: Option<string>) returns (outcome: ConnectOutcome)
      requires Valid()
      modifies this
      ensures Valid()
      ensures outcome == Admission(old(players), name)
      ensures outcome.Closed? ==> players == old(players) && hostId == old(hostId)
      ensures outcome.Admitted? ==>
        && players == old(players) + [Player(connectionId, outcome.name, None, old(players) == [])]
        && hostId == (if old(players) == [] then connectionId else old(hostId))
      ensures topic == old(topic) && isRevealed == old(isRevealed) && results == old(results) && history == old(history)
    {
      var c := Connect(players, hostId, isRevealed, results, connectionId, name);
      outcome, players, hostId := c.0, c.1, c.2;
    }

    /** `onClose`: the connection's players leave, and the host role passes on if it was the host. */
    method OnClose(connectionId: string)
      requires Valid()
      modifies this
      ensures Valid()
      ensures (players, hostId) == Depart(old(players), old(hostId), connectionId)
      ensures topic == old(topic) && isRevealed == old(isRevealed) && results == old(results) && history == old(history)
    {
      DepartureKeepsInvariant(players, hostId, isRevealed, results, connectionId);
      var rest := Without(players, connectionId);
      if hostId == connectionId && |rest| > 0 {
        hostId := rest[0].id;
        rest := rest[0 := rest[0].(isHost := true)];
      }
      players := rest;
    }

    /**
      `handleSelectCard`: a known player in an unrevealed round sets a valid
      card or clears it with `null`; anything else is ignored.
     */
    method HandleSelectCard(playerId: string, card: JsValue) returns (broadcast: bool)
      requires Valid()
      modifies this
      ensures Valid()
      ensures broadcast <==>
        IndexOfId(old(players), playerId).Some? && !old(isRevealed) && (card.JsNull? || ValidateCard(card).Some?)
      ensures broadcast ==>
        players == SetSelection(old(players), IndexOfId(old(players), playerId).value,
                                if card.JsNull? then None else ValidateCard(card))
      ensures !broadcast ==> players == old(players)
      ensures hostId == old(hostId) && topic == old(topic) && isRevealed == old(isRevealed)
      ensures results == old(results) && history == old(history)
    {
      var k := IndexOfId(players, playerId);
      if k.None? || isRevealed {
        return false;
      }
      var validCard := if card.JsNull? then None else ValidateCard(card);
      if !card.JsNull? && validCard.None? {
        return false;
      }
      SelectionKeepsInvariant(players, hostId, isRevealed, results, k.value, validCard);
      players := SetSelection(players, k.value, validCard);
      broadcast := true;
    }

    /** `handleUpdateTopic`: the host sets the sanitised topic (possibly empty). */
    method HandleUpdateTopic(playerId: string, newTopic: JsValue) returns (broadcast: bool)
      requires Valid()
      modifies this
      ensures Valid()
      ensures broadcast <==> playerId == old(hostId)
      ensures topic == if broadcast then Some(PokerLogic.ValidateTopic(newTopic)) else old(topic)
      ensures hostId == old(hostId) && players == old(players) && isRevealed == old(isRevealed)
      ensures results == old(results) && history == old(history)
    {
      if hostId != playerId {
        return false;
      }
      topic := Some(PokerLogic.ValidateTopic(newTopic));
      broadcast := true;
    }

    /** `handleRevealCards`: the host reveals, and the results are computed from the current players. */
    method HandleRevealCards(playerId: string) returns (broadcast: bool)
      requires Valid()
      modifies this
      ensures Valid()
      ensures broadcast <==> playerId == old(hostId)
      ensures broadcast ==> isRevealed && results == Some(PartyResults(old(players)))
      ensures !broadcast ==> isRevealed == old(isRevealed) && results == old(results)
      ensures hostId == old(hostId) && players == old(players) && topic == old(topic) && history == old(history)
    {
      if hostId != playerId {
        return false;
      }
      isRevealed := true;
      var r := CalculateResults(players);
      results := Some(r);
      broadcast := true;
    }

    /**
      `handleAcceptEstimation`: the host records a valid card with the topic
      (or "Unknown Topic") and the time `now`, and marks it on the results
      when there are any.
     */
    method HandleAcceptEstimation(playerId: string, value: JsValue, now: int) returns (broadcast: bool)
      requires Valid()
      modifies this
      ensures Valid()
      ensures broadcast <==> playerId == old(hostId) && ValidateCard(value).Some?
      ensures broadcast ==>
        && history == old(history) + [EstimationHistoryItem(TopicOrUnknown(old(topic)), ValidateCard(value).value, now)]
        && results == (if old(results).Some? then Some(old(results).value.(acceptedValue := ValidateCard(value))) else None)
      ensures !broadcast ==> history == old(history) && results == old(results)
      ensures hostId == old(hostId) && players == old(players) && topic == old(topic) && isRevealed == old(isRevealed)
    {
      if hostId != playerId {
        return false;
      }
      var validValue := ValidateCard(value);
      if validValue.None? {
        return false;
      }
      var item := EstimationHistoryItem(TopicOrUnknown(topic), validValue.value, now);
      history := history + [item];
      if results.Some? {
        results := Some(results.value.(acceptedValue := validValue));
      }
      broadcast := true;
    }

    /** `handleResetRound`: the host starts a new round; cards, results and topic are cleared. */
    method HandleResetRound(playerId: string) returns (broadcast: bool)
      requires Valid()
      modifies this
      ensures Valid()
      ensures broadcast <==> playerId == old(hostId)
      ensures broadcast ==> players == ClearSelections(old(players)) && !isRevealed && results.None? && topic.None?
      ensures !broadcast ==> players == old(players) && isRevealed == old(isRevealed) && results == old(results) && topic == old(topic)
      ensures hostId == old(hostId) && history == old(history)
    {
      if hostId != playerId {
        return false;
      }
      ClearingKeepsInvariant(players, hostId, isRevealed, results);
      isRevealed := false;
      results := None;
      topic := None;
      players := ClearSelections(players);
      broadcast := true;
    }

    /** `handleRevote`: like a reset, but the topic stays. */
    method HandleRevote(playerId: string) returns (broadcast: bool)
      requires Valid()
      modifies this
      ensures Valid()
      ensures broadcast <==> playerId == old(hostId)
      ensures broadcast ==> players == ClearSelections(old(players)) && !isRevealed && results.None?
      ensures !broadcast ==> players == old(players) && isRevealed == old(isRevealed) && results == old(results)
      ensures hostId == old(hostId) && topic == old(topic) && history == old(history)
    {
      if hostId != playerId {
        return false;
      }
      ClearingKeepsInvariant(players, hostId, isRevealed, results);
      isRevealed := false;
      results := None;
      players := ClearSelections(players);
      broadcast := true;
    }

    /**
      `onMessage`: dispatch on the message type. Whoever is not the host can
      change nothing but their own card, and the history only grows.
     */
    method OnMessage(senderId: string, msg: Message, now: int) returns (broadcast: bool)
      requires Valid()
      modifies this
      ensures Valid()
      ensures msg.Unrecognised? ==> !broadcast && players == old(players) && topic == old(topic)
                                    && isRevealed == old(isRevealed) && results == old(results) && history == old(history)
      ensures hostId == old(hostId) && |players| == |old(players)|
      ensures senderId != old(hostId) ==>
        && topic == old(topic) && isRevealed == old(isRevealed) && results == old(results) && history == old(history)
        && forall i :: 0 <= i < |players| && old(players)[i].id != senderId ==> players[i] == old(players)[i]
      ensures old(history) <= history
      ensures msg.SelectCard? ==> (broadcast <==>
        IndexOfId(old(players), senderId).Some? && !old(isRevealed) && (msg.card.JsNull? || ValidateCard(msg.card).Some?))
      ensures msg.SelectCard? && broadcast ==>
        && IndexOfId(old(players), senderId).Some?
        && players == SetSelection(old(players), IndexOfId(old(players), senderId).value,
                                   if msg.card.JsNull? then None else ValidateCard(msg.card))
      ensures msg.UpdateTopic? && senderId == old(hostId) ==>
        broadcast && topic == Some(PokerLogic.ValidateTopic(msg.topic)) && players == old(players)
      ensures msg.RevealCards? && senderId == old(hostId) ==>
        broadcast && isRevealed && results == Some(PartyResults(old(players))) && players == old(players)
      ensures msg.AcceptEstimation? && senderId == old(hostId) && ValidateCard(msg.value).Some? ==>
        && broadcast
        && history == old(history) + [EstimationHistoryItem(TopicOrUnknown(old(topic)), ValidateCard(msg.value).value, now)]
        && results == (if old(results).Some? then Some(old(results).value.(acceptedValue := ValidateCard(msg.value))) else None)
      ensures msg.ResetRound? && senderId == old(hostId) ==>
        broadcast && players == ClearSelections(old(players)) && !isRevealed && results.None? && topic.None?
      ensures msg.Revote? && senderId == old(hostId) ==>
        broadcast && players == ClearSelections(old(players)) && !isRevealed && results.None? && topic == old(topic)
    {
      match msg
      case SelectCard(card) =>
        broadcast := HandleSelectCard(senderId, card);
      case UpdateTopic(t) =>
        broadcast := HandleUpdateTopic(senderId, t);
      case RevealCards =>
        broadcast := HandleRevealCards(senderId);
      case AcceptEstimation(v) =>
        broadcast := HandleAcceptEstimation(senderId, v, now);
      case ResetRound =>
        broadcast := HandleResetRound(senderId);
      case Revote =>
        broadcast := HandleRevote(senderId);
      case Unrecognised =>
        broadcast := false;
    }
  }
}
