# VibePoker in Dafny

VibePoker is a planning-poker application. Players join a room, each picks a
card from a deck, and the host reveals the cards. The room then shows the
results: average, median, mode, a frequency breakdown and a suggested
estimate. The host can accept an estimate into the room's history, reset the
round or call a revote. This project models three parts of it:

- the shared result and validation library (`src/lib/poker-logic.ts`) and the
  shared types and deck tables (`src/types/index.ts`);
- the PartyKit room engine (`party/vibepoker.ts`): one `Room` object per room,
  with admission, message handlers and departure;
- the Socket.IO server (`server.ts`): a map of rooms and the event handlers
  that change them.

Modules:

- `JsText`: the JavaScript built-ins the code relies on (`trim`, UTF-16
  `length` and `slice`, the markup-stripping `replace`, `toLowerCase`,
  `parseInt`, `parseFloat`).
- `Types`: the decks and the record shapes.
- `Roster`: the player-list operations both servers share. A player joins at
  the end of the list, leaves with host succession, is found by id or by name
  (case-insensitive), is rebound to a new connection, and has their selection
  set or cleared.
- `Stats`: the arithmetic all three result calculators share:
  - a count per distinct card in first-seen order, stably sorted by count;
  - the mode;
  - the mean and the median of the ascending sort;
  - rounding to one decimal;
  - the strict-`<` nearest-candidate search, as a function and as the loop
    method `Closest`.
- `PokerLogic`: the library's sanitisers and its deck-aware
  `calculateResults`, together with facts about every deck.
- `ResultsCases`: the T-shirt worked examples from the engine's tests.
- `PartyServer`: the PartyKit engine, as the class `Room`.
- `SocketServer`: the Socket.IO server, as the class `Server`.

Numbers are unbounded reals. JavaScript's doubles and `Math.round` are
modelled exactly at the precision the code uses them (see "Left out").

## Model

| member | source | states |
|---|---|---|
| JsText.Trim | src/lib/poker-logic.ts:15 | removes exactly the leading and trailing ECMAScript white space; what remains starts and ends with a non-space |
| JsText.TrimEmptyIffBlank | src/lib/poker-logic.ts:16 | a string trims to empty exactly when it is all white space |
| JsText.Utf16Length | src/lib/poker-logic.ts:16 | `length` is between the number of characters and twice that, and zero only for the empty string |
| JsText.SliceUnits | src/lib/poker-logic.ts:30 | `slice(0, n)` is the longest prefix of at most `n` code units, and the whole string when it fits |
| JsText.StripMarkup | src/lib/poker-logic.ts:25 | the result holds no `< > & " '` and is no longer than the input |
| JsText.StripMarkupKeeps | src/lib/poker-logic.ts:25 | every other character survives as often as it occurs |
| JsText.StripMarkupUnits | src/lib/poker-logic.ts:25 | stripping never adds code units, so a name that fit still fits |
| JsText.StripMarkupClean | src/lib/poker-logic.ts:25 | clean text is unchanged, so stripping is idempotent |
| JsText.StripMarkupConcat | src/lib/poker-logic.ts:25 | stripping distributes over concatenation |
| JsText.ToLower | party/vibepoker.ts:126 | lower-casing maps each character and keeps the length |
| JsText.ToLowerIdempotent | party/vibepoker.ts:126 | lower-casing twice equals lower-casing once, so the case-insensitive name check is stable |
| JsText.ParseInt | party/vibepoker.ts:46 | `parseInt` is NaN exactly when, after white space and sign, no digit follows |
| JsText.ParseIntDecimal | party/vibepoker.ts:46 | `parseInt` reads back the decimal spelling of every natural number |
| JsText.ParseFloatDecimal | src/lib/poker-logic.ts:62 | `parseFloat` reads back the decimal spelling of every natural number |
| Types.Deck | src/types/index.ts:2-8 | `DECKS[name]` is defined exactly for the five deck names |
| Types.DecksEndWithSentinels | src/types/index.ts:2-8 | every deck ends with `?` followed by `☕` |
| Types.DecksHaveNoDuplicates | src/types/index.ts:2-8 | no deck lists a card twice |
| Types.CardValuesIsScrum | src/types/index.ts:12 | `CARD_VALUES` is the scrum deck |
| Roster.IndexOfId | party/vibepoker.ts:200 | `find` by id returns the first player with that id, and fails only when none has it |
| Roster.IndexOfName | server.ts:172 | `find` by lower-cased name returns the first match, and fails exactly when the name is not taken |
| Roster.AdmitKeepsHostInvariant | party/vibepoker.ts:131-142 | a joiner goes last with no card and is host exactly when the room was empty; the room keeps one host, named by `hostId` |
| Roster.AdmitKeepsUniqueNames | party/vibepoker.ts:126-142 | admitting a name that is not taken keeps names unique regardless of case |
| Roster.Without | party/vibepoker.ts:184 | the filter keeps exactly the players with another id and never grows the list |
| Roster.WithoutAppend | party/vibepoker.ts:184 | the filter keeps order and repeats: a player added at the end comes out at the end exactly when their id differs |
| Roster.WithoutKeepsEarliest | party/vibepoker.ts:184-188 | the first player left after the filter is one of the original players |
| Roster.WithoutKeepsHosts | party/vibepoker.ts:184 | when no host has the departing id, the filter keeps every host |
| Roster.WithoutDropsHosts | party/vibepoker.ts:184 | when every host has the departing id, the filter leaves no host |
| Roster.WithoutKeepsUniqueNames | party/vibepoker.ts:184 | the filter keeps names unique |
| Roster.DepartKeepsHostInvariant | party/vibepoker.ts:184-188 | departure with succession leaves a non-empty room with exactly one host, named by `hostId` |
| Roster.DepartSuccession | party/vibepoker.ts:186-188 | when the host leaves and others remain, the earliest remaining player becomes host and `hostId` follows, and the other remaining players keep the filtered order unchanged |
| Roster.DepartKeepsUniqueNames | party/vibepoker.ts:184-188 | departure keeps names unique |
| Roster.RebindKeepsHostInvariant | server.ts:174-181 | a rebound player keeps their place, and `hostId` follows them when they are host |
| Roster.SetSelectionKeepsHostInvariant | party/vibepoker.ts:206 | setting a selection keeps the host structure |
| Roster.ClearSelectionsKeepsRoster | party/vibepoker.ts:258 | clearing empties every selection and changes no id, name or host flag |
| Roster.SameNamesUnique | party/vibepoker.ts:258 | an update that keeps every name keeps the names unique |
| Stats.FirstSeen | src/lib/poker-logic.ts:44-50 | a `Map`'s key order: each distinct card once, in order of first occurrence |
| Stats.CountCards | src/lib/poker-logic.ts:44-50 | the counting loop yields each distinct card with its number of occurrences, in first-seen order |
| Stats.CountStepAgain | src/lib/poker-logic.ts:46 | counting a card already in the map (`set` to the old count plus one) keeps the counts exact and the key order unchanged |
| Stats.CountStepFirst | src/lib/poker-logic.ts:46 | counting a new card (`set` to 1) keeps the counts exact and appends the card to the key order |
| Stats.SortByCount | src/lib/poker-logic.ts:49-51 | the sort is a permutation of the entries |
| Stats.SortKeepsOrder | src/lib/poker-logic.ts:51 | the stable sort puts higher counts first and keeps insertion order among equal counts |
| Stats.TallySum | src/lib/poker-logic.ts:44-47 | the counts add up to the number of selected cards |
| Stats.BreakdownFacts | src/lib/poker-logic.ts:44-51 | the breakdown has one entry per distinct selected card with its exact count, ordered by count descending and then by first selection, with counts summing to the number of cards |
| Stats.ModeFacts | src/lib/poker-logic.ts:53 | the mode is absent exactly when nothing is selected; otherwise it is a most frequent card, the earliest selected among ties |
| Stats.SelectedCards | src/lib/poker-logic.ts:41 | the non-null selections, in player order, and nothing else |
| Stats.SelectedCardsAppend | src/lib/poker-logic.ts:41 | one more player adds their selection at the end, if they have one |
| Stats.Numbers | src/lib/poker-logic.ts:56-64 | map-then-drop-NaN keeps exactly the numbers of the cards that have one, and is empty exactly when none has |
| Stats.NumbersSkipVotes | src/lib/poker-logic.ts:56-64 | players added with a card that has no number leave the numbers unchanged, whichever way cards are read |
| Stats.NumbersAppend | src/lib/poker-logic.ts:56-64 | reading numbers distributes over concatenation |
| Stats.MeanBounds | src/lib/poker-logic.ts:72-73 | the mean lies between the smallest and largest number |
| Stats.SortAsc | src/lib/poker-logic.ts:76 | the numeric sort is ascending and a permutation |
| Stats.SortAscOfAscending | src/lib/poker-logic.ts:76 | sorting sorted numbers changes nothing |
| Stats.MedianInRange | src/lib/poker-logic.ts:77-80 | the median is the middle element for odd length and lies between the two middle elements for even length, with the lower half below it and the upper half above |
| Stats.MedianBounds | src/lib/poker-logic.ts:76-80 | the median lies between the smallest and largest number |
| Stats.Round1 | src/lib/poker-logic.ts:127 | `Math.round(x * 10) / 10` is a whole number of tenths in the window `(x - 0.05, x + 0.05]` |
| Stats.Round1Unique | src/lib/poker-logic.ts:127 | only one whole number of tenths lies in that window, so the two facts pin the rounding |
| Stats.Round1Tenths | src/lib/poker-logic.ts:127 | a value with one decimal is left as it is |
| Stats.Round1Idempotent | src/lib/poker-logic.ts:127 | rounding a rounded average changes nothing |
| Stats.ArgNearest | src/lib/poker-logic.ts:112-121 | the chosen candidate is nearest the target, and every earlier one is strictly farther |
| Stats.NearestUnique | src/lib/poker-logic.ts:112-121 | only one index has that property |
| Stats.NearestOfAscending | src/lib/poker-logic.ts:112-121 | over ascending candidates the search returns a candidate nearest the target, the smaller on a tie |
| Stats.NearestTiesGoLow | src/lib/poker-logic.ts:117 | among strictly increasing candidates, an equally near larger value never wins |
| Stats.Closest | src/lib/poker-logic.ts:112-121 | the strict-`<` minimum loop returns the candidate `ArgNearest` picks |
| PokerLogic.ValidatePlayerName | src/lib/poker-logic.ts:13-26 | null exactly for a non-string or a trimmed name that is empty or over 50 units; otherwise the trimmed name without markup, still at most 50 units |
| PokerLogic.ValidNameUnchanged | src/lib/poker-logic.ts:13-26 | a clean name that fits comes back merely trimmed |
| PokerLogic.ValidateTopic | src/lib/poker-logic.ts:28-31 | a non-string gives `""`; a string gives its trimmed 200-unit prefix without markup; the result always fits and is clean |
| PokerLogic.ValidTopicUnchanged | src/lib/poker-logic.ts:28-31 | a clean topic that fits comes back merely trimmed |
| PokerLogic.ValidateCardValue | src/lib/poker-logic.ts:33-37 | a value is accepted exactly when it is a string in the chosen deck, and comes back unchanged |
| PokerLogic.ValidateCardValueFallback | src/lib/poker-logic.ts:35 | an unknown deck name validates as scrum, and every deck accepts both sentinels |
| PokerLogic.TshirtDeckIsSizes | src/lib/poker-logic.ts:83-84 | the T-shirt deck without sentinels is exactly the six sizes |
| PokerLogic.TshirtWeights | src/lib/poker-logic.ts:8-10 | the sizes are exactly the keys of `TSHIRT_VALUES`, with strictly increasing weights |
| PokerLogic.WithoutSentinelsAppend | src/lib/poker-logic.ts:83-84 | dropping the sentinels distributes over concatenation |
| PokerLogic.DecimalCards | src/lib/poker-logic.ts:106-108 | cards spelled as natural numbers keep their place and read back as those numbers |
| PokerLogic.StepsIncreasing | src/lib/poker-logic.ts:109 | numbers that increase step by step increase strictly throughout |
| PokerLogic.DecimalDeck | src/lib/poker-logic.ts:83-84 | a deck spelled as increasing natural numbers with the two sentinels at the end yields those numbers, already sorted |
| PokerLogic.NamedDecimalDeck | src/lib/poker-logic.ts:83-84 | a named deck spelled as increasing natural numbers before the two sentinels has exactly those numbers, strictly increasing |
| PokerLogic.FibonacciNumbers | src/lib/poker-logic.ts:106-109 | the Fibonacci deck's numbers are 0 … 89, strictly increasing |
| PokerLogic.SequentialNumbers | src/lib/poker-logic.ts:106-109 | the sequential deck's numbers are 0 … 10, strictly increasing |
| PokerLogic.HourlyNumbers | src/lib/poker-logic.ts:106-109 | the hourly deck's numbers are 1 … 40, strictly increasing |
| PokerLogic.HalfDeck | src/lib/poker-logic.ts:107 | a deck starting `0, ½` followed by increasing numbers sorts to 0, 0.5 and then those numbers |
| PokerLogic.ScrumNumbers | src/lib/poker-logic.ts:106-109 | the scrum deck's numbers are 0, 0.5, 1 … 100, strictly increasing |
| PokerLogic.NumericDeckValuesNonEmpty | src/lib/poker-logic.ts:111 | every deck except the T-shirt one has a number, so the `length > 0` guard always holds |
| PokerLogic.ClosestSize | src/lib/poker-logic.ts:88-103 | the T-shirt loop returns a size, and returns the nearest-weight size whenever the first distance is below `Number.MAX_VALUE` |
| PokerLogic.TshirtNumbersInRange | src/lib/poker-logic.ts:56-64 | T-shirt numbers are weights, so their mean lies between 1 and 13 |
| PokerLogic.TshirtSuggestionNearest | src/lib/poker-logic.ts:88-103 | the suggested size's weight is nearest the mean, the lighter size on a tie |
| PokerLogic.NumericSuggestionNearest | src/lib/poker-logic.ts:104-123 | the numeric suggestion is a deck number nearest the mean, the smaller on a tie |
| PokerLogic.CalculateResults | src/lib/poker-logic.ts:40-133 | the method computes what `LibraryResults` defines |
| PokerLogic.LibraryResultsShape | src/lib/poker-logic.ts:66-69 | average, median and suggestion are absent exactly when no selected card has a number; the mode is absent exactly when nothing is selected; no accepted value |
| PokerLogic.LibraryResultsNumeric | src/lib/poker-logic.ts:71-80 | the average is `Round1` of the mean, hence within 0.05 of it, and the median lies between the extremes |
| PokerLogic.LibrarySuggestion | src/lib/poker-logic.ts:86-124 | the suggestion is the T-shirt label on the T-shirt deck and the nearest deck number otherwise |
| PokerLogic.DecimalCard | src/lib/poker-logic.ts:62 | a card spelled as a natural number stands for that number |
| PokerLogic.SentinelNumbers | src/lib/poker-logic.ts:57 | `?` and `☕` votes add no number |
| PokerLogic.SentinelsContributeNothing | src/lib/poker-logic.ts:57 | adding `?` and `☕` votes changes neither average, median nor suggestion |
| PokerLogic.SameNumbersSameEstimate | src/lib/poker-logic.ts:71-124 | the estimate depends only on the numbers read from the cards |
| ResultsCases.TshirtVotes | src/lib/poker-logic.ts:66-103 | T-shirt votes whose mean needs no rounding give that mean as average and the nearest-weight size as suggestion |
| ResultsCases.ThreeSmall | src/__tests__/party/vibepoker.test.ts:14-24 | on the T-shirt deck, S, S, S gives average 2 and suggestion S |
| ResultsCases.SmallAndLarge | src/__tests__/party/vibepoker.test.ts:26-38 | S, L gives average 3.5 and suggestion M |
| ResultsCases.MediumAndLarge | src/__tests__/party/vibepoker.test.ts:40-54 | M, L gives average 4 and, on the tie, suggestion M |
| ResultsCases.SmallAndSentinels | src/__tests__/party/vibepoker.test.ts:56-65 | S, ?, ☕ gives average 2 and suggestion S |
| ResultsCases.OnlySentinels | src/__tests__/party/vibepoker.test.ts:67-75 | ?, ☕ gives neither average nor suggestion |
| ResultsCases.OneSmall | src/lib/poker-logic.ts:88-103 | a single S gives average 2 and suggestion S |
| PartyServer.ValidateCard | party/vibepoker.ts:23-26 | a value is accepted exactly when it is a string in `CARD_VALUES` |
| PartyServer.CalculateResults | party/vibepoker.ts:28-82 | the method computes what `PartyResults` defines, using the counting loop and the Fibonacci search loop |
| PartyServer.WholeCardsAgree | party/vibepoker.ts:44-47 | a whole-number card counts as that number here, just as in the library |
| PartyServer.HalfHasNoNumber | party/vibepoker.ts:44-47 | `½` gives no number here, while the library reads 0.5 |
| PartyServer.SentinelsHaveNoNumber | party/vibepoker.ts:45-46 | `?` and `☕` give no number |
| PartyServer.NumberlessVotesContributeNothing | party/vibepoker.ts:44-47 | such votes change neither average, median nor suggestion |
| PartyServer.PartyResultsShape | party/vibepoker.ts:49-51 | average, median and suggestion are absent exactly when no card has a number; the mode is absent exactly when nothing is selected |
| PartyServer.PartyResultsNumeric | party/vibepoker.ts:53-63 | the average is `Round1` of the mean, hence within 0.05 of it, and the median lies between the extremes |
| PartyServer.IncreasingNearest | party/vibepoker.ts:65-73 | among increasing candidates the search picks a nearest value, the smaller on a tie |
| PartyServer.PartySuggestionNearest | party/vibepoker.ts:65-73 | the suggestion is the value of `[0,1,2,3,5,8,13,20]` nearest the mean, the smaller on a tie |
| PartyServer.Admission | party/vibepoker.ts:103-129 | a refusal closes with 1008; an admitted name is the sanitised one, non-empty, at most 50 units, free of markup and not taken, in a room below 50 players |
| PartyServer.AdmissionOrder | party/vibepoker.ts:103-129 | each reason is given exactly when its check is the first to fail, in order: `NAME_REQUIRED` for a missing or empty name; `INVALID_NAME` for one that is blank, over 50 units or empty once markup is stripped; `ROOM_FULL` at 50 players, even when the name is also taken; `NAME_TAKEN` for a taken name below the cap; admission otherwise |
| PartyServer.TopicOrUnknown | party/vibepoker.ts:236 | the recorded topic is never empty: a non-empty topic is kept, and a null or empty one becomes `Unknown Topic` |
| PartyServer.SelectionKeepsInvariant | party/vibepoker.ts:199-209 | storing a valid selection keeps the room invariant |
| PartyServer.AdmissionKeepsInvariant | party/vibepoker.ts:131-142 | admitting a free name below the cap keeps the room invariant |
| PartyServer.DepartureKeepsInvariant | party/vibepoker.ts:180-193 | departure keeps the room invariant |
| PartyServer.ClearingKeepsInvariant | party/vibepoker.ts:252-273 | clearing the selections keeps the room invariant |
| PartyServer.Room.constructor | party/vibepoker.ts:87-101 | the initial room is empty, unrevealed, with no host, topic, results or history |
| PartyServer.Connect | party/vibepoker.ts:103-142 | the decision is `Admission`'s; a refusal stores nothing new; an admitted joiner goes last with no card, as host of an empty room; the room invariant holds afterwards |
| PartyServer.Room.OnConnect | party/vibepoker.ts:103-146 | the outcome is `Admission`'s; an admitted player is appended with no card, as host of an empty room; the invariant holds |
| PartyServer.Room.OnClose | party/vibepoker.ts:180-193 | the new players and host are `Depart`'s; nothing else changes |
| PartyServer.Room.HandleSelectCard | party/vibepoker.ts:199-209 | a known player in an unrevealed round sets a valid card or clears with `null`; anything else changes nothing |
| PartyServer.Room.HandleUpdateTopic | party/vibepoker.ts:211-217 | only the host changes the topic, to its sanitised form |
| PartyServer.Room.HandleRevealCards | party/vibepoker.ts:219-226 | only the host reveals, and the results are those of the current players |
| PartyServer.Room.HandleAcceptEstimation | party/vibepoker.ts:228-250 | only the host, and only with a valid card, appends a history item and marks existing results as accepted |
| PartyServer.Room.HandleResetRound | party/vibepoker.ts:252-262 | only the host resets: cards, results and topic are cleared |
| PartyServer.Room.HandleRevote | party/vibepoker.ts:264-273 | only the host calls a revote: cards and results are cleared, the topic stays |
| PartyServer.Room.OnMessage | party/vibepoker.ts:148-178 | a non-host sender changes nothing but their own card; the history only grows; the host never changes; unknown messages change nothing; each host message has its handler's effect: topic set to its sanitised form, reveal with the results of the current players, a valid accepted card appended to the history and marked on the results, reset clearing cards, results and topic, revote clearing cards and results but keeping the topic; a card selection broadcasts exactly when its handler accepts it |
| SocketServer.TruthyCards | server.ts:39-44 | exactly the selections that are present and not the empty string |
| SocketServer.TruthyCardsAppend | server.ts:39-44 | the filter keeps order and repeats: a player added at the end adds their card at the end exactly when it is truthy |
| SocketServer.CalculateResults | server.ts:29-80 | the method computes what `ServerResults` defines |
| SocketServer.TruthyWithoutEmptyCards | server.ts:39-44 | without empty-string selections, the truthy filter equals the null filter |
| SocketServer.EmptyCardNotCounted | server.ts:39-51 | an empty-string card never appears in the breakdown or as the mode |
| SocketServer.ServerResultsShape | server.ts:39-80 | for any selections, empty strings included: average, median and suggestion are absent exactly when no selection has a number; the mode is absent exactly when no selection is truthy; the average is `Round1` of the mean and the median lies between the extremes |
| SocketServer.AgreesWithParty | server.ts:29-80 | without empty-string selections, average, median, mode and breakdown equal the PartyKit engine's |
| SocketServer.ServerSuggestionNearest | server.ts:68-77 | the suggestion is the value of `[0,1,2,3,5,8,13,21]` nearest the mean, the smaller on a tie |
| SocketServer.CreatedRoom | server.ts:103-129 | a created room has the creator as only player and as host, no topic, no results and no history, is unrevealed, and is sound |
| SocketServer.JoinAsWrittenLeavesNoHost | server.ts:145-152 | joining a room that all players have left yields players but no host, and `hostId` names none of them |
| SocketServer.JoinedAgreesWhenOccupied | server.ts:145-152 | the corrected join differs from the written one only for an empty room |
| SocketServer.JoinedKeepsRoomOk | server.ts:145-152 | the corrected join keeps the room sound and makes the joiner host of an empty room |
| SocketServer.RejoinedKeepsRoomOk | server.ts:172-188 | rebinding keeps the room sound and moves the host id with the host |
| SocketServer.SelectionKeepsRoomOk | server.ts:212-228 | storing a selection keeps the room sound |
| SocketServer.ClearingKeepsRoomOk | server.ts:287-303 | resetting the round keeps the room sound |
| SocketServer.DepartureKeepsRoomOk | server.ts:317-326 | departure keeps the room sound |
| SocketServer.Server.constructor | server.ts:24 | no rooms and no connections |
| SocketServer.Server.CreateRoom | server.ts:103-129 | the room is stored under its id, becomes the socket's current room, and is sent back |
| SocketServer.Server.JoinRoom | server.ts:131-161 | `Raum nicht gefunden` for an unknown room and `Name bereits vergeben` for a taken name, with nothing changed; otherwise the corrected join and the room told |
| SocketServer.Server.RejoinRoom | server.ts:163-210 | fails only for an unknown room; a known name is rebound to the socket, and an unknown one joins |
| SocketServer.Server.SelectCard | server.ts:212-228 | a player of an unrevealed room stores the card as sent; the room gets the state and `card-selected` |
| SocketServer.Server.UpdateTopic | server.ts:230-239 | only the host sets the topic, as sent |
| SocketServer.Server.RevealCards | server.ts:241-252 | only the host reveals; results are computed and the room gets `cards-revealed` |
| SocketServer.Server.AcceptEstimation | server.ts:254-285 | a non-host gets an error back; the host appends the value as sent to the history |
| SocketServer.Server.ResetRound | server.ts:287-303 | only the host resets; the room gets `round-reset` and then the state |
| SocketServer.Server.RequestRoomState | server.ts:305-312 | the current room goes back to the sender when it still exists; otherwise nothing is sent |
| SocketServer.Server.Disconnect | server.ts:314-347 | the socket leaves its current room with succession; an emptied room is kept and reported for the timer; otherwise the room gets `player-left` and the state |
| SocketServer.Server.GraceExpired | server.ts:333-340 | the timer deletes the room only if it still exists and is still empty |

## Left out

- Transport, storage and serialisation are not modelled: PartyKit storage, socket rooms, `JSON.parse`/`stringify`, the Next.js HTTP server and logging. A handler returns what it would broadcast or emit instead.
- The storage-missing guards (`if (!room) return` in `onConnect`, `onMessage` and `onClose`) are not modelled. A `Room` object always holds its state.
- `uuidv4().substring(0, 8)` and `Date.now()` are not modelled: the room id and the time are parameters (`CreateRoom`'s `roomId`, the handlers' `now`).
- The 30-second `setTimeout` is not modelled as a timer: `Disconnect` returns the emptied room's id, and `GraceExpired` is the callback.
- Concurrency is not modelled: interleaved `await`s in the PartyKit engine and concurrent sockets are taken one event at a time.
- A room object shared by reference between `rooms` and a closure is modelled by value, since every change goes through the map.
- Floating point is not modelled: numbers are exact reals, and `Math.round(x * 10) / 10` is `floor(10x + 0.5) / 10` on reals.
- Strings are sequences of Unicode scalar values, so a lone surrogate left by `slice` in the middle of a pair cannot occur; `SliceUnits` keeps the longest whole-character prefix instead.
- `JsText.ToLower`: lower-cases ASCII and Latin-1 capitals only, not all of Unicode's case mappings.
- `JsText.ParseInt`: has no radix-less `0x` prefix. The PartyKit engine only parses deck cards, which never carry one, and the server passes radix 10.
- `JsText.ParseFloat`: reads white space, sign, digits and a fraction, including a fraction with no digit before the point (`.5`); exponents and `Infinity` are not modelled. No deck card has them.
- `PokerLogic.ClosestSize`: its ensures is guarded by the first distance being below `Number.MAX_VALUE`. `TshirtNumbersInRange` shows this always holds for a T-shirt mean, since the mean lies between 1 and 13.
- The scrum test case (`src/__tests__/party/vibepoker.test.ts:77-85`, votes 1 and 3) has no concrete lemma, because evaluating it on the scrum deck literal is too costly. `NumericSuggestionNearest` and `ScrumNumbers` cover it in general.
- The engine tests call a deck-aware `calculateResults(players, deckType)` exported from the engine. The engine file modelled here has a one-argument, unexported version. The test cases are therefore stated against the library's `LibraryResults`, which has that signature.
- `MAX_HISTORY_ITEMS` is declared in `src/lib/poker-logic.ts:6` but never used. The history is unbounded in both servers and in the model.
- Object-prototype keys (`TSHIRT_VALUES['constructor']`) are not modelled: `TSHIRT_VALUES` is a finite map, so a non-size card on the T-shirt deck has no number.
- A player may have been in several rooms on one socket: the server only tracks the last room per socket, as the code does, and the model keeps that.
- The `deckType` default parameter is not modelled: callers pass the deck name explicitly (`"scrum"` stands for the default).
- Where the written description of the system and the code disagree, the model follows the code:
  - the T-shirt average and median stay numeric;
  - select and topic updates always broadcast, even when nothing changed.

## Findings

| source | as written | input that shows it | evidently intended | confidence | as-written member | corrected member |
|---|---|---|---|---|---|---|
| server.ts:145-150 | `join-room` always adds the joiner with `isHost: false` | a host creates a room and disconnects, leaving it empty for the 30-second grace period; a second socket then sends `join-room` for it. The room has one player, no host, and a `hostId` naming the gone socket, so nobody can reveal, reset or accept | as in `rejoin-room` (server.ts:195-200) and the PartyKit engine: the joiner of an empty room becomes host and `hostId` is set to it | medium, not executed | SocketServer.JoinedAsWritten, SocketServer.JoinAsWrittenLeavesNoHost | SocketServer.Joined, SocketServer.JoinedKeepsRoomOk |
