/**
  The deck tables and the shapes of players, results, history items and rooms
  that both room engines share.
 */
module Types {
  import opened Wrappers

  type CardValue = string

  /** The two sentinel cards: "unknown" and "break". */
  const UNKNOWN_CARD: CardValue := "?"
  const COFFEE_CARD: CardValue := "\U{2615}"
  /** The half-point card of the scrum deck. */
  const HALF_CARD: CardValue := "\U{BD}"

  const FIBONACCI_DECK: seq<CardValue> :=
    ["0", "1", "2", "3", "5", "8", "13", "21", "34", "55", "89", "?", "\U{2615}"]
  const SCRUM_DECK: seq<CardValue> :=
    ["0", "\U{BD}", "1", "2", "3", "5", "8", "13", "20", "40", "100", "?", "\U{2615}"]
  const SEQUENTIAL_DECK: seq<CardValue> :=
    ["0", "1", "2", "3", "4", "5", "6", "7", "8", "9", "10", "?", "\U{2615}"]
  const HOURLY_DECK: seq<CardValue> :=
    ["1", "2", "3", "4", "6", "8", "12", "16", "24", "32", "40", "?", "\U{2615}"]
  const TSHIRT_DECK: seq<CardValue> :=
    ["XS", "S", "M", "L", "XL", "XXL", "?", "\U{2615}"]

  /** The keys of `DECKS`. */
  const DECK_NAMES: seq<string> := ["fibonacci", "scrum", "sequential", "hourly", "tshirt"]

  /** `DECKS[name]`: the deck registered under `name`, if any. */
  function Deck(name: string): (d: Option<seq<CardValue>>)
    ensures d.Some? <==> name in DECK_NAMES
  {
    if name == "fibonacci" then Some(FIBONACCI_DECK)
    else if name == "scrum" then Some(SCRUM_DECK)
    else if name == "sequential" then Some(SEQUENTIAL_DECK)
    else if name == "hourly" then Some(HOURLY_DECK)
    else if name == "tshirt" then Some(TSHIRT_DECK)
    else None
  }

  /** `CARD_VALUES`, the deck used where no deck is chosen. */
  const CARD_VALUES: seq<CardValue> := SCRUM_DECK

  predicate Distinct<T(==)>(s: seq<T>) {
    forall i, j :: 0 <= i < j < |s| ==> s[i] != s[j]
  }

  /** Every deck ends with the unknown card followed by the coffee card. */
  lemma DecksEndWithSentinels(name: string)
    requires name in DECK_NAMES
    ensures var d := Deck(name).value;
      |d| >= 2 && d[|d| - 2] == UNKNOWN_CARD && d[|d| - 1] == COFFEE_CARD
  {
  }

  /** No deck lists the same card twice. */
  lemma DecksHaveNoDuplicates(name: string)
    requires name in DECK_NAMES
    ensures Distinct(Deck(name).value)
  {
  }

  /** `CARD_VALUES` is the scrum deck. */
  lemma CardValuesIsScrum()
    ensures Deck("scrum") == Some(CARD_VALUES)
  {
  }

  datatype Player = Player(id: string, name: string, selectedCard: Option<CardValue>, isHost: bool)

  /** One row of the frequency breakdown. */
  datatype BreakdownEntry = BreakdownEntry(value: CardValue, count: nat)

  /** A suggestion is a size label on the T-shirt deck and a number elsewhere. */
  datatype Suggestion = Label(size: CardValue) | Number(number: real)

  datatype Results = Results(
    average: Option<real>,
    median: Option<real>,
    mode: Option<CardValue>,
    suggestion: Option<Suggestion>,
    breakdown: seq<BreakdownEntry>,
    acceptedValue: Option<CardValue>)

  datatype EstimationHistoryItem = EstimationHistoryItem(topic: string, value: CardValue, timestamp: int)

  datatype Room = Room(
    id: string,
    hostId: string,
    topic: Option<string>,
    deckType: Option<string>,
    players: seq<Player>,
    isRevealed: bool,
    results: Option<Results>,
    history: seq<EstimationHistoryItem>)
}
