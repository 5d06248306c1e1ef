/**
  The shared planning-poker library: the input sanitisers for player names,
  topics and card values, and the deck-aware result aggregator (breakdown,
  mode, mean rounded to one decimal, median, and the deck value nearest the
  mean as the suggestion).
 */
module PokerLogic {
  import opened Wrappers
  import opened JsText
  import opened Types
  import opened Stats

  const MAX_NAME_LENGTH: nat := 50
  const MAX_TOPIC_LENGTH: nat := 200
  const MAX_HISTORY_ITEMS: nat := 50

  /** `TSHIRT_VALUES`: the ordinal weight of each T-shirt size. */
  const TSHIRT_VALUES: map<CardValue, real> :=
    map["XS" := 1.0, "S" := 2.0, "M" := 3.0, "L" := 5.0, "XL" := 8.0, "XXL" := 13.0]

  /** The T-shirt deck without its sentinels, and the weights of those sizes in the same order. */
  const TSHIRT_SIZES: seq<CardValue> := ["XS", "S", "M", "L", "XL", "XXL"]
  const TSHIRT_WEIGHTS: seq<real> := [1.0, 2.0, 3.0, 5.0, 8.0, 13.0]

  /** `Number.MAX_VALUE`, the largest finite double. */
  const MAX_VALUE: real := 179769313486231570814527423731704356798070567525844996598917476803157260780028538760589558632766878171540458953514382464234321326889464182768467546703537516986049910576551282076245490090389328944075868508455133942304583236903222948165808559332123348274797826204144723168738177180919299881250404026184124858368.0

  // ---------------------------------------------------------------- sanitisers

  /**
    `validatePlayerName`: a string whose trimmed form is non-empty and at most
    50 UTF-16 units long, with every `< > & " '` removed; `None` otherwise.
   */
  function ValidatePlayerName(name: JsValue): (r: Option<string>)
    ensures r.None? <==>
      !name.JsString? || Trim(name.text) == [] || Utf16Length(Trim(name.text)) > MAX_NAME_LENGTH
    ensures r.Some? ==> r.value == StripMarkup(Trim(name.text))
    ensures r.Some? ==> Utf16Length(r.value) <= MAX_NAME_LENGTH
    ensures r.Some? ==> forall i :: 0 <= i < |r.value| ==> !IsMarkup(r.value[i])
  {
    match name
    case JsString(text) =>
      var trimmed := Trim(text);
      if |trimmed| == 0 || Utf16Length(trimmed) > MAX_NAME_LENGTH then None
      else
        StripMarkupUnits(trimmed);
        Some(StripMarkup(trimmed))
    case _ => None
  }

  /** A clean name comes back trimmed and otherwise unchanged. */
  lemma ValidNameUnchanged(text: string)
    requires Trim(text) != [] && Utf16Length(Trim(text)) <= MAX_NAME_LENGTH
    requires forall i :: 0 <= i < |Trim(text)| ==> !IsMarkup(Trim(text)[i])
    ensures ValidatePlayerName(JsString(text)) == Some(Trim(text))
  {
    StripMarkupClean(Trim(text));
  }

  /**
    `validateTopic`: never fails; a non-string gives `""`, and a string is
    trimmed, cut to 200 UTF-16 units and stripped of `< > & " '`.
   */
  function ValidateTopic(topic: JsValue): (r: string)
    ensures !topic.JsString? ==> r == ""
    ensures topic.JsString? ==> r == StripMarkup(SliceUnits(Trim(topic.text), MAX_TOPIC_LENGTH))
    ensures Utf16Length(r) <= MAX_TOPIC_LENGTH
    ensures forall i :: 0 <= i < |r| ==> !IsMarkup(r[i])
  {
    match topic
    case JsString(text) =>
      var cut := SliceUnits(Trim(text), MAX_TOPIC_LENGTH);
      StripMarkupUnits(cut);
      StripMarkup(cut)
    case _ => ""
  }

  /** A clean topic of at most 200 units comes back trimmed and otherwise unchanged. */
  lemma ValidTopicUnchanged(text: string)
    requires Utf16Length(Trim(text)) <= MAX_TOPIC_LENGTH
    requires forall i :: 0 <= i < |Trim(text)| ==> !IsMarkup(Trim(text)[i])
    ensures ValidateTopic(JsString(text)) == Trim(text)
  {
    StripMarkupClean(Trim(text));
  }

  /** `DECKS[deckType] || DECKS.scrum`. */
  function DeckOrScrum(deckType: string): seq<CardValue> {
    Deck(deckType).GetOr(SCRUM_DECK)
  }

  /**
    `validateCardValue`: the input itself exactly when it is a string listed in
    the chosen deck (the scrum deck when the name is unknown), `None` otherwise.
   */
  function ValidateCardValue(value: JsValue, deckType: string): (r: Option<CardValue>)
    ensures r.Some? <==> value.JsString? && value.text in DeckOrScrum(deckType)
    ensures r.Some? ==> r.value == value.text
  {
    match value
    case JsString(text) => if text in DeckOrScrum(deckType) then Some(text) else None
    case _ => None
  }

  /** An unknown deck name validates against the scrum deck; every deck accepts both sentinels. */
  lemma ValidateCardValueFallback(value: JsValue, deckType: string)
    ensures deckType !in DECK_NAMES ==> ValidateCardValue(value, deckType) == ValidateCardValue(value, "scrum")
    ensures ValidateCardValue(JsString(UNKNOWN_CARD), deckType) == Some(UNKNOWN_CARD)
    ensures ValidateCardValue(JsString(COFFEE_CARD), deckType) == Some(COFFEE_CARD)
  {
    if deckType in DECK_NAMES {
      DecksEndWithSentinels(deckType);
      var d := DeckOrScrum(deckType);
      assert d[|d| - 2] == UNKNOWN_CARD && d[|d| - 1] == COFFEE_CARD;
    } else {
      DecksEndWithSentinels("scrum");
    }
  }

  // ---------------------------------------------------------------- card numbers

  predicate IsSentinel(card: CardValue) {
    card == UNKNOWN_CARD || card == COFFEE_CARD
  }

  /** `deck.filter(v => v !== '?' && v !== '☕')`. */
  function WithoutSentinels(s: seq<CardValue>): seq<CardValue> {
    if s == [] then []
    else (if IsSentinel(s[0]) then [] else [s[0]]) + WithoutSentinels(s[1..])
  }

  /** `deckValues`: the chosen deck's cards without the sentinels. */
  function DeckValues(deckType: string): seq<CardValue> {
    WithoutSentinels(DeckOrScrum(deckType))
  }

  /** The number a deck value stands for: `v === '½' ? 0.5 : parseFloat(v)`, `None` for NaN. */
  function DeckNumber(v: CardValue): Option<real> {
    if v == HALF_CARD then Some(0.5) else ParseFloat(v)
  }

  /**
    The number a selected card contributes to the mean: none for a sentinel;
    on the T-shirt deck the size's weight; elsewhere the deck number.
   */
  function CardNumber(card: CardValue, deckType: string): Option<real> {
    if IsSentinel(card) then None
    else if deckType == "tshirt" then
      if card in TSHIRT_VALUES then Some(TSHIRT_VALUES[card]) else None
    else DeckNumber(card)
  }

  /** `numericValues`. */
  function NumericValues(cards: seq<CardValue>, deckType: string): seq<real> {
    Numbers(cards, c => CardNumber(c, deckType))
  }

  /** `numericDeckValues`: the deck's numbers in ascending order. */
  function NumericDeckValues(deckType: string): seq<real> {
    SortAsc(Numbers(DeckValues(deckType), DeckNumber))
  }

  /** The size whose weight is nearest `average`, the earlier size on equal distance. */
  function TshirtSuggestion(average: real): CardValue {
    TSHIRT_SIZES[ArgNearest(TSHIRT_WEIGHTS, average)]
  }

  /** The deck number nearest `average`, the smaller on equal distance; `None` for a deck without numbers. */
  function NumericSuggestion(deckType: string, average: real): Option<real> {
    var d := NumericDeckValues(deckType);
    if d == [] then None else Some(d[ArgNearest(d, average)])
  }

  /** The results for a breakdown and the numbers of the selected cards. */
  function Aggregate(breakdown: seq<BreakdownEntry>, nums: seq<real>, deckType: string): Results {
    var mode := Mode(breakdown);
    if nums == [] then Results(None, None, mode, None, breakdown, None)
    else
      var average := Mean(nums);
      var suggestion :=
        if deckType == "tshirt" then Some(Label(TshirtSuggestion(average)))
        else match NumericSuggestion(deckType, average)
          case Some(v) => Some(Number(v))
          case None => None;
      Results(Some(Round1(average)), Some(Median(SortAsc(nums))), mode, suggestion, breakdown, None)
  }

  /** What `calculateResults(players, deckType)` returns. */
  function LibraryResults(players: seq<Player>, deckType: string): Results {
    var cards := SelectedCards(players);
    Aggregate(Breakdown(cards), NumericValues(cards, deckType), deckType)
  }

  // ---------------------------------------------------------------- deck facts

  /** The T-shirt deck without sentinels is exactly the sizes. */
  lemma TshirtDeckIsSizes()
    ensures DeckValues("tshirt") == TSHIRT_SIZES
  {
    var d := TSHIRT_DECK;
    assert DeckOrScrum("tshirt") == d;
    assert d[7..] == [COFFEE_CARD] && d[6..] == [UNKNOWN_CARD, COFFEE_CARD];
    assert WithoutSentinels([COFFEE_CARD]) == [];
    assert WithoutSentinels(d[6..]) == [];
    assert WithoutSentinels(d[5..]) == ["XXL"];
    assert WithoutSentinels(d[4..]) == ["XL", "XXL"];
    assert WithoutSentinels(d[3..]) == ["L", "XL", "XXL"];
    assert WithoutSentinels(d[2..]) == ["M", "L", "XL", "XXL"];
    assert WithoutSentinels(d[1..]) == ["S", "M", "L", "XL", "XXL"];
    assert !IsSentinel(d[0]);
    assert WithoutSentinels(d) == [d[0]] + WithoutSentinels(d[1..]);
  }

  /** The keys of `TSHIRT_VALUES` are exactly the sizes, in increasing weight order. */
  lemma TshirtWeights()
    ensures forall v :: v in TSHIRT_VALUES <==> v in TSHIRT_SIZES
    ensures forall i :: 0 <= i < |TSHIRT_SIZES| ==> TSHIRT_VALUES[TSHIRT_SIZES[i]] == TSHIRT_WEIGHTS[i]
    ensures forall i, j :: 0 <= i < j < |TSHIRT_WEIGHTS| ==> TSHIRT_WEIGHTS[i] < TSHIRT_WEIGHTS[j]
  {
  }

  lemma {:induction false} WithoutSentinelsAppend(a: seq<CardValue>, b: seq<CardValue>)
    ensures WithoutSentinels(a + b) == WithoutSentinels(a) + WithoutSentinels(b)
  {
    if a != [] {
      assert (a + b)[1..] == a[1..] + b && (a + b)[0] == a[0];
      WithoutSentinelsAppend(a[1..], b);
      var h := if IsSentinel(a[0]) then [] else [a[0]];
      assert h + (WithoutSentinels(a[1..]) + WithoutSentinels(b)) == (h + WithoutSentinels(a[1..])) + WithoutSentinels(b);
    } else {
      assert a + b == b;
    }
  }

  function AsReals(ns: seq<nat>): (r: seq<real>)
    ensures |r| == |ns| && forall i :: 0 <= i < |ns| ==> r[i] == ns[i] as real
  {
    if ns == [] then [] else [ns[0] as real] + AsReals(ns[1..])
  }

  /** Cards spelled as decimal renderings stand for those numbers, in order. */
  lemma {:induction false} DecimalCards(cards: seq<CardValue>, ns: seq<nat>)
    requires |cards| == |ns| && forall i :: 0 <= i < |ns| ==> cards[i] == DecimalString(ns[i])
    ensures WithoutSentinels(cards) == cards
    ensures Numbers(cards, DeckNumber) == AsReals(ns)
  {
    if cards != [] {
      DecimalCards(cards[1..], ns[1..]);
      DecimalCard(ns[0], cards[0]);
      DecimalCardsCons(cards, ns);
    }
  }

  /** The step of `DecimalCards`: a decimal card in front of a run of decimal cards. */
  lemma DecimalCardsCons(cards: seq<CardValue>, ns: seq<nat>)
    requires |cards| == |ns| > 0 && cards[0] == DecimalString(ns[0]) && DeckNumber(cards[0]) == Some(ns[0] as real)
    requires WithoutSentinels(cards[1..]) == cards[1..] && Numbers(cards[1..], DeckNumber) == AsReals(ns[1..])
    ensures WithoutSentinels(cards) == cards
    ensures Numbers(cards, DeckNumber) == AsReals(ns)
  {
    assert !IsSentinel(cards[0]) by {
      assert IsDigit(cards[0][0]);
    }
    assert cards == [cards[0]] + cards[1..];
  }

  predicate StrictlyIncreasing(xs: seq<real>) {
    forall i, j :: 0 <= i < j < |xs| ==> xs[i] < xs[j]
  }

  lemma {:induction false} StepsIncreasing(xs: seq<real>)
    requires forall i :: 0 < i < |xs| ==> xs[i - 1] < xs[i]
    ensures StrictlyIncreasing(xs)
  {
    if xs != [] {
      var t := xs[1..];
      assert forall j :: 0 < j < |t| ==> t[j - 1] < t[j] by {
        forall j | 0 < j < |t| ensures t[j - 1] < t[j] {
          assert t[j - 1] == xs[j] && t[j] == xs[j + 1];
        }
      }
      StepsIncreasing(t);
      forall i, j | 0 <= i < j < |xs| ensures xs[i] < xs[j] {
        if i == 0 {
          if j > 1 {
            assert t[0] < t[j - 1];
          }
        } else {
          assert t[i - 1] < t[j - 1];
        }
      }
    }
  }

  /** The first `|ns|` cards of `d` are the decimal renderings of `ns`. */
  predicate SpelledAs(d: seq<CardValue>, ns: seq<nat>) {
    |ns| <= |d| && forall i :: 0 <= i < |ns| ==> d[i] == DecimalString(ns[i])
  }

  /**
    `d` is the decimal renderings of the increasing numbers `ns` followed by
    the two sentinels, and `xs` holds the same numbers as reals.
   */
  predicate DecimalTable(d: seq<CardValue>, ns: seq<nat>, xs: seq<real>) {
    && |d| == |ns| + 2 && d[|ns|] == UNKNOWN_CARD && d[|ns| + 1] == COFFEE_CARD
    && SpelledAs(d, ns)
    && |xs| == |ns| && (forall i :: 0 <= i < |ns| ==> xs[i] == ns[i] as real)
    && (forall i :: 0 < i < |xs| ==> xs[i - 1] < xs[i])
  }

  /**
    A deck that is increasing decimal numbers followed by the sentinels: its
    numbers are those, and sorting leaves them in place.
   */
  lemma DecimalDeck(d: seq<CardValue>, ns: seq<nat>, xs: seq<real>)
    requires DecimalTable(d, ns, xs)
    ensures Numbers(WithoutSentinels(d), DeckNumber) == xs
    ensures SortAsc(xs) == xs && StrictlyIncreasing(xs)
  {
    var k := |ns|;
    var cards := d[..k];
    assert forall i :: 0 <= i < k ==> cards[i] == DecimalString(ns[i]);
    DecimalCards(cards, ns);
    TrailingSentinels(d, k);
    assert AsReals(ns) == xs;
    StepsIncreasing(xs);
    SortAscOfAscending(xs);
  }

  /** The two sentinels at the end of a deck drop out of its values. */
  lemma TrailingSentinels(d: seq<CardValue>, k: nat)
    requires |d| == k + 2 && d[k] == UNKNOWN_CARD && d[k + 1] == COFFEE_CARD
    requires WithoutSentinels(d[..k]) == d[..k]
    ensures WithoutSentinels(d) == d[..k]
  {
    assert d == d[..k] + [UNKNOWN_CARD, COFFEE_CARD];
    WithoutSentinelsAppend(d[..k], [UNKNOWN_CARD, COFFEE_CARD]);
    assert WithoutSentinels([COFFEE_CARD]) == [];
  }

  /** A named deck that is a decimal deck: `numericDeckValues` for that name is its numbers, in order. */
  lemma NamedDecimalDeck(deckType: string, d: seq<CardValue>, ns: seq<nat>, xs: seq<real>)
    requires DeckOrScrum(deckType) == d && DecimalTable(d, ns, xs)
    ensures NumericDeckValues(deckType) == xs && StrictlyIncreasing(xs)
  {
    DecimalDeck(d, ns, xs);
  }

  lemma FibonacciSpelled()
    ensures SpelledAs(FIBONACCI_DECK, [0, 1, 2, 3, 5, 8, 13, 21, 34, 55, 89])
  {
    assert DecimalString(13) == "13";
    assert DecimalString(21) == "21";
    assert DecimalString(34) == "34";
    assert DecimalString(55) == "55";
    assert DecimalString(89) == "89";
  }

  lemma FibonacciTable()
    ensures DecimalTable(FIBONACCI_DECK, [0, 1, 2, 3, 5, 8, 13, 21, 34, 55, 89], [0.0, 1.0, 2.0, 3.0, 5.0, 8.0, 13.0, 21.0, 34.0, 55.0, 89.0])
  {
    FibonacciSpelled();
  }

  /** The fibonacci deck's numbers, already in increasing order. */
  lemma FibonacciNumbers()
    ensures NumericDeckValues("fibonacci") == [0.0, 1.0, 2.0, 3.0, 5.0, 8.0, 13.0, 21.0, 34.0, 55.0, 89.0]
    ensures StrictlyIncreasing(NumericDeckValues("fibonacci"))
  {
    FibonacciTable();
    NamedDecimalDeck("fibonacci", FIBONACCI_DECK, [0, 1, 2, 3, 5, 8, 13, 21, 34, 55, 89], [0.0, 1.0, 2.0, 3.0, 5.0, 8.0, 13.0, 21.0, 34.0, 55.0, 89.0]);
  }

  lemma SequentialSpelled()
    ensures SpelledAs(SEQUENTIAL_DECK, [0, 1, 2, 3, 4, 5, 6, 7, 8, 9, 10])
  {
    assert DecimalString(10) == "10";
  }

  lemma SequentialTable()
    ensures DecimalTable(SEQUENTIAL_DECK, [0, 1, 2, 3, 4, 5, 6, 7, 8, 9, 10], [0.0, 1.0, 2.0, 3.0, 4.0, 5.0, 6.0, 7.0, 8.0, 9.0, 10.0])
  {
    SequentialSpelled();
  }

  /** The sequential deck's numbers, already in increasing order. */
  lemma SequentialNumbers()
    ensures NumericDeckValues("sequential") == [0.0, 1.0, 2.0, 3.0, 4.0, 5.0, 6.0, 7.0, 8.0, 9.0, 10.0]
    ensures StrictlyIncreasing(NumericDeckValues("sequential"))
  {
    SequentialTable();
    NamedDecimalDeck("sequential", SEQUENTIAL_DECK, [0, 1, 2, 3, 4, 5, 6, 7, 8, 9, 10], [0.0, 1.0, 2.0, 3.0, 4.0, 5.0, 6.0, 7.0, 8.0, 9.0, 10.0]);
  }

  lemma HourlySpelled()
    ensures SpelledAs(HOURLY_DECK, [1, 2, 3, 4, 6, 8, 12, 16, 24, 32, 40])
  {
    assert DecimalString(12) == "12";
    assert DecimalString(16) == "16";
    assert DecimalString(24) == "24";
    assert DecimalString(32) == "32";
    assert DecimalString(40) == "40";
  }

  lemma HourlyTable()
    ensures DecimalTable(HOURLY_DECK, [1, 2, 3, 4, 6, 8, 12, 16, 24, 32, 40], [1.0, 2.0, 3.0, 4.0, 6.0, 8.0, 12.0, 16.0, 24.0, 32.0, 40.0])
  {
    HourlySpelled();
  }

  /** The hourly deck's numbers, already in increasing order. */
  lemma HourlyNumbers()
    ensures NumericDeckValues("hourly") == [1.0, 2.0, 3.0, 4.0, 6.0, 8.0, 12.0, 16.0, 24.0, 32.0, 40.0]
    ensures StrictlyIncreasing(NumericDeckValues("hourly"))
  {
    HourlyTable();
    NamedDecimalDeck("hourly", HOURLY_DECK, [1, 2, 3, 4, 6, 8, 12, 16, 24, 32, 40], [1.0, 2.0, 3.0, 4.0, 6.0, 8.0, 12.0, 16.0, 24.0, 32.0, 40.0]);
  }

  lemma ScrumSpelled()
    ensures SpelledAs(SCRUM_DECK[2..], [1, 2, 3, 5, 8, 13, 20, 40, 100])
  {
    assert DecimalString(13) == "13";
    assert DecimalString(20) == "20";
    assert DecimalString(40) == "40";
    assert DecimalString(100) == "100";
  }

  lemma ScrumTable()
    ensures DecimalTable(SCRUM_DECK[2..], [1, 2, 3, 5, 8, 13, 20, 40, 100], [1.0, 2.0, 3.0, 5.0, 8.0, 13.0, 20.0, 40.0, 100.0])
  {
    ScrumSpelled();
  }

  /** The leading "0", "½" of a deck: two numbers, 0 and 0.5. */
  lemma HalfHead(d: seq<CardValue>)
    requires |d| >= 2 && d[0] == "0" && d[1] == HALF_CARD
    ensures WithoutSentinels(d[..2]) == d[..2]
    ensures Numbers(d[..2], DeckNumber) == [0.0, 0.5]
  {
    var h := d[..2];
    assert !IsSentinel(h[0]) && !IsSentinel(h[1]);
    assert h[1..] == [h[1]] && h[1..][1..] == [];
    assert WithoutSentinels(h[1..]) == [h[1]];
    assert h == [h[0]] + h[1..];
    DecimalCard(0, "0");
    assert DeckNumber(HALF_CARD) == Some(0.5);
  }

  /** The cards of a deck that starts "0", "½": those two, then the rest. */
  lemma HalfSplit(d: seq<CardValue>)
    requires |d| >= 2 && d[0] == "0" && d[1] == HALF_CARD
    ensures Numbers(WithoutSentinels(d), DeckNumber) == [0.0, 0.5] + Numbers(WithoutSentinels(d[2..]), DeckNumber)
  {
    var tail := WithoutSentinels(d[2..]);
    calc {
      Numbers(WithoutSentinels(d), DeckNumber);
    == { assert d == d[..2] + d[2..]; WithoutSentinelsAppend(d[..2], d[2..]); HalfHead(d); }
      Numbers(d[..2] + tail, DeckNumber);
    == { NumbersAppend(d[..2], tail, DeckNumber); }
      Numbers(d[..2], DeckNumber) + Numbers(tail, DeckNumber);
    == { HalfHead(d); }
      [0.0, 0.5] + Numbers(tail, DeckNumber);
    }
  }

  /**
    A deck that starts "0", "½" and continues as a decimal deck: its numbers
    are 0, 0.5 and the decimal ones, and sorting leaves them in place.
   */
  lemma HalfDeck(deckType: string, d: seq<CardValue>, ns: seq<nat>, xs: seq<real>, ys: seq<real>)
    requires DeckOrScrum(deckType) == d
    requires |d| >= 2 && d[0] == "0" && d[1] == HALF_CARD && DecimalTable(d[2..], ns, xs)
    requires ys == [0.0, 0.5] + xs && (xs != [] ==> 0.5 < xs[0])
    ensures NumericDeckValues(deckType) == ys
    ensures StrictlyIncreasing(ys)
  {
    DecimalDeck(d[2..], ns, xs);
    HalfSplit(d);
    HalfFirst(xs, ys);
    SortAscOfAscending(ys);
  }

  /** 0 and 0.5 in front of increasing numbers above 0.5 stay increasing. */
  lemma HalfFirst(xs: seq<real>, ys: seq<real>)
    requires StrictlyIncreasing(xs)
    requires ys == [0.0, 0.5] + xs && (xs != [] ==> 0.5 < xs[0])
    ensures StrictlyIncreasing(ys) && Ascending(ys)
  {
    forall i, j | 0 <= i < j < |ys| ensures ys[i] < ys[j] {
      if i >= 2 {
        assert ys[i] == xs[i - 2] && ys[j] == xs[j - 2];
      } else if j >= 2 {
        assert ys[j] == xs[j - 2];
        assert xs[0] <= xs[j - 2];
      }
    }
  }

  /** The scrum deck's numbers, `½` counting as 0.5, already in increasing order. */
  lemma ScrumNumbers()
    ensures NumericDeckValues("scrum") == [0.0, 0.5, 1.0, 2.0, 3.0, 5.0, 8.0, 13.0, 20.0, 40.0, 100.0]
    ensures StrictlyIncreasing(NumericDeckValues("scrum"))
  {
    ScrumTable();
    HalfDeck("scrum", SCRUM_DECK, [1, 2, 3, 5, 8, 13, 20, 40, 100], [1.0, 2.0, 3.0, 5.0, 8.0, 13.0, 20.0, 40.0, 100.0],
      [0.0, 0.5, 1.0, 2.0, 3.0, 5.0, 8.0, 13.0, 20.0, 40.0, 100.0]);
  }

  // ---------------------------------------------------------------- the aggregator

  /**
    The T-shirt loop: `minDiff = Number.MAX_VALUE`, `closestSize = deckValues[0]`,
    then every size with a weight that is strictly nearer replaces it.
   */
  method ClosestSize(average: real) returns (closestSize: CardValue)
    ensures closestSize in TSHIRT_SIZES
    ensures Dist(TSHIRT_WEIGHTS[0], average) < MAX_VALUE ==> closestSize == TshirtSuggestion(average)
  {
    var deckValues := DeckValues("tshirt");
    TshirtDeckIsSizes();
    TshirtWeights();
    var minDiff := MAX_VALUE;
    closestSize := deckValues[0];
    ghost var w := TSHIRT_WEIGHTS;
    ghost var k: nat := 0;
    ghost var fits := Dist(w[0], average) < MAX_VALUE;
    for i := 0 to |deckValues|
      invariant k < |w| && closestSize == deckValues[k]
      invariant i == 0 ==> k == 0 && minDiff == MAX_VALUE
      invariant i > 0 && fits ==> k == ArgNearest(w[..i], average) && minDiff == Dist(w[k], average)
    {
      var size := deckValues[i];
      if size in TSHIRT_VALUES {
        var val := TSHIRT_VALUES[size];
        assert val == w[i];
        var diff := Dist(val, average);
        if i > 0 {
          ArgNearestStep(w, average, i);
        } else {
          ArgNearestStep(w, average, 1);
        }
        if diff < minDiff {
          minDiff := diff;
          closestSize := size;
          k := i;
        }
      }
    }
    assert w[..|deckValues|] == w;
  }

  lemma TshirtWeightRange(c: CardValue)
    ensures c in TSHIRT_VALUES ==> 1.0 <= TSHIRT_VALUES[c] <= 13.0
  {
  }

  /** Every number a T-shirt card contributes is a weight between 1 and 13. */
  lemma TshirtNumbersInRange(cards: seq<CardValue>)
    requires NumericValues(cards, "tshirt") != []
    ensures 1.0 <= Mean(NumericValues(cards, "tshirt")) <= 13.0
  {
    var nums := NumericValues(cards, "tshirt");
    forall x | x in nums ensures 1.0 <= x <= 13.0 {
      var i :| 0 <= i < |cards| && CardNumber(cards[i], "tshirt") == Some(x);
      TshirtWeightRange(cards[i]);
    }
    MeanBounds(nums);
  }

  /** `calculateResults(players, deckType)`. */
  method CalculateResults(players: seq<Player>, deckType: string) returns (r: Results)
    ensures r == LibraryResults(players, deckType)
  {
    var allCards := SelectedCards(players);
    var entries := CountCards(allCards);
    var breakdown := SortByCount(entries);
    var mode := Mode(breakdown);
    var numericValues := NumericValues(allCards, deckType);
    if numericValues == [] {
      return Results(None, None, mode, None, breakdown, None);
    }
    var average := Sum(numericValues) / (|numericValues| as real);
    var median := Median(SortAsc(numericValues));
    var suggestion: Option<Suggestion> := None;
    if deckType == "tshirt" {
      TshirtNumbersInRange(allCards);
      var size := ClosestSize(average);
      suggestion := Some(Label(size));
    } else {
      var numericDeckValues := NumericDeckValues(deckType);
      if |numericDeckValues| > 0 {
        var closestVal := Closest(numericDeckValues, average);
        assert NumericSuggestion(deckType, average) == Some(closestVal);
        suggestion := Some(Number(closestVal));
      } else {
        assert NumericSuggestion(deckType, average) == None;
      }
    }
    assert average == Mean(numericValues) && breakdown == Breakdown(allCards);
    r := Results(Some(Round1(average)), Some(median), mode, suggestion, breakdown, None);
  }

  // ---------------------------------------------------------------- what the results mean

  /** A deck list whose first entry is a number keeps a number once the sentinels are dropped. */
  lemma LeadingNumber(d: seq<CardValue>)
    requires d != [] && !IsSentinel(d[0]) && DeckNumber(d[0]).Some?
    ensures Numbers(WithoutSentinels(d), DeckNumber) != []
  {
    var w := WithoutSentinels(d);
    assert w[0] == d[0];
  }

  /** A card spelled as the decimal rendering of `n` stands for `n`. */
  lemma DecimalCard(n: nat, card: CardValue)
    requires card == DecimalString(n)
    ensures DeckNumber(card) == Some(n as real)
  {
    ParseFloatDecimal(n);
    assert card != HALF_CARD by {
      assert IsDigit(card[0]);
    }
  }

  lemma DeckStartsWithZeroOrOne(deckType: string)
    requires deckType != "tshirt"
    ensures var d := DeckOrScrum(deckType); d != [] && (d[0] == "0" || d[0] == "1")
  {
  }

  /** Every deck but the T-shirt one, and the scrum fallback, has at least one number. */
  lemma NumericDeckValuesNonEmpty(deckType: string)
    requires deckType != "tshirt"
    ensures NumericDeckValues(deckType) != []
  {
    var d := DeckOrScrum(deckType);
    DeckStartsWithZeroOrOne(deckType);
    var n: nat := if d[0] == "0" then 0 else 1;
    assert d[0] == DecimalString(n);
    DecimalCard(n, d[0]);
    assert !IsSentinel(d[0]) by {
      assert IsDigit(d[0][0]);
    }
    LeadingNumber(d);
  }

  /**
    Average, median and suggestion are absent exactly when no selected card has
    a number; the mode is absent exactly when nobody has selected a card.
   */
  lemma LibraryResultsShape(players: seq<Player>, deckType: string)
    ensures var r := LibraryResults(players, deckType); var cards := SelectedCards(players);
      && (r.average.None? <==> forall i :: 0 <= i < |cards| ==> CardNumber(cards[i], deckType).None?)
      && (r.average.None? ==> r.median.None? && r.suggestion.None?)
      && (r.average.Some? ==> r.median.Some? && r.suggestion.Some?)
      && r.breakdown == Breakdown(cards)
      && (r.mode.None? <==> cards == [])
      && r.acceptedValue.None?
  {
    var cards := SelectedCards(players);
    ModeFacts(cards);
    if deckType != "tshirt" {
      NumericDeckValuesNonEmpty(deckType);
    }
  }

  /** The T-shirt suggestion's weight is nearest the mean, the lighter size on a tie. */
  lemma TshirtSuggestionNearest(mean: real)
    ensures var s := TshirtSuggestion(mean);
      && s in TSHIRT_VALUES
      && forall v :: v in TSHIRT_VALUES ==>
           || Dist(TSHIRT_VALUES[v], mean) > Dist(TSHIRT_VALUES[s], mean)
           || (Dist(TSHIRT_VALUES[v], mean) == Dist(TSHIRT_VALUES[s], mean) && TSHIRT_VALUES[s] <= TSHIRT_VALUES[v])
  {
    TshirtWeights();
    var k := ArgNearest(TSHIRT_WEIGHTS, mean);
    NearestTiesGoLow(TSHIRT_WEIGHTS, mean);
    forall v | v in TSHIRT_VALUES
      ensures || Dist(TSHIRT_VALUES[v], mean) > Dist(TSHIRT_WEIGHTS[k], mean)
              || (Dist(TSHIRT_VALUES[v], mean) == Dist(TSHIRT_WEIGHTS[k], mean) && TSHIRT_WEIGHTS[k] <= TSHIRT_VALUES[v])
    {
      var j :| 0 <= j < |TSHIRT_SIZES| && TSHIRT_SIZES[j] == v;
    }
  }

  /** The numeric suggestion is a deck number nearest the mean, the smaller one on a tie. */
  lemma NumericSuggestionNearest(deckType: string, mean: real)
    requires deckType != "tshirt"
    ensures var d, s := NumericDeckValues(deckType), NumericSuggestion(deckType, mean);
      && s.Some? && s.value in d
      && forall v :: v in d ==> Dist(v, mean) > Dist(s.value, mean) || (Dist(v, mean) == Dist(s.value, mean) && s.value <= v)
  {
    NumericDeckValuesNonEmpty(deckType);
    var d := NumericDeckValues(deckType);
    assert NumericSuggestion(deckType, mean) == Some(d[ArgNearest(d, mean)]);
    NearestOfAscending(d, mean);
  }

  /**
    With numbers present: the average is their mean rounded to one decimal, and
    the median lies between the smallest and largest of them.
   */
  lemma LibraryResultsNumeric(players: seq<Player>, deckType: string)
    requires NumericValues(SelectedCards(players), deckType) != []
    ensures var r := LibraryResults(players, deckType);
      var nums := NumericValues(SelectedCards(players), deckType); var mean := Mean(nums);
      && r.average == Some(Round1(mean)) && mean - 0.05 < r.average.value <= mean + 0.05
      && r.median.Some? && MinOf(nums) <= r.median.value <= MaxOf(nums)
  {
    MedianBounds(NumericValues(SelectedCards(players), deckType));
  }

  /**
    With numbers present, the suggestion is the T-shirt size or the deck number
    nearest the mean (see `TshirtSuggestionNearest`, `NumericSuggestionNearest`).
   */
  lemma LibrarySuggestion(players: seq<Player>, deckType: string)
    requires NumericValues(SelectedCards(players), deckType) != []
    ensures var r := LibraryResults(players, deckType);
      var mean := Mean(NumericValues(SelectedCards(players), deckType));
      && (deckType == "tshirt" ==> r.suggestion == Some(Label(TshirtSuggestion(mean))))
      && (deckType != "tshirt" ==>
            NumericSuggestion(deckType, mean).Some? && r.suggestion == Some(Number(NumericSuggestion(deckType, mean).value)))
  {
    var cards := SelectedCards(players);
    AggregateSuggestion(Breakdown(cards), NumericValues(cards, deckType), deckType);
  }

  lemma AggregateSuggestion(breakdown: seq<BreakdownEntry>, nums: seq<real>, deckType: string)
    requires nums != []
    ensures var r := Aggregate(breakdown, nums, deckType);
      && (deckType == "tshirt" ==> r.suggestion == Some(Label(TshirtSuggestion(Mean(nums)))))
      && (deckType != "tshirt" ==>
            NumericSuggestion(deckType, Mean(nums)).Some?
            && r.suggestion == Some(Number(NumericSuggestion(deckType, Mean(nums)).value)))
  {
    if deckType != "tshirt" {
      NumericDeckValuesNonEmpty(deckType);
    }
  }

  /** The player has voted `?` or `☕`. */
  predicate SentinelVote(p: Player) {
    p.selectedCard.Some? && IsSentinel(p.selectedCard.value)
  }

  lemma SentinelNumbers(players: seq<Player>, extra: seq<Player>, deckType: string)
    requires forall i :: 0 <= i < |extra| ==> SentinelVote(extra[i])
    ensures NumericValues(SelectedCards(players + extra), deckType) == NumericValues(SelectedCards(players), deckType)
  {
    NumbersSkipVotes(players, extra, c => CardNumber(c, deckType));
  }

  /** Results over the same numbers have the same average, median and suggestion. */
  lemma SameNumbersSameEstimate(a: seq<Player>, b: seq<Player>, deckType: string)
    requires NumericValues(SelectedCards(a), deckType) == NumericValues(SelectedCards(b), deckType)
    ensures var ra, rb := LibraryResults(a, deckType), LibraryResults(b, deckType);
      ra.average == rb.average && ra.median == rb.median && ra.suggestion == rb.suggestion
  {
  }

  /** `?` and `☕` votes change neither the average, nor the median, nor the suggestion. */
  lemma SentinelsContributeNothing(players: seq<Player>, extra: seq<Player>, deckType: string)
    requires forall i :: 0 <= i < |extra| ==> SentinelVote(extra[i])
    ensures var before, after := LibraryResults(players, deckType), LibraryResults(players + extra, deckType);
      after.average == before.average && after.median == before.median && after.suggestion == before.suggestion
  {
    SentinelNumbers(players, extra, deckType);
    SameNumbersSameEstimate(players + extra, players, deckType);
  }
}
