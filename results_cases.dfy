/**
  Worked cases of the library's `calculateResults` on the T-shirt deck: the
  nearest-size suggestion, the tie that goes to the lighter size, and the
  ignored `?` and `☕` cards.
 */
module ResultsCases {
  import opened Wrappers
  import opened Types
  import opened Stats
  import opened PokerLogic

  /** A player who is not the host and has selected `card`. */
  function Voter(id: string, card: Option<CardValue>): Player {
    Player(id, "Player " + id, card, false)
  }

  /** When everybody has selected a card, the selected cards are those cards in order. */
  lemma {:induction false} AllSelected(ps: seq<Player>, cards: seq<CardValue>)
    requires |ps| == |cards| && forall i :: 0 <= i < |ps| ==> ps[i].selectedCard == Some(cards[i])
    ensures SelectedCards(ps) == cards
  {
    if ps != [] {
      AllSelected(ps[1..], cards[1..]);
      assert cards == [cards[0]] + cards[1..];
    }
  }

  /** When every card has a number, the numbers are those in order. */
  lemma {:induction false} AllNumbers(cards: seq<CardValue>, f: CardValue -> Option<real>, xs: seq<real>)
    requires |cards| == |xs| && forall i :: 0 <= i < |cards| ==> f(cards[i]) == Some(xs[i])
    ensures Numbers(cards, f) == xs
  {
    if cards != [] {
      AllNumbers(cards[1..], f, xs[1..]);
      assert xs == [xs[0]] + xs[1..];
    }
  }

  /** The T-shirt results once the numbers, their mean and the nearest weight are known. */
  lemma TshirtCase(players: seq<Player>, nums: seq<real>, mean: real, k: nat)
    requires NumericValues(SelectedCards(players), "tshirt") == nums
    requires nums != [] && Mean(nums) == mean
    requires IsNearest(TSHIRT_WEIGHTS, mean, k) && k < |TSHIRT_SIZES|
    ensures var r := LibraryResults(players, "tshirt");
      r.average == Some(Round1(mean)) && r.suggestion == Some(Label(TSHIRT_SIZES[k]))
  {
    LibrarySuggestion(players, "tshirt");
    NearestUnique(TSHIRT_WEIGHTS, mean, k);
  }

  lemma SizeNumber(c: CardValue)
    requires c in TSHIRT_VALUES
    ensures CardNumber(c, "tshirt") == Some(TSHIRT_VALUES[c])
  {
    assert c == "XS" || c == "S" || c == "M" || c == "L" || c == "XL" || c == "XXL";
  }

  /** T-shirt votes, every one a size: their numbers are the sizes' weights, in order. */
  lemma SizesNumbers(ps: seq<Player>, sizes: seq<CardValue>, xs: seq<real>)
    requires |ps| == |sizes| == |xs| && forall i :: 0 <= i < |ps| ==> ps[i].selectedCard == Some(sizes[i])
    requires forall i :: 0 <= i < |sizes| ==> sizes[i] in TSHIRT_VALUES && TSHIRT_VALUES[sizes[i]] == xs[i]
    ensures NumericValues(SelectedCards(ps), "tshirt") == xs
  {
    AllSelected(ps, sizes);
    forall i | 0 <= i < |sizes| ensures CardNumber(sizes[i], "tshirt") == Some(xs[i]) {
      SizeNumber(sizes[i]);
    }
    AllNumbers(sizes, c => CardNumber(c, "tshirt"), xs);
  }

  /** T-shirt votes, every one a size, whose mean needs no rounding and is nearest the `k`-th size. */
  lemma TshirtVotes(ps: seq<Player>, sizes: seq<CardValue>, xs: seq<real>, mean: real, k: nat)
    requires |ps| == |sizes| == |xs| && forall i :: 0 <= i < |ps| ==> ps[i].selectedCard == Some(sizes[i])
    requires forall i :: 0 <= i < |sizes| ==> sizes[i] in TSHIRT_VALUES && TSHIRT_VALUES[sizes[i]] == xs[i]
    requires xs != [] && Mean(xs) == mean && Round1(mean) == mean
    requires IsNearest(TSHIRT_WEIGHTS, mean, k) && k < |TSHIRT_SIZES|
    ensures var r := LibraryResults(ps, "tshirt");
      r.average == Some(mean) && r.suggestion == Some(Label(TSHIRT_SIZES[k]))
  {
    SizesNumbers(ps, sizes, xs);
    TshirtCase(ps, xs, mean, k);
  }

  /** Three `S` cards: average 2, suggestion `S`. */
  lemma ThreeSmall(ps: seq<Player>)
    requires ps == [Voter("1", Some("S")), Voter("2", Some("S")), Voter("3", Some("S"))]
    ensures var r := LibraryResults(ps, "tshirt");
      r.average == Some(2.0) && r.suggestion == Some(Label("S"))
  {
    assert Mean([2.0, 2.0, 2.0]) == 2.0;
    Round1Tenths(20);
    TshirtVotes(ps, ["S", "S", "S"], [2.0, 2.0, 2.0], 2.0, 1);
  }

  /** `S` and `L`: average 3.5, nearer `M` (3) than `L` (5). */
  lemma SmallAndLarge(ps: seq<Player>)
    requires ps == [Voter("1", Some("S")), Voter("2", Some("L"))]
    ensures var r := LibraryResults(ps, "tshirt");
      r.average == Some(3.5) && r.suggestion == Some(Label("M"))
  {
    assert Mean([2.0, 5.0]) == 3.5;
    Round1Tenths(35);
    TshirtVotes(ps, ["S", "L"], [2.0, 5.0], 3.5, 2);
  }

  /** `M` and `L`: average 4, equally near `M` and `L`; the lighter `M` wins. */
  lemma MediumAndLarge(ps: seq<Player>)
    requires ps == [Voter("1", Some("M")), Voter("2", Some("L"))]
    ensures var r := LibraryResults(ps, "tshirt");
      r.average == Some(4.0) && r.suggestion == Some(Label("M"))
  {
    assert Mean([3.0, 5.0]) == 4.0;
    Round1Tenths(40);
    TshirtVotes(ps, ["M", "L"], [3.0, 5.0], 4.0, 2);
  }

  /** One `S` card: average 2, suggestion `S`. */
  lemma OneSmall(ps: seq<Player>)
    requires ps == [Voter("1", Some("S"))]
    ensures var r := LibraryResults(ps, "tshirt");
      r.average == Some(2.0) && r.suggestion == Some(Label("S"))
  {
    assert Mean([2.0]) == 2.0;
    Round1Tenths(20);
    TshirtVotes(ps, ["S"], [2.0], 2.0, 1);
  }

  /** A `?` vote and a `☕` vote are both sentinel votes. */
  lemma SentinelVotes(ps: seq<Player>)
    requires ps == [Voter("2", Some(UNKNOWN_CARD)), Voter("3", Some(COFFEE_CARD))]
    ensures forall i :: 0 <= i < |ps| ==> SentinelVote(ps[i])
  {
    assert SentinelVote(ps[0]) && SentinelVote(ps[1]);
  }

  /** `S` followed by `?` and `☕`: the sentinels are ignored, so average 2 and suggestion `S`. */
  lemma SmallAndSentinels(small: seq<Player>, sentinels: seq<Player>)
    requires small == [Voter("1", Some("S"))]
    requires sentinels == [Voter("2", Some(UNKNOWN_CARD)), Voter("3", Some(COFFEE_CARD))]
    ensures var r := LibraryResults(small + sentinels, "tshirt");
      r.average == Some(2.0) && r.suggestion == Some(Label("S"))
  {
    SentinelVotes(sentinels);
    OneSmall(small);
    SentinelsContributeNothing(small, sentinels, "tshirt");
  }

  /** Only `?` and `☕`: no average and no suggestion. */
  lemma OnlySentinels(ps: seq<Player>)
    requires ps == [Voter("1", Some(UNKNOWN_CARD)), Voter("2", Some(COFFEE_CARD))]
    ensures var r := LibraryResults(ps, "tshirt");
      r.average.None? && r.suggestion.None?
  {
    SentinelsContributeNothing([], ps, "tshirt");
    assert [] + ps == ps;
  }
}
