/**
  The arithmetic the three result aggregators share: the frequency breakdown
  (a count per distinct card in first-seen order, stably sorted by count), the
  mode, the mean, the median of the ascending sort, rounding to one decimal,
  and the search for the candidate nearest the mean.
 */
module Stats {
  import opened Wrappers
  import opened Types

  // ---------------------------------------------------------------- first-seen order

  /** The index of the first occurrence of `v` in `s`, or `|s|` when `v` does not occur. */
  function FirstIndex(s: seq<CardValue>, v: CardValue): (k: nat)
    ensures k <= |s|
    ensures k < |s| <==> v in s
    ensures k < |s| ==> s[k] == v
    ensures forall j :: 0 <= j < k ==> s[j] != v
  {
    if s == [] then 0
    else if s[0] == v then 0
    else
      assert v in s ==> v in s[1..] by {
        if v in s {
          var i :| 0 <= i < |s| && s[i] == v;
          assert s[1..][i - 1] == v;
        }
      }
      1 + FirstIndex(s[1..], v)
  }

  /** Appending a value does not move the first occurrence of a value already present. */
  lemma FirstIndexAppend(s: seq<CardValue>, x: CardValue, v: CardValue)
    ensures v in s ==> FirstIndex(s + [x], v) == FirstIndex(s, v)
    ensures v !in s && v == x ==> FirstIndex(s + [x], v) == |s|
  {
    var a, b := FirstIndex(s + [x], v), FirstIndex(s, v);
    if v in s {
      assert (s + [x])[b] == v;
    } else if v == x {
      assert (s + [x])[|s|] == v;
      assert forall j :: 0 <= j < |s| ==> (s + [x])[j] == s[j];
    }
  }

  /** The distinct values of `s`, in the order of their first occurrence. */
  function FirstSeen(s: seq<CardValue>): (r: seq<CardValue>)
    ensures Distinct(r)
    ensures forall v :: v in r <==> v in s
    ensures forall i, j :: 0 <= i < j < |r| ==> FirstIndex(s, r[i]) < FirstIndex(s, r[j])
  {
    if s == [] then []
    else
      var init, v := s[..|s| - 1], s[|s| - 1];
      assert s == init + [v];
      var r := FirstSeen(init);
      FirstSeenStep(init, v, r);
      if v in r then r else r + [v]
  }

  /** Appending a value to `s` extends its first-seen order by that value exactly when it is new. */
  lemma FirstSeenStep(init: seq<CardValue>, v: CardValue, r: seq<CardValue>)
    requires Distinct(r)
    requires forall w :: w in r <==> w in init
    requires forall i, j :: 0 <= i < j < |r| ==> FirstIndex(init, r[i]) < FirstIndex(init, r[j])
    ensures var r' := if v in r then r else r + [v];
      && Distinct(r')
      && (forall w :: w in r' <==> w in init + [v])
      && (forall i, j :: 0 <= i < j < |r'| ==> FirstIndex(init + [v], r'[i]) < FirstIndex(init + [v], r'[j]))
  {
    var s := init + [v];
    assert forall w :: w in s <==> w in init || w == v;
    KeepFirstIndices(init, v, r);
    if v !in r {
      FirstIndexAppend(init, v, v);
      AppendNewKeepsOrder(s, r, v);
    }
  }

  /** Appending a value leaves the first index of every value already seen where it was. */
  lemma KeepFirstIndices(init: seq<CardValue>, v: CardValue, r: seq<CardValue>)
    requires forall w :: w in r ==> w in init
    ensures forall i :: 0 <= i < |r| ==> FirstIndex(init + [v], r[i]) == FirstIndex(init, r[i])
  {
    forall i | 0 <= i < |r| ensures FirstIndex(init + [v], r[i]) == FirstIndex(init, r[i]) {
      assert r[i] in r;
      FirstIndexAppend(init, v, r[i]);
    }
  }

  /** A value not in `r`, first seen after everything in `r`, can be appended to it in order. */
  lemma AppendNewKeepsOrder(s: seq<CardValue>, r: seq<CardValue>, v: CardValue)
    requires Distinct(r) && v !in r
    requires forall i, j :: 0 <= i < j < |r| ==> FirstIndex(s, r[i]) < FirstIndex(s, r[j])
    requires forall i :: 0 <= i < |r| ==> FirstIndex(s, r[i]) < FirstIndex(s, v)
    ensures Distinct(r + [v])
    ensures forall i, j :: 0 <= i < j < |r| + 1 ==> FirstIndex(s, (r + [v])[i]) < FirstIndex(s, (r + [v])[j])
  {
    var r' := r + [v];
    forall i, j | 0 <= i < j < |r'| ensures FirstIndex(s, r'[i]) < FirstIndex(s, r'[j]) && r'[i] != r'[j] {
      assert r'[i] == r[i];
      if j < |r| {
        assert r'[j] == r[j];
      }
    }
  }

  // ---------------------------------------------------------------- counting

  /** The entries `(v, m[v])` for the keys `keys`, in order. */
  function Entries(keys: seq<CardValue>, m: multiset<CardValue>): seq<BreakdownEntry> {
    seq(|keys|, i requires 0 <= i < |keys| => BreakdownEntry(keys[i], m[keys[i]]))
  }

  /**
    The contents of `countMap` after the `forEach`, read back in insertion
    order: each distinct card with the number of times it was selected.
   */
  function Tally(cards: seq<CardValue>): seq<BreakdownEntry> {
    Entries(FirstSeen(cards), multiset(cards))
  }

  /**
    `countMap.set(card, (countMap.get(card) || 0) + 1)` for every card, then
    `Array.from(countMap.entries()).map(...)`. A `Map` remembers the order in
    which its keys were first set, which `order` records here.
   */
  method CountCards(cards: seq<CardValue>) returns (entries: seq<BreakdownEntry>)
    ensures entries == Tally(cards)
  {
    var counts: map<CardValue, nat> := map[];
    var order: seq<CardValue> := [];
    for i := 0 to |cards|
      invariant Counted(counts, order, cards[..i])
    {
      var card := cards[i];
      assert cards[..i + 1] == cards[..i] + [card];
      if card in counts {
        CountStepAgain(counts, order, cards[..i], card);
        counts := counts[card := counts[card] + 1];
      } else {
        CountStepFirst(counts, order, cards[..i], card);
        counts := counts[card := 1];
        order := order + [card];
      }
    }
    assert cards[..|cards|] == cards;
    entries := seq(|order|, j requires 0 <= j < |order| => BreakdownEntry(order[j], counts[order[j]]));
  }

  /** `counts` and its key order `order` hold the tally of `s`. */
  ghost predicate Counted(counts: map<CardValue, nat>, order: seq<CardValue>, s: seq<CardValue>) {
    && order == FirstSeen(s)
    && (forall v :: v in counts <==> v in order)
    && (forall v :: v in counts ==> counts[v] == multiset(s)[v])
  }

  /** `countMap.set` on a card already counted keeps the tally current. */
  lemma CountStepAgain(counts: map<CardValue, nat>, order: seq<CardValue>, s: seq<CardValue>, card: CardValue)
    requires Counted(counts, order, s) && card in counts
    ensures Counted(counts[card := counts[card] + 1], order, s + [card])
  {
    assert card in FirstSeen(s);
    FirstSeenSnoc(s, card);
    CountAgain(counts, s, card);
    KeysAgain(counts, order, card);
  }

  lemma KeysAgain(counts: map<CardValue, nat>, order: seq<CardValue>, card: CardValue)
    requires card in counts && forall v :: v in counts <==> v in order
    ensures forall v :: v in counts[card := counts[card] + 1] <==> v in order
  {
    assert counts[card := counts[card] + 1].Keys == counts.Keys;
  }

  /** `countMap.set` on a card not yet counted keeps the tally current and records the card last. */
  lemma CountStepFirst(counts: map<CardValue, nat>, order: seq<CardValue>, s: seq<CardValue>, card: CardValue)
    requires Counted(counts, order, s) && card !in counts
    ensures Counted(counts[card := 1], order + [card], s + [card])
  {
    assert card !in FirstSeen(s);
    FirstSeenSnoc(s, card);
    CountFirst(counts, s, card);
    KeysFirst(counts, order, card);
  }

  lemma KeysFirst(counts: map<CardValue, nat>, order: seq<CardValue>, card: CardValue)
    requires forall v :: v in counts <==> v in order
    ensures forall v :: v in counts[card := 1] <==> v in order + [card]
  {
    assert forall v :: v in order + [card] <==> v in order || v == card;
  }

  lemma CountAgain(counts: map<CardValue, nat>, s: seq<CardValue>, card: CardValue)
    requires card in counts && forall v :: v in counts ==> counts[v] == multiset(s)[v]
    ensures var c := counts[card := counts[card] + 1];
      forall v :: v in c ==> c[v] == multiset(s + [card])[v]
  {
    assert multiset(s + [card]) == multiset(s) + multiset{card};
  }

  lemma CountFirst(counts: map<CardValue, nat>, s: seq<CardValue>, card: CardValue)
    requires card !in s && forall v :: v in counts ==> counts[v] == multiset(s)[v]
    ensures var c := counts[card := 1];
      forall v :: v in c ==> c[v] == multiset(s + [card])[v]
  {
    assert multiset(s + [card]) == multiset(s) + multiset{card};
  }

  lemma FirstSeenSnoc(s: seq<CardValue>, v: CardValue)
    ensures FirstSeen(s + [v]) == if v in FirstSeen(s) then FirstSeen(s) else FirstSeen(s) + [v]
  {
    assert (s + [v])[..|s|] == s;
  }

  // ---------------------------------------------------------------- the stable sort by count

  /** Inserts `e` in front of the first entry whose count does not exceed `e`'s. */
  function InsertByCount(e: BreakdownEntry, t: seq<BreakdownEntry>): (r: seq<BreakdownEntry>)
    ensures |r| == |t| + 1
    ensures multiset(r) == multiset(t) + multiset{e}
  {
    if t == [] then [e]
    else if t[0].count <= e.count then [e] + t
    else
      assert t == [t[0]] + t[1..];
      [t[0]] + InsertByCount(e, t[1..])
  }

  /** `sort((a, b) => b.count - a.count)`: a stable sort by non-increasing count. */
  function SortByCount(t: seq<BreakdownEntry>): (r: seq<BreakdownEntry>)
    ensures |r| == |t|
    ensures multiset(r) == multiset(t)
  {
    if t == [] then []
    else
      assert t == [t[0]] + t[1..];
      InsertByCount(t[0], SortByCount(t[1..]))
  }

  /** `a` belongs before `b`: a higher count, or the same count and a lower rank. */
  predicate Precedes(rank: CardValue -> nat, a: BreakdownEntry, b: BreakdownEntry) {
    a.count > b.count || (a.count == b.count && rank(a.value) < rank(b.value))
  }

  predicate OrderedBy(rank: CardValue -> nat, r: seq<BreakdownEntry>) {
    forall i, j :: 0 <= i < j < |r| ==> Precedes(rank, r[i], r[j])
  }

  /** An entry that precedes every entry of an ordered list can go in front of it. */
  lemma PrependKeepsOrder(rank: CardValue -> nat, x: BreakdownEntry, r: seq<BreakdownEntry>)
    requires OrderedBy(rank, r)
    requires forall y :: y in r ==> Precedes(rank, x, y)
    ensures OrderedBy(rank, [x] + r)
  {
    var s := [x] + r;
    forall i, j | 0 <= i < j < |s| ensures Precedes(rank, s[i], s[j]) {
      assert s[j] == r[j - 1];
      if i == 0 {
        assert r[j - 1] in r;
      } else {
        assert s[i] == r[i - 1];
      }
    }
  }

  lemma OrderedTail(rank: CardValue -> nat, r: seq<BreakdownEntry>)
    requires OrderedBy(rank, r) && r != []
    ensures OrderedBy(rank, r[1..])
    ensures forall y :: y in r[1..] ==> Precedes(rank, r[0], y)
  {
    var tail := r[1..];
    forall i, j | 0 <= i < j < |tail| ensures Precedes(rank, tail[i], tail[j]) {
      assert tail[i] == r[i + 1] && tail[j] == r[j + 1];
    }
    forall y | y in tail ensures Precedes(rank, r[0], y) {
      var k :| 0 <= k < |tail| && tail[k] == y;
      assert r[k + 1] == y;
    }
  }

  /** Inserting an entry ranked before every entry of an ordered list keeps it ordered. */
  lemma {:induction false} InsertKeepsOrder(rank: CardValue -> nat, e: BreakdownEntry, r: seq<BreakdownEntry>)
    requires OrderedBy(rank, r)
    requires forall y :: y in r ==> rank(e.value) < rank(y.value)
    ensures OrderedBy(rank, InsertByCount(e, r))
  {
    if r == [] {
    } else {
      OrderedTail(rank, r);
      var tail := r[1..];
      if r[0].count <= e.count {
        forall y | y in r ensures Precedes(rank, e, y) {
          if y != r[0] {
            assert y in tail;
          }
        }
        PrependKeepsOrder(rank, e, r);
      } else {
        assert forall y :: y in tail ==> y in r;
        InsertKeepsOrder(rank, e, tail);
        var rest := InsertByCount(e, tail);
        forall y | y in rest ensures Precedes(rank, r[0], y) {
          assert y in multiset(rest);
          if y != e {
            assert y in multiset(tail);
          }
        }
        PrependKeepsOrder(rank, r[0], rest);
      }
    }
  }

  /** Sorting a list given in increasing rank yields count-then-rank order. */
  lemma {:induction false} SortKeepsOrder(rank: CardValue -> nat, t: seq<BreakdownEntry>)
    requires forall i, j :: 0 <= i < j < |t| ==> rank(t[i].value) < rank(t[j].value)
    ensures OrderedBy(rank, SortByCount(t))
  {
    if t != [] {
      SortKeepsOrder(rank, t[1..]);
      var r := SortByCount(t[1..]);
      forall y | y in r ensures rank(t[0].value) < rank(y.value) {
        assert y in multiset(t[1..]);
        var k :| 0 <= k < |t[1..]| && t[1..][k] == y;
        assert t[k + 1] == y;
      }
      InsertKeepsOrder(rank, t[0], r);
    }
  }

  // ---------------------------------------------------------------- sums of counts

  function SumCounts(t: seq<BreakdownEntry>): nat {
    if t == [] then 0 else t[0].count + SumCounts(t[1..])
  }

  /** The sum of `m[k]` over the keys `keys`. */
  function SumMult(keys: seq<CardValue>, m: multiset<CardValue>): nat {
    if keys == [] then 0 else m[keys[0]] + SumMult(keys[1..], m)
  }

  lemma {:induction false} SumCountsInsert(e: BreakdownEntry, t: seq<BreakdownEntry>)
    ensures SumCounts(InsertByCount(e, t)) == e.count + SumCounts(t)
  {
    if t != [] && t[0].count > e.count {
      SumCountsInsert(e, t[1..]);
      assert ([t[0]] + InsertByCount(e, t[1..]))[1..] == InsertByCount(e, t[1..]);
    } else if t != [] {
      assert ([e] + t)[1..] == t;
    }
  }

  lemma {:induction false} SumCountsSort(t: seq<BreakdownEntry>)
    ensures SumCounts(SortByCount(t)) == SumCounts(t)
  {
    if t != [] {
      SumCountsSort(t[1..]);
      SumCountsInsert(t[0], SortByCount(t[1..]));
    }
  }

  lemma {:induction false} SumCountsEntries(keys: seq<CardValue>, m: multiset<CardValue>)
    ensures SumCounts(Entries(keys, m)) == SumMult(keys, m)
  {
    if keys != [] {
      assert Entries(keys, m)[1..] == Entries(keys[1..], m);
      SumCountsEntries(keys[1..], m);
    }
  }

  lemma {:induction false} SumMultAppend(keys: seq<CardValue>, v: CardValue, m: multiset<CardValue>)
    ensures SumMult(keys + [v], m) == SumMult(keys, m) + m[v]
  {
    if keys != [] {
      assert (keys + [v])[1..] == keys[1..] + [v];
      SumMultAppend(keys[1..], v, m);
    }
  }

  /** One more copy of `v` adds one to the sum exactly when `v` is among the (distinct) keys. */
  lemma {:induction false} SumMultAdd(keys: seq<CardValue>, m: multiset<CardValue>, v: CardValue)
    requires Distinct(keys)
    ensures SumMult(keys, m + multiset{v}) == SumMult(keys, m) + (if v in keys then 1 else 0)
  {
    if keys != [] {
      assert Distinct(keys[1..]) by {
        forall i, j | 0 <= i < j < |keys[1..]| ensures keys[1..][i] != keys[1..][j] {
          assert keys[1..][i] == keys[i + 1] && keys[1..][j] == keys[j + 1];
        }
      }
      SumMultAdd(keys[1..], m, v);
      assert v in keys <==> v == keys[0] || v in keys[1..];
      if v == keys[0] {
        assert v !in keys[1..] by {
          forall i | 0 <= i < |keys[1..]| ensures keys[1..][i] != v {
            assert keys[1..][i] == keys[i + 1];
          }
        }
      }
    }
  }

  /** The counts of the distinct cards add up to the number of cards. */
  lemma {:induction false} TallySum(cards: seq<CardValue>)
    ensures SumCounts(Tally(cards)) == |cards|
  {
    SumCountsEntries(FirstSeen(cards), multiset(cards));
    if cards != [] {
      var init, v := cards[..|cards| - 1], cards[|cards| - 1];
      assert cards == init + [v];
      TallySum(init);
      SumCountsEntries(FirstSeen(init), multiset(init));
      var r := FirstSeen(init);
      SumMultAdd(r, multiset(init), v);
      if v !in r {
        SumMultAppend(r, v, multiset(cards));
        assert multiset(init)[v] == 0;
      }
    }
  }

  // ---------------------------------------------------------------- breakdown and mode

  /** The breakdown: the tally, stably sorted by non-increasing count. */
  function Breakdown(cards: seq<CardValue>): seq<BreakdownEntry> {
    SortByCount(Tally(cards))
  }

  /** `breakdown.length > 0 ? breakdown[0].value : null`. */
  function Mode(b: seq<BreakdownEntry>): Option<CardValue> {
    if |b| > 0 then Some(b[0].value) else None
  }

  /** Each entry carries a selected card and its count; every selected card has an entry. */
  lemma BreakdownEntriesExact(cards: seq<CardValue>)
    ensures var b := Breakdown(cards);
      && (forall i :: 0 <= i < |b| ==> b[i].value in cards && b[i].count == multiset(cards)[b[i].value])
      && (forall v :: v in cards ==> exists i :: 0 <= i < |b| && b[i].value == v)
  {
    var keys := FirstSeen(cards);
    PermutedEntries(keys, multiset(cards), Breakdown(cards));
  }

  /** A permutation of the entries for `keys` has one entry per key, carrying that key's multiplicity. */
  lemma PermutedEntries(keys: seq<CardValue>, m: multiset<CardValue>, b: seq<BreakdownEntry>)
    requires multiset(b) == multiset(Entries(keys, m))
    ensures forall i :: 0 <= i < |b| ==> b[i].value in keys && b[i].count == m[b[i].value]
    ensures forall v :: v in keys ==> exists i :: 0 <= i < |b| && b[i].value == v
  {
    var t := Entries(keys, m);
    forall i | 0 <= i < |b| ensures b[i].value in keys && b[i].count == m[b[i].value] {
      assert b[i] in multiset(t);
      var k :| 0 <= k < |t| && t[k] == b[i];
      assert t[k].value == keys[k];
    }
    forall v | v in keys ensures exists i :: 0 <= i < |b| && b[i].value == v {
      var k :| 0 <= k < |keys| && keys[k] == v;
      assert t[k] in multiset(b);
      var i :| 0 <= i < |b| && b[i] == t[k];
    }
  }

  /** The entries run by non-increasing count, equal counts in first-seen order. */
  lemma BreakdownOrdered(cards: seq<CardValue>)
    ensures OrderedBy(v => FirstIndex(cards, v), Breakdown(cards))
  {
    var keys := FirstSeen(cards);
    var t := Tally(cards);
    var rank: CardValue -> nat := v => FirstIndex(cards, v);
    assert forall i, j :: 0 <= i < j < |t| ==> rank(t[i].value) < rank(t[j].value) by {
      forall i, j | 0 <= i < j < |t| ensures rank(t[i].value) < rank(t[j].value) {
        assert t[i].value == keys[i] && t[j].value == keys[j];
      }
    }
    SortKeepsOrder(rank, t);
  }

  /**
    The breakdown has exactly one entry per distinct card, carrying the number
    of times it was selected; the counts add up to the number of cards; and the
    entries run by non-increasing count with ties in first-seen order.
   */
  lemma BreakdownFacts(cards: seq<CardValue>)
    ensures var b := Breakdown(cards);
      && (forall i :: 0 <= i < |b| ==> b[i].value in cards && b[i].count == multiset(cards)[b[i].value])
      && (forall v :: v in cards ==> exists i :: 0 <= i < |b| && b[i].value == v)
      && (forall i, j :: 0 <= i < j < |b| ==> b[i].value != b[j].value)
      && (forall i, j :: 0 <= i < j < |b| ==>
            b[i].count > b[j].count
            || (b[i].count == b[j].count && FirstIndex(cards, b[i].value) < FirstIndex(cards, b[j].value)))
      && SumCounts(b) == |cards|
  {
    var b := Breakdown(cards);
    BreakdownEntriesExact(cards);
    BreakdownOrdered(cards);
    TallySum(cards);
    SumCountsSort(Tally(cards));
    forall i, j | 0 <= i < j < |b|
      ensures b[i].count > b[j].count
           || (b[i].count == b[j].count && FirstIndex(cards, b[i].value) < FirstIndex(cards, b[j].value))
    {
      assert Precedes(v => FirstIndex(cards, v), b[i], b[j]);
    }
  }

  /**
    The mode is absent exactly when no card is selected; otherwise it is a most
    frequently selected card, and the first seen among equally frequent ones.
   */
  lemma ModeFacts(cards: seq<CardValue>)
    ensures Mode(Breakdown(cards)).None? <==> cards == []
    ensures Mode(Breakdown(cards)).Some? ==>
      var m := Mode(Breakdown(cards)).value;
      && m in cards
      && (forall v :: v in cards ==> multiset(cards)[v] <= multiset(cards)[m])
      && (forall v :: v in cards && multiset(cards)[v] == multiset(cards)[m] ==> FirstIndex(cards, m) <= FirstIndex(cards, v))
  {
    BreakdownEntriesExact(cards);
    BreakdownOrdered(cards);
    var b := Breakdown(cards);
    if cards != [] {
      assert cards[0] in cards;
      var m := b[0].value;
      forall v | v in cards
        ensures multiset(cards)[v] <= multiset(cards)[m]
        ensures multiset(cards)[v] == multiset(cards)[m] ==> FirstIndex(cards, m) <= FirstIndex(cards, v)
      {
        var i :| 0 <= i < |b| && b[i].value == v;
        if i > 0 {
          assert Precedes(v => FirstIndex(cards, v), b[0], b[i]);
        }
      }
    }
  }

  // ---------------------------------------------------------------- selections and numbers

  /** `players.map(p => p.selectedCard).filter(card => card !== null)`. */
  function SelectedCards(ps: seq<Player>): (r: seq<CardValue>)
    ensures |r| <= |ps|
    ensures forall c :: c in r <==> exists i :: 0 <= i < |ps| && ps[i].selectedCard == Some(c)
  {
    if ps == [] then []
    else
      var rest := SelectedCards(ps[1..]);
      assert forall i :: 1 <= i < |ps| ==> ps[i] == ps[1..][i - 1];
      match ps[0].selectedCard
      case Some(c) => [c] + rest
      case None => rest
  }

  lemma {:induction false} SelectedCardsAppend(ps: seq<Player>, p: Player)
    ensures SelectedCards(ps + [p]) == SelectedCards(ps) + (if p.selectedCard.Some? then [p.selectedCard.value] else [])
  {
    if ps != [] {
      assert (ps + [p])[1..] == ps[1..] + [p];
      SelectedCardsAppend(ps[1..], p);
    } else {
      assert SelectedCards([p])[..0] == [];
    }
  }

  /**
    `cards.map(toNumber).filter(n => !isNaN(n))`, where `f` gives `None` for
    a card that is filtered out or that is not a number.
   */
  function Numbers(cards: seq<CardValue>, f: CardValue -> Option<real>): (r: seq<real>)
    ensures |r| <= |cards|
    ensures r == [] <==> forall i :: 0 <= i < |cards| ==> f(cards[i]).None?
    ensures forall x :: x in r <==> exists i :: 0 <= i < |cards| && f(cards[i]) == Some(x)
  {
    if cards == [] then []
    else
      var rest := Numbers(cards[1..], f);
      assert forall i :: 1 <= i < |cards| ==> cards[i] == cards[1..][i - 1];
      match f(cards[0])
      case Some(x) => [x] + rest
      case None => rest
  }

  /** A card `f` drops adds no number. */
  lemma {:induction false} NumbersSkip(cards: seq<CardValue>, c: CardValue, f: CardValue -> Option<real>)
    requires f(c).None?
    ensures Numbers(cards + [c], f) == Numbers(cards, f)
  {
    if cards != [] {
      assert (cards + [c])[1..] == cards[1..] + [c];
      NumbersSkip(cards[1..], c, f);
    }
  }

  /** Players whose selected cards `f` drops, joining at the end, add no number. */
  lemma {:induction false} NumbersSkipVotes(players: seq<Player>, extra: seq<Player>, f: CardValue -> Option<real>)
    requires forall i :: 0 <= i < |extra| ==> extra[i].selectedCard.Some? && f(extra[i].selectedCard.value).None?
    ensures Numbers(SelectedCards(players + extra), f) == Numbers(SelectedCards(players), f)
    decreases |extra|
  {
    if extra == [] {
      assert players + extra == players;
    } else {
      var init, p := extra[..|extra| - 1], extra[|extra| - 1];
      assert players + extra == (players + init) + [p];
      SelectedCardsAppend(players + init, p);
      NumbersSkip(SelectedCards(players + init), p.selectedCard.value, f);
      assert forall i :: 0 <= i < |init| ==> init[i] == extra[i];
      NumbersSkipVotes(players, init, f);
    }
  }

  function NumberOf(c: CardValue, f: CardValue -> Option<real>): seq<real> {
    match f(c)
    case Some(x) => [x]
    case None => []
  }

  lemma NumbersCons(c: CardValue, s: seq<CardValue>, f: CardValue -> Option<real>)
    ensures Numbers([c] + s, f) == NumberOf(c, f) + Numbers(s, f)
  {
    assert ([c] + s)[1..] == s;
  }

  lemma {:induction false} NumbersAppend(a: seq<CardValue>, b: seq<CardValue>, f: CardValue -> Option<real>)
    ensures Numbers(a + b, f) == Numbers(a, f) + Numbers(b, f)
  {
    if a == [] {
      assert a + b == b;
    } else {
      calc {
        Numbers(a + b, f);
      == { assert a + b == [a[0]] + (a[1..] + b); NumbersCons(a[0], a[1..] + b, f); }
        NumberOf(a[0], f) + Numbers(a[1..] + b, f);
      == { NumbersAppend(a[1..], b, f); }
        NumberOf(a[0], f) + (Numbers(a[1..], f) + Numbers(b, f));
      ==
        (NumberOf(a[0], f) + Numbers(a[1..], f)) + Numbers(b, f);
      == { assert a == [a[0]] + a[1..]; NumbersCons(a[0], a[1..], f); }
        Numbers(a, f) + Numbers(b, f);
      }
    }
  }

  // ---------------------------------------------------------------- mean and median

  /** `reduce((a, b) => a + b, 0)`. */
  function Sum(xs: seq<real>): real {
    if xs == [] then 0.0 else xs[0] + Sum(xs[1..])
  }

  function MinOf(xs: seq<real>): (m: real)
    requires xs != []
    ensures m in xs && forall x :: x in xs ==> m <= x
  {
    if |xs| == 1 then xs[0]
    else
      assert forall x :: x in xs <==> x == xs[0] || x in xs[1..];
      var m := MinOf(xs[1..]);
      if xs[0] <= m then xs[0] else m
  }

  function MaxOf(xs: seq<real>): (m: real)
    requires xs != []
    ensures m in xs && forall x :: x in xs ==> x <= m
  {
    if |xs| == 1 then xs[0]
    else
      assert forall x :: x in xs <==> x == xs[0] || x in xs[1..];
      var m := MaxOf(xs[1..]);
      if xs[0] >= m then xs[0] else m
  }

  /** `sum / numericValues.length`. */
  function Mean(xs: seq<real>): real
    requires xs != []
  {
    Sum(xs) / (|xs| as real)
  }

  lemma {:induction false} SumBounds(xs: seq<real>, lo: real, hi: real)
    requires forall x :: x in xs ==> lo <= x <= hi
    ensures (|xs| as real) * lo <= Sum(xs) <= (|xs| as real) * hi
  {
    if xs != [] {
      var tail, m := xs[1..], |xs[1..]| as real;
      assert forall x :: x in tail ==> x in xs;
      SumBounds(tail, lo, hi);
      assert xs[0] in xs;
      assert Sum(xs) == xs[0] + Sum(tail);
      assert (|xs| as real) * lo == m * lo + lo && (|xs| as real) * hi == m * hi + hi;
    }
  }

  /** The mean lies between the smallest and the largest value. */
  lemma MeanBounds(xs: seq<real>)
    requires xs != []
    ensures MinOf(xs) <= Mean(xs) <= MaxOf(xs)
  {
    var lo, hi := MinOf(xs), MaxOf(xs);
    SumBounds(xs, lo, hi);
    QuotientBounds(Sum(xs), |xs| as real, lo, hi);
  }

  /** A total between `n * lo` and `n * hi` has its share per item between `lo` and `hi`. */
  lemma QuotientBounds(total: real, n: real, lo: real, hi: real)
    requires n > 0.0 && n * lo <= total <= n * hi
    ensures lo <= total / n <= hi
  {
    var q := total / n;
    assert q * n == total;
  }

  predicate Ascending(s: seq<real>) {
    forall i, j :: 0 <= i < j < |s| ==> s[i] <= s[j]
  }

  function InsertAsc(x: real, s: seq<real>): (r: seq<real>)
    ensures |r| == |s| + 1
    ensures multiset(r) == multiset(s) + multiset{x}
  {
    if s == [] then [x]
    else if x <= s[0] then [x] + s
    else
      assert s == [s[0]] + s[1..];
      [s[0]] + InsertAsc(x, s[1..])
  }

  lemma AscTail(s: seq<real>)
    requires Ascending(s) && s != []
    ensures Ascending(s[1..])
    ensures forall y :: y in s[1..] ==> s[0] <= y
  {
    var tail := s[1..];
    forall i, j | 0 <= i < j < |tail| ensures tail[i] <= tail[j] {
      assert tail[i] == s[i + 1] && tail[j] == s[j + 1];
    }
    forall y | y in tail ensures s[0] <= y {
      var k :| 0 <= k < |tail| && tail[k] == y;
      assert s[k + 1] == y;
    }
  }

  lemma PrependAsc(x: real, s: seq<real>)
    requires Ascending(s)
    requires forall y :: y in s ==> x <= y
    ensures Ascending([x] + s)
  {
    var r := [x] + s;
    forall i, j | 0 <= i < j < |r| ensures r[i] <= r[j] {
      assert r[j] == s[j - 1];
      if i == 0 {
        assert s[j - 1] in s;
      } else {
        assert r[i] == s[i - 1];
      }
    }
  }

  lemma {:induction false} InsertAscSorted(x: real, s: seq<real>)
    requires Ascending(s)
    ensures Ascending(InsertAsc(x, s))
  {
    if s != [] {
      AscTail(s);
      if x > s[0] {
        InsertAscSorted(x, s[1..]);
        var rest := InsertAsc(x, s[1..]);
        forall y | y in rest ensures s[0] <= y {
          assert y in multiset(rest);
          if y != x {
            assert y in multiset(s[1..]);
          }
        }
        PrependAsc(s[0], rest);
      } else {
        PrependAsc(x, s);
      }
    }
  }

  /** `[...xs].sort((a, b) => a - b)`: the values in ascending order. */
  function SortAsc(xs: seq<real>): (r: seq<real>)
    ensures Ascending(r)
    ensures |r| == |xs|
    ensures multiset(r) == multiset(xs)
  {
    if xs == [] then []
    else
      assert xs == [xs[0]] + xs[1..];
      InsertAscSorted(xs[0], SortAsc(xs[1..]));
      InsertAsc(xs[0], SortAsc(xs[1..]))
  }

  /** Sorting values that are already ascending changes nothing. */
  lemma {:induction false} SortAscOfAscending(xs: seq<real>)
    requires Ascending(xs)
    ensures SortAsc(xs) == xs
  {
    if xs != [] {
      AscTail(xs);
      SortAscOfAscending(xs[1..]);
      assert xs == [xs[0]] + xs[1..];
    }
  }

  /** The middle value of a sorted list, or the mean of the two middle values. */
  function Median(sorted: seq<real>): real
    requires sorted != []
  {
    var mid := |sorted| / 2;
    if |sorted| % 2 != 0 then sorted[mid] else (sorted[mid - 1] + sorted[mid]) / 2.0
  }

  /** The median lies between the smallest and the largest value. */
  lemma MedianBounds(xs: seq<real>)
    requires xs != []
    ensures MinOf(xs) <= Median(SortAsc(xs)) <= MaxOf(xs)
  {
    var s := SortAsc(xs);
    var lo, hi := MinOf(xs), MaxOf(xs);
    MedianInRange(s);
    var mid := |s| / 2;
    assert s[mid] in multiset(xs);
    assert s[mid] in xs;
    if |s| % 2 == 0 {
      assert s[mid - 1] in multiset(xs);
      assert s[mid - 1] in xs;
    }
  }

  /**
    On a sorted list the median is the middle value, or lies between the two
    middle values; the values before the middle are at most the median and
    those after it at least.
   */
  lemma MedianInRange(s: seq<real>)
    requires s != [] && Ascending(s)
    ensures var mid, m := |s| / 2, Median(s);
      && (|s| % 2 != 0 ==> m == s[mid])
      && (|s| % 2 == 0 ==> 0 < mid && s[mid - 1] <= m <= s[mid])
      && (forall i :: 0 <= i < |s| / 2 ==> s[i] <= m)
      && (forall i :: (|s| + 1) / 2 <= i < |s| ==> m <= s[i])
  {
    var n, mid := |s|, |s| / 2;
    if n % 2 == 0 {
      assert mid * 2 == n;
      assert (n + 1) / 2 == mid;
    } else {
      assert mid * 2 + 1 == n;
      assert (n + 1) / 2 == mid + 1;
    }
  }

  /** `Math.round(x * 10) / 10`, where `Math.round(y)` is `floor(y + 1/2)`. */
  function Round1(x: real): (r: real)
    ensures x - 0.05 < r <= x + 0.05
    ensures (10.0 * r).Floor as real == 10.0 * r
  {
    (10.0 * x + 0.5).Floor as real / 10.0
  }

  /** A value with at most one decimal is its own rounding. */
  lemma Round1Tenths(n: int)
    ensures Round1(n as real / 10.0) == n as real / 10.0
  {
    var r := n as real / 10.0;
    assert 10.0 * r == n as real;
    assert (n as real + 0.5).Floor == n;
  }

  /** A whole number of tenths in the window `(x - 0.05, x + 0.05]` is the rounding of `x`. */
  lemma Round1Unique(x: real, y: real)
    requires (10.0 * y).Floor as real == 10.0 * y && x - 0.05 < y <= x + 0.05
    ensures y == Round1(x)
  {
    var n := (10.0 * y).Floor;
    assert n as real <= 10.0 * x + 0.5 < n as real + 1.0;
    assert (10.0 * x + 0.5).Floor == n;
  }

  /** Rounding a rounded value changes nothing. */
  lemma Round1Idempotent(x: real)
    ensures Round1(Round1(x)) == Round1(x)
  {
    Round1Tenths((10.0 * x + 0.5).Floor);
  }

  // ---------------------------------------------------------------- the nearest candidate

  /** `Math.abs(a - b)`. */
  function Dist(a: real, b: real): real {
    if a >= b then a - b else b - a
  }

  /** `c[k]` is nearest `t`, and every earlier candidate is strictly farther. */
  predicate IsNearest(c: seq<real>, t: real, k: nat) {
    && k < |c|
    && (forall j :: 0 <= j < k ==> Dist(c[j], t) > Dist(c[k], t))
    && (forall j :: k < j < |c| ==> Dist(c[j], t) >= Dist(c[k], t))
  }

  /**
    The index the strict-`<` minimum search ends on: it moves only when a
    candidate is strictly nearer, so the first of equally near ones wins.
   */
  function ArgNearest(c: seq<real>, t: real): (k: nat)
    requires c != []
    ensures IsNearest(c, t, k)
  {
    if |c| == 1 then 0
    else
      var init := c[..|c| - 1];
      var k := ArgNearest(init, t);
      assert forall j :: 0 <= j < |init| ==> init[j] == c[j];
      if Dist(c[|c| - 1], t) < Dist(c[k], t) then |c| - 1 else k
  }

  /** Only one index is nearest in that sense. */
  lemma NearestUnique(c: seq<real>, t: real, k: nat)
    requires IsNearest(c, t, k)
    ensures c != [] && k == ArgNearest(c, t)
  {
  }

  /** Among strictly increasing candidates, a tie goes to the smaller value. */
  lemma NearestTiesGoLow(c: seq<real>, t: real)
    requires c != []
    requires forall i, j :: 0 <= i < j < |c| ==> c[i] < c[j]
    ensures var k := ArgNearest(c, t);
      forall j :: 0 <= j < |c| && Dist(c[j], t) == Dist(c[k], t) ==> c[k] <= c[j]
  {
    var k := ArgNearest(c, t);
  }

  /** Among ascending candidates, the one found is nearest the target, the smallest such on a tie. */
  lemma NearestOfAscending(c: seq<real>, t: real)
    requires c != [] && Ascending(c)
    ensures var k := ArgNearest(c, t);
      && c[k] in c
      && forall v :: v in c ==> Dist(v, t) > Dist(c[k], t) || (Dist(v, t) == Dist(c[k], t) && c[k] <= v)
  {
    var k := ArgNearest(c, t);
    forall v | v in c ensures Dist(v, t) > Dist(c[k], t) || (Dist(v, t) == Dist(c[k], t) && c[k] <= v) {
      var j :| 0 <= j < |c| && c[j] == v;
      if j > k {
        assert c[k] <= c[j];
      }
    }
  }

  /** One more step of the search: the last candidate wins only when strictly nearer. */
  lemma ArgNearestStep(c: seq<real>, t: real, i: nat)
    requires 0 < i < |c|
    ensures ArgNearest(c[..1], t) == 0
    ensures var k := ArgNearest(c[..i], t);
      ArgNearest(c[..i + 1], t) == if Dist(c[i], t) < Dist(c[k], t) then i else k
  {
    assert c[..i + 1][..i] == c[..i];
  }

  /**
    `closestVal = c[0]; minDiff = |t - c[0]|; for (val of c) if (|t - val| < minDiff) ...`.
   */
  method Closest(c: seq<real>, t: real) returns (closest: real)
    requires c != []
    ensures closest == c[ArgNearest(c, t)]
  {
    closest := c[0];
    var minDiff := Dist(c[0], t);
    ghost var k: nat := 0;
    for i := 0 to |c|
      invariant k < |c| && closest == c[k] && minDiff == Dist(c[k], t)
      invariant k == ArgNearest(c[..if i == 0 then 1 else i], t)
    {
      var diff := Dist(c[i], t);
      if i > 0 {
        ArgNearestStep(c, t, i);
      }
      if diff < minDiff {
        minDiff := diff;
        closest := c[i];
        k := i;
      }
    }
    assert c[..|c|] == c;
  }
}
