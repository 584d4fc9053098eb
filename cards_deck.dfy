/** A 52-card deck with its own generator (src/bin/cards/deck.rs): the ordered full deck, the in-place
    Fisher–Yates shuffle, `peek` and the text rendering. */
module Decks {
  import opened Cards
  import opened XorShiftRng

  const DECK_SIZE: nat := 52

  /** The error text of `peek`, character for character (the braces are part of the text). */
  const PeekError: string := "n must lie in [0, {51}]"

  datatype Result<T> = Ok(value: T) | Err(msg: string)

  /** The card `Deck::full` places at index `i`: rank `i / SUITS`, suit `i % SUITS`. */
  function FullCard(i: nat): (c: Card)
    requires i < DECK_SIZE
    ensures RankIndex(c.rank) * SUITS + SuitIndex(c.suit) == i
  {
    Card(AllRanks()[i / SUITS], AllSuits()[i % SUITS])
  }

  /** The 52 cards of `Deck::full`, in order. */
  function FullCards(): (cs: seq<Card>)
    ensures |cs| == DECK_SIZE
    ensures forall i :: 0 <= i < DECK_SIZE ==> cs[i] == FullCard(i)
  {
    seq(DECK_SIZE, i requires 0 <= i < DECK_SIZE => FullCard(i))
  }

  /** Where a card sits in the full deck. */
  function FullIndex(c: Card): nat {
    RankIndex(c.rank) * SUITS + SuitIndex(c.suit)
  }

  /** Every card sits in the full deck at `4 * rank + suit`, and at no other position. */
  lemma FullCardsPositions(c: Card)
    ensures FullIndex(c) < DECK_SIZE && FullCards()[FullIndex(c)] == c
    ensures forall i :: 0 <= i < DECK_SIZE && FullCards()[i] == c ==> i == FullIndex(c)
  {
    var k := FullIndex(c);
    assert k / SUITS == RankIndex(c.rank) && k % SUITS == SuitIndex(c.suit);
  }

  /** No element of `s` occurs twice. */
  predicate Distinct<T(==)>(s: seq<T>) {
    forall i, j :: 0 <= i < j < |s| ==> s[i] != s[j]
  }

  lemma {:induction false} DistinctCount<T>(s: seq<T>, x: T)
    requires Distinct(s)
    ensures multiset(s)[x] == if x in s then 1 else 0
  {
    if s != [] {
      assert s == [s[0]] + s[1..];
      assert Distinct(s[1..]);
      DistinctCount(s[1..], x);
      assert s[0] !in s[1..];
    }
  }

  /** The full deck holds every (rank, suit) pair exactly once. */
  lemma FullCardsExactlyOnce()
    ensures Distinct(FullCards())
    ensures forall c: Card :: multiset(FullCards())[c] == 1
  {
    var cs := FullCards();
    forall i, j | 0 <= i < j < DECK_SIZE
      ensures cs[i] != cs[j]
    {
      FullCardsPositions(cs[i]);
    }
    forall c: Card
      ensures multiset(cs)[c] == 1
    {
      FullCardsPositions(c);
      DistinctCount(cs, c);
    }
  }

  /** `cards.swap(i, j)` on the sequence of cards. */
  function Swap(cs: seq<Card>, i: nat, j: nat): (r: seq<Card>)
    requires i < |cs| && j < |cs|
    ensures |r| == |cs| && r[i] == cs[j] && r[j] == cs[i]
    ensures forall k :: 0 <= k < |cs| && k != i && k != j ==> r[k] == cs[k]
  {
    cs[i := cs[j]][j := cs[i]]
  }

  /** A swap only rearranges the cards. */
  lemma SwapPermutes(cs: seq<Card>, i: nat, j: nat)
    requires i < |cs| && j < |cs|
    ensures multiset(Swap(cs, i, j)) == multiset(cs)
  {
  }

  /** The last `n` rounds of `shuffle` played on `cs` from generator state `st`. The round that fills
      index `n - 1` advances the generator and swaps that index with the new state reduced modulo `n`;
      the remaining rounds continue from the new state. */
  function Rounds(cs: seq<Card>, st: bv64, n: nat): (r: seq<Card>)
    requires n <= |cs|
    ensures |r| == |cs|
    decreases n, |cs|
  {
    if n == 0 then cs else Rounds(Swap(cs, n - 1, Below(Advance(st), n)), Advance(st), n - 1)
  }

  /** What `shuffle` makes of the cards `cs` when its generator starts in state `st`. */
  function Shuffled(cs: seq<Card>, st: bv64): (r: seq<Card>)
    requires |cs| == DECK_SIZE
    ensures |r| == DECK_SIZE
  {
    Rounds(cs, st, |cs|)
  }

  /** Playing rounds only rearranges the cards. */
  lemma {:induction false} RoundsPermute(cs: seq<Card>, st: bv64, n: nat)
    requires n <= |cs|
    ensures multiset(Rounds(cs, st, n)) == multiset(cs)
    decreases n
  {
    if n > 0 {
      var j := Below(Advance(st), n);
      SwapPermutes(cs, n - 1, j);
      RoundsPermute(Swap(cs, n - 1, j), Advance(st), n - 1);
    }
  }

  /** Indices at or above the number of rounds left are never touched again. */
  lemma {:induction false} RoundsKeepAbove(cs: seq<Card>, st: bv64, n: nat, p: nat)
    requires n <= p < |cs|
    ensures Rounds(cs, st, n)[p] == cs[p]
    decreases n
  {
    if n > 0 {
      RoundsKeepAbove(Swap(cs, n - 1, Below(Advance(st), n)), Advance(st), n - 1, p);
    }
  }

  /** The next round settles index `n - 1` for good: it ends up holding the card now at the position
      drawn for it, which lies in `[0, n - 1]`. */
  lemma RoundFillsIndex(cs: seq<Card>, st: bv64, n: nat)
    requires 0 < n <= |cs|
    ensures Below(Advance(st), n) < n && Rounds(cs, st, n)[n - 1] == cs[Below(Advance(st), n)]
  {
    var j := Below(Advance(st), n);
    var swapped := Swap(cs, n - 1, j);
    assert swapped[n - 1] == cs[j];
    RoundsKeepAbove(swapped, Advance(st), n - 1, n - 1);
  }

  /** A shuffled deck holds the same cards; a shuffled full deck still holds every card exactly once. */
  lemma ShuffledPermutes(cs: seq<Card>, st: bv64)
    requires |cs| == DECK_SIZE
    ensures multiset(Shuffled(cs, st)) == multiset(cs)
    ensures cs == FullCards() ==> forall c: Card :: multiset(Shuffled(cs, st))[c] == 1
  {
    RoundsPermute(cs, st, |cs|);
    FullCardsExactlyOnce();
  }

  class Deck {
    var cards: array<Card>
    var rng: XorShift

    /** The array always holds exactly `DECK_SIZE` cards. */
    predicate Valid()
      reads this
    {
      cards.Length == DECK_SIZE
    }

    /** `Deck::new`: the given cards and a generator seeded with `seed`. */
    constructor (cs: seq<Card>, seed: bv64)
      requires |cs| == DECK_SIZE
      ensures Valid() && cards[..] == cs && rng.state == seed
      ensures fresh(cards) && fresh(rng)
    {
      cards := new Card[DECK_SIZE](i requires 0 <= i < DECK_SIZE => cs[i]);
      rng := new XorShift.FromSeed(seed);
    }

    /** `Deck::full`: the 52 cards in rank-major, suit-minor order. */
    static method Full(seed: bv64) returns (d: Deck)
      ensures fresh(d) && fresh(d.cards) && fresh(d.rng)
      ensures d.Valid() && d.cards[..] == FullCards() && d.rng.state == seed
    {
      d := new Deck(FullCards(), seed);
    }

    /** `shuffle`: for each index from 51 down to 0, swap it with a position drawn in `[0, index]`. The
        generator is advanced exactly 52 times. */
    method Shuffle()
      requires Valid()
      modifies cards, rng
      ensures Valid()
      ensures cards[..] == Shuffled(old(cards[..]), old(rng.state))
      ensures rng.state == AdvanceN(old(rng.state), DECK_SIZE)
    {
      ghost var target, final := Shuffled(cards[..], rng.state), AdvanceN(rng.state, DECK_SIZE);
      // `n` is the source's loop index `i` plus one: the number of positions not yet settled.
      var n: nat := cards.Length;
      while n > 0
        invariant n <= cards.Length
        invariant Rounds(cards[..], rng.state, n) == target
        invariant AdvanceN(rng.state, n) == final
        decreases n
      {
        var j := rng.GenRange(0, n);
        SwapCards(n - 1, j);
        n := n - 1;
      }
    }

    /** `cards.swap(i, j)`. */
    method SwapCards(i: nat, j: nat)
      requires i < cards.Length && j < cards.Length
      modifies cards
      ensures cards[..] == Swap(old(cards[..]), i, j)
    {
      cards[i], cards[j] := cards[j], cards[i];
    }

    /** `peek(n)`: the first `n` cards, in order, for `n < 52`; an error for every larger `n`, 52
        included. The deck is not changed. */
    function Peek(n: nat): (r: Result<seq<Card>>)
      requires Valid()
      reads this, cards
      ensures r.Err? <==> n >= DECK_SIZE
      ensures r.Err? ==> r.msg == PeekError
      ensures r.Ok? ==> |r.value| == n && forall i :: 0 <= i < n ==> r.value[i] == cards[i]
    {
      if n >= DECK_SIZE then Err(PeekError) else Ok(cards[..n])
    }

    /** `Display for Deck`: the 52 card texts, comma-separated, in brackets. */
    function ToString(): (s: string)
      reads this, cards
      ensures |s| >= 2 && s[0] == '[' && s[|s| - 1] == ']' && s[1..|s| - 1] == JoinCards(cards[..])
    {
      CardsString(cards[..])
    }
  }

  /** Two decks that display the same hold the same cards in the same order. */
  lemma DeckStringDetermines(d: Deck, e: Deck)
    ensures d.ToString() == e.ToString() ==> d.cards[..] == e.cards[..]
  {
    CardsStringInjective(d.cards[..], e.cards[..]);
  }
}
