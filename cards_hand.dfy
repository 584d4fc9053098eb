/** A five-card hand (src/bin/cards/hand.rs): dealt from the top of a deck and rendered like a deck. */
module Hands {
  import opened Cards
  import opened Decks

  const HAND_SIZE: nat := 5

  /** Exactly `HAND_SIZE` cards, as in the fixed-size array of the source. */
  type HandCards = cs: seq<Card> | |cs| == HAND_SIZE
    witness [Card(Ace, Spades), Card(Ace, Spades), Card(Ace, Spades), Card(Ace, Spades), Card(Ace, Spades)]

  /** `Hand::new(cards)` is this constructor: the hand holds exactly the cards it is given. */
  datatype Hand = Hand(cards: HandCards)

  /** `Hand::from_deck`: the first `HAND_SIZE` cards of the deck, in order. `peek(HAND_SIZE)` always
      succeeds because `HAND_SIZE < DECK_SIZE`, so neither `unwrap` can panic; the deck is not changed. */
  function FromDeck(d: Deck): (h: Hand)
    requires d.Valid()
    reads d, d.cards
    ensures forall i :: 0 <= i < HAND_SIZE ==> h.cards[i] == d.cards[i]
  {
    var top := d.Peek(HAND_SIZE);
    assert top.Ok?;
    Hand(top.value)
  }

  /** `Display for Hand`: the five card texts, comma-separated, in brackets. */
  function HandString(h: Hand): (s: string)
    ensures |s| >= 2 && s[0] == '[' && s[|s| - 1] == ']' && s[1..|s| - 1] == JoinCards(h.cards)
  {
    CardsString(h.cards)
  }

  /** Two hands that display the same hold the same cards in the same order. */
  lemma HandStringDetermines(a: Hand, b: Hand)
    ensures HandString(a) == HandString(b) ==> a == b
  {
    CardsStringInjective(a.cards, b.cards);
  }

  /** A hand dealt from a freshly built full deck is its first five cards: the four suits of aces and
      the two of spades. */
  lemma FullDeckHand(d: Deck)
    requires d.Valid() && d.cards[..] == FullCards()
    ensures FromDeck(d).cards ==
      [Card(Ace, Spades), Card(Ace, Hearts), Card(Ace, Diamonds), Card(Ace, Clubs), Card(Two, Spades)]
  {
    var h := FromDeck(d);
    forall i | 0 <= i < HAND_SIZE
      ensures h.cards[i] == FullCard(i)
    {
      assert d.cards[i] == d.cards[..][i];
    }
  }
}
