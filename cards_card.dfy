/** Playing cards (src/bin/cards/card.rs): ranks, suits, cards and their text renderings, plus the
    bracketed list rendering shared by decks and hands. */
module Cards {

  const RANKS: nat := 13
  const SUITS: nat := 4

  datatype Rank = Ace | Two | Three | Four | Five | Six | Seven | Eight | Nine | Ten | Jack | Queen | King

  datatype Suit = Spades | Hearts | Diamonds | Clubs

  /** `Card::new(rank, suit)` is this constructor: a card holds exactly the rank and suit it is given. */
  datatype Card = Card(rank: Rank, suit: Suit)

  /** A rank's position in declaration order (its enum discriminant). */
  function RankIndex(r: Rank): (i: nat)
    ensures i < RANKS
  {
    match r
    case Ace => 0 case Two => 1 case Three => 2 case Four => 3 case Five => 4 case Six => 5
    case Seven => 6 case Eight => 7 case Nine => 8 case Ten => 9 case Jack => 10 case Queen => 11
    case King => 12
  }

  /** A suit's position in declaration order (its enum discriminant). */
  function SuitIndex(s: Suit): (i: nat)
    ensures i < SUITS
  {
    match s
    case Spades => 0 case Hearts => 1 case Diamonds => 2 case Clubs => 3
  }

  /** `Rank::all`: every rank once, in declaration order. */
  function AllRanks(): (rs: seq<Rank>)
    ensures |rs| == RANKS
    ensures forall i :: 0 <= i < |rs| ==> RankIndex(rs[i]) == i
    ensures forall r: Rank :: rs[RankIndex(r)] == r
  {
    [Ace, Two, Three, Four, Five, Six, Seven, Eight, Nine, Ten, Jack, Queen, King]
  }

  /** `Suit::all`: every suit once, in declaration order. */
  function AllSuits(): (ss: seq<Suit>)
    ensures |ss| == SUITS
    ensures forall i :: 0 <= i < |ss| ==> SuitIndex(ss[i]) == i
    ensures forall s: Suit :: ss[SuitIndex(s)] == s
  {
    [Spades, Hearts, Diamonds, Clubs]
  }

  /** `Rank::all` has no repeated rank. */
  lemma AllRanksDistinct()
    ensures forall i, j :: 0 <= i < j < RANKS ==> AllRanks()[i] != AllRanks()[j]
  {
    var rs := AllRanks();
    forall i, j | 0 <= i < j < RANKS
      ensures rs[i] != rs[j]
    {
      assert RankIndex(rs[i]) != RankIndex(rs[j]);
    }
  }

  /** `Suit::all` has no repeated suit. */
  lemma AllSuitsDistinct()
    ensures forall i, j :: 0 <= i < j < SUITS ==> AllSuits()[i] != AllSuits()[j]
  {
    var ss := AllSuits();
    forall i, j | 0 <= i < j < SUITS
      ensures ss[i] != ss[j]
    {
      assert SuitIndex(ss[i]) != SuitIndex(ss[j]);
    }
  }

  /** `Display for Rank`. */
  function RankString(r: Rank): (s: string)
    ensures |s| == (if r == Ten then 2 else 1)
  {
    match r
    case Ace => "A" case Two => "2" case Three => "3" case Four => "4" case Five => "5"
    case Six => "6" case Seven => "7" case Eight => "8" case Nine => "9" case Ten => "10"
    case Jack => "J" case Queen => "Q" case King => "K"
  }

  /** `Display for Suit`: the four card-suit symbols. */
  function SuitString(s: Suit): (t: string)
    ensures |t| == 1
  {
    match s
    case Spades => "\U{2660}"
    case Hearts => "\U{2665}"
    case Diamonds => "\U{2666}"
    case Clubs => "\U{2663}"
  }

  /** Distinct ranks render differently. */
  lemma RankStringInjective(a: Rank, b: Rank)
    ensures RankString(a) == RankString(b) ==> a == b
  {
    if RankString(a) == RankString(b) {
      assert RankString(a)[0] == RankString(b)[0];
      if a == Ten || b == Ten {
        assert |RankString(a)| == |RankString(b)|;
      }
    }
  }

  /** Distinct suits render differently. */
  lemma SuitStringInjective(a: Suit, b: Suit)
    ensures SuitString(a) == SuitString(b) ==> a == b
  {
    if SuitString(a) == SuitString(b) {
      assert SuitString(a)[0] == SuitString(b)[0];
    }
  }

  /** The four suit symbols. */
  predicate IsSuitChar(c: char) {
    c == '\U{2660}' || c == '\U{2665}' || c == '\U{2666}' || c == '\U{2663}'
  }

  /** `Display for Card`: the rank text immediately followed by the suit symbol. */
  function CardString(c: Card): (s: string)
    ensures |s| == |RankString(c.rank)| + 1
    ensures s[..|s| - 1] == RankString(c.rank) && s[|s| - 1..] == SuitString(c.suit)
  {
    RankString(c.rank) + SuitString(c.suit)
  }

  /** The suit symbol is the last character of a card's text and appears nowhere else in it. */
  lemma CardStringShape(c: Card)
    ensures IsSuitChar(CardString(c)[|CardString(c)| - 1])
    ensures forall k :: 0 <= k < |CardString(c)| - 1 ==>
      !IsSuitChar(CardString(c)[k]) && CardString(c)[k] != ',' && CardString(c)[k] != ' '
  {
    var s := CardString(c);
    assert s == RankString(c.rank) + SuitString(c.suit);
  }

  /** Distinct cards render differently. */
  lemma CardStringInjective(a: Card, b: Card)
    ensures CardString(a) == CardString(b) ==> a == b
  {
    if CardString(a) == CardString(b) {
      RankStringInjective(a.rank, b.rank);
      SuitStringInjective(a.suit, b.suit);
    }
  }

  /** The card texts joined with ", " (the `map(..).collect().join(", ")` of both `Display`s). */
  function JoinCards(cs: seq<Card>): string {
    if cs == [] then ""
    else if |cs| == 1 then CardString(cs[0])
    else CardString(cs[0]) + ", " + JoinCards(cs[1..])
  }

  /** `"[" + joined card texts + "]"`: how a deck and a hand display. */
  function CardsString(cs: seq<Card>): (s: string)
    ensures |s| >= 2 && s[0] == '[' && s[|s| - 1] == ']'
    ensures s[1..|s| - 1] == JoinCards(cs)
  {
    "[" + JoinCards(cs) + "]"
  }

  /** The joined text of a list starts with the first card's text, whose suit symbol is the first
      suit symbol of the whole. */
  lemma JoinCardsFirstSuit(cs: seq<Card>)
    requires cs != []
    ensures var s, c := JoinCards(cs), CardString(cs[0]);
      0 < |c| <= |s| && s[..|c|] == c && FirstSuit(s) == |c| - 1
  {
    var s, c := JoinCards(cs), CardString(cs[0]);
    CardStringShape(cs[0]);
    if |cs| > 1 {
      assert s == c + ", " + JoinCards(cs[1..]);
    }
    assert s[..|c|] == c;
    forall k | 0 <= k < |c| ensures s[k] == c[k] {
      assert s[..|c|][k] == s[k];
    }
    FirstSuitAt(s, |c| - 1);
  }

  /** After the first card's text the joined text ends, for a single card, or goes on with `", "` and
      the joined text of the other cards. */
  lemma JoinCardsRest(cs: seq<Card>)
    requires cs != []
    ensures var s, n := JoinCards(cs), |CardString(cs[0])|;
      (|cs| == 1 <==> |s| == n) && (|cs| > 1 ==> s[n..n + 2] == ", " && s[n + 2..] == JoinCards(cs[1..]))
  {
    if |cs| > 1 {
      var c, rest := CardString(cs[0]), JoinCards(cs[1..]);
      assert JoinCards(cs) == c + ", " + rest;
      assert (c + ", " + rest)[|c|..|c| + 2] == ", " && (c + ", " + rest)[|c| + 2..] == rest;
    }
  }

  /** The position of the first suit symbol of `s`, if there is one. */
  function FirstSuit(s: string): (i: nat)
    ensures i <= |s|
    ensures i < |s| ==> IsSuitChar(s[i])
    ensures forall k :: 0 <= k < i ==> !IsSuitChar(s[k])
  {
    if s == [] then 0 else if IsSuitChar(s[0]) then 0 else 1 + FirstSuit(s[1..])
  }

  /** The joined text of a list of cards determines the list. */
  lemma {:induction false} JoinCardsInjective(a: seq<Card>, b: seq<Card>)
    requires JoinCards(a) == JoinCards(b)
    ensures a == b
    decreases |a|
  {
    if a == [] || b == [] {
      if a != [] {
        JoinCardsFirstSuit(a);
      } else if b != [] {
        JoinCardsFirstSuit(b);
      }
    } else {
      JoinCardsFirstSuit(a);
      JoinCardsFirstSuit(b);
      // both first texts end at the first suit symbol of the shared text
      CardStringInjective(a[0], b[0]);
      JoinCardsRest(a);
      JoinCardsRest(b);
      if |a| == 1 || |b| == 1 {
        assert |a| == 1 && |b| == 1;
      } else {
        JoinCardsInjective(a[1..], b[1..]);
        assert a == [a[0]] + a[1..] && b == [b[0]] + b[1..];
      }
    }
  }

  lemma FirstSuitAt(s: string, i: nat)
    requires i < |s| && IsSuitChar(s[i]) && forall k :: 0 <= k < i ==> !IsSuitChar(s[k])
    ensures FirstSuit(s) == i
  {
  }

  /** The rendering of a list of cards determines the list: a deck or a hand can be read back from its
      text. */
  lemma CardsStringInjective(a: seq<Card>, b: seq<Card>)
    ensures CardsString(a) == CardsString(b) ==> a == b
  {
    if CardsString(a) == CardsString(b) {
      JoinCardsInjective(a, b);
    }
  }
}
