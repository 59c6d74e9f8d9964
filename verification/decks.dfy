/**
  The deck: a shuffled permutation of the 81 card identifiers and a cursor
  `next`. Cards are dealt from the cursor; once it reaches 81 every further
  request yields 0, "no card".
*/
module Decks {
  import opened Seqs
  import opened Shuffling

  /** The unshuffled deck 1, 2, ..., 81 the constructor starts from. */
  function FullDeck(): (r: seq<int>)
    ensures |r| == 81
    ensures forall i :: 0 <= i < 81 ==> r[i] == i + 1
  {
    seq(81, i => i + 1)
  }

  lemma FullDeckDistinct()
    ensures Distinct(FullDeck())
    ensures forall c :: c in FullDeck() <==> 1 <= c <= 81
  {
    var f := FullDeck();
    forall c | 1 <= c <= 81 ensures c in f {
      assert f[c - 1] == c;
    }
  }

  datatype Deck = Deck(cards: seq<int>, next: nat)
  {
    /** The cards are a permutation of 1..81 and the cursor is within them. */
    predicate Valid()
    {
      |cards| == 81 && multiset(cards) == multiset(FullDeck()) && next <= 81
    }

    /** The cards dealt so far, in dealing order. */
    function Dealt(): (r: seq<int>)
      requires Valid()
      ensures |r| == next
    {
      cards[..next]
    }

    /** The cards still to be dealt. */
    function Remaining(): (r: seq<int>)
      requires Valid()
      ensures |r| == 81 - next
    {
      cards[next..]
    }
  }

  /** A valid deck holds every card exactly once. */
  lemma ValidDeckIsPermutation(d: Deck)
    requires d.Valid()
    ensures Distinct(d.cards)
    ensures forall c :: c in d.cards <==> 1 <= c <= 81
  {
    FullDeckDistinct();
    PermutationKeepsDistinct(d.cards, FullDeck());
    forall c ensures c in d.cards <==> 1 <= c <= 81 {
      assert c in d.cards <==> c in multiset(d.cards);
      assert c in FullDeck() <==> c in multiset(FullDeck());
    }
  }

  /** A card already dealt is never among the cards still to come. */
  lemma DealtAndRemainingDisjoint(d: Deck, c: int)
    requires d.Valid()
    ensures c in d.Dealt() ==> c !in d.Remaining()
  {
    ValidDeckIsPermutation(d);
    if c in d.Dealt() {
      var i :| 0 <= i < d.next && d.Dealt()[i] == c;
      forall j | 0 <= j < |d.Remaining()| ensures d.Remaining()[j] != c {
        assert d.Remaining()[j] == d.cards[d.next + j];
        assert d.cards[i] == c;
      }
    }
  }

  /** Dealing further only extends the dealt prefix: a card once dealt
      stays dealt. */
  lemma DealtGrows(d: Deck, e: Deck)
    requires d.Valid() && e.Valid() && e.cards == d.cards && d.next <= e.next
    ensures e.Dealt()[..d.next] == d.Dealt()
    ensures forall c :: c in d.Dealt() ==> c in e.Dealt()
  {
    forall c | c in d.Dealt() ensures c in e.Dealt() {
      var i :| 0 <= i < d.next && d.Dealt()[i] == c;
      assert e.Dealt()[i] == c;
    }
  }

  /** Deck construction: shuffle 1..81 with the given random draws. */
  function NewDeck(picks: seq<int>): (d: Deck)
    requires ValidPicks(picks, 81)
    ensures d.Valid() && d.next == 0
  {
    Deck(Shuffle(FullDeck(), picks), 0)
  }

  /** One card handed out, and the deck after dealing it. */
  datatype Draw = Draw(card: int, deck: Deck)

  /** Deal the card under the cursor, or 0 once all 81 are dealt. */
  function GetCard(d: Deck): (r: Draw)
    requires d.Valid()
    ensures r.deck.Valid() && r.deck.cards == d.cards
    ensures d.next < 81 ==>
              1 <= r.card <= 81 && r.card !in d.Dealt() &&
              r.deck.Dealt() == d.Dealt() + [r.card]
    ensures d.next == 81 ==> r.card == 0 && r.deck == d
  {
    if d.next < 81 then
      var c := d.cards[d.next];
      var d' := d.(next := d.next + 1);
      assert d'.Dealt() == d.Dealt() + [c];
      ValidDeckIsPermutation(d);
      assert c in d.cards;
      assert c == d.Remaining()[0];
      DealtAndRemainingDisjoint(d, c);
      Draw(c, d')
    else
      Draw(0, d)
  }

  /** An exhausted deck stays exhausted: every later request yields 0. */
  lemma ExhaustedDeckDealsNothing(d: Deck)
    requires d.Valid() && d.next == 81
    ensures GetCard(d).card == 0
    ensures GetCard(GetCard(d).deck) == GetCard(d)
  {
  }

  /** The dealt cards are never repeated: they are pairwise distinct. */
  lemma DealtCardsDistinct(d: Deck)
    requires d.Valid()
    ensures Distinct(d.Dealt())
    ensures forall c :: c in d.Dealt() ==> 1 <= c <= 81
  {
    ValidDeckIsPermutation(d);
    forall c | c in d.Dealt() ensures 1 <= c <= 81 {
      var i :| 0 <= i < d.next && d.Dealt()[i] == c;
      assert c in d.cards;
    }
  }

  /** Drop the "no card" zeros, as the refill does with `card > 0`. */
  function Positive(s: seq<int>): (r: seq<int>)
    ensures |r| <= |s|
    ensures forall c :: c in r <==> c in s && c > 0
  {
    if |s| == 0 then []
    else if s[0] <= 0 then Positive(s[1..])
    else [s[0]] + Positive(s[1..])
  }

  /** Several cards dealt in a row, and the deck afterwards. */
  datatype Draws = Draws(cards: seq<int>, deck: Deck)

  function Min(a: int, b: int): (m: int)
  {
    if a <= b then a else b
  }

  /** `k` successive `GetCard` calls. */
  function DrawMany(d: Deck, k: nat): (r: Draws)
    requires d.Valid()
    ensures |r.cards| == k
    ensures r.deck.Valid() && r.deck.cards == d.cards
    ensures r.deck.next == Min(d.next + k, 81)
    ensures forall i :: 0 <= i < k ==>
              r.cards[i] == (if d.next + i < 81 then d.cards[d.next + i] else 0)
    ensures Positive(r.cards) == d.cards[d.next..r.deck.next]
    decreases k
  {
    if k == 0 then Draws([], d)
    else
      var g := GetCard(d);
      var rest := DrawMany(g.deck, k - 1);
      var r := Draws([g.card] + rest.cards, rest.deck);
      assert r.cards[1..] == rest.cards;
      if d.next < 81 then
        DrawStepSlice(d, rest.cards, r.deck.next);
        r
      else
        assert ([0] + rest.cards)[1..] == rest.cards;
        r
  }

  /** The card under the cursor, put in front of the non-zero cards dealt
      after it, extends their slice of the deck by one position. */
  lemma DrawStepSlice(d: Deck, rest: seq<int>, hi: nat)
    requires d.Valid() && d.next < hi <= 81
    requires Positive(rest) == d.cards[d.next + 1..hi]
    ensures Positive([d.cards[d.next]] + rest) == d.cards[d.next..hi]
  {
    var c := d.cards[d.next];
    ValidDeckIsPermutation(d);
    assert c in d.cards;
    assert ([c] + rest)[1..] == rest;
    assert d.cards[d.next..hi] == [c] + d.cards[d.next + 1..hi];
  }

  /** Drawing no further than the last card deals exactly the next `k`
      cards of the deck. */
  lemma DrawsWithinDeck(d: Deck, k: nat)
    requires d.Valid() && d.next + k <= 81
    ensures DrawMany(d, k).cards == d.cards[d.next..d.next + k]
    ensures DrawMany(d, k).deck.Dealt() == d.Dealt() + DrawMany(d, k).cards
  {
    var r := DrawMany(d, k);
    var slice := d.cards[d.next..d.next + k];
    forall i | 0 <= i < k ensures r.cards[i] == slice[i] {
      assert slice[i] == d.cards[d.next + i];
    }
    assert r.cards == slice;
    SliceIsFresh(d, d.next + k);
  }

  /** The cards between two cursor positions are pairwise distinct, not
      among the cards dealt before them, and extend the dealt prefix. */
  lemma SliceIsFresh(d: Deck, hi: nat)
    requires d.Valid() && d.next <= hi <= 81
    ensures Distinct(d.cards[d.next..hi])
    ensures forall c :: c in d.cards[d.next..hi] ==> c !in d.Dealt() && 1 <= c <= 81
    ensures d.cards[..hi] == d.Dealt() + d.cards[d.next..hi]
  {
    var newCards := d.cards[d.next..hi];
    ValidDeckIsPermutation(d);
    forall i, j | 0 <= i < j < |newCards| ensures newCards[i] != newCards[j] {
      assert newCards[i] == d.cards[d.next + i] && newCards[j] == d.cards[d.next + j];
    }
    forall c | c in newCards ensures c !in d.Dealt() && 1 <= c <= 81 {
      var j :| 0 <= j < |newCards| && newCards[j] == c;
      assert c == d.Remaining()[j];
      assert c in d.cards;
      DealtAndRemainingDisjoint(d, c);
    }
  }

  /** The non-zero cards of a run of draws are fresh: pairwise distinct and
      not among the cards dealt before the run. */
  lemma DrawManyFresh(d: Deck, k: nat)
    requires d.Valid()
    ensures Distinct(Positive(DrawMany(d, k).cards))
    ensures forall c :: c in Positive(DrawMany(d, k).cards) ==> c !in d.Dealt() && 1 <= c <= 81
    ensures DrawMany(d, k).deck.Dealt() == d.Dealt() + Positive(DrawMany(d, k).cards)
  {
    var r := DrawMany(d, k);
    SliceIsFresh(d, r.deck.next);
  }
}
