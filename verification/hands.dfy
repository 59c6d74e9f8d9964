/**
  The hand: the grid of face-up cards every player sees, an ordered list of
  card identifiers.
*/
module Hands {
  import opened Seqs
  import opened Shuffling
  import opened Decks

  type Hand = seq<int>

  const InitialSize: nat := 12

  /** `Array.prototype.indexOf`: the first position of `c`, or -1. */
  function IndexOf(h: Hand, c: int): (i: int)
    ensures -1 <= i < |h|
    ensures i == -1 <==> c !in h
    ensures i >= 0 ==> h[i] == c && c !in h[..i]
    decreases |h|
  {
    if |h| == 0 then -1
    else if h[0] == c then 0
    else
      var j := IndexOf(h[1..], c);
      if j == -1 then -1
      else
        assert h[..j + 1] == [h[0]] + h[1..][..j];
        j + 1
  }

  /** Whether a card is on the grid. */
  function InHand(h: Hand, c: int): (b: bool)
    ensures b <==> c in h
  {
    IndexOf(h, c) != -1
  }

  /** Put a card at the end of the grid. */
  function AddCard(h: Hand, c: int): (r: Hand)
    ensures |r| == |h| + 1
    ensures multiset(r) == multiset(h) + multiset{c}
    ensures r[..|h|] == h && r[|h|] == c
  {
    h + [c]
  }

  /** Remove the first occurrence of a card; no change when it is absent. */
  function RemoveCard(h: Hand, c: int): (r: Hand)
    ensures c !in h ==> r == h
    ensures c in h ==> exists i :: 0 <= i < |h| && h[i] == c && c !in h[..i] && r == h[..i] + h[i + 1..]
    ensures multiset(r) == multiset(h) - multiset{c}
  {
    var i := IndexOf(h, c);
    if i == -1 then
      assert multiset(h)[c] == 0;
      h
    else
      assert h == h[..i] + [c] + h[i + 1..];
      h[..i] + h[i + 1..]
  }

  /** Deleting one position of a sequence without repeats keeps it without
      repeats and loses exactly the value at that position. */
  lemma DeleteAtDistinct(h: Hand, i: int)
    requires Distinct(h) && 0 <= i < |h|
    ensures Distinct(h[..i] + h[i + 1..])
    ensures forall x :: x in h[..i] + h[i + 1..] <==> x in h && x != h[i]
  {
    var r := h[..i] + h[i + 1..];
    assert Distinct(r) by {
      forall p, q | 0 <= p < q < |r| ensures r[p] != r[q] {
        assert r[p] == h[if p < i then p else p + 1];
        assert r[q] == h[if q < i then q else q + 1];
      }
    }
    forall x ensures x in r <==> x in h && x != h[i] {
      if x in r {
        var k :| 0 <= k < |r| && r[k] == x;
        assert h[if k < i then k else k + 1] == x;
      }
      if x in h && x != h[i] {
        var k :| 0 <= k < |h| && h[k] == x;
        if k < i {
          assert r[k] == x;
        } else {
          assert r[k - 1] == x;
        }
      }
    }
  }

  /** On a grid without repeats, removal takes exactly that card away. */
  lemma RemoveCardFromDistinct(h: Hand, c: int)
    requires Distinct(h)
    ensures Distinct(RemoveCard(h, c))
    ensures forall x :: x in RemoveCard(h, c) <==> x in h && x != c
    ensures c in h ==> |RemoveCard(h, c)| == |h| - 1
  {
    var i := IndexOf(h, c);
    if i >= 0 {
      DeleteAtDistinct(h, i);
    }
  }

  /** The starting grid: twelve `GetCard` calls on the deck. */
  function Init(d: Deck): (r: Draws)
    requires d.Valid()
    ensures |r.cards| == InitialSize
    ensures r.deck.Valid() && r.deck.cards == d.cards
    ensures d.next + InitialSize <= 81 ==>
              r.cards == d.cards[d.next..d.next + InitialSize] && r.deck.Dealt() == d.Dealt() + r.cards
  {
    var r := DrawMany(d, InitialSize);
    if d.next + InitialSize <= 81 then
      DrawsWithinDeck(d, InitialSize);
      r
    else
      r
  }

  /** Re-order the grid with the server's swap shuffle. */
  function ShuffleCards(h: Hand, picks: seq<int>): (r: Hand)
    requires ValidPicks(picks, |h|)
    ensures multiset(r) == multiset(h)
    ensures forall c :: c in r <==> c in h
  {
    var r := Shuffle(h, picks);
    assert forall c :: c in r <==> c in multiset(r);
    assert forall c :: c in h <==> c in multiset(h);
    r
  }
}
