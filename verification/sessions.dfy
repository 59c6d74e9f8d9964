/**
  The game session: one deck, one grid and one player registry, and the
  state changes behind each request handler as atomic transitions. Replies
  are the values the handlers send back; the broadcasts that follow them
  are not modelled.
*/
module Sessions {
  import opened Seqs
  import opened Shuffling
  import opened Decks
  import opened Hands
  import opened Validator
  import opened Players
  import opened Login

  datatype Session = Session(deck: Deck, hand: Hand, players: PlayerList)

  /** The session after a request and the boolean the handler replies with. */
  datatype Step = Step(session: Session, reply: bool)

  /**
    What every reachable session satisfies: the deck is a permutation with a
    cursor, the grid holds no card twice and only cards already dealt, and
    the registry has unique, non-empty, filtered names.
  */
  predicate Inv(s: Session)
  {
    && s.deck.Valid()
    && Distinct(s.hand)
    && (forall c :: c in s.hand ==> c in s.deck.Dealt())
    && Registered(s.players)
  }

  /** Server start: shuffle the deck, deal twelve cards, no players yet. */
  function Start(picks: seq<int>): (s: Session)
    requires ValidPicks(picks, 81)
    ensures Inv(s)
    ensures |s.hand| == InitialSize && s.hand == s.deck.Dealt()
    ensures forall c :: c in s.hand ==> 1 <= c <= 81
    ensures s.players == []
  {
    var d := NewDeck(picks);
    var init := Init(d);
    assert d.Dealt() == [];
    assert init.cards == init.deck.Dealt();
    DealtCardsDistinct(init.deck);
    assert Registered([]);
    var s := Session(init.deck, init.cards, []);
    assert Distinct(s.hand) && forall c :: c in s.hand ==> c in s.deck.Dealt();
    s
  }

  /** A grid refilled from the deck, and the deck afterwards. */
  datatype Refill = Refill(deck: Deck, hand: Hand)

  /** The `card > 0` test and `addCard` call of the refill loop, applied to
      the drawn cards in order. */
  function AddEach(h: Hand, cs: seq<int>): (r: Hand)
    ensures r == h + Positive(cs)
    decreases |cs|
  {
    if |cs| == 0 then h
    else if cs[0] > 0 then
      var r := AddEach(AddCard(h, cs[0]), cs[1..]);
      assert Positive(cs) == [cs[0]] + Positive(cs[1..]);
      assert (h + [cs[0]]) + Positive(cs[1..]) == h + ([cs[0]] + Positive(cs[1..]));
      r
    else
      AddEach(h, cs[1..])
  }

  /** `addCards`: three `getCard` calls; the non-zero cards go to the end of
      the grid. */
  function AddCards(d: Deck, h: Hand): (r: Refill)
    requires d.Valid()
    ensures r.deck.Valid() && r.deck.cards == d.cards
    ensures r.deck.next == Min(d.next + 3, 81)
    ensures r.hand == h + d.cards[d.next..r.deck.next]
    ensures |h| <= |r.hand| <= |h| + 3
    ensures d.next + 3 <= 81 ==> |r.hand| == |h| + 3
  {
    var draws := DrawMany(d, 3);
    Refill(draws.deck, AddEach(h, draws.cards))
  }

  /** A refill keeps the grid free of repeats and made of dealt cards, and
      the cards it adds were never dealt before. */
  lemma AddCardsFresh(d: Deck, h: Hand)
    requires d.Valid() && Distinct(h)
    requires forall c :: c in h ==> c in d.Dealt()
    ensures var r := AddCards(d, h);
            && Distinct(r.hand)
            && (forall c :: c in r.hand ==> c in r.deck.Dealt())
            && (forall c :: c in r.hand ==> c in h || c !in d.Dealt())
  {
    var r := AddCards(d, h);
    var added := d.cards[d.next..r.deck.next];
    DrawManyFresh(d, 3);
    assert added == Positive(DrawMany(d, 3).cards);
    assert r.hand == h + added;
    forall i, j | 0 <= i < j < |r.hand| ensures r.hand[i] != r.hand[j] {
      if j < |h| {
        assert r.hand[i] == h[i] && r.hand[j] == h[j];
      } else if i >= |h| {
        assert r.hand[i] == added[i - |h|] && r.hand[j] == added[j - |h|];
      } else {
        assert r.hand[i] == h[i] && r.hand[j] == added[j - |h|];
        assert r.hand[j] !in d.Dealt();
      }
    }
    assert r.deck.Dealt() == d.Dealt() + added;
  }

  /** Taking three values out of a multiset one at a time takes them out
      together. */
  lemma MinusThree(m: multiset<int>, a: int, b: int, c: int)
    ensures m - multiset{a} - multiset{b} - multiset{c} == m - multiset{a, b, c}
  {
    var l := m - multiset{a} - multiset{b} - multiset{c};
    var r := m - multiset{a, b, c};
    forall x ensures l[x] == r[x] {
      var k := (if x == a then 1 else 0) + (if x == b then 1 else 0) + (if x == c then 1 else 0);
      assert multiset{a, b, c}[x] == k;
    }
  }

  /** `removeCards`: remove each claimed card from the grid in turn. */
  function RemoveCards(h: Hand, t: Claim): (r: Hand)
    ensures multiset(r) == multiset(h) - multiset{t.first, t.second, t.third}
  {
    var h1 := RemoveCard(h, t.first);
    var h2 := RemoveCard(h1, t.second);
    var h3 := RemoveCard(h2, t.third);
    MinusThree(multiset(h), t.first, t.second, t.third);
    h3
  }

  /** On a grid without repeats, removing a claim of three distinct cards on
      the grid takes away exactly those three. */
  lemma RemoveCardsFromDistinct(h: Hand, t: Claim)
    requires Distinct(h)
    requires NumbersOk(t) && CardsInHand(t, h)
    ensures Distinct(RemoveCards(h, t))
    ensures forall x :: x in RemoveCards(h, t) <==> x in h && x !in ClaimCards(t)
    ensures |RemoveCards(h, t)| == |h| - 3
  {
    var h1 := RemoveCard(h, t.first);
    RemoveCardFromDistinct(h, t.first);
    assert t.first in h;
    assert t.second in h1 && t.third in h1;
    var h2 := RemoveCard(h1, t.second);
    RemoveCardFromDistinct(h1, t.second);
    assert t.third in h2;
    var h3 := RemoveCard(h2, t.third);
    RemoveCardFromDistinct(h2, t.third);
    assert h3 == RemoveCards(h, t);
    forall x ensures x in h3 <==> x in h && x !in ClaimCards(t) {
      assert x in h3 <==> x in h2 && x != t.third;
      assert x in h2 <==> x in h1 && x != t.second;
      assert x in h1 <==> x in h && x != t.first;
      assert x in ClaimCards(t) <==> x == t.first || x == t.second || x == t.third;
    }
  }

  /** The accepted-claim transition shared by both versions of submit-set:
      remove the three cards, then refill from the deck. */
  function TakeClaim(s: Session, t: Claim): (r: Refill)
    requires s.deck.Valid()
    ensures r.deck.Valid() && r.deck.cards == s.deck.cards
    ensures r.deck.next == Min(s.deck.next + 3, 81)
    ensures r.hand == RemoveCards(s.hand, t) + s.deck.cards[s.deck.next..r.deck.next]
  {
    AddCards(s.deck, RemoveCards(s.hand, t))
  }

  /**
    `processSubmitSet` as written: the claim is checked and the cards moved
    before `updateScore` is reached, and `updateScore` throws for an id that
    is not on the list; the handler then replies false, but the grid and deck
    changes stay.
  */
  function SubmitSetAsWritten(s: Session, id: int, t: Claim): (r: Step)
    requires s.deck.Valid()
    ensures !IsSet(t, s.hand) ==> r == Step(s, false)
    ensures IsSet(t, s.hand) && !OnList(s.players, id) ==>
              && !r.reply && r.session.players == s.players
              && r.session.deck.cards == s.deck.cards
              && r.session.deck.next == Min(s.deck.next + 3, 81)
              && r.session.hand == RemoveCards(s.hand, t) + s.deck.cards[s.deck.next..r.session.deck.next]
  {
    if IsSet(t, s.hand) then
      var moved := TakeClaim(s, t);
      if OnList(s.players, id) then
        Step(Session(moved.deck, moved.hand, UpdateScore(s.players, id)), true)
      else
        Step(Session(moved.deck, moved.hand, s.players), false)
    else
      Step(s, false)
  }

  /** The discrepancy: a valid claim sent with an unregistered id is answered
      "rejected", yet its three cards have left the grid. */
  lemma SubmitSetAsWrittenConsumesRejectedClaim(s: Session, id: int, t: Claim)
    requires Inv(s) && IsSet(t, s.hand) && !OnList(s.players, id)
    ensures !SubmitSetAsWritten(s, id, t).reply
    ensures t.first in s.hand && t.first !in SubmitSetAsWritten(s, id, t).session.hand
    ensures SubmitSetAsWritten(s, id, t).session != s
  {
    var h1 := RemoveCards(s.hand, t);
    RemoveCardsFromDistinct(s.hand, t);
    AddCardsFresh(s.deck, h1);
  }

  /** The opening session of an unshuffled deck: the grid is cards 1..12. */
  function UnshuffledOpening(): (s: Session)
    ensures Inv(s)
    ensures s.players == [] && |s.hand| == InitialSize
    ensures s.hand[0] == 1 && s.hand[1] == 2 && s.hand[2] == 3
  {
    var s := Session(Deck(FullDeck(), 12), FullDeck()[..12], []);
    FullDeckDistinct();
    assert s.hand == s.deck.Dealt();
    DealtCardsDistinct(s.deck);
    s
  }

  /** Start-up with every random draw 0 swaps element 0 with itself each
      time, so it deals the unshuffled opening. */
  lemma UnshuffledOpeningIsStart()
    ensures Start(seq(81, i => 0)) == UnshuffledOpening()
  {
    ZeroDrawsDealFullDeck();
    OpeningOfFullDeck();
  }

  /** All-zero draws leave the deck unshuffled. */
  lemma ZeroDrawsDealFullDeck()
    ensures ValidPicks(seq(81, i => 0), 81)
    ensures NewDeck(seq(81, i => 0)) == Deck(FullDeck(), 0)
  {
    var z := seq(81, i => 0);
    assert ValidPicks(z, 81);
    SwapAllZeros(FullDeck(), z);
  }

  /** From the unshuffled deck, the opening grid is cards 1 to 12. */
  lemma OpeningOfFullDeck()
    ensures Deck(FullDeck(), 0).Valid()
    ensures Init(Deck(FullDeck(), 0)) == Draws(FullDeck()[..12], Deck(FullDeck(), 12))
  {
    var d := Deck(FullDeck(), 0);
    var init := Init(d);
    assert init.cards == FullDeck()[..12];
    assert |init.deck.Dealt()| == 12;
  }

  /** A concrete instance: cards 1, 2, 3 (counts 1, 2, 3; color, shape and
      fill all 1) lie on the opening grid of an unshuffled deck, and are
      claimed with id 1 before anyone has logged in. */
  lemma SubmitSetAsWrittenExample()
    ensures var s := UnshuffledOpening();
            var r := SubmitSetAsWritten(s, 1, Claim(1, 2, 3));
            && IsSet(Claim(1, 2, 3), s.hand)
            && !r.reply && 1 in s.hand && 1 !in r.session.hand
  {
    var s := UnshuffledOpening();
    assert 1 in s.hand && 2 in s.hand && 3 in s.hand;
    AlignedClaimIsSet(1, s.hand);
    SubmitSetAsWrittenConsumesRejectedClaim(s, 1, Claim(1, 2, 3));
  }

  /**
    Submit-set with the id checked before anything changes: an accepted claim
    removes the three cards, refills from the deck and gives the claimer
    three points; any rejection leaves the session unchanged.
  */
  function SubmitSet(s: Session, id: int, t: Claim): (r: Step)
    requires s.deck.Valid()
    ensures r.session.deck.Valid()
    ensures !IsSet(t, s.hand) || !OnList(s.players, id) ==> r == Step(s, false)
    ensures IsSet(t, s.hand) && OnList(s.players, id) ==>
              && r.reply
              && |r.session.players| == |s.players|
              && r.session.players[id - 1].score == s.players[id - 1].score + 3
              && r.session.players[id - 1] == s.players[id - 1].(score := r.session.players[id - 1].score)
              && (forall j :: 0 <= j < |s.players| && j != id - 1 ==> r.session.players[j] == s.players[j])
    ensures IsSet(t, s.hand) && OnList(s.players, id) ==>
              && r.session.deck.cards == s.deck.cards
              && r.session.deck.next == Min(s.deck.next + 3, 81)
              && r.session.hand == RemoveCards(s.hand, t) + s.deck.cards[s.deck.next..r.session.deck.next]
  {
    if IsSet(t, s.hand) && OnList(s.players, id) then
      var moved := TakeClaim(s, t);
      Step(Session(moved.deck, moved.hand, UpdateScore(s.players, id)), true)
    else
      Step(s, false)
  }

  /** For a registered claimer the corrected handler and the original agree. */
  lemma SubmitSetAgreesWhenRegistered(s: Session, id: int, t: Claim)
    requires s.deck.Valid() && OnList(s.players, id)
    ensures SubmitSet(s, id, t) == SubmitSetAsWritten(s, id, t)
  {
  }

  /**
    The grid after an accepted claim: the three claimed cards are gone, every
    other card stays, only fresh cards are added, at most three of them, and
    the grid keeps its size while the deck has three cards left; the deck
    keeps its order and its cursor moves on by up to three.
  */
  lemma SubmitSetAccepted(s: Session, id: int, t: Claim)
    requires Inv(s) && IsSet(t, s.hand) && OnList(s.players, id)
    ensures var s' := SubmitSet(s, id, t).session;
            && (forall c :: c in ClaimCards(t) ==> c !in s'.hand)
            && (forall c :: c in s.hand && c !in ClaimCards(t) ==> c in s'.hand)
            && (forall c :: c in s'.hand && c !in s.hand ==> c !in s.deck.Dealt())
            && (s.deck.next + 3 <= 81 ==> |s'.hand| == |s.hand|)
            && |s.hand| - 3 <= |s'.hand| <= |s.hand|
            && s'.deck.cards == s.deck.cards && s'.deck.next == Min(s.deck.next + 3, 81)
            && TotalScore(s'.players) == TotalScore(s.players) + 3
  {
    var h1 := RemoveCards(s.hand, t);
    RemoveCardsFromDistinct(s.hand, t);
    AddCardsFresh(s.deck, h1);
    UpdateScoreAddsThree(s.players, id);
  }

  /** Once a claim is accepted, any claim sharing a card with it is
      rejected: of two overlapping claims at most one scores. */
  lemma OverlappingClaimRejected(s: Session, id: int, t: Claim, id2: int, t2: Claim, c: int)
    requires Inv(s) && IsSet(t, s.hand) && OnList(s.players, id)
    requires c in ClaimCards(t) && c in ClaimCards(t2)
    ensures !SubmitSet(SubmitSet(s, id, t).session, id2, t2).reply
  {
    ClaimedCardsLeaveGrid(s, id, t);
    ClaimOffGridRejected(SubmitSet(s, id, t).session, id2, t2, c);
  }

  /** The cards of an accepted claim are no longer on the grid. */
  lemma ClaimedCardsLeaveGrid(s: Session, id: int, t: Claim)
    requires Inv(s) && IsSet(t, s.hand) && OnList(s.players, id)
    ensures forall c :: c in ClaimCards(t) ==> c !in SubmitSet(s, id, t).session.hand
  {
    var h1 := RemoveCards(s.hand, t);
    RemoveCardsFromDistinct(s.hand, t);
    AddCardsFresh(s.deck, h1);
  }

  /** A claim naming a card that is not on the grid is rejected. */
  lemma ClaimOffGridRejected(s: Session, id: int, t: Claim, c: int)
    requires s.deck.Valid()
    requires c in ClaimCards(t) && c !in s.hand
    ensures SubmitSet(s, id, t) == Step(s, false)
  {
    assert !CardsInHand(t, s.hand);
  }

  /** The handler as written keeps the session invariant too: even when it
      answers false, the grid it leaves holds distinct dealt cards. */
  lemma SubmitSetAsWrittenKeepsInv(s: Session, id: int, t: Claim)
    requires Inv(s)
    ensures Inv(SubmitSetAsWritten(s, id, t).session)
  {
    if IsSet(t, s.hand) {
      var h1 := RemoveCards(s.hand, t);
      RemoveCardsFromDistinct(s.hand, t);
      AddCardsFresh(s.deck, h1);
      if OnList(s.players, id) {
        SameNamesStayRegistered(s.players, UpdateScore(s.players, id));
      }
    }
  }

  /** Submit-set keeps the session invariant. */
  lemma SubmitSetKeepsInv(s: Session, id: int, t: Claim)
    requires Inv(s)
    ensures Inv(SubmitSet(s, id, t).session)
  {
    if IsSet(t, s.hand) && OnList(s.players, id) {
      var h1 := RemoveCards(s.hand, t);
      RemoveCardsFromDistinct(s.hand, t);
      AddCardsFresh(s.deck, h1);
      SameNamesStayRegistered(s.players, UpdateScore(s.players, id));
    }
  }

  /** The action a passed vote triggers. */
  function Act(s: Session, f: VoteField, picks: seq<int>): (r: Session)
    requires s.deck.Valid()
    requires f == ShuffleVote ==> ValidPicks(picks, |s.hand|)
    ensures r.deck.Valid()
    ensures r.deck.cards == s.deck.cards && s.deck.next <= r.deck.next
    ensures f != RowVote ==> r.deck == s.deck
    ensures SameNamesAndScores(s.players, r.players)
    ensures forall j, g :: 0 <= j < |s.players| ==> Flag(r.players[j], g) == Flag(s.players[j], g)
    ensures f != EndVote ==> r.players == s.players
  {
    match f
    case RowVote =>
      var moved := AddCards(s.deck, s.hand);
      Session(moved.deck, moved.hand, s.players)
    case ShuffleVote => s.(hand := ShuffleCards(s.hand, picks))
    case EndVote => s.(players := SetWinner(s.players))
  }

  /**
    The shared body of add-row, shuffle and end-game: an unregistered id is
    refused; otherwise the caller's flag is set and, once at least half of
    the players have voted, the action runs and the flag is cleared for all.
  */
  function Vote(s: Session, id: int, f: VoteField, picks: seq<int>): (r: Step)
    requires s.deck.Valid()
    requires f == ShuffleVote ==> ValidPicks(picks, |s.hand|)
    ensures r.session.deck.Valid()
    ensures r.session.deck.cards == s.deck.cards && s.deck.next <= r.session.deck.next
    ensures f != RowVote ==> r.session.deck == s.deck
    ensures !OnList(s.players, id) ==> r == Step(s, false)
    ensures OnList(s.players, id) ==> r.reply && |r.session.players| == |s.players|
    ensures OnList(s.players, id) && !IsVoteOk(CastVote(s.players, id, f), f) ==>
              && r.session == s.(players := CastVote(s.players, id, f))
              && Flag(r.session.players[id - 1], f)
              && VoteCount(r.session.players, f) >= VoteCount(s.players, f)
    ensures SameNamesAndScores(s.players, r.session.players)
    ensures OnList(s.players, id) && IsVoteOk(CastVote(s.players, id, f), f) ==>
              forall j :: 0 <= j < |s.players| ==> !Flag(r.session.players[j], f)
    ensures forall j, g :: 0 <= j < |s.players| && g != f ==>
              Flag(r.session.players[j], g) == Flag(s.players[j], g)
    ensures f != EndVote ==>
              forall j :: 0 <= j < |s.players| ==> r.session.players[j].winner == s.players[j].winner
  {
    if !OnList(s.players, id) then Step(s, false)
    else
      var voted := s.(players := CastVote(s.players, id, f));
      CastVoteCount(s.players, id, f);
      if IsVoteOk(voted.players, f) then
        var acted := Act(voted, f, picks);
        PassedVoteKeepsNamesAndScores(s, id, f, picks);
        PassedVoteKeepsOtherFlags(s, id, f, picks);
        Step(acted.(players := ResetVote(acted.players, f)), true)
      else
        Step(voted, true)
  }

  /** The vote, the action of a passed vote and the reset after it keep
      every player's name and score. */
  lemma PassedVoteKeepsNamesAndScores(s: Session, id: int, f: VoteField, picks: seq<int>)
    requires s.deck.Valid() && OnList(s.players, id)
    requires f == ShuffleVote ==> ValidPicks(picks, |s.hand|)
    ensures var voted := s.(players := CastVote(s.players, id, f));
            SameNamesAndScores(s.players, ResetVote(Act(voted, f, picks).players, f))
  {
    var voted := s.(players := CastVote(s.players, id, f));
    var acted := Act(voted, f, picks);
    SameNamesAndScoresTrans(s.players, voted.players, acted.players);
    SameNamesAndScoresTrans(s.players, acted.players, ResetVote(acted.players, f));
  }

  /** A passed vote leaves the votes for the other two actions as they were,
      and only a passed end-game vote touches the winner flags. */
  lemma PassedVoteKeepsOtherFlags(s: Session, id: int, f: VoteField, picks: seq<int>)
    requires s.deck.Valid() && OnList(s.players, id)
    requires f == ShuffleVote ==> ValidPicks(picks, |s.hand|)
    ensures var r := ResetVote(Act(s.(players := CastVote(s.players, id, f)), f, picks).players, f);
            && |r| == |s.players|
            && (forall j, g :: 0 <= j < |s.players| && g != f ==> Flag(r[j], g) == Flag(s.players[j], g))
            && (f != EndVote ==> forall j :: 0 <= j < |s.players| ==> r[j].winner == s.players[j].winner)
  {
    var voted := CastVote(s.players, id, f);
    var acted := Act(s.(players := voted), f, picks).players;
    assert forall j, g :: 0 <= j < |s.players| && g != f ==> Flag(acted[j], g) == Flag(voted[j], g);
  }

  /** `processAddRow`: when the vote passes, the cards just dealt are appended
      to the grid (up to three, fewer once the deck runs out). */
  function AddRow(s: Session, id: int): (r: Step)
    requires s.deck.Valid()
    ensures r.session.deck.Valid()
    ensures r.session.deck.cards == s.deck.cards && s.deck.next <= r.session.deck.next
    ensures SameNamesAndScores(s.players, r.session.players)
    ensures !OnList(s.players, id) ==> r == Step(s, false)
    ensures OnList(s.players, id) && IsVoteOk(CastVote(s.players, id, RowVote), RowVote) ==>
              && r.session.deck.next == Min(s.deck.next + 3, 81)
              && r.session.hand == s.hand + s.deck.cards[s.deck.next..r.session.deck.next]
              && VoteCount(r.session.players, RowVote) == 0
    ensures forall j, g :: 0 <= j < |s.players| && g != RowVote ==>
              Flag(r.session.players[j], g) == Flag(s.players[j], g)
    ensures forall j :: 0 <= j < |s.players| ==> r.session.players[j].winner == s.players[j].winner
  {
    var r := Vote(s, id, RowVote, []);
    if OnList(s.players, id) && IsVoteOk(CastVote(s.players, id, RowVote), RowVote) then
      ResetVoteClears(Act(s.(players := CastVote(s.players, id, RowVote)), RowVote, []).players, RowVote);
      r
    else
      r
  }

  /** `processShuffle`: when the vote passes, the grid is re-ordered with the
      given random draws; the same cards stay on it. */
  function ShuffleRequest(s: Session, id: int, picks: seq<int>): (r: Step)
    requires s.deck.Valid()
    requires ValidPicks(picks, |s.hand|)
    ensures !OnList(s.players, id) ==> r == Step(s, false)
    ensures SameNamesAndScores(s.players, r.session.players)
    ensures multiset(r.session.hand) == multiset(s.hand) && r.session.deck == s.deck
    ensures OnList(s.players, id) && IsVoteOk(CastVote(s.players, id, ShuffleVote), ShuffleVote) ==>
              r.session.hand == Shuffle(s.hand, picks)
    ensures forall j, g :: 0 <= j < |s.players| && g != ShuffleVote ==>
              Flag(r.session.players[j], g) == Flag(s.players[j], g)
    ensures forall j :: 0 <= j < |s.players| ==> r.session.players[j].winner == s.players[j].winner
  {
    Vote(s, id, ShuffleVote, picks)
  }

  /** `processEndGame`: when the vote passes, exactly the first player with
      the top score becomes the winner. */
  function EndGame(s: Session, id: int): (r: Step)
    requires s.deck.Valid()
    ensures !OnList(s.players, id) ==> r == Step(s, false)
    ensures r.session.deck == s.deck && r.session.hand == s.hand
    ensures SameNamesAndScores(s.players, r.session.players)
    ensures OnList(s.players, id) && IsVoteOk(CastVote(s.players, id, EndVote), EndVote) ==>
              forall j :: 0 <= j < |s.players| ==>
                (r.session.players[j].winner <==> IsFirstMax(s.players, j))
    ensures forall j, g :: 0 <= j < |s.players| && g != EndVote ==>
              Flag(r.session.players[j], g) == Flag(s.players[j], g)
  {
    var r := Vote(s, id, EndVote, []);
    if OnList(s.players, id) then
      var voted := CastVote(s.players, id, EndVote);
      assert forall j :: 0 <= j < |s.players| ==> voted[j].score == s.players[j].score;
      assert forall j :: IsFirstMax(voted, j) <==> IsFirstMax(s.players, j);
      r
    else
      r
  }

  /** A passed add-row vote keeps the session invariant. */
  lemma RowActKeepsInv(s: Session, picks: seq<int>)
    requires Inv(s)
    ensures Inv(Act(s, RowVote, picks))
  {
    AddCardsFresh(s.deck, s.hand);
  }

  /** A passed shuffle vote keeps the session invariant. */
  lemma ShuffleActKeepsInv(s: Session, picks: seq<int>)
    requires Inv(s) && ValidPicks(picks, |s.hand|)
    ensures Inv(Act(s, ShuffleVote, picks))
  {
    var acted := Act(s, ShuffleVote, picks);
    PermutationKeepsDistinct(acted.hand, s.hand);
    assert forall c :: c in acted.hand ==> c in multiset(s.hand);
  }

  /** Changing vote or winner flags keeps the session invariant. */
  lemma FlagsKeepInv(s: Session, ps: PlayerList)
    requires Inv(s)
    requires |ps| == |s.players| && forall j :: 0 <= j < |ps| ==> ps[j].name == s.players[j].name
    ensures Inv(s.(players := ps))
  {
    SameNamesStayRegistered(s.players, ps);
  }

  /** A passed vote's action followed by the reset keeps the invariant. */
  lemma PassedVoteKeepsInv(s: Session, f: VoteField, picks: seq<int>)
    requires Inv(s)
    requires f == ShuffleVote ==> ValidPicks(picks, |s.hand|)
    ensures var acted := Act(s, f, picks);
            Inv(acted.(players := ResetVote(acted.players, f)))
  {
    var acted := Act(s, f, picks);
    match f
    case RowVote =>
      RowActKeepsInv(s, picks);
    case ShuffleVote =>
      ShuffleActKeepsInv(s, picks);
    case EndVote =>
      FlagsKeepInv(s, acted.players);
    FlagsKeepInv(acted, ResetVote(acted.players, f));
  }

  /** Every vote action keeps the session invariant. */
  lemma VoteKeepsInv(s: Session, id: int, f: VoteField, picks: seq<int>)
    requires Inv(s)
    requires f == ShuffleVote ==> ValidPicks(picks, |s.hand|)
    ensures Inv(Vote(s, id, f, picks).session)
  {
    if OnList(s.players, id) {
      var voted := s.(players := CastVote(s.players, id, f));
      FlagsKeepInv(s, voted.players);
      PassedVoteKeepsInv(voted, f, picks);
    }
  }

  /** A card that has been dealt and has left the grid never comes back,
      whatever request follows. */
  lemma GoneCardsStayGone(s: Session, c: int, id: int, t: Claim, f: VoteField, picks: seq<int>)
    requires Inv(s) && c in s.deck.Dealt() && c !in s.hand
    requires f == ShuffleVote ==> ValidPicks(picks, |s.hand|)
    ensures c !in SubmitSet(s, id, t).session.hand && c in SubmitSet(s, id, t).session.deck.Dealt()
    ensures c !in Vote(s, id, f, picks).session.hand && c in Vote(s, id, f, picks).session.deck.Dealt()
  {
    DealtGrows(s.deck, SubmitSet(s, id, t).session.deck);
    DealtGrows(s.deck, Vote(s, id, f, picks).session.deck);
    if IsSet(t, s.hand) && OnList(s.players, id) {
      var h1 := RemoveCards(s.hand, t);
      RemoveCardsFromDistinct(s.hand, t);
      AddCardsFresh(s.deck, h1);
    }
    if OnList(s.players, id) && IsVoteOk(CastVote(s.players, id, f), f) && f == RowVote {
      AddCardsFresh(s.deck, s.hand);
    }
  }

  /** A request a client can send: a login, a claim, or a vote for one of
      the shared actions (with the random draws a passing shuffle would use). */
  datatype Request =
    | LoginRequest(raw: string)
    | ClaimRequest(id: int, claim: Claim)
    | VoteRequest(id: int, field: VoteField, picks: seq<int>)

  /** The shuffle draws of a vote request fit the grid it will shuffle. */
  predicate Fits(s: Session, q: Request)
  {
    q.VoteRequest? && q.field == ShuffleVote ==> ValidPicks(q.picks, |s.hand|)
  }

  /** One request handled, with the corrected submit-set. */
  function Handle(s: Session, q: Request): (r: Session)
    requires s.deck.Valid() && Fits(s, q)
    ensures r.deck.Valid()
  {
    match q
    case LoginRequest(raw) => s.(players := Login.Login(s.players, raw).players)
    case ClaimRequest(id, t) => SubmitSet(s, id, t).session
    case VoteRequest(id, f, picks) => Vote(s, id, f, picks).session
  }

  /** Every request of a sequence has draws that fit the grid at its turn. */
  predicate AllFit(s: Session, qs: seq<Request>)
    requires s.deck.Valid()
    decreases |qs|
  {
    |qs| == 0 || (Fits(s, qs[0]) && AllFit(Handle(s, qs[0]), qs[1..]))
  }

  /** The session after handling a sequence of requests in order. */
  function Run(s: Session, qs: seq<Request>): (r: Session)
    requires s.deck.Valid() && AllFit(s, qs)
    ensures r.deck.Valid()
    decreases |qs|
  {
    if |qs| == 0 then s else Run(Handle(s, qs[0]), qs[1..])
  }

  /** One request keeps the invariant and keeps a gone card gone. */
  lemma HandleKeepsGone(s: Session, c: int, q: Request)
    requires Inv(s) && Fits(s, q) && c in s.deck.Dealt() && c !in s.hand
    ensures Inv(Handle(s, q))
    ensures c in Handle(s, q).deck.Dealt() && c !in Handle(s, q).hand
  {
    match q
    case LoginRequest(raw) =>
      LoginKeepsRegistered(s.players, raw);
    case ClaimRequest(id, t) =>
      SubmitSetKeepsInv(s, id, t);
      GoneCardsStayGone(s, c, id, t, RowVote, []);
    case VoteRequest(id, f, picks) =>
      VoteKeepsInv(s, id, f, picks);
      GoneCardsStayGone(s, c, id, Claim(0, 0, 0), f, picks);
  }

  /** A dealt card that has left the grid stays off it, and stays dealt,
      through any sequence of requests. */
  lemma {:induction false} GoneCardsStayGoneForever(s: Session, c: int, qs: seq<Request>)
    requires Inv(s) && AllFit(s, qs) && c in s.deck.Dealt() && c !in s.hand
    ensures c !in Run(s, qs).hand && c in Run(s, qs).deck.Dealt()
    decreases |qs|
  {
    if |qs| > 0 {
      HandleKeepsGone(s, c, qs[0]);
      GoneCardsStayGoneForever(Handle(s, qs[0]), c, qs[1..]);
    }
  }
}
