# Set game server: a Dafny model of the game state

`SetGameServer.js` runs one shared game of Set for many players. The server
keeps one shuffled 81-card deck, one grid of face-up cards (the "hand") and
one list of registered players. Clients log in by name, claim sets of three
cards, and vote to add a row, re-shuffle the grid or end the game.

This project models that state and the state changes behind the request
handlers, as pure functions over immutable values. It covers:

- card identifiers 1..81 and their four attributes (count, color, shape,
  fill), computed with the source's ceiling-division formulas;
- the validator behind a claim (`numbersOk`, `cardsInHand`, `featureOk`,
  `setOk`, `isSet`);
- the deck with its dealing cursor (`Deck`, `getCard`);
- the grid (`Hand.init`, `addCard`, `removeCard`, `inHand`, `shuffleCards`);
- the player registry (`Player`, `updateScore`, `onList`, `getId`,
  `getPlayer`, `isVoteOk`, `resetVote`, `setWinner`);
- the helpers `addCards` and `removeCards`;
- the state logic of `processLogin`, `processSubmitSet`, `processAddRow`,
  `processShuffle`, `processEndGame` and `processLoginName`.

Submit-set, add-row, shuffle and end-game each become a function from a
`Session` (deck, grid, players) and the request's parsed arguments to the
next `Session` and the reply value. Login and login-name touch only the
player registry, so they become `Login.Login` and `Login.LoginName` over the
`PlayerList`.
`Math.random` becomes an explicit `picks` argument: the sequence of indices
the shuffle loop draws.

Modules, one per file:

| file | module | covers |
|---|---|---|
| `seqs.dfy` | `Seqs` | `Option`, `Distinct`, multiset facts |
| `cards.dfy` | `Cards` | card attributes, `featureOk` |
| `shuffling.dfy` | `Shuffling` | the swap-with-front `shuffle` |
| `decks.dfy` | `Decks` | `Deck`, `getCard`, dealing several cards |
| `hands.dfy` | `Hands` | the grid operations |
| `validator.dfy` | `Validator` | `isSet` and what it means |
| `players.dfy` | `Players` | `Player`, `PlayerList` and the votes |
| `login.dfy` | `Login` | name filtering, `processLogin`, `processLoginName` |
| `sessions.dfy` | `Sessions` | the session, `addCards`, `removeCards`, the handlers |

Behaviour of the code that the model keeps:

- The shuffle swaps a random element with element 0, `length` times. This is
  not a uniform shuffle. The model proves only that the result is a
  permutation; it says nothing about the distribution.
- With no players, `isVoteOk` is true (0 * 2 >= 0). The model keeps this
  (`Players.IsVoteOkMeaning`). No handler reaches it with an empty list,
  because the caller must be on the list first.
- `getId` returns 0 for an unknown name, and the model returns 0 as well.
- `Hand.init` puts whatever `getCard` returns on the grid, 0 included. At
  start-up the deck is full, so no 0 appears (`Sessions.Start`).
- `processSubmitSet` never checks that the id is registered (see Findings).
  The rest of the model uses the corrected `Sessions.SubmitSet`.

## Model

| member | source | states |
|---|---|---|
| Cards.CeilDiv | SetGameServer.js:366 | `Math.ceil(n / k)` of positive n and k is at least 1 |
| Cards.CeilDivIsCeiling | SetGameServer.js:366 | it is the ceiling: the unique r with (r-1)*k < n <= r*k |
| Cards.AttributesOf | SetGameServer.js:362-373 | every card's four attributes each lie in 1..3 |
| Cards.CountOf | SetGameServer.js:362-364 | `count(n)` lies in 1..3 |
| Cards.ColorOf | SetGameServer.js:365-367 | `color(n)` lies in 1..3 |
| Cards.ShapeOf | SetGameServer.js:368-370 | `shape(n)` lies in 1..3 |
| Cards.FillOf | SetGameServer.js:371-373 | `fill(n)` lies in 1..3 |
| Cards.AttributesAreDigits | SetGameServer.js:362-373 | count, color, shape and fill are the base-3 digits of n-1, plus one |
| Cards.CardOfAttributes | SetGameServer.js:362-373 | the card is recovered from its four attributes, so no two cards share all four |
| Cards.AttributesOfCard | SetGameServer.js:362-373 | every combination of four values in 1..3 is the attributes of some card in 1..81 |
| Cards.AttributesInjective | SetGameServer.js:362-373 | different cards differ in at least one attribute |
| Cards.FeatureOkMeaning | SetGameServer.js:375-383 | the feature test accepts exactly all-same or all-different |
| Cards.FeatureOk | SetGameServer.js:375-383 | `featureOk`: the if-cascade on three attribute values; its meaning is stated by `Cards.FeatureOkMeaning` |
| Cards.FeatureOkIffSumDivisible | SetGameServer.js:375-383 | for values in 1..3, the feature test accepts iff the sum is divisible by 3 |
| Validator.FeatureOkIffNotTwoValues | SetGameServer.js:375-383 | the feature test accepts iff the three values do not take exactly two distinct values |
| Validator.NumbersOk | SetGameServer.js:351-356 | `numbersOk`: all three numbers in 1..81 and pairwise different |
| Validator.CardsInHand | SetGameServer.js:358-360 | `cardsInHand`: `inHand` holds for each of the three cards |
| Validator.SetOk | SetGameServer.js:385-387 | `setOk`: `featureOk` holds for count, color, shape and fill |
| Validator.IsSet | SetGameServer.js:389 | `isSet` without `isTypeOk`: the three tests in the source's order; `Validator.IsSetCharacterization` states what it accepts |
| Validator.IsSetCharacterization | SetGameServer.js:351-389 | a claim is accepted iff it names three different cards in 1..81, all on the grid, and no attribute takes exactly two values among them |
| Validator.ThirdCardUnique | SetGameServer.js:362-387 | any two different cards are completed to a set by exactly one third card, different from both |
| Cards.AlignedTripleFormsSet | SetGameServer.js:362-387 | the cards 3k+1, 3k+2, 3k+3 have counts 1, 2, 3 and agree on color, shape and fill, so they form a set |
| Validator.AlignedClaimIsSet | SetGameServer.js:351-389 | a claim of such an aligned triple is accepted whenever its three cards are on the grid |
| Shuffling.SwapWithFront | SetGameServer.js:37-39 | one loop step swaps position k with position 0 and touches nothing else |
| Shuffling.SwapAll | SetGameServer.js:36-40 | any run of swap-with-front steps keeps the length and the multiset of elements |
| Shuffling.Shuffle | SetGameServer.js:34-41 | the shuffle keeps the length and the multiset of elements |
| Decks.NewDeck | SetGameServer.js:77-85 | a new deck is a permutation of 1..81 with its cursor at 0 |
| Decks.ValidDeckIsPermutation | SetGameServer.js:77-85 | a valid deck holds each card 1..81 exactly once |
| Decks.DealtAndRemainingDisjoint | SetGameServer.js:88-93 | a dealt card is not among the cards still to deal |
| Decks.GetCard | SetGameServer.js:88-93 | below 81 it deals a card not dealt before and advances the cursor; at 81 it returns 0 and changes nothing |
| Decks.ExhaustedDeckDealsNothing | SetGameServer.js:88-93 | once all 81 are dealt, every further call returns 0 and leaves the deck as it is |
| Decks.DealtCardsDistinct | SetGameServer.js:88-93 | the cards dealt so far are distinct and all in 1..81 |
| Decks.DealtGrows | SetGameServer.js:88-93 | dealing further only extends the dealt prefix, so a dealt card stays dealt |
| Decks.DrawMany | SetGameServer.js:113-115 | k calls return k values; the non-zero ones are exactly the next cards in deck order, and the cursor stops at 81 |
| Decks.DrawsWithinDeck | SetGameServer.js:88-93 | while the deck lasts, k calls deal exactly the next k cards in deck order and append them to the dealt prefix |
| Decks.DrawManyFresh | SetGameServer.js:317-323 | the non-zero cards of several calls are distinct, never dealt before, and extend the dealt prefix |
| Hands.IndexOf | SetGameServer.js:126 | `indexOf`: -1 iff the card is absent, else the position of its first occurrence |
| Hands.InHand | SetGameServer.js:138-140 | `inHand` is true exactly when the card is on the grid |
| Hands.AddCard | SetGameServer.js:120-122 | the card is appended at the end and the rest stays in order |
| Hands.RemoveCard | SetGameServer.js:125-129 | removes the first occurrence and keeps the others in order; an absent card changes nothing |
| Hands.RemoveCardFromDistinct | SetGameServer.js:125-129 | on a grid without repeats, removal takes exactly that card away and shortens the grid by one |
| Hands.Init | SetGameServer.js:111-117 | the opening grid has twelve entries; with twelve cards left they are the next twelve in deck order |
| Hands.ShuffleCards | SetGameServer.js:132-135 | shuffling the grid keeps exactly the same cards |
| Players.SetFlag | SetGameServer.js:463 | setting one vote flag leaves the other flags, the name, the score and the winner flag alone |
| Players.NewPlayer | SetGameServer.js:150-157 | the `Player` constructor: the given name, score 0, no votes, not the winner |
| Players.OnList | SetGameServer.js:186-188 | `onList`: 0 < id <= number of players |
| Players.GetPlayer | SetGameServer.js:201-208 | `getPlayer` finds a player exactly when `onList(id)` holds, and then it is the player at id-1 |
| Players.GetPlayerOfGetId | SetGameServer.js:191-208 | the id `getId` returns for a known name leads `getPlayer` to a player with that name; the 0 for an unknown name leads to none |
| Players.UpdateScore | SetGameServer.js:171-173 | the player at id-1 gains 3 points; nothing else changes |
| Players.UpdateScoreAddsThree | SetGameServer.js:171-173 | the total of all scores grows by exactly 3 |
| Players.GetIdFrom | SetGameServer.js:192-197 | the loop from position i returns the first later match, or 0 when none |
| Players.GetId | SetGameServer.js:191-198 | 0 iff no player has the name, else the 1-based position of the first player with it |
| Players.GetIdInverse | SetGameServer.js:191-198 | with unique names, looking up a player's name returns that player's id |
| Players.VoteCountIsVoters | SetGameServer.js:212-216 | the vote counter equals the number of players whose flag is set |
| Players.IsVoteOkMeaning | SetGameServer.js:211-218 | a vote passes iff voters are at least as many as non-voters; with no players it passes |
| Players.IsVoteOk | SetGameServer.js:211-218 | `isVoteOk`: the vote counter doubled is at least the number of players; `Players.IsVoteOkMeaning` states what it means |
| Players.CastVote | SetGameServer.js:461-463 | a vote sets the caller's flag and leaves every other player unchanged; nobody's other votes or winner flag change |
| Players.CastVoteCount | SetGameServer.js:461-465 | a vote adds the caller to the voters of that field only, and the count rises by one unless they had already voted |
| Players.CastVoteIdempotent | SetGameServer.js:461-463 | voting twice is the same as voting once |
| Players.ResetVote | SetGameServer.js:221-225 | every flag of the field is cleared; other flags, names, scores and winner flags are kept |
| Players.ResetVoteClears | SetGameServer.js:221-225 | after a reset nobody has voted for that field, and the other fields' voters are unchanged |
| Players.FirstMaxUnique | SetGameServer.js:232-237 | at most one position holds the first top score |
| Players.ScanHigh | SetGameServer.js:232-237 | the strict-greater scan ends on the first position with the top score, or -1 on an empty list |
| Players.WinnerIndex | SetGameServer.js:230-237 | the chosen index is the first position with the top score, or -1 on an empty list |
| Players.SetWinner | SetGameServer.js:229-247 | a player's winner flag is set iff it is the first with the top score; nothing else changes; an empty list is left as it is |
| Players.ExactlyOneWinner | SetGameServer.js:229-247 | on a non-empty list exactly one player is flagged winner |
| Login.FilterName | SetGameServer.js:284 | the filtered name has only `[A-Za-z0-9 ]`, keeps every allowed character as often as it occurs, and drops all others |
| Login.FilterNameConcat | SetGameServer.js:284 | filtering a concatenation filters each part |
| Login.FilterNameFixesClean | SetGameServer.js:284 | filtering leaves a name unchanged iff it is already clean |
| Login.FilterNameIdempotent | SetGameServer.js:284 | filtering twice is filtering once |
| Login.Login | SetGameServer.js:284-302 | an empty filtered name gets -1 and no change; a known name gets its first id and no change; a new name is appended and gets the new length; existing players are never disturbed |
| Login.LoginKeepsRegistered | SetGameServer.js:290-297 | names stay unique, non-empty and filtered after any login |
| Login.LoginIdempotent | SetGameServer.js:290-294 | logging in again with the same name returns the same id and adds nobody |
| Login.LoginIdsDistinguishNames | SetGameServer.js:290-299 | two names that filter differently never receive the same id |
| Login.LoginName | SetGameServer.js:596-606 | a name is returned iff `onList(id)`, and it is the name of player id |
| Login.LoginNameIsGetPlayerName | SetGameServer.js:596-606 | the login-name reply agrees with `getPlayer`: a name exactly when a player is found, and then that player's name |
| Login.LoginThenLoginName | SetGameServer.js:596-601 | the name looked up for a freshly returned id is the filtered login name |
| Sessions.Start | SetGameServer.js:250-252 | at start-up the grid is the first twelve cards dealt, all distinct and in 1..81, and nobody is registered |
| Sessions.AddEach | SetGameServer.js:319-321 | running `addCard` on each drawn card that passes `card > 0` appends exactly the positive cards, in order |
| Sessions.AddCards | SetGameServer.js:317-323 | the grid gains the next cards of the deck in order, three while three remain, fewer at the end |
| Sessions.AddCardsFresh | SetGameServer.js:317-323 | a refill keeps the grid free of repeats and adds only cards never dealt before |
| Sessions.RemoveCards | SetGameServer.js:392-396 | removing a claim takes one occurrence of each claimed card out of the grid |
| Sessions.RemoveCardsFromDistinct | SetGameServer.js:392-396 | for a valid claim on a grid without repeats, exactly the three claimed cards leave and the grid shrinks by three |
| Sessions.SubmitSetAsWritten | SetGameServer.js:419-437 | as written: a rejected claim changes nothing, but a valid claim with an unregistered id replies false after the grid has lost the claim and the deck has dealt up to three cards onto it |
| Sessions.SubmitSetAsWrittenConsumesRejectedClaim | SetGameServer.js:419-422 | for any valid claim with an unregistered id, the reply is false yet a claimed card has left the grid |
| Sessions.UnshuffledOpening | SetGameServer.js:111-117 | twelve cards dealt from an unshuffled deck give a session that keeps the invariant and whose grid starts with cards 1, 2, 3 |
| Shuffling.SwapAllZeros | SetGameServer.js:34-41 | when every random index is 0, each swap exchanges element 0 with itself and the array is unchanged |
| Sessions.UnshuffledOpeningIsStart | SetGameServer.js:77-85 | start-up whose random draws are all 0 deals exactly that unshuffled opening, so the session is reachable |
| Sessions.SubmitSetAsWrittenExample | SetGameServer.js:419-422 | cards 1, 2, 3 on the opening grid of an unshuffled deck, claimed by id 1 with nobody registered, are consumed and rejected |
| Sessions.SubmitSet | SetGameServer.js:419-430 | a rejected claim or unregistered id changes nothing and replies false; an accepted one replies true, gives only the claimer 3 points, and replaces the claim with the next cards of the deck, whose cursor moves on by up to three |
| Sessions.SubmitSetAgreesWhenRegistered | SetGameServer.js:419-430 | for a registered claimer the corrected and the as-written handlers agree |
| Sessions.SubmitSetAccepted | SetGameServer.js:419-422 | after an accepted claim the claimed cards are gone, every other card stays, at most three new cards arrive and they are undealt ones, the size holds while three cards remain, the deck keeps its order and advances by up to three, and total score grows by 3 |
| Sessions.TakeClaim | SetGameServer.js:420-421 | `removeCards` then `addCards`: the grid without the claim, followed by the next cards of the deck, with the cursor moved on by up to three |
| Sessions.ClaimedCardsLeaveGrid | SetGameServer.js:419-421 | the cards of an accepted claim are no longer on the grid |
| Sessions.ClaimOffGridRejected | SetGameServer.js:358-360 | a claim naming a card not on the grid is rejected and changes nothing |
| Sessions.OverlappingClaimRejected | SetGameServer.js:419-421 | after one claim is accepted, a second claim sharing a card with it is rejected |
| Sessions.SubmitSetAsWrittenKeepsInv | SetGameServer.js:419-437 | the handler as written also keeps the deck a permutation, the grid distinct and dealt, and the names unique, even when it consumes a claim and replies false |
| Sessions.SubmitSetKeepsInv | SetGameServer.js:419-422 | submit-set keeps the deck a permutation, the grid distinct and dealt, and the names unique |
| Sessions.Vote | SetGameServer.js:461-469 | an unregistered id changes nothing; a vote that does not pass only records the caller's vote (deck, grid and all other players unchanged); a passing vote runs the action and clears that field for everyone, while every player's votes for the other two fields survive and only an end-game vote touches the winner flags; no path changes a name or a score; the deck keeps its order and its cursor never moves back, and only add-row moves it |
| Sessions.Act | SetGameServer.js:465-468 | the action of a passed vote (`addCards`, `shuffleCards` at 512-514, `setWinner` at 556-558): the deck keeps its order and only add-row advances it; names, scores and votes are kept, and add-row and shuffle leave the player list exactly as it was |
| Sessions.AddRow | SetGameServer.js:461-469 | a passing row vote appends the next cards of the deck to the grid and clears the row votes; the shuffle and end votes and the winner flags are kept, and so are names and scores; the deck keeps its order and its cursor never moves back |
| Sessions.ShuffleRequest | SetGameServer.js:508-515 | the grid keeps exactly the same cards and the deck is untouched; a passing vote re-orders it with the given draws; the row and end votes, the winner flags, names and scores are kept |
| Sessions.EndGame | SetGameServer.js:553-559 | deck and grid are untouched, and so are names and scores; a passing vote flags as winner exactly the first player with the top score; the row and shuffle votes are kept |
| Sessions.PassedVoteKeepsOtherFlags | SetGameServer.js:221-225 | after a passed vote's action and `resetVote(field)`, every player's votes for the other fields are as before, and the winner flags are as before unless the vote was for end-game |
| Sessions.VoteKeepsInv | SetGameServer.js:461-469 | add-row, shuffle and end-game keep the session invariant |
| Sessions.GoneCardsStayGone | SetGameServer.js:419-421 | a dealt card that has left the grid is still off the grid, and still dealt, after a submit-set or a vote |
| Sessions.HandleKeepsGone | SetGameServer.js:284-469 | any one request (a login, a claim, or a vote) keeps the session invariant and keeps a gone card gone and dealt |
| Sessions.GoneCardsStayGoneForever | SetGameServer.js:284-469 | through any sequence of logins, claims and votes, a dealt card that has left the grid never returns to it |

## Left out

- HTTP handling, JSONP wrapping, `url.parse`, socket.io broadcasts (`updateHand`, `updateStatus`), chat and logging: I/O around the state changes.
- `isTypeOk` and the `parseInt` calls: a claim is taken as three integers and an id as an integer. In the vote and login-name handlers the id is whatever `parseInt` returns: a numeric prefix such as "2x" parses to 2, and anything else gives NaN, which fails `onList` and the login-name bounds test exactly as an integer off the list does (reply false from a vote, the string "Error" from login-name, which `LoginName`'s `None` stands for). `parseInt` never throws, so no state change is skipped. Of these handlers, only login reaches a `catch`, when the name is missing or not a string (next line). Submit-set never parses its id (`id = query.id`, the raw query string). A missing or non-numeric id sent with a valid claim reaches `updateScore` only after `removeCards` and `addCards` have run, so the grid and deck changes stay. That path is the off-list case of `Sessions.SubmitSetAsWritten`, where such an id is any integer outside 1..number of players.
- A missing `loginName` parameter makes `processLogin` throw and reply -1. The model takes the name as a string.
- `clientList` (IP address to id): written by login and never read by the modelled handlers.
- The `ndecks` argument of `Deck`: the constructor ignores it and always builds one 81-card deck.
- Shuffling.Shuffle: the permutation is modelled, not the probability distribution that `Math.random` induces.
- Scores are unbounded naturals. JavaScript numbers lose precision above 2^53, which no game reaches.
- Concurrency: Node runs each handler to completion, so each handler is modelled as one atomic step.

## Findings

| source | as written | input that shows it | evidently intended | confidence | as-written member | corrected member |
|---|---|---|---|---|---|---|
| SetGameServer.js:419-422 | `processSubmitSet` validates the claim, removes the cards and refills the grid, and only then calls `updateScore(id)`. For an id not on the list, `players[id - 1]` is undefined and `updateScore` throws. The handler replies false, but the grid and the deck have already changed. | cards 1, 2, 3 on the opening grid that start-up deals when every random draw is 0 (`Sessions.UnshuffledOpeningIsStart`), claimed with id 1 before anyone has logged in | check `onList(id)` first, as the vote handlers do, and reject without changing anything | high; not executed | Sessions.SubmitSetAsWritten (exhibited by Sessions.SubmitSetAsWrittenExample) | Sessions.SubmitSet |
