/**
  The player registry: an ordered list of players whose ids are their 1-based
  positions, with scores, one vote flag per shared action, and a winner flag.
*/
module Players {
  import opened Seqs

  /** The shared actions players vote on: add a row, shuffle, end the game. */
  datatype VoteField = RowVote | ShuffleVote | EndVote

  datatype Player = Player(name: string, score: nat, row: bool, shuffle: bool, end: bool, winner: bool)

  type PlayerList = seq<Player>

  /** A newly registered player: no points, no votes, not the winner. */
  function NewPlayer(name: string): (p: Player)
  {
    Player(name, 0, false, false, false, false)
  }

  /** The vote flag a player holds for `f`. */
  function Flag(p: Player, f: VoteField): (b: bool)
  {
    match f
    case RowVote => p.row
    case ShuffleVote => p.shuffle
    case EndVote => p.end
  }

  /** Set one vote flag, leaving the player otherwise unchanged. */
  function SetFlag(p: Player, f: VoteField, v: bool): (q: Player)
    ensures Flag(q, f) == v
    ensures forall g :: g != f ==> Flag(q, g) == Flag(p, g)
    ensures q.name == p.name && q.score == p.score && q.winner == p.winner
  {
    match f
    case RowVote => p.(row := v)
    case ShuffleVote => p.(shuffle := v)
    case EndVote => p.(end := v)
  }

  /** `onList`: the id names a registered player. */
  predicate OnList(ps: PlayerList, id: int)
  {
    0 < id <= |ps|
  }

  /** `getPlayer`: the player with the given id, or none exactly when the
      id is not on the list. */
  function GetPlayer(ps: PlayerList, id: int): (r: Option<Player>)
    ensures r.Some? <==> OnList(ps, id)
    ensures r.Some? ==> r.value in ps && r.value == ps[id - 1]
  {
    if id - 1 < 0 || id - 1 >= |ps| then None else Some(ps[id - 1])
  }

  /** Award the three points for an accepted set. */
  function UpdateScore(ps: PlayerList, id: int): (r: PlayerList)
    requires OnList(ps, id)
    ensures |r| == |ps|
    ensures r[id - 1].score == ps[id - 1].score + 3
    ensures r[id - 1] == ps[id - 1].(score := r[id - 1].score)
    ensures forall j :: 0 <= j < |ps| && j != id - 1 ==> r[j] == ps[j]
    ensures forall j :: 0 <= j < |ps| ==> r[j].name == ps[j].name
  {
    ps[id - 1 := ps[id - 1].(score := ps[id - 1].score + 3)]
  }

  /** The sum of all scores. */
  function TotalScore(ps: PlayerList): (t: nat)
  {
    if |ps| == 0 then 0 else TotalScore(ps[..|ps| - 1]) + ps[|ps| - 1].score
  }

  /** Every accepted set adds exactly three points to the table. */
  lemma {:induction false} UpdateScoreAddsThree(ps: PlayerList, id: int)
    requires OnList(ps, id)
    ensures TotalScore(UpdateScore(ps, id)) == TotalScore(ps) + 3
    decreases |ps|
  {
    var r := UpdateScore(ps, id);
    var n := |ps|;
    if id == n {
      assert r[..n - 1] == ps[..n - 1];
    } else {
      var p := ps[..n - 1];
      UpdateScoreAddsThree(p, id);
      assert r[..n - 1] == UpdateScore(p, id);
    }
  }

  /** The loop of `getId`, from position `i` on. */
  function GetIdFrom(ps: PlayerList, name: string, i: nat): (id: nat)
    requires i <= |ps|
    requires forall j :: 0 <= j < i ==> ps[j].name != name
    ensures id <= |ps|
    ensures id == 0 <==> forall j :: 0 <= j < |ps| ==> ps[j].name != name
    ensures id > 0 ==> ps[id - 1].name == name && forall j :: 0 <= j < id - 1 ==> ps[j].name != name
    decreases |ps| - i
  {
    if i == |ps| then 0
    else if ps[i].name == name then i + 1
    else GetIdFrom(ps, name, i + 1)
  }

  /** `getId`: the id of the first player with exactly this name, or 0. */
  function GetId(ps: PlayerList, name: string): (id: nat)
    ensures id <= |ps|
    ensures id == 0 <==> forall j :: 0 <= j < |ps| ==> ps[j].name != name
    ensures id > 0 ==> ps[id - 1].name == name && forall j :: 0 <= j < id - 1 ==> ps[j].name != name
  {
    GetIdFrom(ps, name, 0)
  }

  /** Looking up the id `getId` returns finds a player with that name, and
      an unknown name's 0 finds nobody. */
  lemma GetPlayerOfGetId(ps: PlayerList, name: string)
    ensures GetId(ps, name) > 0 ==>
              GetPlayer(ps, GetId(ps, name)).Some? && GetPlayer(ps, GetId(ps, name)).value.name == name
    ensures GetId(ps, name) == 0 ==> GetPlayer(ps, GetId(ps, name)) == None
  {
  }

  /** The same players in the same order, with the same names and scores;
      only vote and winner flags may differ. */
  predicate SameNamesAndScores(ps: PlayerList, qs: PlayerList)
  {
    |qs| == |ps| &&
    forall j :: 0 <= j < |ps| ==> qs[j].name == ps[j].name && qs[j].score == ps[j].score
  }

  /** Keeping names and scores composes. */
  lemma SameNamesAndScoresTrans(ps: PlayerList, qs: PlayerList, rs: PlayerList)
    requires SameNamesAndScores(ps, qs) && SameNamesAndScores(qs, rs)
    ensures SameNamesAndScores(ps, rs)
  {
  }

  /** No two registered players share a name. */
  predicate NamesUnique(ps: PlayerList)
  {
    forall i, j :: 0 <= i < j < |ps| ==> ps[i].name != ps[j].name
  }

  /** With unique names, `getId` and position are inverse to each other. */
  lemma GetIdInverse(ps: PlayerList, id: int)
    requires NamesUnique(ps) && OnList(ps, id)
    ensures GetId(ps, ps[id - 1].name) == id
  {
  }

  /** The number of players whose flag for `f` is set. */
  function VoteCount(ps: PlayerList, f: VoteField): (n: nat)
  {
    if |ps| == 0 then 0
    else VoteCount(ps[..|ps| - 1], f) + (if Flag(ps[|ps| - 1], f) then 1 else 0)
  }

  /** The positions (ids minus one) of the players who voted for `f`. */
  function Voters(ps: PlayerList, f: VoteField): (v: set<int>)
  {
    set j | 0 <= j < |ps| && Flag(ps[j], f)
  }

  /** The count is the number of distinct voters. */
  lemma {:induction false} VoteCountIsVoters(ps: PlayerList, f: VoteField)
    ensures VoteCount(ps, f) == |Voters(ps, f)|
    ensures VoteCount(ps, f) <= |ps|
    decreases |ps|
  {
    if |ps| > 0 {
      var n := |ps|;
      var p := ps[..n - 1];
      VoteCountIsVoters(p, f);
      if Flag(ps[n - 1], f) {
        assert Voters(ps, f) == Voters(p, f) + {n - 1};
      } else {
        assert Voters(ps, f) == Voters(p, f);
      }
      VotersBounded(p, f);
    }
  }

  lemma VotersBounded(ps: PlayerList, f: VoteField)
    ensures forall j :: j in Voters(ps, f) ==> 0 <= j < |ps|
  {
  }

  /** `isVoteOk`: at least half of the players voted for `f`. */
  predicate IsVoteOk(ps: PlayerList, f: VoteField)
  {
    VoteCount(ps, f) * 2 >= |ps|
  }

  /** The majority test compares voters with non-voters; with no players it
      holds vacuously. */
  lemma IsVoteOkMeaning(ps: PlayerList, f: VoteField)
    ensures IsVoteOk(ps, f) <==> |Voters(ps, f)| >= |ps| - |Voters(ps, f)|
    ensures |ps| == 0 ==> IsVoteOk(ps, f)
  {
    VoteCountIsVoters(ps, f);
  }

  /** A player casts a vote for `f`: only that player's flag is set. */
  function CastVote(ps: PlayerList, id: int, f: VoteField): (r: PlayerList)
    requires OnList(ps, id)
    ensures |r| == |ps|
    ensures r[id - 1] == SetFlag(ps[id - 1], f, true)
    ensures forall j :: 0 <= j < |ps| && j != id - 1 ==> r[j] == ps[j]
    ensures SameNamesAndScores(ps, r)
    ensures forall j, g :: 0 <= j < |ps| && g != f ==> Flag(r[j], g) == Flag(ps[j], g)
    ensures forall j :: 0 <= j < |ps| ==> r[j].winner == ps[j].winner
  {
    ps[id - 1 := SetFlag(ps[id - 1], f, true)]
  }

  /** A vote adds its caller to the voters; a repeated vote adds nobody. */
  lemma CastVoteCount(ps: PlayerList, id: int, f: VoteField)
    requires OnList(ps, id)
    ensures Voters(CastVote(ps, id, f), f) == Voters(ps, f) + {id - 1}
    ensures VoteCount(CastVote(ps, id, f), f) == VoteCount(ps, f) + (if Flag(ps[id - 1], f) then 0 else 1)
    ensures forall g :: g != f ==> Voters(CastVote(ps, id, f), g) == Voters(ps, g)
  {
    var r := CastVote(ps, id, f);
    assert Voters(r, f) == Voters(ps, f) + {id - 1};
    VoteCountIsVoters(ps, f);
    VoteCountIsVoters(r, f);
    if Flag(ps[id - 1], f) {
      assert Voters(ps, f) + {id - 1} == Voters(ps, f);
    }
    forall g | g != f ensures Voters(r, g) == Voters(ps, g) {
      assert forall k :: 0 <= k < |ps| ==> Flag(r[k], g) == Flag(ps[k], g);
    }
  }

  /** Voting twice is voting once. */
  lemma CastVoteIdempotent(ps: PlayerList, id: int, f: VoteField)
    requires OnList(ps, id)
    ensures CastVote(CastVote(ps, id, f), id, f) == CastVote(ps, id, f)
  {
  }

  /** `resetVote`: clear flag `f` of every player. */
  function ResetVote(ps: PlayerList, f: VoteField): (r: PlayerList)
    ensures |r| == |ps|
    ensures forall j :: 0 <= j < |ps| ==> !Flag(r[j], f)
    ensures forall j, g :: 0 <= j < |ps| && g != f ==> Flag(r[j], g) == Flag(ps[j], g)
    ensures forall j :: 0 <= j < |ps| ==>
              r[j].name == ps[j].name && r[j].score == ps[j].score && r[j].winner == ps[j].winner
    ensures SameNamesAndScores(ps, r)
  {
    seq(|ps|, j requires 0 <= j < |ps| => SetFlag(ps[j], f, false))
  }

  /** After a reset nobody has voted for `f`, and other votes survive. */
  lemma ResetVoteClears(ps: PlayerList, f: VoteField)
    ensures Voters(ResetVote(ps, f), f) == {}
    ensures VoteCount(ResetVote(ps, f), f) == 0
    ensures forall g :: g != f ==> Voters(ResetVote(ps, f), g) == Voters(ps, g)
  {
    var r := ResetVote(ps, f);
    assert forall id :: id !in Voters(r, f);
    VoteCountIsVoters(r, f);
    forall g | g != f ensures Voters(r, g) == Voters(ps, g) {
      assert forall k :: 0 <= k < |ps| ==> Flag(r[k], g) == Flag(ps[k], g);
    }
  }

  /** Player `w` has a top score and every earlier player scores lower. */
  predicate IsFirstMax(ps: PlayerList, w: int)
  {
    && 0 <= w < |ps|
    && (forall k :: 0 <= k < |ps| ==> ps[k].score <= ps[w].score)
    && (forall k :: 0 <= k < w ==> ps[k].score < ps[w].score)
  }

  /** At most one player is the first one with the top score. */
  lemma FirstMaxUnique(ps: PlayerList, v: int, w: int)
    requires IsFirstMax(ps, v) && IsFirstMax(ps, w)
    ensures v == w
  {
    assert ps[v].score <= ps[w].score && ps[w].score <= ps[v].score;
  }

  /** The scan of `setWinner`: `hi` is the best score seen in positions
      `0..i` and `winner` the first position holding it, -1 before any. */
  function ScanHigh(ps: PlayerList, i: nat, hi: int, winner: int): (w: int)
    requires i <= |ps|
    requires i == 0 ==> hi == -1 && winner == -1
    requires i > 0 ==> IsFirstMax(ps[..i], winner) && hi == ps[winner].score
    ensures |ps| == 0 ==> w == -1
    ensures |ps| > 0 ==> IsFirstMax(ps, w)
    decreases |ps| - i
  {
    if i == |ps| then
      assert i > 0 ==> ps[..i] == ps;
      winner
    else if ps[i].score > hi then
      ScanHigh(ps, i + 1, ps[i].score, i)
    else
      ScanHigh(ps, i + 1, hi, winner)
  }

  /** The first player with the top score, or -1 on an empty list. */
  function WinnerIndex(ps: PlayerList): (w: int)
    ensures |ps| == 0 ==> w == -1
    ensures |ps| > 0 ==> IsFirstMax(ps, w)
  {
    ScanHigh(ps, 0, -1, -1)
  }

  /** `setWinner`: mark exactly the first top scorer; no-op when empty. */
  function SetWinner(ps: PlayerList): (r: PlayerList)
    ensures |r| == |ps|
    ensures |ps| == 0 ==> r == ps
    ensures forall j :: 0 <= j < |ps| ==> r[j] == ps[j].(winner := r[j].winner)
    ensures forall j :: 0 <= j < |ps| ==> (r[j].winner <==> IsFirstMax(ps, j))
  {
    var w := WinnerIndex(ps);
    if w == -1 then ps
    else
      var r := seq(|ps|, j requires 0 <= j < |ps| => ps[j].(winner := j == w));
      assert forall j :: 0 <= j < |ps| && IsFirstMax(ps, j) ==> j == w by {
        forall j | 0 <= j < |ps| && IsFirstMax(ps, j) ensures j == w {
          FirstMaxUnique(ps, j, w);
        }
      }
      r
  }

  /** After `setWinner` on a non-empty list exactly one player is the winner. */
  lemma ExactlyOneWinner(ps: PlayerList)
    requires |ps| > 0
    ensures exists w :: 0 <= w < |ps| && SetWinner(ps)[w].winner
    ensures forall v, w :: 0 <= v < |ps| && 0 <= w < |ps| && SetWinner(ps)[v].winner && SetWinner(ps)[w].winner ==> v == w
  {
    var r := SetWinner(ps);
    var w := WinnerIndex(ps);
    assert r[w].winner;
    forall v, u | 0 <= v < |ps| && 0 <= u < |ps| && r[v].winner && r[u].winner ensures v == u {
      FirstMaxUnique(ps, v, u);
    }
  }
}
