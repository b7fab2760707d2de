/**
 * DiceTracker: how many movement points each player has spent on each figurine,
 * as a per-turn history of fixed length plus running totals and a turn counter per player.
 */
module Dice {
  import opened Game

  /** The length of every history row (MAX_TURNS). */
  const MaxTurns: nat := 100

  /** The sum of a run of movement points. */
  function Sum(s: seq<int>): int
  {
    if s == [] then 0 else Sum(s[..|s| - 1]) + s[|s| - 1]
  }

  /** Map.getOrDefault(agent, 0) on the points map handed to RecordTurnMovement. */
  function PointsFor(moves: map<nat, int>, agent: nat): int
  {
    if agent in moves then moves[agent] else 0
  }

  /** No figurine is charged a negative number of points. */
  predicate NonNegativeMoves(moves: map<nat, int>)
  {
    forall a :: a in moves ==> moves[a] >= 0
  }

  lemma {:induction false} SumOfNonNegative(s: seq<int>)
    requires forall i :: 0 <= i < |s| ==> s[i] >= 0
    ensures Sum(s) >= 0
  {
    if s != [] {
      SumOfNonNegative(s[..|s| - 1]);
    }
  }

  /** Slots past the recorded turns hold 0, so they add nothing to the sum. */
  lemma {:induction false} SumIgnoresZeroTail(s: seq<int>, n: nat)
    requires n <= |s|
    requires forall i :: n <= i < |s| ==> s[i] == 0
    ensures Sum(s) == Sum(s[..n])
  {
    if |s| > n {
      var init := s[..|s| - 1];
      assert init[..n] == s[..n];
      SumIgnoresZeroTail(init, n);
    } else {
      assert s[..n] == s;
    }
  }

  /** One call of recordTurnMovement: the player and the points per figurine. */
  datatype Turn = Turn(player: int, moves: map<nat, int>)

  /** The recorded turns: ledger[p][a] lists the points player p spent on figurine a, one entry per turn, oldest first. */
  type Ledger = seq<seq<seq<int>>>

  /** A run of turns kept to its first MaxTurns entries: a full history records no more turns. */
  function Capped(s: seq<int>): (r: seq<int>)
    ensures |r| <= MaxTurns
    ensures |s| <= MaxTurns ==> r == s
    ensures r == s[..|r|]
  {
    if |s| <= MaxTurns then s else s[..MaxTurns]
  }

  /** The ledger after recordTurnMovement(p, moves): each of p's rows gains the turn's points, unless it is full. */
  function Logged(ledger: Ledger, p: int, moves: map<nat, int>): Ledger
  {
    if 0 <= p < |ledger| then
      ledger[p := seq(|ledger[p]|, a requires 0 <= a < |ledger[p]| => Capped(ledger[p][a] + [PointsFor(moves, a)]))]
    else ledger
  }

  /**
   * One recorded turn: the other players' rows stay; each of p's rows below MaxTurns turns gets
   * the figurine's points (0 when the map has none) appended, and a full row stays as it is.
   */
  lemma LoggedTurn(ledger: Ledger, p: int, moves: map<nat, int>)
    requires forall q, a :: 0 <= q < |ledger| && 0 <= a < |ledger[q]| ==> |ledger[q][a]| <= MaxTurns
    ensures |Logged(ledger, p, moves)| == |ledger|
    ensures forall q :: 0 <= q < |ledger| && q != p ==> Logged(ledger, p, moves)[q] == ledger[q]
    ensures 0 <= p < |ledger| ==>
      && |Logged(ledger, p, moves)[p]| == |ledger[p]|
      && forall a :: 0 <= a < |ledger[p]| ==>
           Logged(ledger, p, moves)[p][a] ==
             if |ledger[p][a]| < MaxTurns then ledger[p][a] + [PointsFor(moves, a)] else ledger[p][a]
  {
    if 0 <= p < |ledger| {
      forall a | 0 <= a < |ledger[p]| && |ledger[p][a]| == MaxTurns
        ensures Capped(ledger[p][a] + [PointsFor(moves, a)]) == ledger[p][a]
      {
        assert (ledger[p][a] + [PointsFor(moves, a)])[..MaxTurns] == ledger[p][a];
      }
    }
  }

  /** Writing slot turn and recording it: the recorded prefix gains the value at its end. */
  lemma PrefixOfUpdate(before: seq<int>, after: seq<int>, turn: nat, v: int)
    requires turn < |before| == |after|
    requires forall t :: 0 <= t < |after| ==> after[t] == if t == turn then v else before[t]
    ensures after[..turn + 1] == before[..turn] + [v]
  {
  }

  /** Recording one more turn adds exactly that turn's points to the sum of the recorded prefix. */
  lemma SumOfUpdatedPrefix(s: seq<int>, turn: nat, v: int)
    requires turn < |s|
    ensures Sum(s[turn := v][..turn + 1]) == Sum(s[..turn]) + v
  {
    assert s[turn := v][..turn + 1][..turn] == s[..turn];
  }

  class DiceTracker {
    const numPlayers: nat
    /** movementHistory[player][agent][turn] */
    const history: array3<int>
    /** totalPointsPerAgent[player][agent] */
    const totals: array2<int>
    const turnCounters: array<int>

    /** The history row of one player and figurine, all MaxTurns slots of it. */
    function Row(p: nat, agent: nat): (r: seq<int>)
      requires p < history.Length0 && agent < history.Length1
      reads history
      ensures |r| == history.Length2
      ensures forall t :: 0 <= t < |r| ==> r[t] == history[p, agent, t]
    {
      seq(history.Length2, t requires 0 <= t < history.Length2 reads history => history[p, agent, t])
    }

    /**
     * The ledger invariant: each total is the sum of the turns recorded for it, no counter
     * passes MaxTurns, and the slots not yet recorded still hold their initial 0.
     */
    ghost predicate Valid()
      reads history, totals, turnCounters
    {
      && history.Length0 == numPlayers && history.Length1 == NumAgents && history.Length2 == MaxTurns
      && totals.Length0 == numPlayers && totals.Length1 == NumAgents
      && turnCounters.Length == numPlayers
      && (forall p :: 0 <= p < numPlayers ==> 0 <= turnCounters[p] <= MaxTurns)
      && (forall p, a :: 0 <= p < numPlayers && 0 <= a < NumAgents ==>
            totals[p, a] == Sum(Row(p, a)[..turnCounters[p]]))
      && (forall p, a, t :: 0 <= p < numPlayers && 0 <= a < NumAgents && 0 <= turnCounters[p] <= t < MaxTurns ==>
            history[p, a, t] == 0)
    }

    /** Every recorded point count is non-negative (what the agent's own sync logic feeds in). */
    ghost predicate NonNegative()
      reads history
    {
      forall p, a, t :: 0 <= p < history.Length0 && 0 <= a < history.Length1 && 0 <= t < history.Length2 ==>
        history[p, a, t] >= 0
    }

    constructor (numPlayers: nat)
      ensures Valid() && NonNegative()
      ensures this.numPlayers == numPlayers
      ensures fresh(history) && fresh(totals) && fresh(turnCounters)
      ensures forall p :: 0 <= p < numPlayers ==> turnCounters[p] == 0
      ensures forall p, a :: 0 <= p < numPlayers && 0 <= a < NumAgents ==> totals[p, a] == 0
    {
      this.numPlayers := numPlayers;
      history := new int[numPlayers, NumAgents, MaxTurns]((p, a, t) => 0);
      totals := new int[numPlayers, NumAgents]((p, a) => 0);
      turnCounters := new int[numPlayers](p => 0);
    }

    /** The call is accepted: a valid player id whose counter has not reached MaxTurns. */
    twostate predicate Accepted(p: int)
      reads turnCounters
    {
      0 <= p < numPlayers && p < turnCounters.Length && old(turnCounters[p]) < MaxTurns
    }

    /**
     * The effect of recordTurnMovement(p, moves): an accepted call writes each figurine's points
     * into the player's next history slot, adds them to the totals and advances that one counter;
     * any other call changes nothing.
     */
    twostate predicate RecordedTurn(p: int, moves: map<nat, int>)
      reads history, totals, turnCounters
    {
      var accepted := Accepted(p);
      && (forall q :: 0 <= q < turnCounters.Length ==>
            turnCounters[q] == old(turnCounters[q]) + (if accepted && q == p then 1 else 0))
      && (forall q, a :: 0 <= q < totals.Length0 && 0 <= a < totals.Length1 ==>
            totals[q, a] == old(totals[q, a]) + (if accepted && q == p then PointsFor(moves, a) else 0))
      && (forall q, a, t :: 0 <= q < history.Length0 && 0 <= a < history.Length1 && 0 <= t < history.Length2 ==>
            history[q, a, t] == if accepted && q == p && t == old(turnCounters[p]) then PointsFor(moves, a)
                                else old(history[q, a, t]))
    }

    method RecordTurnMovement(p: int, moves: map<nat, int>)
      requires Valid()
      modifies history, totals, turnCounters
      ensures Valid()
      ensures RecordedTurn(p, moves)
      ensures old(NonNegative()) && NonNegativeMoves(moves) ==> NonNegative()
    {
      if p < 0 || p >= numPlayers {
        return;
      }
      var turn := turnCounters[p];
      if turn >= MaxTurns {
        return;
      }
      var a := 0;
      while a < NumAgents
        modifies history, totals
        invariant 0 <= a <= NumAgents
        invariant forall q, b, t :: 0 <= q < numPlayers && 0 <= b < NumAgents && 0 <= t < MaxTurns ==>
          history[q, b, t] == if q == p && b < a && t == turn then PointsFor(moves, b) else old(history[q, b, t])
        invariant forall q, b :: 0 <= q < numPlayers && 0 <= b < NumAgents ==>
          totals[q, b] == old(totals[q, b]) + (if q == p && b < a then PointsFor(moves, b) else 0)
      {
        var points := if a in moves then moves[a] else 0;
        history[p, a, turn] := points;
        totals[p, a] := totals[p, a] + points;
        a := a + 1;
      }
      turnCounters[p] := turn + 1;
      forall q, b | 0 <= q < numPlayers && 0 <= b < NumAgents
        ensures totals[q, b] == Sum(Row(q, b)[..turnCounters[q]])
      {
        if q == p {
          assert Row(q, b) == old(Row(q, b))[turn := PointsFor(moves, b)];
          SumOfUpdatedPrefix(old(Row(q, b)), turn, PointsFor(moves, b));
          assert old(Row(q, b))[..turn] == old(Row(q, b)[..turnCounters[q]]);
        } else {
          assert Row(q, b) == old(Row(q, b));
        }
      }
    }

    /**
     * The ledger this tracker keeps: each player's recorded turns per figurine; their number is
     * the player's turn count, their sum the invested points, and they open the full history row.
     */
    ghost function Snapshot(): (r: Ledger)
      requires Valid()
      reads history, totals, turnCounters
      ensures |r| == numPlayers
    {
      seq(numPlayers, p requires 0 <= p < numPlayers && Valid() reads history, totals, turnCounters =>
        seq(NumAgents, a requires 0 <= a < NumAgents && Valid() reads history, totals, turnCounters =>
          Row(p, a)[..turnCounters[p]]))
    }

    /** The ledger agrees with the getters: turn counts, invested points and the history rows. */
    lemma SnapshotAgrees()
      requires Valid()
      ensures var r := Snapshot();
        && (forall p :: 0 <= p < numPlayers ==> |r[p]| == NumAgents)
        && forall p, a :: 0 <= p < numPlayers && 0 <= a < NumAgents ==>
             && |r[p][a]| == TurnCount(p)
             && Sum(r[p][a]) == TotalInvestedPoints(p, a)
             && r[p][a] == MovementHistoryForAgent(p, a)[..TurnCount(p)]
    {
    }

    /** recordTurnMovement(turn.player, turn.moves) seen on the ledger: the turn is logged as Logged says. */
    twostate lemma TurnLogged(turn: Turn)
      requires old(Valid()) && Valid() && RecordedTurn(turn.player, turn.moves)
      ensures Snapshot() == Logged(old(Snapshot()), turn.player, turn.moves)
    {
      var (p, moves) := (turn.player, turn.moves);
      var before, after := old(Snapshot()), Snapshot();
      var expected := Logged(before, p, moves);
      LoggedTurn(before, p, moves);
      forall q, a | 0 <= q < numPlayers && 0 <= a < NumAgents
        ensures after[q][a] == expected[q][a]
      {
        if q == p && old(turnCounters[p]) < MaxTurns {
          PrefixOfUpdate(old(Row(q, a)), Row(q, a), old(turnCounters[p]), PointsFor(moves, a));
        } else {
          assert Row(q, a) == old(Row(q, a));
        }
      }
      assert forall q :: 0 <= q < numPlayers ==> after[q] == expected[q];
    }

    /** getTotalInvestedPoints: the sum of the player's recorded turns for the figurine; 0 for an unknown player. */
    function TotalInvestedPoints(p: int, agent: nat): (r: int)
      requires Valid() && agent < NumAgents
      reads history, totals, turnCounters
      ensures r == if 0 <= p < numPlayers then Sum(Row(p, agent)[..turnCounters[p]]) else 0
      ensures NonNegative() ==> r >= 0
    {
      if p < 0 || p >= numPlayers then 0
      else
        RecordedPrefixNonNegative(p, agent);
        totals[p, agent]
    }

    lemma RecordedPrefixNonNegative(p: nat, agent: nat)
      requires Valid() && p < numPlayers && agent < NumAgents
      ensures NonNegative() ==> Sum(Row(p, agent)[..turnCounters[p]]) >= 0
    {
      if NonNegative() {
        SumOfNonNegative(Row(p, agent)[..turnCounters[p]]);
      }
    }

    /**
     * getMovementHistoryForAgent: the whole MaxTurns-slot row, not only the recorded turns; the
     * slots past the turn counter are 0, so the row sums to the total. An unknown player gets [].
     */
    function MovementHistoryForAgent(p: int, agent: nat): (r: seq<int>)
      requires Valid() && agent < NumAgents
      reads history, totals, turnCounters
      ensures 0 <= p < numPlayers ==>
        && |r| == MaxTurns
        && (forall t :: 0 <= t < MaxTurns ==> r[t] == history[p, agent, t])
        && (forall t :: turnCounters[p] <= t < MaxTurns ==> r[t] == 0)
        && Sum(r) == TotalInvestedPoints(p, agent)
      ensures !(0 <= p < numPlayers) ==> r == []
    {
      if p < 0 || p >= numPlayers then []
      else
        SumIgnoresZeroTail(Row(p, agent), turnCounters[p]);
        Row(p, agent)
    }

    /** getTurnCount: how many turns have been recorded for the player, at most MaxTurns; 0 for an unknown player. */
    function TurnCount(p: int): (r: int)
      requires Valid()
      reads history, totals, turnCounters
      ensures 0 <= r <= MaxTurns
      ensures 0 <= p < numPlayers ==> r == turnCounters[p]
      ensures !(0 <= p < numPlayers) ==> r == 0
    {
      if p < 0 || p >= numPlayers then 0 else turnCounters[p]
    }
  }
}
