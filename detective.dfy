/**
 * DetectiveGoetzbach: the agent's memory of the game. syncTrackers replays the game's action
 * records from a cursor onto a shadow board, deduces figurine moves and card gains and plays
 * from them, and feeds the DiceTracker and the CardTracker.
 */
module Detective {
  import opened Wrappers
  import opened Game
  import opened Lists
  import Dice
  import Cards

  /** The Java exceptions a sync can raise: an array or list index out of range, a remainder by zero. */
  datatype SyncError = IndexOutOfBounds | ArithmeticError

  /** What the sync asks of the engine's board and action classes. */
  datatype BoardRules = BoardRules(
    /** getAgentsPositions().get(agent) */
    position: (Board, nat) -> int,
    getNumberOfFields: Board -> int,
    applyAction: (Action, Board) -> Board,
    movesAgentsIntoRuins: (Action, Board) -> bool,
    isNoMoveAction: Action -> bool,
    isSkipCardAction: Action -> bool,
    /** the list after removePlayedCardFromList */
    removePlayedCardFromList: (Action, seq<Card>) -> seq<Card>)

  /** The action classes the sync tells apart with instanceof. */
  datatype ActionKind = AgentMove | CardPlay | OtherAction

  /** An ActionRecord: who acted, and what. */
  datatype ActionRecord = ActionRecord(player: int, action: Action, kind: ActionKind)

  // ----- Figurine moves -----

  /** Java's int remainder: it truncates toward zero, so it takes the sign of x and stays below |m| in size. */
  function JavaRem(x: int, m: int): (r: int)
    requires m != 0
    ensures 0 <= x ==> 0 <= r < (if m > 0 then m else -m)
    ensures x < 0 ==> -(if m > 0 then m else -m) < r <= 0
  {
    if x >= 0 then x % m else -((-x) % m)
  }

  /** The forward distance the sync computes: (after - before + numFields) % numFields. */
  function Distance(before: int, after: int, numFields: int): int
    requires numFields != 0
  {
    JavaRem(after - before + numFields, numFields)
  }

  lemma ModBelow(x: int, m: int)
    requires 0 <= x < m
    ensures x % m == x
  {
  }

  lemma ModOneAbove(x: int, m: int)
    requires 0 < m <= x < 2 * m
    ensures x % m == x - m
  {
    ModBelow(x - m, m);
    assert x == (x - m) + m;
  }

  /**
   * With both positions on the board, the distance is the number of fields walked forward,
   * around the end of the track: it lies in [0, numFields), leads from before to after, and is
   * 0 exactly when the figurine stayed.
   */
  lemma ForwardDistance(before: int, after: int, numFields: int)
    requires 0 <= before < numFields && 0 <= after < numFields
    ensures 0 <= Distance(before, after, numFields) < numFields
    ensures (before + Distance(before, after, numFields)) % numFields == after
    ensures Distance(before, after, numFields) == 0 <==> before == after
  {
    var x := after - before + numFields;
    if after >= before {
      ModOneAbove(x, numFields);
      ModBelow(after, numFields);
    } else {
      ModBelow(x, numFields);
      ModOneAbove(after + numFields, numFields);
    }
  }

  /** The deducedMoves map: every figurine that moved, with its distance. */
  function DeducedMoves(rules: BoardRules, before: Board, after: Board): map<nat, int>
    requires rules.getNumberOfFields(after) != 0
  {
    MovesBelow(rules, before, after, NumAgents)
  }

  /** The part of deducedMoves for the figurines below k. */
  function MovesBelow(rules: BoardRules, before: Board, after: Board, k: nat): map<nat, int>
    requires rules.getNumberOfFields(after) != 0
  {
    map a: nat | a < k
      && Distance(rules.position(before, a), rules.position(after, a), rules.getNumberOfFields(after)) > 0
      :: Distance(rules.position(before, a), rules.position(after, a), rules.getNumberOfFields(after))
  }

  lemma MovesBelowStep(rules: BoardRules, before: Board, after: Board, k: nat)
    requires rules.getNumberOfFields(after) != 0
    ensures var d := Distance(rules.position(before, k), rules.position(after, k), rules.getNumberOfFields(after));
      MovesBelow(rules, before, after, k + 1) ==
        if d > 0 then MovesBelow(rules, before, after, k)[k := d] else MovesBelow(rules, before, after, k)
  {
  }

  /**
   * The DiceTracker is charged each figurine's distance, 0 for one that stayed (or, off the
   * board, seemed to move backwards); no charge is negative.
   */
  lemma DeducedMovesCharges(rules: BoardRules, before: Board, after: Board)
    requires rules.getNumberOfFields(after) != 0
    ensures Dice.NonNegativeMoves(DeducedMoves(rules, before, after))
    ensures forall a :: a in DeducedMoves(rules, before, after) ==> a < NumAgents
    ensures forall a: nat :: a < NumAgents ==>
      var d := Distance(rules.position(before, a), rules.position(after, a), rules.getNumberOfFields(after));
      Dice.PointsFor(DeducedMoves(rules, before, after), a) == if d > 0 then d else 0
  {
  }

  /** The loop over the figurines that builds deducedMoves. */
  method DeduceMoves(rules: BoardRules, before: Board, after: Board) returns (r: Result<map<nat, int>, SyncError>)
    ensures r.Err? <==> rules.getNumberOfFields(after) == 0
    ensures r.Ok? ==> r.value == DeducedMoves(rules, before, after)
  {
    var numFields := rules.getNumberOfFields(after);
    if numFields == 0 {
      // the first figurine's remainder throws
      return Err(ArithmeticError);
    }
    var moves: map<nat, int> := map[];
    assert moves == MovesBelow(rules, before, after, 0);
    for a := 0 to NumAgents
      invariant moves == MovesBelow(rules, before, after, a)
    {
      var dist := Distance(rules.position(before, a), rules.position(after, a), numFields);
      MovesBelowStep(rules, before, after, a);
      if dist > 0 {
        moves := moves[a := dist];
      }
    }
    return Ok(moves);
  }

  // ----- Card identification -----

  /** What findMissingCard returns: the head of original less reduced; none when that is empty (get(0) throws). */
  function MissingCard(original: seq<Card>, reduced: seq<Card>): Option<Card>
  {
    var rest := RemoveAll(original, reduced);
    if rest == [] then None else Some(rest[0])
  }

  /** findMissingCard: a copy of original, less one occurrence of each card of reduced, in turn. */
  method FindMissingCard(original: seq<Card>, reduced: seq<Card>) returns (r: Option<Card>)
    ensures r == MissingCard(original, reduced)
  {
    var temp := original;
    for i := 0 to |reduced|
      invariant temp == RemoveAll(original, reduced[..i])
    {
      RemoveAllStep(original, reduced, i);
      temp := RemoveFirst(temp, reduced[i]);
    }
    assert reduced[..|reduced|] == reduced;
    if temp == [] {
      return None;
    }
    return Some(temp[0]);
  }

  /**
   * A shorter list always yields a card, and it is one the shorter list holds fewer copies of;
   * when the shorter list is the original with one card taken out, that card is the one found.
   */
  lemma MissingCardFacts(original: seq<Card>, reduced: seq<Card>)
    ensures |reduced| < |original| ==> MissingCard(original, reduced).Some?
    ensures MissingCard(original, reduced).Some? ==>
      var c := MissingCard(original, reduced).value;
      multiset(reduced)[c] < multiset(original)[c]
  {
    var rest := RemoveAll(original, reduced);
    if rest != [] {
      assert rest[0] in multiset(rest);
    }
  }

  lemma MissingCardIsRemovedOne(original: seq<Card>, i: nat)
    requires i < |original|
    ensures MissingCard(original, original[..i] + original[i + 1..]) == Some(original[i])
  {
    var reduced := original[..i] + original[i + 1..];
    assert original == original[..i] + [original[i]] + original[i + 1..];
    assert multiset(original) == multiset(reduced) + multiset{original[i]};
    var rest := RemoveAll(original, reduced);
    assert multiset(rest) == multiset{original[i]};
    assert |rest| == 1 by {
      assert |multiset(rest)| == |rest|;
    }
    assert rest[0] in multiset(rest);
  }

  // ----- The effect of one record -----

  /** The move gains its player a card: it goes into the ruins, or it is the "no move" choice. */
  predicate GainsCard(rules: BoardRules, board: Board, rec: ActionRecord)
  {
    rec.kind == AgentMove && (rules.movesAgentsIntoRuins(rec.action, board) || rules.isNoMoveAction(rec.action))
  }

  /** The card a non-skip card action is identified as playing, if the engine removed one from the list. */
  function PlayedCard(rules: BoardRules, universe: seq<Card>, rec: ActionRecord): Option<Card>
  {
    if rec.kind == CardPlay && !rules.isSkipCardAction(rec.action) then
      var reduced := rules.removePlayedCardFromList(rec.action, universe);
      if |reduced| < |universe| then MissingCard(universe, reduced) else None
    else None
  }

  /** The graveyard entry one record adds: its identified card, if any. */
  function PlayedList(rules: BoardRules, universe: seq<Card>, rec: ActionRecord): seq<Card>
  {
    var c := PlayedCard(rules, universe, rec);
    if c.Some? then [c.value] else []
  }

  /** The record throws: a tracker call with a player outside the card counts, or a board without fields. */
  predicate Fails(rules: BoardRules, board: Board, universe: seq<Card>, numPlayers: nat, rec: ActionRecord)
  {
    || ((GainsCard(rules, board, rec) || PlayedCard(rules, universe, rec).Some?) && !(0 <= rec.player < numPlayers))
    || (rec.kind == AgentMove && rules.getNumberOfFields(rules.applyAction(rec.action, board)) == 0)
  }

  /** The hand-size events one record causes for player p. */
  function EventsOf(rules: BoardRules, board: Board, universe: seq<Card>, rec: ActionRecord, p: int): seq<Cards.HandEvent>
  {
    if rec.player != p then []
    else if GainsCard(rules, board, rec) then [Cards.Gained]
    else if PlayedCard(rules, universe, rec).Some? then [Cards.Played]
    else []
  }

  // ----- A run of records -----

  /** The shadow board after a run of records. */
  function BoardAfter(rules: BoardRules, board: Board, recs: seq<ActionRecord>): Board
    decreases |recs|
  {
    if recs == [] then board
    else rules.applyAction(recs[|recs| - 1].action, BoardAfter(rules, board, recs[..|recs| - 1]))
  }

  /** The cards a run of records plays, in order. */
  function PlayedCards(rules: BoardRules, universe: seq<Card>, recs: seq<ActionRecord>): seq<Card>
    decreases |recs|
  {
    if recs == [] then []
    else
      PlayedCards(rules, universe, recs[..|recs| - 1]) + PlayedList(rules, universe, recs[|recs| - 1])
  }

  /** The hand-size events of player p over a run of records, each judged on the board it met. */
  function HandEvents(rules: BoardRules, board: Board, universe: seq<Card>, recs: seq<ActionRecord>, p: int): seq<Cards.HandEvent>
    decreases |recs|
  {
    if recs == [] then []
    else
      var init := recs[..|recs| - 1];
      HandEvents(rules, board, universe, init, p) + EventsOf(rules, BoardAfter(rules, board, init), universe, recs[|recs| - 1], p)
  }

  /** The dice ledger after one record: an agent move logs, for its player, the distances it deduces. */
  function LoggedBy(rules: BoardRules, board: Board, ledger: Dice.Ledger, rec: ActionRecord): Dice.Ledger
  {
    var after := rules.applyAction(rec.action, board);
    if rec.kind == AgentMove && rules.getNumberOfFields(after) != 0 then
      Dice.Logged(ledger, rec.player, DeducedMoves(rules, board, after))
    else ledger
  }

  /** The dice ledger after a run of records. */
  function LedgerAfter(rules: BoardRules, board: Board, ledger: Dice.Ledger, recs: seq<ActionRecord>): Dice.Ledger
    decreases |recs|
  {
    if recs == [] then ledger
    else
      var init := recs[..|recs| - 1];
      LoggedBy(rules, BoardAfter(rules, board, init), LedgerAfter(rules, board, ledger, init), recs[|recs| - 1])
  }

  /** No record of the run throws on the board it meets (NoFailureEverywhere spells this out). */
  predicate NoFailure(rules: BoardRules, board: Board, universe: seq<Card>, numPlayers: nat, recs: seq<ActionRecord>)
    decreases |recs|
  {
    recs == [] ||
      var init := recs[..|recs| - 1];
      NoFailure(rules, board, universe, numPlayers, init)
      && !Fails(rules, BoardAfter(rules, board, init), universe, numPlayers, recs[|recs| - 1])
  }

  /** A run is failure-free exactly when each record k passes on the board the records before it leave. */
  lemma {:induction false} NoFailureEverywhere(rules: BoardRules, board: Board, universe: seq<Card>, n: nat, recs: seq<ActionRecord>)
    ensures NoFailure(rules, board, universe, n, recs) <==>
      forall k :: 0 <= k < |recs| ==> !Fails(rules, BoardAfter(rules, board, recs[..k]), universe, n, recs[k])
    decreases |recs|
  {
    if recs != [] {
      var init := recs[..|recs| - 1];
      NoFailureEverywhere(rules, board, universe, n, init);
      forall k | 0 <= k < |init|
        ensures init[..k] == recs[..k] && init[k] == recs[k]
      {
      }
    }
  }

  // ----- What the agent remembers -----

  /** The agent's memory as values: the shadow board, the graveyard, the hand counts and the dice ledger. */
  datatype Memory = Memory(board: Board, graveyard: seq<Card>, counts: seq<int>, ledger: Dice.Ledger)

  /** The memory after one record that does not throw. */
  function Remembered(rules: BoardRules, universe: seq<Card>, m: Memory, rec: ActionRecord): Memory
  {
    Memory(
      rules.applyAction(rec.action, m.board),
      m.graveyard + PlayedList(rules, universe, rec),
      seq(|m.counts|, p requires 0 <= p < |m.counts| => Cards.AfterEvents(m.counts[p], EventsOf(rules, m.board, universe, rec, p))),
      LoggedBy(rules, m.board, m.ledger, rec))
  }

  /**
   * The loop of syncTrackers on values: the records start .. i - 1 remembered one by one from m0,
   * or None once one of them throws.
   */
  function ReplayFrom(rules: BoardRules, universe: seq<Card>, n: nat, m0: Memory, records: seq<ActionRecord>, start: nat, i: nat): Option<Memory>
    requires start <= i <= |records|
    decreases i
  {
    if i == start then Some(m0)
    else Advance(rules, universe, n, ReplayFrom(rules, universe, n, m0, records, start, i - 1), records[i - 1])
  }

  /** One record of the replay: a record that throws ends it, any other is remembered. */
  function Advance(rules: BoardRules, universe: seq<Card>, n: nat, prev: Option<Memory>, rec: ActionRecord): Option<Memory>
  {
    match prev
    case None => None
    case Some(m) => if Fails(rules, m.board, universe, n, rec) then None else Some(Remembered(rules, universe, m, rec))
  }

  /** m is what the folds over run give from m0: board, graveyard, ledger and every hand count. */
  ghost predicate Folded(rules: BoardRules, universe: seq<Card>, m0: Memory, run: seq<ActionRecord>, m: Memory)
  {
    && m.board == BoardAfter(rules, m0.board, run)
    && m.graveyard == m0.graveyard + PlayedCards(rules, universe, run)
    && m.ledger == LedgerAfter(rules, m0.board, m0.ledger, run)
    && |m.counts| == |m0.counts|
    && forall p :: 0 <= p < |m0.counts| ==>
         m.counts[p] == Cards.AfterEvents(m0.counts[p], HandEvents(rules, m0.board, universe, run, p))
  }

  /** Remembering one more record extends each fold by that record. */
  lemma FoldedStep(rules: BoardRules, universe: seq<Card>, m0: Memory, run: seq<ActionRecord>, m: Memory, rec: ActionRecord)
    requires Folded(rules, universe, m0, run, m)
    ensures Folded(rules, universe, m0, run + [rec], Remembered(rules, universe, m, rec))
  {
    var m' := Remembered(rules, universe, m, rec);
    FoldsStep(rules, m0.board, universe, run, rec);
    LedgerStep(rules, m0.board, m0.ledger, run, rec);
    CountsStep(rules, m0.board, universe, run, rec, m0.counts, m.counts, m'.counts);
  }

  /**
   * The replay gets through the records start .. i - 1 exactly when none of them throws on the
   * board it meets, and what it then remembers is the board, card, ledger and hand folds.
   */
  lemma {:induction false} ReplayFromFolds(rules: BoardRules, universe: seq<Card>, n: nat, m0: Memory, records: seq<ActionRecord>, start: nat, i: nat)
    requires start <= i <= |records|
    ensures var r := ReplayFrom(rules, universe, n, m0, records, start, i);
      && (r.Some? <==> NoFailure(rules, m0.board, universe, n, records[start..i]))
      && (r.Some? ==> Folded(rules, universe, m0, records[start..i], r.value))
    decreases i
  {
    if i > start {
      ReplayFromFolds(rules, universe, n, m0, records, start, i - 1);
      RunStep(records, start, i - 1);
      AdvanceFolds(rules, universe, n, m0, records[start..i - 1], records[i - 1], records[start..i],
        ReplayFrom(rules, universe, n, m0, records, start, i - 1));
    } else {
      assert records[start..i] == [];
    }
  }

  /** Advancing over one more record keeps the replay in step with the folds over the longer run. */
  lemma AdvanceFolds(rules: BoardRules, universe: seq<Card>, n: nat, m0: Memory, run: seq<ActionRecord>, rec: ActionRecord,
                     longer: seq<ActionRecord>, prev: Option<Memory>)
    requires longer == run + [rec]
    requires prev.Some? <==> NoFailure(rules, m0.board, universe, n, run)
    requires prev.Some? ==> Folded(rules, universe, m0, run, prev.value)
    ensures var r := Advance(rules, universe, n, prev, rec);
      && (r.Some? <==> NoFailure(rules, m0.board, universe, n, longer))
      && (r.Some? ==> Folded(rules, universe, m0, longer, r.value))
  {
    NoFailureStep(rules, m0.board, universe, n, run, rec);
    if prev.Some? {
      FoldedStep(rules, universe, m0, run, prev.value, rec);
    }
  }

  /** Once a record has thrown, the replay stays failed. */
  lemma {:induction false} FailurePersists(rules: BoardRules, universe: seq<Card>, n: nat, m0: Memory, records: seq<ActionRecord>, start: nat, i: nat, j: nat)
    requires start <= i <= j <= |records|
    requires ReplayFrom(rules, universe, n, m0, records, start, i).None?
    ensures ReplayFrom(rules, universe, n, m0, records, start, j).None?
    decreases j
  {
    if i < j {
      FailurePersists(rules, universe, n, m0, records, start, i, j - 1);
    }
  }

  /** Every card a run of records adds to the graveyard is a card of the universe. */
  lemma {:induction false} PlayedCardsInUniverse(rules: BoardRules, universe: seq<Card>, recs: seq<ActionRecord>)
    ensures forall c :: c in PlayedCards(rules, universe, recs) ==> c in universe
    decreases |recs|
  {
    if recs != [] {
      var rec := recs[|recs| - 1];
      PlayedCardsInUniverse(rules, universe, recs[..|recs| - 1]);
      if rec.kind == CardPlay && !rules.isSkipCardAction(rec.action) {
        var reduced := rules.removePlayedCardFromList(rec.action, universe);
        MissingCardFacts(universe, reduced);
        if PlayedCard(rules, universe, rec).Some? {
          var c := PlayedCard(rules, universe, rec).value;
          assert c in multiset(universe);
        }
      }
    }
  }

  /** The record indices lo, lo + 1, ..., hi - 1. */
  function Range(lo: nat, hi: nat): (r: seq<nat>)
    ensures |r| == if lo <= hi then hi - lo else 0
    ensures forall k :: 0 <= k < |r| ==> r[k] == lo + k
  {
    if lo <= hi then seq(hi - lo, k requires 0 <= k < hi - lo => lo + k) else []
  }

  /** Two syncs in a row account for the indices one sync over both stretches would. */
  lemma RangeSplit(lo: nat, mid: nat, hi: nat)
    requires lo <= mid <= hi
    ensures Range(lo, mid) + Range(mid, hi) == Range(lo, hi)
  {
  }

  /** Logging index i after the indices lo .. i - 1. */
  lemma LogStep(log: seq<nat>, lo: nat, i: nat)
    requires lo <= i
    ensures (log + Range(lo, i)) + [i] == log + Range(lo, i + 1)
  {
    assert Range(lo, i + 1) == Range(lo, i) + [i];
  }

  /** The run up to record i, then record i, is the run up to i + 1. */
  lemma RunStep(records: seq<ActionRecord>, start: nat, i: nat)
    requires start <= i < |records|
    ensures records[start..i + 1] == records[start..i] + [records[i]]
  {
  }

  /**
   * A single action left: computeNextAction returns it at once, before any search. The actions
   * are getPossibleActions in the iteration order of the returned set, so none occurs twice.
   */
  function SingleActionShortcut(possible: seq<Action>): (r: Option<Action>)
    ensures r.Some? <==> |possible| == 1
    ensures r.Some? ==> forall k :: 0 <= k < |possible| ==> possible[k] == r.value
  {
    if |possible| == 1 then Some(possible[0]) else None
  }

  class DetectiveAgent {
    const rules: BoardRules
    const playerId: int
    const dice: Dice.DiceTracker
    const cards: Cards.CardTracker
    /** trackedBoard */
    var board: Board
    var lastProcessedActionIndex: nat
    /** The record indices whose effects reached the trackers, in order. */
    ghost var processed: seq<nat>

    /**
     * Both trackers are consistent, sized for the same players, and the ledger holds no negative
     * points; the hand-count array and the turn-counter array are distinct objects, so a write to
     * one leaves the other alone.
     */
    ghost predicate Valid()
      reads this, dice.history, dice.totals, dice.turnCounters, cards, cards.counts
    {
      && dice.Valid() && cards.Valid() && dice.NonNegative()
      && dice.numPlayers == cards.numPlayers
      && cards.counts != dice.turnCounters
    }

    /** Every record before the cursor reached the trackers exactly once, in order. */
    ghost predicate Replayed()
      reads this
    {
      processed == Range(0, lastProcessedActionIndex)
    }

    /** The first-turn initialisation of computeNextAction: fresh trackers and a fresh board. */
    constructor (rules: BoardRules, playerId: int, numPlayers: nat, deck: seq<Card>, initialBoard: Board)
      ensures Valid() && Replayed()
      ensures this.rules == rules && this.playerId == playerId && board == initialBoard
      ensures lastProcessedActionIndex == 0
      ensures cards.numPlayers == numPlayers && cards.universe == deck && cards.graveyard == []
      ensures dice.numPlayers == numPlayers
      ensures forall p :: 0 <= p < numPlayers ==> cards.counts[p] == Cards.InitialCards
      ensures forall p :: 0 <= p < numPlayers ==> dice.turnCounters[p] == 0
      ensures forall p, a :: 0 <= p < numPlayers && 0 <= a < NumAgents ==> dice.totals[p, a] == 0
      ensures Recall() == Memory(initialBoard, [], seq(numPlayers, _ => Cards.InitialCards),
        seq(numPlayers, _ => seq(NumAgents, _ => [])))
      ensures fresh(dice) && fresh(dice.history) && fresh(dice.totals) && fresh(dice.turnCounters)
      ensures fresh(cards) && fresh(cards.counts)
    {
      this.rules := rules;
      this.playerId := playerId;
      dice := new Dice.DiceTracker(numPlayers);
      cards := new Cards.CardTracker(numPlayers, deck);
      board := initialBoard;
      lastProcessedActionIndex := 0;
      processed := [];
      new;
      assert cards.counts[..] == seq(numPlayers, _ => Cards.InitialCards);
      forall p | 0 <= p < numPlayers
        ensures dice.Snapshot()[p] == seq(NumAgents, _ => [])
      {
        assert forall a :: 0 <= a < NumAgents ==> dice.Snapshot()[p][a] == dice.Row(p, a)[..0];
      }
    }

    /** The AgentMove branch of the sync loop. */
    method ProcessMove(rec: ActionRecord) returns (r: Result<(), SyncError>)
      requires Valid() && rec.kind == AgentMove
      modifies this, cards.counts, dice.history, dice.totals, dice.turnCounters
      ensures Valid()
      ensures lastProcessedActionIndex == old(lastProcessedActionIndex) && processed == old(processed)
      ensures r.Err? <==> Fails(rules, old(board), cards.universe, cards.numPlayers, rec)
      ensures r.Ok? ==> board == rules.applyAction(rec.action, old(board))
      ensures r.Ok? ==> forall p :: 0 <= p < cards.numPlayers ==>
        cards.counts[p] == Cards.AfterEvents(old(cards.counts[p]), EventsOf(rules, old(board), cards.universe, rec, p))
      ensures r.Ok? ==> dice.RecordedTurn(rec.player, DeducedMoves(rules, old(board), board))
    {
      var player := rec.player;
      var before := board;
      if rules.movesAgentsIntoRuins(rec.action, board) || rules.isNoMoveAction(rec.action) {
        if !(0 <= player < cards.numPlayers) {
          return Err(IndexOutOfBounds);
        }
        cards.RecordCardGained(player);
        assert Cards.AfterEvents(old(cards.counts[player]), [Cards.Gained]) == Cards.AfterEvent(old(cards.counts[player]), Cards.Gained);
      }
      board := rules.applyAction(rec.action, board);
      var moves := DeduceMoves(rules, before, board);
      if moves.Err? {
        return Err(moves.error);
      }
      DeducedMovesCharges(rules, before, board);
      dice.RecordTurnMovement(player, moves.value);
      r := Ok(());
    }

    /** The card-action branch of the sync loop. */
    method ProcessCardAction(rec: ActionRecord) returns (r: Result<(), SyncError>)
      requires Valid() && rec.kind == CardPlay
      modifies this, cards, cards.counts
      ensures Valid()
      ensures lastProcessedActionIndex == old(lastProcessedActionIndex) && processed == old(processed)
      ensures r.Err? <==> Fails(rules, old(board), cards.universe, cards.numPlayers, rec)
      ensures r.Ok? ==> board == rules.applyAction(rec.action, old(board))
      ensures r.Ok? ==> cards.graveyard == old(cards.graveyard) + PlayedList(rules, cards.universe, rec)
      ensures r.Ok? ==> forall p :: 0 <= p < cards.numPlayers ==>
        cards.counts[p] == Cards.AfterEvents(old(cards.counts[p]), EventsOf(rules, old(board), cards.universe, rec, p))
    {
      var player := rec.player;
      if !rules.isSkipCardAction(rec.action) {
        var identificationList := cards.GetTotalCardsInGame();
        var reduced := rules.removePlayedCardFromList(rec.action, identificationList);
        if |reduced| < |identificationList| {
          var playedCard := FindMissingCard(identificationList, reduced);
          MissingCardFacts(identificationList, reduced);
          if !(0 <= player < cards.numPlayers) {
            return Err(IndexOutOfBounds);
          }
          cards.RecordCardPlayed(player, playedCard.value);
          assert Cards.AfterEvents(old(cards.counts[player]), [Cards.Played]) == Cards.AfterEvent(old(cards.counts[player]), Cards.Played);
        }
      }
      board := rules.applyAction(rec.action, board);
      r := Ok(());
    }

    /** One pass of the sync loop's body: the branch for the record's action class. */
    method ProcessRecord(rec: ActionRecord) returns (r: Result<(), SyncError>)
      requires Valid()
      modifies this, cards, cards.counts, dice.history, dice.totals, dice.turnCounters
      ensures Valid()
      ensures lastProcessedActionIndex == old(lastProcessedActionIndex) && processed == old(processed)
      ensures r.Err? <==> Fails(rules, old(board), cards.universe, cards.numPlayers, rec)
      ensures r.Ok? ==> Recall() == Remembered(rules, cards.universe, old(Recall()), rec)
    {
      match rec.kind
      case AgentMove =>
        r := ProcessMove(rec);
        if r.Ok? {
          dice.TurnLogged(Dice.Turn(rec.player, DeducedMoves(rules, old(board), board)));
        }
      case CardPlay =>
        r := ProcessCardAction(rec);
      case OtherAction =>
        board := rules.applyAction(rec.action, board);
        r := Ok(());
        forall p | 0 <= p < cards.numPlayers
          ensures cards.counts[p] == Cards.AfterEvents(old(cards.counts[p]), EventsOf(rules, old(board), cards.universe, rec, p))
        {
          assert EventsOf(rules, old(board), cards.universe, rec, p) == [];
        }
    }

    /**
     * syncTrackers: replays the records from the cursor on and moves the cursor to the end. A run
     * without a throwing record applies every record once, in order, to the board and the card
     * tracker; a throwing record stops the sync and leaves the cursor where it was, so the
     * records before it reach the trackers again on the next sync.
     */
    method SyncTrackers(records: seq<ActionRecord>) returns (r: Result<(), SyncError>)
      requires Valid()
      modifies this, cards, cards.counts, dice.history, dice.totals, dice.turnCounters
      ensures Valid()
      ensures var start := old(lastProcessedActionIndex);
        var run := if start <= |records| then records[start..] else [];
        && (r.Ok? <==> NoFailure(rules, old(board), cards.universe, cards.numPlayers, run))
        && (r.Ok? ==>
              && lastProcessedActionIndex == |records|
              && processed == old(processed) + Range(start, |records|)
              && board == BoardAfter(rules, old(board), run)
              && cards.graveyard == old(cards.graveyard) + PlayedCards(rules, cards.universe, run)
              && dice.Snapshot() == LedgerAfter(rules, old(board), old(dice.Snapshot()), run)
              && forall p :: 0 <= p < cards.numPlayers ==>
                   cards.counts[p] == Cards.AfterEvents(old(cards.counts[p]), HandEvents(rules, old(board), cards.universe, run, p)))
        && (r.Err? ==>
              && lastProcessedActionIndex == start
              && exists k :: start <= k < |records| && processed == old(processed) + Range(start, k))
      ensures old(Replayed()) && old(lastProcessedActionIndex) <= |records| && r.Ok? ==> Replayed()
      ensures old(lastProcessedActionIndex) >= |records| ==>
        && r.Ok? && board == old(board) && processed == old(processed)
        && unchanged(cards, cards.counts, dice.history, dice.totals, dice.turnCounters)
    {
      if lastProcessedActionIndex < |records| {
        r := Replay(records);
        if r.Err? {
          return;
        }
      } else {
        // the loop does not run
        r := Ok(());
      }
      ghost var start := lastProcessedActionIndex;
      lastProcessedActionIndex := |records|;
      if start <= |records| {
        RangeSplit(0, start, |records|);
      }
    }

    /** What the agent remembers, as values. */
    ghost function Recall(): Memory
      requires dice.Valid()
      reads this, cards, cards.counts, dice.history, dice.totals, dice.turnCounters
    {
      Memory(board, cards.graveyard, cards.counts[..], dice.Snapshot())
    }

    /** The loop of syncTrackers, from the cursor to the last record; the cursor itself stays. */
    method Replay(records: seq<ActionRecord>) returns (r: Result<(), SyncError>)
      requires Valid() && lastProcessedActionIndex <= |records|
      modifies this, cards, cards.counts, dice.history, dice.totals, dice.turnCounters
      ensures Valid()
      ensures lastProcessedActionIndex == old(lastProcessedActionIndex)
      ensures var run := records[old(lastProcessedActionIndex)..];
        && (r.Ok? <==> NoFailure(rules, old(board), cards.universe, cards.numPlayers, run))
        && (r.Ok? ==>
              && processed == old(processed) + Range(old(lastProcessedActionIndex), |records|)
              && board == BoardAfter(rules, old(board), run)
              && cards.graveyard == old(cards.graveyard) + PlayedCards(rules, cards.universe, run)
              && dice.Snapshot() == LedgerAfter(rules, old(board), old(dice.Snapshot()), run)
              && forall p :: 0 <= p < cards.numPlayers ==>
                   cards.counts[p] == Cards.AfterEvents(old(cards.counts[p]), HandEvents(rules, old(board), cards.universe, run, p)))
        && (r.Err? ==> exists k :: old(lastProcessedActionIndex) <= k < |records| && processed == old(processed) + Range(old(lastProcessedActionIndex), k))
    {
      ghost var start := lastProcessedActionIndex;
      ghost var m0 := Recall();
      var stop;
      r, stop := ReplayLoop(records, m0);
      if r.Err? {
        FailurePersists(rules, cards.universe, cards.numPlayers, m0, records, start, stop + 1, |records|);
      }
      ReplayFromFolds(rules, cards.universe, cards.numPlayers, m0, records, start, |records|);
      assert records[start..|records|] == records[start..];
    }

    /** The loop itself, on the remembered values: it stops at the first record that throws. */
    method ReplayLoop(records: seq<ActionRecord>, ghost m0: Memory) returns (r: Result<(), SyncError>, stop: nat)
      requires Valid() && lastProcessedActionIndex <= |records|
      requires Recall() == m0
      modifies this, cards, cards.counts, dice.history, dice.totals, dice.turnCounters
      ensures Valid()
      ensures lastProcessedActionIndex == old(lastProcessedActionIndex)
      ensures old(lastProcessedActionIndex) <= stop <= |records|
      ensures processed == old(processed) + Range(old(lastProcessedActionIndex), stop)
      ensures r.Ok? ==> stop == |records|
      ensures r.Ok? ==> ReplayFrom(rules, cards.universe, cards.numPlayers, m0, records, old(lastProcessedActionIndex), stop) == Some(Recall())
      ensures r.Err? ==> stop < |records|
      ensures r.Err? ==> ReplayFrom(rules, cards.universe, cards.numPlayers, m0, records, old(lastProcessedActionIndex), stop + 1) == None
    {
      ghost var start := lastProcessedActionIndex;
      ghost var log0 := processed;
      ghost var mem := m0;
      stop := lastProcessedActionIndex;
      while stop < |records|
        invariant start <= stop <= |records|
        invariant Valid()
        invariant lastProcessedActionIndex == start
        invariant processed == log0 + Range(start, stop)
        invariant ReplayFrom(rules, cards.universe, cards.numPlayers, m0, records, start, stop) == Some(mem)
        invariant Recall() == mem
      {
        var step := ProcessRecord(records[stop]);
        if step.Err? {
          return Err(step.error), stop;
        }
        LogStep(log0, start, stop);
        processed := processed + [stop];
        mem := Remembered(rules, cards.universe, mem, records[stop]);
        stop := stop + 1;
      }
      r := Ok(());
    }
  }

  /** A run followed by one more record is failure-free when the run is and the record does not throw after it. */
  lemma NoFailureStep(rules: BoardRules, board: Board, universe: seq<Card>, n: nat, run: seq<ActionRecord>, rec: ActionRecord)
    ensures NoFailure(rules, board, universe, n, run + [rec]) <==>
      NoFailure(rules, board, universe, n, run) && !Fails(rules, BoardAfter(rules, board, run), universe, n, rec)
  {
    assert (run + [rec])[..|run|] == run;
  }

  lemma LedgerStep(rules: BoardRules, board: Board, ledger: Dice.Ledger, run: seq<ActionRecord>, rec: ActionRecord)
    ensures LedgerAfter(rules, board, ledger, run + [rec]) ==
      LoggedBy(rules, BoardAfter(rules, board, run), LedgerAfter(rules, board, ledger, run), rec)
  {
    assert (run + [rec])[..|run|] == run;
  }

  /** The board and played-card folds over a run extended by one record. */
  lemma FoldsStep(rules: BoardRules, board: Board, universe: seq<Card>, run: seq<ActionRecord>, rec: ActionRecord)
    ensures BoardAfter(rules, board, run + [rec]) == rules.applyAction(rec.action, BoardAfter(rules, board, run))
    ensures PlayedCards(rules, universe, run + [rec]) == PlayedCards(rules, universe, run) + PlayedList(rules, universe, rec)
  {
    assert (run + [rec])[..|run|] == run;
  }
  lemma CountsStep(rules: BoardRules, board: Board, universe: seq<Card>, run: seq<ActionRecord>, rec: ActionRecord,
                   counts0: seq<int>, before: seq<int>, after: seq<int>)
    requires |counts0| == |before| == |after|
    requires forall p :: 0 <= p < |before| ==>
      before[p] == Cards.AfterEvents(counts0[p], HandEvents(rules, board, universe, run, p))
    requires forall p :: 0 <= p < |before| ==>
      after[p] == Cards.AfterEvents(before[p], EventsOf(rules, BoardAfter(rules, board, run), universe, rec, p))
    ensures forall p :: 0 <= p < |before| ==>
      after[p] == Cards.AfterEvents(counts0[p], HandEvents(rules, board, universe, run + [rec], p))
  {
    var run' := run + [rec];
    assert run'[..|run|] == run;
    forall p | 0 <= p < |before|
      ensures after[p] == Cards.AfterEvents(counts0[p], HandEvents(rules, board, universe, run', p))
    {
      var es := HandEvents(rules, board, universe, run, p);
      var e := EventsOf(rules, BoardAfter(rules, board, run), universe, rec, p);
      assert HandEvents(rules, board, universe, run', p) == es + e;
      AfterEventsAppend(counts0[p], es, e);
    }
  }

  lemma AfterEventsAppend(c: int, es: seq<Cards.HandEvent>, e: seq<Cards.HandEvent>)
    requires |e| <= 1
    ensures Cards.AfterEvents(c, es + e) == Cards.AfterEvents(Cards.AfterEvents(c, es), e)
  {
    if e == [] {
      assert es + e == es;
    } else {
      assert (es + e)[..|es|] == es;
      assert e[..0] == [];
    }
  }
}
