# DetectiveGoetzbach in Dafny

This project models the decision core of DetectiveGoetzbach, an agent for the board game
Heimlich & Co., and proves properties of that model. Each player secretly controls one of seven
figurines. The agent watches the public action log and keeps three trackers:

- a **DiceTracker**, which records the movement points every player spends on every figurine;
- a **CardTracker**, which records hand sizes and the played cards;
- an **IdentityTracker**, which turns the movement history into a suspicion matrix (players by
  figurines).

Before each search the agent does three things:

- it assigns opponents to figurines greedily, highest suspicion first;
- it deals guessed hands to the opponents from a shuffled pool of hidden cards;
- it runs a Monte-Carlo tree search (MctsNode) over the game made concrete this way.

The modules follow the source classes:

| module (file) | models |
|---|---|
| `Wrappers` (wrappers.dfy) | `Option` for Java's `null`, `Result` for a thrown exception |
| `Game` (game.dfy) | the game engine's types (cards, actions, states, boards), as opaque types |
| `Lists` (lists.dfy) | `List.remove(Object)` and repeated removal |
| `Dice` (dice_tracker.dfy) | `DiceTracker`: a class over `array3`/`array2`/`array`, with the ledger view `Snapshot` |
| `Cards` (card_tracker.dfy) | `CardTracker`: a class with a `counts` array and a `graveyard` sequence |
| `Identity` (identity_tracker.dfy) | `IdentityTracker`: a class over an `array2<real>` suspicion matrix |
| `Mcts` (mcts_node.dfy) | `MctsNode`: an arena class (`SearchTree`) holding a sequence of `Node` values |
| `Assignment` (assignment.dfy) | the greedy identity loop of `addInformationToGame` |
| `Dealing` (dealing.dfy) | the hand-dealing loop of `addInformationToGame` |
| `Detective` (detective.dfy) | `syncTrackers`, `findMissingCard` and the single-action shortcut |

How the model is built:

- **Doubles are exact reals.** `Score` orders them as `Double.compare` does. `Top` stands for
  `Double.MAX_VALUE` and for the NaN or +Infinity of a division by zero; `Bottom` stands for
  -Infinity.
- **The game engine is a record of functions.** `Detective.BoardRules` and `Mcts.Engine` are
  records of oracle functions: board positions, `applyAction`, `isValidAction`,
  `getPossibleActions`, and so on.
- **Exceptions.** There are three cases:
  - Every exception on the sync's paths becomes an `Err` result. These are an out-of-range player
    id in a card operation and a board without fields.
  - A bad index into `CardTracker` or `IdentityTracker` called directly becomes a `requires`.
    Each of these is listed under "## Left out".
  - `findMissingCard`'s `temp.get(0)` on an empty list becomes `None` in
    `Detective.FindMissingCard`.
- **Random choices are nondeterministic.** `Random.nextInt` and `Collections.shuffle` become an
  unconstrained choice (`:|`), with no probability distribution.

The sync loop has three value views:

- `Recall()` is the agent's memory as a value: the board, the graveyard, the hand counts and the
  dice ledger.
- `ReplayFrom` folds the records over that memory and becomes `None` at the first record that
  throws.
- `ReplayFromFolds` ties the fold to per-component folds (`BoardAfter`, `PlayedCards`,
  `HandEvents`, `LedgerAfter`).

`Detective.DetectiveAgent.SyncTrackers` is proved against these views.

Where the model's behaviour is easy to misread, it follows the Java code exactly:

- **Out-of-range player ids.** `CardTracker.recordCardGained` and `recordCardPlayed` index their
  array without a bounds check, so an out-of-range id throws. The sync models this as
  `Err(IndexOutOfBounds)`. `DiceTracker.recordTurnMovement` checks the id and ignores such ids.
- **Boards without fields.** `syncTrackers` computes the forward distance with `% numFields`, so
  a board with zero fields throws. The model returns `Err(ArithmeticError)`.
- **The burst window.** `calculateBurstFactor` looks at the last five slots of the 100-slot
  history array, slots 95 to 99, not at the player's latest turns.
  `Identity.BurstFactorOfTrackerRow` proves that the factor is exactly 1.0 while a player has at
  most 95 recorded turns.
- **Expansion with no action.** `MctsNode.expansion(null)` returns the node itself, terminal or
  not.
- **Rewards.** `MctsNode.backpropagation` takes an `int` and throws unless the reward is 0 or 1.

## Model

| member | source | states |
|---|---|---|
| Lists.RemoveFirst | src/main/java/heimlich_and_co_agent/CardTracker.java:63 | `List.remove(x)`: a list holding x loses exactly one element; a list without x is unchanged |
| Lists.RemoveFirstMultiset | src/main/java/heimlich_and_co_agent/CardTracker.java:63 | the removal takes away exactly one copy of x, as a multiset |
| Lists.RemoveFirstCutsFirstOccurrence | src/main/java/heimlich_and_co_agent/CardTracker.java:63 | the copy removed is the first occurrence; the other elements keep their order |
| Lists.RemoveAll | src/main/java/heimlich_and_co_agent/CardTracker.java:62-64 | removing each element of xs in turn leaves the multiset difference s - xs |
| Lists.RemoveAllStep | src/main/java/heimlich_and_co_agent/CardTracker.java:62-64 | a removal loop after i + 1 passes equals one more `remove` after i passes |
| Lists.RemoveAllLength | src/main/java/heimlich_and_co_agent/CardTracker.java:62-64 | when xs fits inside s as a multiset, exactly as many elements go as xs holds |
| Lists.RemoveFirstSubset | src/main/java/heimlich_and_co_agent/DetectiveGoetzbach.java:204-205 | a removal never adds an element |
| Lists.RemoveFirstDistinct | src/main/java/heimlich_and_co_agent/DetectiveGoetzbach.java:204-205 | removing from a list without duplicates leaves one without duplicates and without x |
| Dice.DiceTracker.constructor | src/main/java/heimlich_and_co_agent/DiceTracker.java:32-37 | fresh zeroed arrays of the three sizes: no turn counted and every total 0; the ledger invariant holds |
| Dice.DiceTracker.RecordTurnMovement | src/main/java/heimlich_and_co_agent/DiceTracker.java:44-62 | a valid id whose counter is below 100 gets, for all 7 figurines, getOrDefault(a, 0) written into slot [p][a][turn] and added to the total; only that counter rises, by 1; any other call changes nothing; every total stays the sum of its recorded slots |
| Dice.Capped | src/main/java/heimlich_and_co_agent/DiceTracker.java:48 | a history never passes MaxTurns entries; a full one keeps its first 100 turns |
| Dice.LoggedTurn | src/main/java/heimlich_and_co_agent/DiceTracker.java:44-62 | on the ledger view a turn appends getOrDefault(a, 0) to each of the player's rows below 100 turns, leaves full rows alone and leaves other players alone |
| Dice.DiceTracker.TurnLogged | src/main/java/heimlich_and_co_agent/DiceTracker.java:44-62 | the ledger after recordTurnMovement is the ledger before, logged with that turn |
| Dice.DiceTracker.SnapshotAgrees | src/main/java/heimlich_and_co_agent/DiceTracker.java:68-96 | the ledger view matches the getters: the turn count, the total as the sum of the turns, and the recorded history |
| Dice.DiceTracker.TotalInvestedPoints | src/main/java/heimlich_and_co_agent/DiceTracker.java:68-71 | the sum of the player's recorded turns for the figurine, 0 for an unknown id; non-negative when every recorded move is |
| Dice.DiceTracker.RecordedPrefixNonNegative | src/main/java/heimlich_and_co_agent/DiceTracker.java:58 | with non-negative recorded moves the totals stay non-negative |
| Dice.SumIgnoresZeroTail | src/main/java/heimlich_and_co_agent/DiceTracker.java:90 | unrecorded zero slots add nothing to a row's sum |
| Dice.DiceTracker.MovementHistoryForAgent | src/main/java/heimlich_and_co_agent/DiceTracker.java:88-91 | the full 100-slot row for a valid player, zero past the turn counter and summing to the total; [] for an unknown id |
| Dice.DiceTracker.TurnCount | src/main/java/heimlich_and_co_agent/DiceTracker.java:93-96 | the player's counter, within [0, 100]; 0 for an unknown id |
| Cards.CardTracker.constructor | src/main/java/heimlich_and_co_agent/CardTracker.java:17-32 | every count is 2, the graveyard is empty, and the universe is the deck |
| Cards.CardTracker.RecordCardGained | src/main/java/heimlich_and_co_agent/CardTracker.java:38-43 | the player's count rises by one below 4 and stays at 4; no other count changes |
| Cards.CardTracker.RecordCardPlayed | src/main/java/heimlich_and_co_agent/CardTracker.java:49-54 | the card is appended to the graveyard; the player's count drops by one above 0 and stays at 0; no other count changes |
| Cards.HandSizeStaysInRange | src/main/java/heimlich_and_co_agent/CardTracker.java:38-54 | from [0, 4], any run of gains and plays leaves a hand size in [0, 4] |
| Cards.GainsSaturate | src/main/java/heimlich_and_co_agent/CardTracker.java:40-42 | k gains take a count to count + k, capped at 4: gains at 4 are no-ops |
| Cards.CardTracker.GetHiddenPool | src/main/java/heimlich_and_co_agent/CardTracker.java:60-69 | the universe less one occurrence of each graveyard card, then of each own card, in universe order; as a multiset, universe - graveyard - own; with graveyard + own inside the universe, of size #universe - #graveyard - #own; the tracker is unchanged |
| Cards.HiddenPoolFacts | src/main/java/heimlich_and_co_agent/CardTracker.java:60-69 | the pool's multiset and size laws above, about the values |
| Cards.CardTracker.PlayerCardCount | src/main/java/heimlich_and_co_agent/CardTracker.java:71-73 | the player's count, always within [0, 4] |
| Cards.CardTracker.GetTotalCardsInGame | src/main/java/heimlich_and_co_agent/CardTracker.java:80-84 | a copy equal to the universe; as a value, changing it cannot change the tracker |
| Identity.IdentityTracker.constructor | src/main/java/heimlich_and_co_agent/IdentityTracker.java:13-17 | a zero numPlayers x 7 matrix over the given DiceTracker |
| Identity.CountBursts | src/main/java/heimlich_and_co_agent/IdentityTracker.java:59 | the number of slots above 3, never more than the slots looked at |
| Identity.CalculateBurstFactor | src/main/java/heimlich_and_co_agent/IdentityTracker.java:54-62 | the backward loop gives 1.0 + 0.2 x (slots above 3 among the last 5 array indices), a value in [1.0, 2.0] |
| Identity.BurstFactorBounds | src/main/java/heimlich_and_co_agent/IdentityTracker.java:56-61 | the burst factor lies in [1.0, 2.0] |
| Identity.BurstFactorOfTrackerRow | src/main/java/heimlich_and_co_agent/IdentityTracker.java:58 | on a DiceTracker row the window is slots 95-99; with at most 95 recorded turns the factor is exactly 1.0 |
| Identity.NoBurstsInZeros | src/main/java/heimlich_and_co_agent/IdentityTracker.java:59 | zero slots never count as a burst |
| Identity.Scaled | src/main/java/heimlich_and_co_agent/IdentityTracker.java:68 | dividing every entry keeps the row length |
| Identity.ScaledSum | src/main/java/heimlich_and_co_agent/IdentityTracker.java:68 | dividing every entry by c divides the row sum by c |
| Identity.Normalized | src/main/java/heimlich_and_co_agent/IdentityTracker.java:64-70 | normalising keeps the row length (its meaning is in NormalizedIsDistribution) |
| Identity.NormalizedIsDistribution | src/main/java/heimlich_and_co_agent/IdentityTracker.java:64-70 | a non-negative row with a positive sum normalises to entries in [0, 1] summing to 1 |
| Identity.RawSuspicion | src/main/java/heimlich_and_co_agent/IdentityTracker.java:33-43 | one entry per figurine |
| Identity.PositiveSumHasPositiveEntry | src/main/java/heimlich_and_co_agent/IdentityTracker.java:31 | a player with positive, non-negative points has a figurine with positive points |
| Identity.IdentityTracker.MatrixRow | src/main/java/heimlich_and_co_agent/IdentityTracker.java:11 | row p of the matrix, entry by entry |
| Identity.IdentityTracker.Invested | src/main/java/heimlich_and_co_agent/IdentityTracker.java:28 | the player's getTotalInvestedPoints for each of the 7 figurines |
| Identity.IdentityTracker.Histories | src/main/java/heimlich_and_co_agent/IdentityTracker.java:39 | one history row per figurine |
| Identity.IdentityTracker.RawRow | src/main/java/heimlich_and_co_agent/IdentityTracker.java:33-43 | one raw entry per figurine |
| Identity.IdentityTracker.SuspicionRowIsDistribution | src/main/java/heimlich_and_co_agent/IdentityTracker.java:24-48 | with non-negative movement data, a player with points gets a row in [0, 1] summing to 1 |
| Identity.IdentityTracker.RecomputedRow | src/main/java/heimlich_and_co_agent/IdentityTracker.java:24-48 | recomputing a row with evidence gives a distribution, and a row that was zero or a distribution stays one |
| Identity.IdentityTracker.NormalizeRow | src/main/java/heimlich_and_co_agent/IdentityTracker.java:64-70 | row p becomes its normalised form (divided by its sum when the sum is positive, else unchanged); other rows are unchanged |
| Identity.IdentityTracker.CalculateSuspicion | src/main/java/heimlich_and_co_agent/IdentityTracker.java:24-48 | a player with 0 points keeps the previous row; any other row becomes the normalised (share x burst factor) row; with non-negative data every such row is a distribution and a well-formed matrix stays well-formed; only the matrix is written |
| Identity.IdentityTracker.RecomputeRows | src/main/java/heimlich_and_co_agent/IdentityTracker.java:25-47 | the outer loop recomputes every row from its old value |
| Identity.IdentityTracker.UpdateRow | src/main/java/heimlich_and_co_agent/IdentityTracker.java:26-46 | one player's pass: skip on 0 points, else raw row then normalise; other rows are unchanged |
| Identity.IdentityTracker.TotalPointsBy | src/main/java/heimlich_and_co_agent/IdentityTracker.java:26-29 | the sum of the player's invested points over the 7 figurines |
| Identity.IdentityTracker.FillRawRow | src/main/java/heimlich_and_co_agent/IdentityTracker.java:33-43 | row p becomes the raw row: share of points x burst factor; other rows are unchanged |
| Identity.IdentityTracker.WriteEntry | src/main/java/heimlich_and_co_agent/IdentityTracker.java:42 | one cell gets its raw entry; no other cell changes |
| Identity.IdentityTracker.SuspicionEntry | src/main/java/heimlich_and_co_agent/IdentityTracker.java:36-42 | basicProb x burstModifier is the raw row's entry for the figurine |
| Identity.IdentityTracker.RawRowEntry | src/main/java/heimlich_and_co_agent/IdentityTracker.java:36-42 | the raw entry is the invested share times the burst factor of the history row |
| Identity.IdentityTracker.Suspicion | src/main/java/heimlich_and_co_agent/IdentityTracker.java:72-74 | a lookup into the matrix, within [0, 1] in a well-formed row |
| Mcts.Compare | src/main/java/heimlich_and_co_mcts_agent/MctsNode.java:57-58 | the comparator is a total order on scores: 0 exactly for equal scores, negative exactly for a smaller one |
| Mcts.MaxScore | src/main/java/heimlich_and_co_mcts_agent/MctsNode.java:251-255 | the larger of two scores |
| Mcts.GreatestIsMaximum | src/main/java/heimlich_and_co_mcts_agent/MctsNode.java:251-255 | the running maximum bounds every score and is attained |
| Mcts.KeepEqualMembers | src/main/java/heimlich_and_co_mcts_agent/MctsNode.java:249-250 | the kept actions are exactly those whose score equals the maximum |
| Mcts.KeepEqualNone | src/main/java/heimlich_and_co_mcts_agent/MctsNode.java:249-250 | no action is kept for a score nobody attains |
| Mcts.FirstFailureAppend | src/main/java/heimlich_and_co_mcts_agent/MctsNode.java:246 | the first failing score of a concatenation comes from the first part when it has one |
| Mcts.NoFailureMeansAllScored | src/main/java/heimlich_and_co_mcts_agent/MctsNode.java:249-251 | without a failure every action's score is defined |
| Mcts.FailureHasWitness | src/main/java/heimlich_and_co_mcts_agent/MctsNode.java:249-251 | a failure comes from some action |
| Mcts.MaximumValuedIsMaxima | src/main/java/heimlich_and_co_mcts_agent/MctsNode.java:236-258 | a successful scan returns exactly the actions of maximal value, non-empty iff the input is |
| Mcts.MaximumValuedFailure | src/main/java/heimlich_and_co_mcts_agent/MctsNode.java:244-258 | the scan throws iff there are at least two actions and one of them cannot be scored |
| Mcts.GetMaximumValuedActions | src/main/java/heimlich_and_co_mcts_agent/MctsNode.java:244-258 | the single-pass loop returns the ties for the maximum in iteration order, or the first comparator exception |
| Mcts.KeepMaximal | src/main/java/heimlich_and_co_mcts_agent/MctsNode.java:247-255 | one pass: the list becomes the maxima of the longer prefix, or the scan's exception |
| Mcts.ChildOf | src/main/java/heimlich_and_co_mcts_agent/MctsNode.java:110-113 | an action leads to a child only when it is a child key |
| Mcts.Ancestry | src/main/java/heimlich_and_co_mcts_agent/MctsNode.java:94-96 | a node's ancestors all lie at or before it and include it |
| Mcts.Bumped | src/main/java/heimlich_and_co_mcts_agent/MctsNode.java:92-93 | the nodes in the set gain one playout and win wins; the others are unchanged |
| Mcts.AncestrySameLinks | src/main/java/heimlich_and_co_mcts_agent/MctsNode.java:94-96 | counter updates keep the parent chain |
| Mcts.AncestryClosed | src/main/java/heimlich_and_co_mcts_agent/MctsNode.java:161-162 | an ancestor of a child is an ancestor of its descendants |
| Mcts.BumpAncestors | src/main/java/heimlich_and_co_mcts_agent/MctsNode.java:92-96 | bumping n, then everything from its parent up, bumps everything from n up |
| Mcts.BumpedConsistent | src/main/java/heimlich_and_co_mcts_agent/MctsNode.java:88-97 | a backpropagation keeps wins <= playouts and child playouts <= parent playouts |
| Mcts.BumpedWellFormed | src/main/java/heimlich_and_co_mcts_agent/MctsNode.java:92-93 | counter updates keep the tree's links |
| Mcts.Expanded | src/main/java/heimlich_and_co_mcts_agent/MctsNode.java:135-136 | expansion adds exactly one node |
| Mcts.ExpandedWellFormed | src/main/java/heimlich_and_co_mcts_agent/MctsNode.java:66-73 | the new child hangs under the node, one level deeper, with the state the action leads to |
| Mcts.FreshKeyKeepsValues | src/main/java/heimlich_and_co_mcts_agent/MctsNode.java:136 | a put under a fresh key keeps the other children |
| Mcts.ExpandedConsistent | src/main/java/heimlich_and_co_mcts_agent/MctsNode.java:135 | a fresh 0/0 child keeps the counter invariants |
| Mcts.Qsa | src/main/java/heimlich_and_co_mcts_agent/MctsNode.java:109-114 | a non-child action throws; a child key gives its win ratio |
| Mcts.QsaIsWinRate | src/main/java/heimlich_and_co_mcts_agent/MctsNode.java:100-113 | in a consistent tree Q is wins/playouts in [0, 1], or the NaN of 0/0 for an unplayed child |
| Mcts.RatioInUnitInterval | src/main/java/heimlich_and_co_mcts_agent/MctsNode.java:102 | 0 <= wins <= playouts gives a ratio in [0, 1] |
| Mcts.OpponentQIsComplement | src/main/java/heimlich_and_co_mcts_agent/MctsNode.java:218-226 | the opponents' Q is one minus the optimised player's |
| Mcts.Uct | src/main/java/heimlich_and_co_mcts_agent/MctsNode.java:205-233 | invalid action: throws; no children or no child for the action: MAX_VALUE; a child with zero playouts (or none at the node): throws; otherwise Q for the player to move plus the exploration term |
| Mcts.UctDefinedOnVisitedTree | src/main/java/heimlich_and_co_mcts_agent/MctsNode.java:215-217 | once every node has a playout, a valid action never throws |
| Mcts.UntriedBeatsTried | src/main/java/heimlich_and_co_mcts_agent/MctsNode.java:196-211 | an untried action scores MAX_VALUE, strictly above any tried one |
| Mcts.UntriedFirst | src/main/java/heimlich_and_co_mcts_agent/MctsNode.java:142-158 | while an untried action exists, the UCT maxima contain only untried actions: every action is tried once before any is tried twice |
| Mcts.Without | src/main/java/heimlich_and_co_mcts_agent/MctsNode.java:154 | `Set.remove` of the random roll: the remaining actions are the others |
| Mcts.SearchTree.constructor | src/main/java/heimlich_and_co_mcts_agent/MctsNode.java:66-76 | a root at depth 0 without parent or children, 0/0 |
| Mcts.SearchTree.WithCounts | src/main/java/heimlich_and_co_mcts_agent/MctsNode.java:60-64 | a root with the given counters, consistent iff 0 <= wins <= playouts |
| Mcts.SearchTree.Backpropagation | src/main/java/heimlich_and_co_mcts_agent/MctsNode.java:88-97 | a win outside {0, 1} throws and changes nothing; otherwise the node and every ancestor gains one playout and win wins, nothing else changes, and the counter invariants are kept |
| Mcts.SearchTree.Expansion | src/main/java/heimlich_and_co_mcts_agent/MctsNode.java:125-138 | no action: the node itself; an invalid or already expanded action throws and changes nothing; otherwise exactly one new 0/0 child under the action, one level deeper, whose index is returned; the invariants are kept |
| Mcts.SearchTree.Selection | src/main/java/heimlich_and_co_mcts_agent/MctsNode.java:146-165 | a terminal state gives (node, no action); otherwise it descends through existing children and returns a descendant with a possible action that is not yet expanded there; an untried action keeps selection at the node |
| Mcts.SearchTree.GetBestChild | src/main/java/heimlich_and_co_mcts_agent/MctsNode.java:173-181 | a leaf throws; otherwise an existing (child, key) pair whose Q is maximal among the children |
| Mcts.EnumerateKeys | src/main/java/heimlich_and_co_mcts_agent/MctsNode.java:174 | the key set in some order, each key exactly once |
| Assignment.Opponents | src/main/java/heimlich_and_co_agent/DetectiveGoetzbach.java:181-184 | every seat except the own one, in increasing seat order |
| Assignment.OpponentsList | src/main/java/heimlich_and_co_agent/DetectiveGoetzbach.java:181-184 | the loop builds exactly that list |
| Assignment.Row | src/main/java/heimlich_and_co_agent/DetectiveGoetzbach.java:192 | one opponent against each figurine of the pool, in pool order |
| Assignment.PairsMembers | src/main/java/heimlich_and_co_agent/DetectiveGoetzbach.java:191-192 | the nested scan visits exactly the pairs of the two pools |
| Assignment.ScanBestIsFirstMaximum | src/main/java/heimlich_and_co_agent/DetectiveGoetzbach.java:187-200 | the scan with its strict `>` finds a pair of maximal score with no earlier pair scoring as much, and none exactly when no score beats -1.0 |
| Assignment.ScanStep | src/main/java/heimlich_and_co_agent/DetectiveGoetzbach.java:194-198 | one more pair replaces the best only with a strictly higher score |
| Assignment.ScanRowStep | src/main/java/heimlich_and_co_agent/DetectiveGoetzbach.java:192-198 | the inner loop's step on the candidate order |
| Assignment.PairsStep | src/main/java/heimlich_and_co_agent/DetectiveGoetzbach.java:191 | the outer loop's step on the candidate order |
| Assignment.ScanRow | src/main/java/heimlich_and_co_agent/DetectiveGoetzbach.java:192-199 | the inner loop leaves the scan state of the candidates so far plus the row |
| Assignment.FindBestPair | src/main/java/heimlich_and_co_agent/DetectiveGoetzbach.java:187-200 | the nested loops leave bestOpp, bestAgent and maxScore as the scan over all pairs; bestOpp is -1 exactly when nothing was found |
| Assignment.ScanPicksFromPools | src/main/java/heimlich_and_co_agent/DetectiveGoetzbach.java:187-202 | with non-empty pools and every score above -1.0 a round always finds a pair, from the pools |
| Assignment.GreedyUnfold | src/main/java/heimlich_and_co_agent/DetectiveGoetzbach.java:202-206 | a round that finds a pair commits it and goes on with both pools less that pair |
| Assignment.GreedyRound | src/main/java/heimlich_and_co_agent/DetectiveGoetzbach.java:186-207 | each round commits the first highest-suspicion pair of the remaining pools |
| Assignment.GreedyLength | src/main/java/heimlich_and_co_agent/DetectiveGoetzbach.java:186-207 | the loop commits min(#opponents, #figurines) pairs |
| Assignment.GreedyFromPools | src/main/java/heimlich_and_co_agent/DetectiveGoetzbach.java:202-206 | every committed pair comes from the pools |
| Assignment.GreedyDistinct | src/main/java/heimlich_and_co_agent/DetectiveGoetzbach.java:202-206 | no opponent and no figurine is committed twice |
| Assignment.ConsDistinct | src/main/java/heimlich_and_co_agent/DetectiveGoetzbach.java:204-205 | a pair taken out of both pools is distinct from all later pairs |
| Assignment.ApplyFacts | src/main/java/heimlich_and_co_agent/DetectiveGoetzbach.java:203 | after the puts, each committed opponent maps to its figurine and every other key keeps its entry |
| Assignment.ApplyCons | src/main/java/heimlich_and_co_agent/DetectiveGoetzbach.java:203 | the first put, then the rest, is all puts in order |
| Assignment.CommitRound | src/main/java/heimlich_and_co_agent/DetectiveGoetzbach.java:202-206 | committing one round keeps the final map equal to the whole greedy assignment |
| Assignment.SuspicionScores | src/main/java/heimlich_and_co_agent/DetectiveGoetzbach.java:193 | the score the loop reads for an opponent and a figurine inside the matrix is identityTracker.getSuspicion of that pair |
| Assignment.SuspicionsAboveSentinel | src/main/java/heimlich_and_co_agent/DetectiveGoetzbach.java:189-195 | when every matrix row is all zero or a distribution, every suspicion beats the starting maximum -1.0, so each round of the greedy loop finds a pair |
| Assignment.AssignIdentities | src/main/java/heimlich_and_co_agent/DetectiveGoetzbach.java:174-207 | the loop's map is the known map with the greedy assignment of opponents (in seat order) to the board's figurines less the own one |
| Assignment.AssignmentFacts | src/main/java/heimlich_and_co_agent/DetectiveGoetzbach.java:174-207 | only opponents are assigned, each once, each to a board figurine other than the own one, no figurine twice, and min(#opponents, #figurines) of them |
| Dealing.Shuffle | src/main/java/heimlich_and_co_agent/DetectiveGoetzbach.java:212 | some permutation of the pool |
| Dealing.TakeFront | src/main/java/heimlich_and_co_agent/DetectiveGoetzbach.java:218-221 | the inner loop takes min(handSize, #pool) cards (0 for handSize <= 0) from the front, in order |
| Dealing.Consumed | src/main/java/heimlich_and_co_agent/DetectiveGoetzbach.java:214-223 | the seats never take more cards than the pool has |
| Dealing.DealHands | src/main/java/heimlich_and_co_agent/DetectiveGoetzbach.java:214-223 | the seat loop puts each opponent's slice of the pool into the card map and leaves the rest of the pool |
| Dealing.HandLength | src/main/java/heimlich_and_co_agent/DetectiveGoetzbach.java:217-221 | an opponent's hand has min(handSize, cards left after earlier seats) cards |
| Dealing.ConsumedMonotone | src/main/java/heimlich_and_co_agent/DetectiveGoetzbach.java:214-223 | later seats start where earlier ones stop |
| Dealing.ConcatIsPrefix | src/main/java/heimlich_and_co_agent/DetectiveGoetzbach.java:214-223 | the hands in seat order are a prefix of the shuffled pool, so they are disjoint slices |
| Dealing.AppendSlices | src/main/java/heimlich_and_co_agent/DetectiveGoetzbach.java:220 | a prefix followed by the next slice is a longer prefix |
| Dealing.SplitMultiset | src/main/java/heimlich_and_co_agent/DetectiveGoetzbach.java:220 | a prefix and its rest together make up the pool |
| Dealing.HandsPartitionPool | src/main/java/heimlich_and_co_agent/DetectiveGoetzbach.java:211-223 | the hands and the cards left over make up the hidden pool exactly |
| Dealing.DealtHands | src/main/java/heimlich_and_co_agent/DetectiveGoetzbach.java:222 | every opponent's entry is its hand; the own entry and all other keys are kept |
| Dealing.AmplePoolFillsHands | src/main/java/heimlich_and_co_agent/DetectiveGoetzbach.java:217-221 | a pool as large as the tracked hands gives every opponent exactly its tracked hand size |
| Dealing.AmpleHand | src/main/java/heimlich_and_co_agent/DetectiveGoetzbach.java:217-221 | one opponent's hand has its tracked size when the pool is ample |
| Dealing.AmpleConsumed | src/main/java/heimlich_and_co_agent/DetectiveGoetzbach.java:217-221 | with an ample pool the seats take exactly the tracked hand sizes |
| Dealing.OpponentCardsMonotone | src/main/java/heimlich_and_co_agent/DetectiveGoetzbach.java:217 | the tracked hand sizes of the seats add up monotonically |
| Detective.JavaRem | src/main/java/heimlich_and_co_agent/DetectiveGoetzbach.java:309 | Java's `%`: the sign of the dividend, smaller than the divisor in size |
| Detective.ForwardDistance | src/main/java/heimlich_and_co_agent/DetectiveGoetzbach.java:309 | with both positions on the board the distance lies in [0, numFields), leads from before to after around the track, and is 0 iff the figurine stayed |
| Detective.MovesBelowStep | src/main/java/heimlich_and_co_agent/DetectiveGoetzbach.java:308-310 | a figurine is put into the move map exactly when its distance is positive |
| Detective.DeducedMovesCharges | src/main/java/heimlich_and_co_agent/DetectiveGoetzbach.java:306-314 | the DiceTracker is charged each figurine's positive distance, 0 otherwise; no charge is negative |
| Detective.DeduceMoves | src/main/java/heimlich_and_co_agent/DetectiveGoetzbach.java:306-311 | the loop builds the deduced move map; a board without fields throws |
| Detective.FindMissingCard | src/main/java/heimlich_and_co_agent/DetectiveGoetzbach.java:344-350 | the head of original less one occurrence of each card of reduced, or nothing when that is empty (get(0) throws) |
| Detective.MissingCardFacts | src/main/java/heimlich_and_co_agent/DetectiveGoetzbach.java:329-330 | a shorter list always yields a card, one that the shorter list holds fewer copies of |
| Detective.MissingCardIsRemovedOne | src/main/java/heimlich_and_co_agent/DetectiveGoetzbach.java:344-350 | with reduced equal to original less one card c, the card found is c |
| Detective.PlayedCardsInUniverse | src/main/java/heimlich_and_co_agent/DetectiveGoetzbach.java:323-331 | every card the sync puts in the graveyard is a card of the universe |
| Detective.NoFailureEverywhere | src/main/java/heimlich_and_co_agent/DetectiveGoetzbach.java:284-339 | a run is failure-free iff each record passes on the board the records before it leave |
| Detective.NoFailureStep | src/main/java/heimlich_and_co_agent/DetectiveGoetzbach.java:284-339 | a run plus one record is failure-free iff the run is and the record passes after it |
| Detective.FoldedStep | src/main/java/heimlich_and_co_agent/DetectiveGoetzbach.java:285-338 | remembering one more record extends the board, graveyard, ledger and hand folds |
| Detective.AdvanceFolds | src/main/java/heimlich_and_co_agent/DetectiveGoetzbach.java:285-338 | one replay step keeps the replay in step with the folds |
| Detective.ReplayFromFolds | src/main/java/heimlich_and_co_agent/DetectiveGoetzbach.java:284-339 | the replay gets through a run iff no record throws, and then holds the board, graveyard, ledger and hand folds |
| Detective.FailurePersists | src/main/java/heimlich_and_co_agent/DetectiveGoetzbach.java:284-339 | once a record throws, the replay stays failed |
| Detective.LedgerStep | src/main/java/heimlich_and_co_agent/DetectiveGoetzbach.java:314 | the ledger fold over one more record |
| Detective.FoldsStep | src/main/java/heimlich_and_co_agent/DetectiveGoetzbach.java:302 | the board and graveyard folds over one more record |
| Detective.CountsStep | src/main/java/heimlich_and_co_agent/DetectiveGoetzbach.java:297-331 | the hand-count fold over one more record |
| Detective.AfterEventsAppend | src/main/java/heimlich_and_co_agent/CardTracker.java:38-54 | hand events applied in two runs are the events of both |
| Detective.Range | src/main/java/heimlich_and_co_agent/DetectiveGoetzbach.java:284 | the loop's indices lo .. hi - 1, in order |
| Detective.RangeSplit | src/main/java/heimlich_and_co_agent/DetectiveGoetzbach.java:284-340 | two syncs in a row cover the indices of one sync over both stretches |
| Detective.LogStep | src/main/java/heimlich_and_co_agent/DetectiveGoetzbach.java:284 | logging one more index extends the range |
| Detective.RunStep | src/main/java/heimlich_and_co_agent/DetectiveGoetzbach.java:284-285 | the run up to record i + 1 is the run up to i plus record i |
| Detective.SingleActionShortcut | src/main/java/heimlich_and_co_agent/DetectiveGoetzbach.java:77-80 | an action is returned at once exactly when it is the only possible one (the actions are the returned set in its iteration order) |
| Detective.DetectiveAgent.constructor | src/main/java/heimlich_and_co_agent/DetectiveGoetzbach.java:62-72 | the first-turn initialisation: fresh trackers sized for the players, every hand count 2, every dice counter and total 0, so the remembered state is the board, an empty graveyard, counts of 2 and an empty ledger; the cursor at 0 |
| Detective.DetectiveAgent.ProcessMove | src/main/java/heimlich_and_co_agent/DetectiveGoetzbach.java:290-315 | the card gain is checked on the board before the move, the move is applied, and the deduced distances are recorded for the player; it throws exactly on a gain for an unknown player or a board without fields |
| Detective.DetectiveAgent.ProcessCardAction | src/main/java/heimlich_and_co_agent/DetectiveGoetzbach.java:318-334 | a non-skip action whose removal shrank the list records the identified card and a play; a skip or no shrink records nothing; the board is advanced |
| Detective.DetectiveAgent.ProcessRecord | src/main/java/heimlich_and_co_agent/DetectiveGoetzbach.java:285-338 | one record, dispatched by action class: the memory after it is what Remembered gives, or it throws exactly when the record fails |
| Detective.DetectiveAgent.Replay | src/main/java/heimlich_and_co_agent/DetectiveGoetzbach.java:284-339 | the loop from the cursor: without a throwing record every index is processed once, in order, with the board, graveyard, ledger and hand counts given by the folds |
| Detective.DetectiveAgent.ReplayLoop | src/main/java/heimlich_and_co_agent/DetectiveGoetzbach.java:284-339 | the loop agrees with ReplayFrom and stops at the first record that throws |
| Detective.DetectiveAgent.SyncTrackers | src/main/java/heimlich_and_co_agent/DetectiveGoetzbach.java:281-341 | each record index from the cursor on is processed exactly once, in order, then the cursor moves to the end; a call with no new records changes nothing; a throwing record stops the sync and leaves the cursor |

## Left out

- The game engine (`HeimlichAndCo`, `HeimlichAndCoBoard`, the action classes and the card-stack
  factory) is not part of this model. Its values are opaque types, and what the core asks of them
  is a set of oracle functions. A board position is a total function of the figurine.
  `posBefore.keySet()` is taken to hold all 7 figurines.
- Cards, actions and states are compared by equality only, as `List.remove` and `HashMap` keys
  compare them.
- Randomness is an unconstrained choice, with no distribution. This covers `Random.nextInt` in
  selection and getBestChild and `Collections.shuffle`: `Dealing.Shuffle` states a permutation
  only.
- The UCT exploration term `C * sqrt(log(nS) / nSA)` with `C = sqrt(2)` is an oracle
  parameter, because square roots and logarithms are floating point.
- Doubles are exact reals. Rounding is not modelled, so neither is the floating-point tolerance
  of the row sums.
- `Score` gives the NaN of 0/0 and the +Infinity of w/0 the same rank (`Top`), although
  `Double.compare` puts NaN above +Infinity. In a consistent tree only 0/0 occurs.
- `Score` likewise ranks `Double.MAX_VALUE` above every finite score.
- `getAverageMovement` (DiceTracker) is left out because it is a floating-point average
  that nothing in the core calls.
- The MCTS driver in `computeNextAction` is left out:
  - the search loop;
  - its time and memory checks;
  - `mctsSimulation` and its reward;
  - the delegation to `HeimlichAndCoMCTSAgent`;
  - the logging;
  - the catch-all fallback to a random action.

  All of these depend on the engine, the clock or the runtime. Only the single-action shortcut
  is modelled.
- `MCTSNode` (with a double-valued backpropagation) and `DiceTracker.getNumbRolls` are not part
  of this model. The agent refers to them, but they are not in the source files.
- The commented-out earlier version of `addInformationToGame` is dead code.
- `addInformationToGame` is modelled as its parts rather than as one method:
  - the sync (`Detective.DetectiveAgent.SyncTrackers`);
  - the suspicion update (`Identity.IdentityTracker.CalculateSuspicion`);
  - the greedy loop (`Assignment.AssignIdentities`);
  - the dealing (`Cards.CardTracker.GetHiddenPool`, `Dealing.Shuffle`, `Dealing.DealHands`).

  The `isWithCards` test and the engine's `getPlayersToAgentsMap` and `getCards` are not
  modelled.
- The lazily created trackers (`diceTracker == null`, `identityTracker == null`) are modelled
  as constructors.
- Java `int` overflow is not modelled: counters, points and totals are unbounded integers.
- `getMovementHistoryForAgent` returns the tracker's own array, so a caller could write into it.
  The model returns a sequence value, and this aliasing is not modelled.
- The parent chain of the search tree is an arena index. Java object identity and the `depth`
  field's use outside the tree are not modelled.
- Assignment.AssignIdentities: requires every score to exceed -1.0, since otherwise the source's
  loop never ends. `Assignment.SuspicionsAboveSentinel` proves that the tracker's scores meet this
  whenever every matrix row is all zero or a distribution, which
  `Identity.IdentityTracker.CalculateSuspicion` keeps while the ledger is non-negative.
- Cards.CardTracker.RecordCardGained: requires a valid player id, because the source indexes its
  array without a check. The sync models the resulting exception as `Err(IndexOutOfBounds)`
  before the call.
- Cards.CardTracker.RecordCardPlayed: requires a valid player id, for the same reason.
- Cards.CardTracker.PlayerCardCount: requires a valid player id, for the same reason.
- Identity.IdentityTracker.Suspicion: requires a player and a figurine inside the matrix, for
  the same reason.
- Detective.DetectiveAgent.ProcessRecord: promises nothing about the state after `Err`.
- Detective.DetectiveAgent.ProcessCardAction: returns `Err` for an out-of-range player before it
  appends the identified card to the graveyard. Java's `recordCardPlayed` appends first and then
  throws on the count array (CardTracker.java:50-51), so there the card stays in the graveyard.
- Detective.DetectiveAgent.SyncTrackers: on `Err` it states the cursor and the processed indices
  but not the trackers' partial state. In Java the records before the throwing one stay applied,
  and the exception reaches `computeNextAction`'s catch-all. A card play by an out-of-range
  player has also already added its card to the graveyard when it throws, because
  `recordCardPlayed` appends before it indexes the count array; `ProcessCardAction` returns `Err`
  before appending.
- The graveyard holds no card twice only because the engine plays each card once. The
  identification diff runs against the full universe, not universe minus graveyard, so the model
  does not prove this.
