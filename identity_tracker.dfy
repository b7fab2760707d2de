/**
 * IdentityTracker: a suspicion matrix, players by figurines. An entry is the share of the
 * player's movement points spent on the figurine, scaled by a burst factor; each row that
 * has evidence is then normalised to sum to 1. Doubles are modelled as exact reals.
 */
module Identity {
  import opened Game
  import opened Dice

  /** recentTurnsToCheck: how many trailing history slots the burst factor looks at. */
  const BurstWindow: nat := 5
  /** A slot counts as a burst when it holds more than this many points. */
  const BurstThreshold: int := 3
  /** What each burst slot adds to the factor. */
  const BurstStep: real := 0.2

  /** The number of slots holding more than BurstThreshold points. */
  function CountBursts(s: seq<int>): (n: nat)
    ensures n <= |s|
  {
    if s == [] then 0 else (if s[0] > BurstThreshold then 1 else 0) + CountBursts(s[1..])
  }

  /** The first index of the burst window: the last BurstWindow indices of the array, or all of a shorter one. */
  function WindowStart(length: nat): nat
  {
    if length < BurstWindow then 0 else length - BurstWindow
  }

  /** The burst factor the loop of calculateBurstFactor arrives at. */
  function BurstFactor(h: seq<int>): real
  {
    1.0 + BurstStep * CountBursts(h[WindowStart(|h|)..]) as real
  }

  /** The factor lies in [1.0, 2.0]: at most five slots add 0.2 each. */
  lemma BurstFactorBounds(h: seq<int>)
    ensures 1.0 <= BurstFactor(h) <= 2.0
  {
    var n := CountBursts(h[WindowStart(|h|)..]);
    assert n <= BurstWindow;
  }

  /** calculateBurstFactor: walks back from the last slot over at most BurstWindow slots. */
  method CalculateBurstFactor(h: seq<int>) returns (factor: real)
    ensures factor == BurstFactor(h)
    ensures 1.0 <= factor <= 2.0
  {
    factor := 1.0;
    var i := |h| - 1;
    while i >= 0 && i >= |h| - BurstWindow
      invariant WindowStart(|h|) - 1 <= i < |h|
      invariant factor == 1.0 + BurstStep * CountBursts(h[i + 1..]) as real
      decreases i + 1
    {
      assert h[i..] == [h[i]] + h[i + 1..];
      if h[i] > BurstThreshold {
        factor := factor + BurstStep;
      }
      i := i - 1;
    }
    assert i + 1 == WindowStart(|h|);
    BurstFactorBounds(h);
  }

  /**
   * On a DiceTracker row the window is slots 95 to 99 of the 100-slot array, not the player's
   * latest turns: as long as a player has at most 95 recorded turns the factor is exactly 1.0.
   */
  lemma BurstFactorOfTrackerRow(dice: DiceTracker, p: int, agent: nat)
    requires dice.Valid() && 0 <= p < dice.numPlayers && agent < NumAgents
    ensures WindowStart(|dice.MovementHistoryForAgent(p, agent)|) == MaxTurns - BurstWindow
    ensures dice.TurnCount(p) <= MaxTurns - BurstWindow ==> BurstFactor(dice.MovementHistoryForAgent(p, agent)) == 1.0
  {
    var h := dice.MovementHistoryForAgent(p, agent);
    if dice.TurnCount(p) <= MaxTurns - BurstWindow {
      var window := h[MaxTurns - BurstWindow..];
      forall t | 0 <= t < |window| ensures window[t] == 0 {
        assert window[t] == h[MaxTurns - BurstWindow + t];
      }
      NoBurstsInZeros(window);
    }
  }

  lemma {:induction false} NoBurstsInZeros(s: seq<int>)
    requires forall t :: 0 <= t < |s| ==> s[t] == 0
    ensures CountBursts(s) == 0
  {
    if s != [] {
      NoBurstsInZeros(s[1..]);
    }
  }

  /** The sum of a row of suspicions. */
  function RowSum(s: seq<real>): real
  {
    if s == [] then 0.0 else RowSum(s[..|s| - 1]) + s[|s| - 1]
  }

  /** Every entry of the row divided by c. */
  function Scaled(s: seq<real>, c: real): (r: seq<real>)
    requires c != 0.0
    ensures |r| == |s|
  {
    seq(|s|, i requires 0 <= i < |s| => s[i] / c)
  }

  /** normalizeRow: a row with a positive sum is divided by it; any other row is left as it is. */
  function Normalized(row: seq<real>): (r: seq<real>)
    ensures |r| == |row|
  {
    if RowSum(row) > 0.0 then Scaled(row, RowSum(row)) else row
  }

  /** Each figurine's share of the invested points, weighted by the burst factor of its history. */
  function RawSuspicion(invested: seq<int>, histories: seq<seq<int>>): (r: seq<real>)
    requires |histories| == |invested| && Sum(invested) != 0
    ensures |r| == |invested|
  {
    seq(|invested|, a requires 0 <= a < |invested| => invested[a] as real / Sum(invested) as real * BurstFactor(histories[a]))
  }

  lemma PrefixStep(s: seq<real>, prefix: seq<real>, a: nat, x: real)
    requires a < |s| && prefix == s[..a] && x == s[a]
    ensures prefix + [x] == s[..a + 1]
  {
  }

  /** A probability distribution: entries in [0, 1] summing to 1. */
  ghost predicate IsDistribution(row: seq<real>)
  {
    RowSum(row) == 1.0 && forall i :: 0 <= i < |row| ==> 0.0 <= row[i] <= 1.0
  }

  /** A row the tracker can hold: still all zero, or a distribution. */
  ghost predicate IsSuspicionRow(row: seq<real>)
  {
    (forall i :: 0 <= i < |row| ==> row[i] == 0.0) || IsDistribution(row)
  }

  lemma {:induction false} ScaledSum(s: seq<real>, c: real)
    requires c != 0.0
    ensures RowSum(Scaled(s, c)) == RowSum(s) / c
  {
    if s != [] {
      var init := s[..|s| - 1];
      assert Scaled(s, c)[..|s| - 1] == Scaled(init, c);
      ScaledSum(init, c);
    }
  }

  lemma {:induction false} EntryAtMostSum(s: seq<real>, i: nat)
    requires i < |s|
    requires forall j :: 0 <= j < |s| ==> s[j] >= 0.0
    ensures s[i] <= RowSum(s)
  {
    var init := s[..|s| - 1];
    NonNegativeSum(init);
    if i < |s| - 1 {
      EntryAtMostSum(init, i);
    }
  }

  lemma {:induction false} NonNegativeSum(s: seq<real>)
    requires forall j :: 0 <= j < |s| ==> s[j] >= 0.0
    ensures RowSum(s) >= 0.0
  {
    if s != [] {
      NonNegativeSum(s[..|s| - 1]);
    }
  }

  /** Normalising a row of non-negative entries with a positive sum yields a distribution. */
  lemma NormalizedIsDistribution(row: seq<real>)
    requires RowSum(row) > 0.0
    requires forall j :: 0 <= j < |row| ==> row[j] >= 0.0
    ensures IsDistribution(Normalized(row))
  {
    var sum := RowSum(row);
    var n := Scaled(row, sum);
    assert Normalized(row) == n;
    ScaledSum(row, sum);
    WholeShare(sum);
    forall i | 0 <= i < |n| ensures 0.0 <= n[i] <= 1.0 {
      EntryAtMostSum(row, i);
      ShareOfWhole(row[i], sum);
    }
  }

  lemma WholeShare(whole: real)
    requires whole > 0.0
    ensures whole / whole == 1.0
  {
    assert whole / whole * whole == whole;
  }

  /** A share of a positive whole, weighted by a factor of at least 1, is non-negative, and positive when the part is. */
  lemma WeightedShare(part: real, whole: real, factor: real)
    requires part >= 0.0 && whole > 0.0 && factor >= 1.0
    ensures part / whole * factor >= 0.0
    ensures part > 0.0 ==> part / whole * factor > 0.0
  {
    assert part / whole * whole == part;
  }

  lemma ShareOfWhole(x: real, whole: real)
    requires 0.0 <= x <= whole && whole > 0.0
    ensures 0.0 <= x / whole <= 1.0
  {
    assert x / whole * whole == x;
  }

  /** A non-negative integer row with a positive sum has a positive entry. */
  lemma {:induction false} PositiveSumHasPositiveEntry(s: seq<int>) returns (k: nat)
    requires forall j :: 0 <= j < |s| ==> s[j] >= 0
    requires Sum(s) > 0
    ensures k < |s| && s[k] > 0
  {
    var init := s[..|s| - 1];
    if s[|s| - 1] > 0 {
      k := |s| - 1;
    } else {
      k := PositiveSumHasPositiveEntry(init);
    }
  }

  class IdentityTracker {
    const numPlayers: nat
    const dice: DiceTracker
    /** suspicionMatrix[player][agent] */
    const matrix: array2<real>

    ghost predicate Valid()
      reads matrix
    {
      matrix.Length0 == numPlayers && matrix.Length1 == NumAgents
    }

    constructor (numPlayers: nat, dice: DiceTracker)
      ensures Valid() && fresh(matrix)
      ensures this.numPlayers == numPlayers && this.dice == dice
      ensures forall p, a :: 0 <= p < numPlayers && 0 <= a < NumAgents ==> matrix[p, a] == 0.0
    {
      this.numPlayers := numPlayers;
      this.dice := dice;
      matrix := new real[numPlayers, NumAgents]((p, a) => 0.0);
    }

    /** Row p of the matrix. */
    function MatrixRow(p: nat): (r: seq<real>)
      requires Valid() && p < numPlayers
      reads matrix
      ensures |r| == NumAgents && forall a :: 0 <= a < NumAgents ==> r[a] == matrix[p, a]
    {
      seq(NumAgents, a requires 0 <= a < NumAgents reads matrix => matrix[p, a])
    }

    /** Every row of the matrix is all zero or a distribution. */
    ghost predicate AllRowsWellFormed()
      requires Valid()
      reads matrix
    {
      forall p :: 0 <= p < numPlayers ==> IsSuspicionRow(MatrixRow(p))
    }

    /** The points player p has invested in each figurine, read from the DiceTracker. */
    function Invested(p: int): (r: seq<int>)
      requires dice.Valid()
      reads dice.history, dice.totals, dice.turnCounters
      ensures |r| == NumAgents
      ensures forall a :: 0 <= a < NumAgents ==> r[a] == dice.TotalInvestedPoints(p, a)
    {
      seq(NumAgents, a requires 0 <= a < NumAgents && dice.Valid() reads dice.history, dice.totals, dice.turnCounters =>
        dice.TotalInvestedPoints(p, a))
    }

    /** totalPointsByPlayer */
    function PlayerTotal(p: int): int
      requires dice.Valid()
      reads dice.history, dice.totals, dice.turnCounters
    {
      Sum(Invested(p))
    }

    /** The history rows of player p, one per figurine, as getMovementHistoryForAgent returns them. */
    function Histories(p: int): (r: seq<seq<int>>)
      requires dice.Valid()
      reads dice.history, dice.totals, dice.turnCounters
      ensures |r| == NumAgents
    {
      seq(NumAgents, a requires 0 <= a < NumAgents && dice.Valid() reads dice.history, dice.totals, dice.turnCounters =>
        dice.MovementHistoryForAgent(p, a))
    }

    /** The row of player p before normalising. */
    function RawRow(p: int): (r: seq<real>)
      requires dice.Valid() && PlayerTotal(p) != 0
      reads dice.history, dice.totals, dice.turnCounters
      ensures |r| == NumAgents
    {
      RawSuspicion(Invested(p), Histories(p))
    }

    /**
     * The row calculateSuspicion leaves for player p in place of row: row itself when the
     * player has invested no points, otherwise the normalised raw row.
     */
    ghost function Recomputed(p: nat, row: seq<real>): seq<real>
      requires dice.Valid()
      reads dice.history, dice.totals, dice.turnCounters
    {
      if PlayerTotal(p) == 0 then row else Normalized(RawRow(p))
    }

    /** With non-negative movement data, a row with evidence normalises to a distribution. */
    lemma SuspicionRowIsDistribution(p: int)
      requires dice.Valid() && dice.NonNegative() && PlayerTotal(p) != 0
      ensures IsDistribution(Normalized(RawRow(p)))
    {
      var inv, total, raw := Invested(p), PlayerTotal(p), RawRow(p);
      SumOfNonNegative(inv);
      var k := PositiveSumHasPositiveEntry(inv);
      forall a | 0 <= a < NumAgents ensures raw[a] >= 0.0 && (a == k ==> raw[a] > 0.0) {
        BurstFactorBounds(dice.MovementHistoryForAgent(p, a));
        WeightedShare(inv[a] as real, total as real, BurstFactor(dice.MovementHistoryForAgent(p, a)));
      }
      EntryAtMostSum(raw, k);
      NormalizedIsDistribution(raw);
    }

    /** With non-negative movement data, recomputing a row keeps it a suspicion row. */
    lemma RecomputedRow(p: nat, row: seq<real>)
      requires dice.Valid() && dice.NonNegative()
      ensures PlayerTotal(p) != 0 ==> IsDistribution(Recomputed(p, row))
      ensures IsSuspicionRow(row) ==> IsSuspicionRow(Recomputed(p, row))
    {
      if PlayerTotal(p) != 0 {
        SuspicionRowIsDistribution(p);
      }
    }

    /** normalizeRow(p): only row p changes, and it becomes Normalized of what it was. */
    method NormalizeRow(p: nat)
      requires Valid() && p < numPlayers
      modifies matrix
      ensures MatrixRow(p) == Normalized(old(MatrixRow(p)))
      ensures forall q, a :: 0 <= q < numPlayers && q != p && 0 <= a < NumAgents ==> matrix[q, a] == old(matrix[q, a])
    {
      ghost var row := MatrixRow(p);
      var sum := 0.0;
      for a := 0 to NumAgents
        invariant sum == RowSum(row[..a])
      {
        assert row[..a + 1][..a] == row[..a];
        sum := sum + matrix[p, a];
      }
      assert row[..NumAgents] == row;
      if sum > 0.0 {
        for a := 0 to NumAgents
          invariant forall b :: 0 <= b < a ==> matrix[p, b] == row[b] / sum
          invariant forall b :: a <= b < NumAgents ==> matrix[p, b] == row[b]
          invariant forall q, b :: 0 <= q < numPlayers && q != p && 0 <= b < NumAgents ==> matrix[q, b] == old(matrix[q, b])
        {
          matrix[p, a] := matrix[p, a] / sum;
        }
      }
      assert MatrixRow(p) == Normalized(row);
    }

    /**
     * calculateSuspicion: a player without invested points keeps the row it had; any other row
     * becomes the normalised raw row. With non-negative movement data every such row is a
     * distribution, so a well-formed matrix stays well-formed.
     */
    method CalculateSuspicion()
      requires Valid() && dice.Valid()
      modifies matrix
      ensures forall p :: 0 <= p < numPlayers ==> MatrixRow(p) == Recomputed(p, old(MatrixRow(p)))
      ensures dice.NonNegative() ==>
        forall p :: 0 <= p < numPlayers && PlayerTotal(p) != 0 ==> IsDistribution(MatrixRow(p))
      ensures dice.NonNegative() && old(AllRowsWellFormed()) ==> AllRowsWellFormed()
    {
      RecomputeRows();
      if dice.NonNegative() {
        forall p | 0 <= p < numPlayers
          ensures PlayerTotal(p) != 0 ==> IsDistribution(Recomputed(p, old(MatrixRow(p))))
          ensures IsSuspicionRow(old(MatrixRow(p))) ==> IsSuspicionRow(Recomputed(p, old(MatrixRow(p))))
        {
          RecomputedRow(p, old(MatrixRow(p)));
        }
      }
    }

    /** The outer loop of calculateSuspicion: every row recomputed from what it was. */
    method RecomputeRows()
      requires Valid() && dice.Valid()
      modifies matrix
      ensures forall p :: 0 <= p < numPlayers ==> MatrixRow(p) == Recomputed(p, old(MatrixRow(p)))
    {
      for p := 0 to numPlayers
        invariant forall q, b :: 0 <= q < p && 0 <= b < NumAgents ==> matrix[q, b] == Recomputed(q, old(MatrixRow(q)))[b]
        invariant forall q, b :: p <= q < numPlayers && 0 <= b < NumAgents ==> matrix[q, b] == old(matrix[q, b])
      {
        assert MatrixRow(p) == old(MatrixRow(p));
        UpdateRow(p);
      }
      forall p | 0 <= p < numPlayers
        ensures MatrixRow(p) == Recomputed(p, old(MatrixRow(p)))
      {
      }
    }

    /** One pass of the outer loop of calculateSuspicion: only row p changes. */
    method UpdateRow(p: nat)
      requires Valid() && dice.Valid() && p < numPlayers
      modifies matrix
      ensures MatrixRow(p) == Recomputed(p, old(MatrixRow(p)))
      ensures forall q, b :: 0 <= q < numPlayers && q != p && 0 <= b < NumAgents ==> matrix[q, b] == old(matrix[q, b])
    {
      var total := TotalPointsBy(p);
      if total == 0 {
        return;
      }
      ghost var raw := RawRow(p);
      FillRawRow(p, total);
      assert MatrixRow(p) == raw;
      NormalizeRow(p);
      assert PlayerTotal(p) == total && RawRow(p) == raw;
      assert MatrixRow(p) == Normalized(raw);
    }

    /** The first loop of calculateSuspicion: the player's points over all figurines. */
    method TotalPointsBy(p: int) returns (total: int)
      requires dice.Valid()
      ensures total == PlayerTotal(p)
    {
      total := 0;
      for a := 0 to NumAgents
        invariant total == Sum(Invested(p)[..a])
      {
        assert Invested(p)[..a + 1][..a] == Invested(p)[..a];
        total := total + dice.TotalInvestedPoints(p, a);
      }
      assert Invested(p)[..NumAgents] == Invested(p);
    }

    /** The second loop of calculateSuspicion: row p becomes the raw row, the others stay. */
    method FillRawRow(p: nat, total: int)
      requires Valid() && dice.Valid() && p < numPlayers && total == PlayerTotal(p) && total != 0
      modifies matrix
      ensures MatrixRow(p) == RawRow(p)
      ensures forall q, b :: 0 <= q < numPlayers && q != p && 0 <= b < NumAgents ==> matrix[q, b] == old(matrix[q, b])
    {
      ghost var raw := RawRow(p);
      for a := 0 to NumAgents
        invariant total == PlayerTotal(p) && raw == RawRow(p)
        invariant forall b :: 0 <= b < a ==> matrix[p, b] == raw[b]
        invariant forall q, b :: 0 <= q < numPlayers && q != p && 0 <= b < NumAgents ==> matrix[q, b] == old(matrix[q, b])
      {
        WriteEntry(p, a, total, raw);
      }
      assert MatrixRow(p) == raw;
    }

    /** One pass of the second loop: cell (p, a) gets its raw entry, no other cell changes. */
    method WriteEntry(p: nat, a: nat, total: int, ghost raw: seq<real>)
      requires Valid() && dice.Valid() && p < numPlayers && a < NumAgents
      requires total == PlayerTotal(p) && total != 0 && raw == RawRow(p)
      modifies matrix
      ensures matrix[p, a] == raw[a]
      ensures forall q, b :: 0 <= q < numPlayers && 0 <= b < NumAgents && (q != p || b != a) ==> matrix[q, b] == old(matrix[q, b])
    {
      var entry := SuspicionEntry(p, a, total);
      matrix[p, a] := entry;
    }

    /** The body of the second loop of calculateSuspicion for one figurine. */
    method SuspicionEntry(p: int, a: nat, total: int) returns (entry: real)
      requires dice.Valid() && a < NumAgents && total == PlayerTotal(p) && total != 0
      ensures entry == RawRow(p)[a]
    {
      var basicProb := dice.TotalInvestedPoints(p, a) as real / total as real;
      var history := dice.MovementHistoryForAgent(p, a);
      var burstModifier := CalculateBurstFactor(history);
      entry := basicProb * burstModifier;
      RawRowEntry(p, a, basicProb, history, burstModifier, entry);
    }

    /** Entry a of the raw row: the figurine's share of the player's points times its burst factor. */
    lemma RawRowEntry(p: int, a: nat, share: real, history: seq<int>, factor: real, entry: real)
      requires dice.Valid() && a < NumAgents && PlayerTotal(p) != 0
      requires share == dice.TotalInvestedPoints(p, a) as real / PlayerTotal(p) as real
      requires history == dice.MovementHistoryForAgent(p, a) && factor == BurstFactor(history)
      requires entry == share * factor
      ensures RawRow(p)[a] == entry
    {
      assert Invested(p)[a] == dice.TotalInvestedPoints(p, a);
      assert Histories(p)[a] == history;
    }

    /** getSuspicion: a lookup into the last computed matrix; in a well-formed row it lies in [0, 1]. */
    function Suspicion(p: int, agent: nat): (r: real)
      requires Valid() && 0 <= p < numPlayers && agent < NumAgents
      reads matrix
      ensures r == MatrixRow(p)[agent]
      ensures IsSuspicionRow(MatrixRow(p)) ==> 0.0 <= r <= 1.0
    {
      matrix[p, agent]
    }
  }
}
