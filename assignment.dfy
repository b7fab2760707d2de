/**
 * The greedy identity assignment of DetectiveGoetzbach.addInformationToGame: opponents are
 * matched to figurines highest suspicion first, one pair per round, until one side runs out.
 */
module Assignment {
  import opened Wrappers
  import opened Lists
  import opened Game
  import Identity

  /** An (opponent id, figurine ordinal) candidate pair. */
  type Pair = (int, nat)

  /** The suspicion lookup identityTracker.getSuspicion(opponent, figurine). */
  type Scores = (int, nat) -> real

  /** Every score beats the scan's starting maximum of -1.0 (suspicions lie in [0, 1]). */
  ghost predicate AboveSentinel(score: Scores)
  {
    forall o: int, a: nat :: score(o, a) > -1.0
  }

  /**
   * identityTracker.getSuspicion as a score table, read from the matrix; a cell outside the
   * matrix (which getSuspicion would refuse) reads 0.0.
   */
  ghost function SuspicionScores(t: Identity.IdentityTracker): (r: Scores)
    requires t.Valid()
    reads t.matrix
    ensures forall o: int, a: nat :: 0 <= o < t.numPlayers && a < NumAgents ==> r(o, a) == t.Suspicion(o, a)
  {
    var rows := seq(t.numPlayers, p requires 0 <= p < t.numPlayers reads t.matrix => t.MatrixRow(p));
    (o: int, a: nat) => if 0 <= o < |rows| && a < |rows[o]| then rows[o][a] else 0.0
  }

  /** A matrix whose rows are all zero or distributions meets the loop's precondition. */
  lemma SuspicionsAboveSentinel(t: Identity.IdentityTracker)
    requires t.Valid() && t.AllRowsWellFormed()
    ensures AboveSentinel(SuspicionScores(t))
  {
  }

  /** The opponents list: every seat below n except the agent's own, in seat order. */
  function Opponents(n: nat, own: int): (r: seq<int>)
    ensures forall k :: 0 <= k < |r| ==> 0 <= r[k] < n && r[k] != own
    ensures forall k, l :: 0 <= k < l < |r| ==> r[k] < r[l]
    ensures forall i :: 0 <= i < n && i != own ==> i in r
    ensures |r| == if 0 <= own < n then n - 1 else n
  {
    if n == 0 then [] else Opponents(n - 1, own) + (if n - 1 != own then [n - 1] else [])
  }

  /** The candidates with one opponent, in the order of the figurine pool. */
  function Row(o: int, agents: seq<nat>): (r: seq<Pair>)
    ensures |r| == |agents|
    ensures forall j :: 0 <= j < |agents| ==> r[j] == (o, agents[j])
  {
    seq(|agents|, j requires 0 <= j < |agents| => (o, agents[j]))
  }

  /** The candidates in the order of the nested scan: opponent by opponent, figurines inside. */
  function Pairs(opps: seq<int>, agents: seq<nat>): seq<Pair>
    decreases |opps|
  {
    if opps == [] then [] else Pairs(opps[..|opps| - 1], agents) + Row(opps[|opps| - 1], agents)
  }

  lemma {:induction false} PairsMembers(opps: seq<int>, agents: seq<nat>)
    ensures forall p :: p in Pairs(opps, agents) <==> p.0 in opps && p.1 in agents
    decreases |opps|
  {
    if opps != [] {
      var init, last := opps[..|opps| - 1], opps[|opps| - 1];
      PairsMembers(init, agents);
      assert opps == init + [last];
      forall p ensures p in Pairs(opps, agents) <==> p.0 in opps && p.1 in agents {
        if p.0 == last && p.1 in agents {
          var j :| 0 <= j < |agents| && agents[j] == p.1;
          assert Row(last, agents)[j] == p;
        }
      }
    }
  }

  /** The state of the scan: the best pair so far (bestOpp/bestAgent, none at first) and maxScore. */
  datatype Best = Best(pick: Option<Pair>, max: real)

  /** The scan over candidates: a pair replaces the best only with a strictly higher score. */
  function ScanBest(ps: seq<Pair>, score: Scores): Best
    decreases |ps|
  {
    if ps == [] then Best(None, -1.0)
    else
      var b := ScanBest(ps[..|ps| - 1], score);
      var p := ps[|ps| - 1];
      if score(p.0, p.1) > b.max then Best(Some(p), score(p.0, p.1)) else b
  }

  /** p is a highest-scoring candidate and no candidate before it scores as much. */
  ghost predicate FirstMaximum(ps: seq<Pair>, score: Scores, p: Pair)
  {
    exists idx :: 0 <= idx < |ps| && ps[idx] == p
      && (forall k :: 0 <= k < |ps| ==> score(ps[k].0, ps[k].1) <= score(p.0, p.1))
      && (forall k :: 0 <= k < idx ==> score(ps[k].0, ps[k].1) < score(p.0, p.1))
  }

  /**
   * The scan finds the first highest-scoring candidate; it finds none exactly when no
   * candidate scores above -1.0.
   */
  lemma {:induction false} ScanBestIsFirstMaximum(ps: seq<Pair>, score: Scores)
    ensures ScanBest(ps, score).pick.None? <==> forall k :: 0 <= k < |ps| ==> score(ps[k].0, ps[k].1) <= -1.0
    ensures ScanBest(ps, score).pick.None? ==> ScanBest(ps, score).max == -1.0
    ensures ScanBest(ps, score).pick.Some? ==>
      && ScanBest(ps, score).max == score(ScanBest(ps, score).pick.value.0, ScanBest(ps, score).pick.value.1)
      && FirstMaximum(ps, score, ScanBest(ps, score).pick.value)
    decreases |ps|
  {
    if ps != [] {
      var init, p := ps[..|ps| - 1], ps[|ps| - 1];
      ScanBestIsFirstMaximum(init, score);
      var b := ScanBest(init, score);
      assert forall k :: 0 <= k < |init| ==> init[k] == ps[k];
      if score(p.0, p.1) > b.max {
        if b.pick.Some? {
          var idx :| 0 <= idx < |init| && init[idx] == b.pick.value
            && (forall k :: 0 <= k < |init| ==> score(init[k].0, init[k].1) <= score(b.pick.value.0, b.pick.value.1));
        }
        assert ps[|ps| - 1] == p;
      } else if b.pick.Some? {
        var idx :| 0 <= idx < |init| && init[idx] == b.pick.value
          && (forall k :: 0 <= k < |init| ==> score(init[k].0, init[k].1) <= score(b.pick.value.0, b.pick.value.1))
          && (forall k :: 0 <= k < idx ==> score(init[k].0, init[k].1) < score(b.pick.value.0, b.pick.value.1));
        assert ps[idx] == b.pick.value;
      }
    }
  }

  /** The first maximum of a non-empty pool under AboveSentinel: the pair the round commits. */
  lemma ScanPicksFromPools(opps: seq<int>, agents: seq<nat>, score: Scores)
    requires opps != [] && agents != [] && AboveSentinel(score)
    ensures ScanBest(Pairs(opps, agents), score).pick.Some?
    ensures ScanBest(Pairs(opps, agents), score).pick.value.0 in opps
    ensures ScanBest(Pairs(opps, agents), score).pick.value.1 in agents
  {
    var ps := Pairs(opps, agents);
    PairsMembers(opps, agents);
    assert (opps[0], agents[0]) in ps;
    var k :| 0 <= k < |ps| && ps[k] == (opps[0], agents[0]);
    ScanBestIsFirstMaximum(ps, score);
    if ScanBest(ps, score).pick.Some? {
      var idx :| 0 <= idx < |ps| && ps[idx] == ScanBest(ps, score).pick.value;
      assert ps[idx] in ps;
    }
  }

  /**
   * The pairs the greedy loop commits, in order: the first maximum of the current pools, then the
   * rounds on the pools without that opponent and that figurine. A round that finds nothing ends
   * the list (the source's loop would spin forever there; AboveSentinel rules that out).
   */
  function Greedy(opps: seq<int>, agents: seq<nat>, score: Scores): seq<Pair>
    decreases |opps|
  {
    if opps == [] || agents == [] then []
    else
      var b := ScanBest(Pairs(opps, agents), score);
      if b.pick.None? then []
      else
        PairsMembers(opps, agents);
        ScanBestIsFirstMaximum(Pairs(opps, agents), score);
        var p := b.pick.value;
        assert p in Pairs(opps, agents) by {
          var idx :| 0 <= idx < |Pairs(opps, agents)| && Pairs(opps, agents)[idx] == p;
        }
        [p] + Greedy(RemoveFirst(opps, p.0), RemoveFirst(agents, p.1), score)
  }

  /** A round that finds a pair commits it and recurses on the pools without it. */
  lemma GreedyUnfold(opps: seq<int>, agents: seq<nat>, score: Scores)
    requires opps != [] && agents != [] && ScanBest(Pairs(opps, agents), score).pick.Some?
    ensures var p := ScanBest(Pairs(opps, agents), score).pick.value;
      && p.0 in opps && p.1 in agents
      && Greedy(opps, agents, score) == [p] + Greedy(RemoveFirst(opps, p.0), RemoveFirst(agents, p.1), score)
  {
    PairsMembers(opps, agents);
    ScanBestIsFirstMaximum(Pairs(opps, agents), score);
    var p := ScanBest(Pairs(opps, agents), score).pick.value;
    var idx :| 0 <= idx < |Pairs(opps, agents)| && Pairs(opps, agents)[idx] == p;
    assert Pairs(opps, agents)[idx] in Pairs(opps, agents);
  }

  /** Each round takes a first highest-suspicion pair among those left. */
  lemma GreedyRound(opps: seq<int>, agents: seq<nat>, score: Scores)
    requires opps != [] && agents != [] && AboveSentinel(score)
    ensures |Greedy(opps, agents, score)| > 0
    ensures FirstMaximum(Pairs(opps, agents), score, Greedy(opps, agents, score)[0])
    ensures Greedy(opps, agents, score)[1..] ==
      Greedy(RemoveFirst(opps, Greedy(opps, agents, score)[0].0), RemoveFirst(agents, Greedy(opps, agents, score)[0].1), score)
  {
    ScanPicksFromPools(opps, agents, score);
    ScanBestIsFirstMaximum(Pairs(opps, agents), score);
  }

  /** The loop runs until one pool is empty: it commits min(#opponents, #figurines) pairs. */
  lemma {:induction false} GreedyLength(opps: seq<int>, agents: seq<nat>, score: Scores)
    requires AboveSentinel(score)
    ensures |Greedy(opps, agents, score)| == if |opps| < |agents| then |opps| else |agents|
    decreases |opps|
  {
    if opps != [] && agents != [] {
      ScanPicksFromPools(opps, agents, score);
      var p := ScanBest(Pairs(opps, agents), score).pick.value;
      GreedyLength(RemoveFirst(opps, p.0), RemoveFirst(agents, p.1), score);
    }
  }

  /**
   * Every committed pair comes from the pools.
   */
  lemma {:induction false} GreedyFromPools(opps: seq<int>, agents: seq<nat>, score: Scores)
    ensures forall k :: 0 <= k < |Greedy(opps, agents, score)| ==>
      Greedy(opps, agents, score)[k].0 in opps && Greedy(opps, agents, score)[k].1 in agents
    decreases |opps|
  {
    var g := Greedy(opps, agents, score);
    if opps != [] && agents != [] && ScanBest(Pairs(opps, agents), score).pick.Some? {
      GreedyUnfold(opps, agents, score);
      var p := ScanBest(Pairs(opps, agents), score).pick.value;
      var opps', agents' := RemoveFirst(opps, p.0), RemoveFirst(agents, p.1);
      GreedyFromPools(opps', agents', score);
      RemoveFirstSubset(opps, p.0);
      RemoveFirstSubset(agents, p.1);
      assert g == [p] + Greedy(opps', agents', score);
    }
  }

  /** Over pools without duplicates, no opponent and no figurine is committed twice. */
  lemma {:induction false} GreedyDistinct(opps: seq<int>, agents: seq<nat>, score: Scores)
    requires Distinct(opps) && Distinct(agents)
    ensures forall k, l :: 0 <= k < l < |Greedy(opps, agents, score)| ==>
      Greedy(opps, agents, score)[k].0 != Greedy(opps, agents, score)[l].0
      && Greedy(opps, agents, score)[k].1 != Greedy(opps, agents, score)[l].1
    decreases |opps|
  {
    var g := Greedy(opps, agents, score);
    if opps != [] && agents != [] && ScanBest(Pairs(opps, agents), score).pick.Some? {
      GreedyUnfold(opps, agents, score);
      var p := ScanBest(Pairs(opps, agents), score).pick.value;
      var opps', agents' := RemoveFirst(opps, p.0), RemoveFirst(agents, p.1);
      RemoveFirstDistinct(opps, p.0);
      RemoveFirstDistinct(agents, p.1);
      GreedyDistinct(opps', agents', score);
      GreedyFromPools(opps', agents', score);
      ConsDistinct(p, Greedy(opps', agents', score), opps', agents');
    }
  }

  /** A pair from outside the pools of a pairwise-distinct list keeps it pairwise distinct in front. */
  lemma ConsDistinct(p: Pair, rest: seq<Pair>, opps: seq<int>, agents: seq<nat>)
    requires p.0 !in opps && p.1 !in agents
    requires forall k :: 0 <= k < |rest| ==> rest[k].0 in opps && rest[k].1 in agents
    requires forall k, l :: 0 <= k < l < |rest| ==> rest[k].0 != rest[l].0 && rest[k].1 != rest[l].1
    ensures forall k, l :: 0 <= k < l < |[p] + rest| ==>
      ([p] + rest)[k].0 != ([p] + rest)[l].0 && ([p] + rest)[k].1 != ([p] + rest)[l].1
  {
    var g := [p] + rest;
    forall k, l | 0 <= k < l < |g| ensures g[k].0 != g[l].0 && g[k].1 != g[l].1 {
      assert g[l] == rest[l - 1];
      if k > 0 {
        assert g[k] == rest[k - 1];
      }
    }
  }


  /** playersToAgentsMap after the committed puts, in order. */
  function Apply(known: map<int, nat>, g: seq<Pair>): map<int, nat>
    decreases |g|
  {
    if g == [] then known else Apply(known, g[..|g| - 1])[g[|g| - 1].0 := g[|g| - 1].1]
  }

  /** With distinct opponents, each committed opponent maps to its figurine; other keys keep their entry. */
  lemma {:induction false} ApplyFacts(known: map<int, nat>, g: seq<Pair>)
    requires forall k, l :: 0 <= k < l < |g| ==> g[k].0 != g[l].0
    ensures forall k :: 0 <= k < |g| ==> g[k].0 in Apply(known, g) && Apply(known, g)[g[k].0] == g[k].1
    ensures forall o :: (forall k :: 0 <= k < |g| ==> g[k].0 != o) ==>
      (o in Apply(known, g) <==> o in known) && (o in known ==> Apply(known, g)[o] == known[o])
    decreases |g|
  {
    if g != [] {
      var init := g[..|g| - 1];
      assert forall k :: 0 <= k < |init| ==> init[k] == g[k];
      ApplyFacts(known, init);
    }
  }

  /** availableAgents: the board's figurines less the own one (remove(null) leaves the list as it is). */
  function Available(boardAgents: seq<nat>, known: map<int, nat>, ownId: int): seq<nat>
  {
    if ownId in known then RemoveFirst(boardAgents, known[ownId]) else boardAgents
  }

  lemma ScanStep(ps: seq<Pair>, p: Pair, score: Scores)
    ensures ScanBest(ps + [p], score) ==
      if score(p.0, p.1) > ScanBest(ps, score).max then Best(Some(p), score(p.0, p.1)) else ScanBest(ps, score)
  {
    assert (ps + [p])[..|ps|] == ps;
  }

  /** The inner loop's step: the scan over one more figurine of the row. */
  lemma ScanRowStep(before: seq<Pair>, o: int, agents: seq<nat>, j: nat, score: Scores)
    requires j < |agents|
    ensures var b := ScanBest(before + Row(o, agents)[..j], score);
      ScanBest(before + Row(o, agents)[..j + 1], score) ==
        if score(o, agents[j]) > b.max then Best(Some((o, agents[j])), score(o, agents[j])) else b
  {
    var row := Row(o, agents);
    assert before + row[..j + 1] == (before + row[..j]) + [(o, agents[j])];
    ScanStep(before + row[..j], (o, agents[j]), score);
  }

  lemma PairsStep(opps: seq<int>, i: nat, agents: seq<nat>)
    requires i < |opps|
    ensures Pairs(opps[..i + 1], agents) == Pairs(opps[..i], agents) + Row(opps[i], agents)
  {
    assert opps[..i + 1][..i] == opps[..i];
  }

  /** The scan state as the source's three variables hold it. */
  function StateOf(bestOpp: int, bestAgent: Option<nat>, maxScore: real): Best
  {
    Best(if bestAgent.None? then None else Some((bestOpp, bestAgent.value)), maxScore)
  }

  /** The inner loop of the scan: one opponent against every figurine of the pool. */
  method ScanRow(ghost before: seq<Pair>, o: int, agents: seq<nat>, score: Scores,
                 bestOpp0: int, bestAgent0: Option<nat>, maxScore0: real)
    returns (bestOpp: int, bestAgent: Option<nat>, maxScore: real)
    requires bestAgent0.None? ==> bestOpp0 == -1
    requires ScanBest(before, score) == StateOf(bestOpp0, bestAgent0, maxScore0)
    ensures bestAgent.None? ==> bestOpp == -1
    ensures ScanBest(before + Row(o, agents), score) == StateOf(bestOpp, bestAgent, maxScore)
  {
    bestOpp, bestAgent, maxScore := bestOpp0, bestAgent0, maxScore0;
    ghost var row := Row(o, agents);
    assert before + row[..0] == before;
    for j := 0 to |agents|
      invariant bestAgent.None? ==> bestOpp == -1
      invariant ScanBest(before + row[..j], score) == StateOf(bestOpp, bestAgent, maxScore)
    {
      var s := score(o, agents[j]);
      ScanRowStep(before, o, agents, j, score);
      if s > maxScore {
        maxScore := s;
        bestOpp := o;
        bestAgent := Some(agents[j]);
      }
    }
    assert row[..|agents|] == row;
  }

  /** One scan of the nested loops over the current pools. */
  method FindBestPair(opps: seq<int>, agents: seq<nat>, score: Scores)
    returns (bestOpp: int, bestAgent: Option<nat>, maxScore: real)
    ensures bestAgent.None? ==> bestOpp == -1
    ensures ScanBest(Pairs(opps, agents), score) == StateOf(bestOpp, bestAgent, maxScore)
  {
    bestOpp, bestAgent, maxScore := -1, None, -1.0;
    for i := 0 to |opps|
      invariant bestAgent.None? ==> bestOpp == -1
      invariant ScanBest(Pairs(opps[..i], agents), score) == StateOf(bestOpp, bestAgent, maxScore)
    {
      bestOpp, bestAgent, maxScore := ScanRow(Pairs(opps[..i], agents), opps[i], agents, score, bestOpp, bestAgent, maxScore);
      PairsStep(opps, i, agents);
    }
    assert opps[..|opps|] == opps;
  }

  /** The opponents list, built seat by seat. */
  method OpponentsList(numPlayers: nat, ownId: int) returns (opponents: seq<int>)
    ensures opponents == Opponents(numPlayers, ownId)
  {
    opponents := [];
    for i := 0 to numPlayers
      invariant opponents == Opponents(i, ownId)
    {
      if i != ownId {
        opponents := opponents + [i];
      }
    }
  }

  /** Putting the first pair, then the rest, is the same as putting all of them in order. */
  lemma {:induction false} ApplyCons(m: map<int, nat>, p: Pair, rest: seq<Pair>)
    ensures Apply(m, [p] + rest) == Apply(m[p.0 := p.1], rest)
    decreases |rest|
  {
    if rest != [] {
      var init := rest[..|rest| - 1];
      ApplyCons(m, p, init);
      assert ([p] + rest)[..|rest|] == [p] + init;
    }
  }

  /** Committing the round's pair: its put, then the rounds on the shrunken pools. */
  lemma CommitRound(m: map<int, nat>, opps: seq<int>, agents: seq<nat>, p: Pair, score: Scores)
    requires opps != [] && agents != [] && ScanBest(Pairs(opps, agents), score).pick == Some(p)
    ensures Apply(m[p.0 := p.1], Greedy(RemoveFirst(opps, p.0), RemoveFirst(agents, p.1), score))
         == Apply(m, Greedy(opps, agents, score))
  {
    GreedyUnfold(opps, agents, score);
    ApplyCons(m, p, Greedy(RemoveFirst(opps, p.0), RemoveFirst(agents, p.1), score));
  }

  /**
   * The greedy loop: the opponents in seat order, the board's figurines less the own one, and
   * one committed put per round. The source loops forever when a round finds no pair above
   * -1.0; the precondition excludes that.
   */
  method AssignIdentities(numPlayers: nat, ownId: int, boardAgents: seq<nat>, known: map<int, nat>, score: Scores)
    returns (assignment: map<int, nat>)
    requires AboveSentinel(score)
    ensures assignment == Apply(known, Greedy(Opponents(numPlayers, ownId), Available(boardAgents, known, ownId), score))
  {
    var availableAgents := if ownId in known then RemoveFirst(boardAgents, known[ownId]) else boardAgents;
    var opponents := OpponentsList(numPlayers, ownId);
    assignment := known;
    ghost var target := Apply(known, Greedy(opponents, availableAgents, score));
    assert -1 !in opponents by {
      forall k | 0 <= k < |opponents| ensures opponents[k] != -1 {
        assert opponents[k] >= 0;
      }
    }
    while opponents != [] && availableAgents != []
      invariant -1 !in opponents
      invariant Apply(assignment, Greedy(opponents, availableAgents, score)) == target
      decreases |opponents|
    {
      var bestOpp, bestAgent, maxScore := FindBestPair(opponents, availableAgents, score);
      ScanPicksFromPools(opponents, availableAgents, score);
      if bestOpp != -1 {
        CommitRound(assignment, opponents, availableAgents, (bestOpp, bestAgent.value), score);
        assignment := assignment[bestOpp := bestAgent.value];
        availableAgents := RemoveFirst(availableAgents, bestAgent.value);
        RemoveFirstSubset(opponents, bestOpp);
        opponents := RemoveFirst(opponents, bestOpp);
      }
    }
  }

  /**
   * What the assignment guarantees: only opponents are assigned, each at most once, each to a
   * figurine of the board other than the own one, and no figurine twice; as many opponents get a
   * figurine as the smaller pool allows.
   */
  lemma AssignmentFacts(numPlayers: nat, ownId: int, boardAgents: seq<nat>, known: map<int, nat>, score: Scores)
    requires AboveSentinel(score) && Distinct(boardAgents)
    ensures var g := Greedy(Opponents(numPlayers, ownId), Available(boardAgents, known, ownId), score);
      && |g| == (var n := |Opponents(numPlayers, ownId)|; var m := |Available(boardAgents, known, ownId)|;
                 if n < m then n else m)
      && (forall k :: 0 <= k < |g| ==>
            0 <= g[k].0 < numPlayers && g[k].0 != ownId && g[k].1 in boardAgents
            && (ownId in known ==> g[k].1 != known[ownId]))
      && (forall k, l :: 0 <= k < l < |g| ==> g[k].0 != g[l].0 && g[k].1 != g[l].1)
  {
    var opps := Opponents(numPlayers, ownId);
    var agents := Available(boardAgents, known, ownId);
    GreedyLength(opps, agents, score);
    GreedyFromPools(opps, agents, score);
    assert Distinct(opps);
    if ownId in known {
      RemoveFirstDistinct(boardAgents, known[ownId]);
      RemoveFirstSubset(boardAgents, known[ownId]);
    }
    assert Distinct(agents);
    GreedyDistinct(opps, agents, score);
  }
}
