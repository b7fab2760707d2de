/**
 * MctsNode: the Monte-Carlo search tree of the agent. The Java nodes are linked objects; here
 * they live in an arena (a sequence of Node values) owned by a SearchTree, a parent link is an
 * index, and a node's children map actions to indices. Node 0 is the root.
 */
module Mcts {
  import opened Wrappers
  import opened Game

  /** The rules engine as far as the tree consults it. */
  datatype Engine = Engine(
    /** getPossibleActions, in the iteration order of the returned set */
    possibleActions: GameState -> seq<Action>,
    isValidAction: (GameState, Action) -> bool,
    doAction: (GameState, Action) -> GameState,
    currentPlayer: GameState -> int,
    /** getCurrentPhase() == DIE_ROLL_PHASE */
    inDieRollPhase: GameState -> bool,
    /** HeimlichAndCoDieRollAction.getRandomRollAction() */
    randomRollAction: Action)

  /**
   * What every node of one search shares: the engine, the static playerId the tree maximises
   * for, and the exploration term C * sqrt(log(nS) / nSA) as a function of (nS, nSA).
   */
  datatype Params = Params(engine: Engine, playerId: int, exploration: (int, int) -> real)

  /** The exceptions the Java methods throw. */
  datatype MctsError =
    | BadReward        // backpropagation: win is neither 0 nor 1
    | InvalidAction    // expansion, calculateUCT: the action is not valid in the node's state
    | AlreadyExpanded  // expansion: the action already leads to a child
    | NotAChild        // calculateQsaOfChild: the action is not a child key
    | ZeroPlayouts     // calculateUCT: a child or the node itself has no playouts
    | NoChildren       // getBestChild on a leaf
    | NoActionLeft     // selection: Random.nextInt(0) once the random roll is removed

  datatype Node = Node(game: GameState, depth: nat, parent: Option<nat>, children: map<Action, nat>,
                       wins: int, playouts: int)

  // ---------------------------------------------------------------------------------------
  // Scores and the tie scan of getMaximumValuedActions

  /**
   * A double as Double.compare orders it: Top stands for Double.MAX_VALUE in calculateUCT and for
   * the NaN or +Infinity of wins / 0 in calculateQsaOfChild, Bottom for -Infinity.
   */
  datatype Score = Bottom | Finite(value: real) | Top

  function Rank(s: Score): nat
  {
    match s
    case Bottom => 0
    case Finite(_) => 1
    case Top => 2
  }

  /** Double.compare(a, b) <= 0 */
  predicate AtMost(a: Score, b: Score)
  {
    Rank(a) < Rank(b) || (Rank(a) == Rank(b) && (a.Finite? ==> a.value <= b.value))
  }

  /** Double.compare: the ordering is total, and 0 means equal. */
  function Compare(a: Score, b: Score): (c: int)
    ensures c == 0 <==> a == b
    ensures c < 0 <==> AtMost(a, b) && a != b
    ensures c > 0 <==> AtMost(b, a) && a != b
  {
    if a == b then 0 else if AtMost(a, b) then -1 else 1
  }

  function MaxScore(a: Score, b: Score): (m: Score)
    ensures AtMost(a, m) && AtMost(b, m) && (m == a || m == b)
  {
    if AtMost(a, b) then b else a
  }

  /** The score of an action whose computation succeeded; Bottom for one that threw. */
  function Val<E>(r: Result<Score, E>): Score
  {
    if r.Ok? then r.value else Bottom
  }

  /** The greatest score in a non-empty run of actions. */
  function Greatest<T, E>(s: seq<T>, score: T -> Result<Score, E>): Score
    requires |s| > 0
    decreases |s|
  {
    if |s| == 1 then Val(score(s[0])) else MaxScore(Greatest(s[..|s| - 1], score), Val(score(s[|s| - 1])))
  }

  /** The actions whose score is m, in iteration order. */
  function KeepEqual<T, E>(s: seq<T>, score: T -> Result<Score, E>, m: Score): seq<T>
    decreases |s|
  {
    if s == [] then []
    else KeepEqual(s[..|s| - 1], score, m) + (if Val(score(s[|s| - 1])) == m then [s[|s| - 1]] else [])
  }

  /** The error of the first action, in iteration order, whose score cannot be computed. */
  function FirstFailure<T, E>(s: seq<T>, score: T -> Result<Score, E>): Option<E>
  {
    if s == [] then None
    else if score(s[0]).Err? then Some(score(s[0]).error)
    else FirstFailure(s[1..], score)
  }

  /**
   * What getMaximumValuedActions returns. The comparator is only called from the second action
   * on, so a single action is returned whatever its score; with two or more, the first score
   * that throws ends the scan.
   */
  function MaximumValued<T, E>(s: seq<T>, score: T -> Result<Score, E>): Result<seq<T>, E>
  {
    if |s| == 0 then Ok([])
    else if |s| >= 2 && FirstFailure(s, score).Some? then Err(FirstFailure(s, score).value)
    else Ok(KeepEqual(s, score, Greatest(s, score)))
  }

  lemma {:induction false} GreatestIsMaximum<T, E>(s: seq<T>, score: T -> Result<Score, E>)
    requires |s| > 0
    ensures forall i :: 0 <= i < |s| ==> AtMost(Val(score(s[i])), Greatest(s, score))
    ensures exists i :: 0 <= i < |s| && Val(score(s[i])) == Greatest(s, score)
    decreases |s|
  {
    if |s| > 1 {
      var init := s[..|s| - 1];
      GreatestIsMaximum(init, score);
      var i :| 0 <= i < |init| && Val(score(init[i])) == Greatest(init, score);
      if Greatest(s, score) == Greatest(init, score) {
        assert Val(score(s[i])) == Greatest(s, score);
      } else {
        assert Val(score(s[|s| - 1])) == Greatest(s, score);
      }
      forall j | 0 <= j < |s| ensures AtMost(Val(score(s[j])), Greatest(s, score)) {
        if j < |s| - 1 {
          assert s[j] == init[j];
          AtMostTransitive(Val(score(s[j])), Greatest(init, score), Greatest(s, score));
        }
      }
    } else {
      assert Val(score(s[0])) == Greatest(s, score);
    }
  }

  lemma AtMostTransitive(a: Score, b: Score, c: Score)
    requires AtMost(a, b) && AtMost(b, c)
    ensures AtMost(a, c)
  {
  }

  lemma {:induction false} KeepEqualMembers<T, E>(s: seq<T>, score: T -> Result<Score, E>, m: Score)
    ensures forall x :: x in KeepEqual(s, score, m) <==> x in s && Val(score(x)) == m
    decreases |s|
  {
    if s != [] {
      var init := s[..|s| - 1];
      KeepEqualMembers(init, score, m);
      assert s == init + [s[|s| - 1]];
    }
  }

  lemma {:induction false} KeepEqualNone<T, E>(s: seq<T>, score: T -> Result<Score, E>, m: Score)
    requires forall i :: 0 <= i < |s| ==> Val(score(s[i])) != m
    ensures KeepEqual(s, score, m) == []
    decreases |s|
  {
    if s != [] {
      var init := s[..|s| - 1];
      assert forall i :: 0 <= i < |init| ==> init[i] == s[i];
      KeepEqualNone(init, score, m);
    }
  }

  lemma {:induction false} FirstFailureAppend<T, E>(a: seq<T>, b: seq<T>, score: T -> Result<Score, E>)
    ensures FirstFailure(a + b, score) == if FirstFailure(a, score).Some? then FirstFailure(a, score) else FirstFailure(b, score)
    decreases |a|
  {
    if a != [] {
      assert (a + b)[1..] == a[1..] + b;
      FirstFailureAppend(a[1..], b, score);
    } else {
      assert a + b == b;
    }
  }

  /** With no failing score, no action of the run has one. */
  lemma {:induction false} NoFailureMeansAllScored<T, E>(s: seq<T>, score: T -> Result<Score, E>)
    requires FirstFailure(s, score).None?
    ensures forall i :: 0 <= i < |s| ==> score(s[i]).Ok?
    decreases |s|
  {
    if s != [] {
      NoFailureMeansAllScored(s[1..], score);
      forall i | 1 <= i < |s| ensures score(s[i]).Ok? {
        assert s[i] == s[1..][i - 1];
      }
    }
  }

  /** The first failure comes from some action of the run. */
  lemma {:induction false} FailureHasWitness<T, E>(s: seq<T>, score: T -> Result<Score, E>)
    requires FirstFailure(s, score).Some?
    ensures exists i :: 0 <= i < |s| && score(s[i]) == Err(FirstFailure(s, score).value)
    decreases |s|
  {
    if score(s[0]).Ok? {
      FailureHasWitness(s[1..], score);
      var i :| 0 <= i < |s[1..]| && score(s[1..][i]) == Err(FirstFailure(s[1..], score).value);
      assert s[1..][i] == s[i + 1];
    } else {
      assert score(s[0]) == Err(FirstFailure(s, score).value);
    }
  }

  /** A scan that succeeds returns exactly the actions of maximal score: non-empty iff the input is. */
  lemma MaximumValuedIsMaxima<T, E>(s: seq<T>, score: T -> Result<Score, E>)
    requires MaximumValued(s, score).Ok?
    ensures var r := MaximumValued(s, score).value;
      && (|r| > 0 <==> |s| > 0)
      && forall x :: x in r <==> x in s && forall y :: y in s ==> AtMost(Val(score(y)), Val(score(x)))
  {
    var r := MaximumValued(s, score).value;
    if |s| > 0 {
      var m := Greatest(s, score);
      GreatestIsMaximum(s, score);
      KeepEqualMembers(s, score, m);
      var i :| 0 <= i < |s| && Val(score(s[i])) == m;
      assert s[i] in r;
      forall x ensures x in r <==> x in s && forall y :: y in s ==> AtMost(Val(score(y)), Val(score(x))) {
        if x in s && forall y :: y in s ==> AtMost(Val(score(y)), Val(score(x))) {
          assert AtMost(Val(score(s[i])), Val(score(x)));
          var k :| 0 <= k < |s| && s[k] == x;
          assert AtMost(Val(score(s[k])), m);
        }
        if x in r {
          forall y | y in s ensures AtMost(Val(score(y)), Val(score(x))) {
            var k :| 0 <= k < |s| && s[k] == y;
            assert AtMost(Val(score(s[k])), m);
          }
        }
      }
    }
  }

  /** The scan fails exactly when there are at least two actions and one of them cannot be scored. */
  lemma MaximumValuedFailure<T, E>(s: seq<T>, score: T -> Result<Score, E>)
    ensures MaximumValued(s, score).Err? <==> |s| >= 2 && exists i :: 0 <= i < |s| && score(s[i]).Err?
  {
    if |s| >= 2 && FirstFailure(s, score).None? {
      NoFailureMeansAllScored(s, score);
    }
    if FirstFailure(s, score).Some? {
      FailureHasWitness(s, score);
    }
    if |s| >= 2 && exists i :: 0 <= i < |s| && score(s[i]).Err? {
      var i :| 0 <= i < |s| && score(s[i]).Err?;
      assert s == s[..i] + s[i..];
      assert s[i..][0] == s[i];
      FirstFailureAppend(s[..i], s[i..], score);
    }
  }

  lemma GreatestStep<T, E>(s: seq<T>, score: T -> Result<Score, E>, i: nat)
    requires 0 < i < |s|
    ensures Greatest(s[..i + 1], score) == MaxScore(Greatest(s[..i], score), Val(score(s[i])))
    ensures KeepEqual(s[..i + 1], score, Greatest(s[..i + 1], score))
         == KeepEqual(s[..i], score, Greatest(s[..i + 1], score))
            + (if Val(score(s[i])) == Greatest(s[..i + 1], score) then [s[i]] else [])
  {
    assert s[..i + 1][..i] == s[..i];
  }

  /** How the first failure of a prefix grows by one action, and that the whole run shares it. */
  lemma FirstFailureStep<T, E>(s: seq<T>, score: T -> Result<Score, E>, i: nat)
    requires i < |s|
    ensures FirstFailure(s[..i + 1], score)
         == if FirstFailure(s[..i], score).Some? then FirstFailure(s[..i], score)
            else if score(s[i]).Err? then Some(score(s[i]).error) else None
    ensures FirstFailure(s[..i + 1], score).Some? ==> FirstFailure(s, score) == FirstFailure(s[..i + 1], score)
  {
    FirstFailureJoin(s[..i], [s[i]], s[..i + 1], score);
    FirstFailureJoin(s[..i + 1], s[i + 1..], s, score);
    FirstFailureSingle(s[i], score);
  }

  lemma FirstFailureJoin<T, E>(a: seq<T>, b: seq<T>, whole: seq<T>, score: T -> Result<Score, E>)
    requires whole == a + b
    ensures FirstFailure(whole, score) == if FirstFailure(a, score).Some? then FirstFailure(a, score) else FirstFailure(b, score)
  {
    FirstFailureAppend(a, b, score);
  }

  lemma FirstFailureSingle<T, E>(x: T, score: T -> Result<Score, E>)
    ensures FirstFailure([x], score) == if score(x).Err? then Some(score(x).error) else None
  {
    assert [x][1..] == [];
  }

  /**
   * getMaximumValuedActions: one pass keeping the actions equal to the best so far; a strictly
   * better action restarts the list.
   */
  method GetMaximumValuedActions<T(==), E>(actions: seq<T>, score: T -> Result<Score, E>) returns (r: Result<seq<T>, E>)
    ensures r == MaximumValued(actions, score)
  {
    var selected: seq<T> := [];
    for i := 0 to |actions|
      invariant i == 0 ==> selected == []
      invariant i > 0 ==> selected == KeepEqual(actions[..i], score, Greatest(actions[..i], score)) && selected != []
      invariant i >= 2 ==> FirstFailure(actions[..i], score) == None
    {
      var step := KeepMaximal(actions, score, i, selected);
      if step.Err? {
        return step;
      }
      selected := step.value;
    }
    assert actions[..|actions|] == actions;
    if |actions| >= 2 {
      assert FirstFailure(actions, score) == None;
    }
    return Ok(selected);
  }

  /** One pass of the loop of getMaximumValuedActions: action i against the first kept action. */
  method KeepMaximal<T(==), E>(actions: seq<T>, score: T -> Result<Score, E>, i: nat, selected: seq<T>)
    returns (r: Result<seq<T>, E>)
    requires i < |actions|
    requires i == 0 ==> selected == []
    requires i > 0 ==> selected == KeepEqual(actions[..i], score, Greatest(actions[..i], score)) && selected != []
    requires i >= 2 ==> FirstFailure(actions[..i], score) == None
    ensures r.Err? ==> r == MaximumValued(actions, score)
    ensures r.Ok? ==> r.value == KeepEqual(actions[..i + 1], score, Greatest(actions[..i + 1], score)) && r.value != []
    ensures r.Ok? && i >= 1 ==> FirstFailure(actions[..i + 1], score) == None
  {
    if i > 0 {
      KeepEqualMembers(actions[..i], score, Greatest(actions[..i], score));
      assert selected[0] in selected;
      GreatestStep(actions, score, i);
      FirstFailureStep(actions, score, i);
      if i == 1 {
        assert actions[..1] == [actions[0]];
        assert selected[0] == actions[0];
      } else {
        NoFailureMeansAllScored(actions[..i], score);
      }
    }
    var action := actions[i];
    if selected == [] {
      assert i == 0;
      assert actions[..1] == [actions[0]];
      return Ok([action]);
    } else {
      var first := score(selected[0]);
      if first.Err? {
        return Err(first.error);
      }
      var current := score(action);
      if current.Err? {
        return Err(current.error);
      }
      var c := Compare(first.value, current.value);
      if c == 0 {
        return Ok(selected + [action]);
      } else if c < 0 {
        KeepEqualMembers(actions[..i], score, current.value);
        GreatestIsMaximum(actions[..i], score);
        forall k | 0 <= k < |actions[..i]| ensures Val(score(actions[..i][k])) != current.value {
          assert AtMost(Val(score(actions[..i][k])), first.value);
        }
        KeepEqualNone(actions[..i], score, current.value);
        return Ok([action]);
      }
      return Ok(selected);
    }
  }

  // ---------------------------------------------------------------------------------------
  // The arena and its invariants

  /** The child node an action leads to, if the action is a child key. */
  function ChildOf(nodes: seq<Node>, n: nat, a: Action): (r: Option<nat>)
    requires n < |nodes|
    ensures r.Some? ==> r.value < |nodes| && a in nodes[n].children && r.value == nodes[n].children[a]
  {
    if a in nodes[n].children && nodes[n].children[a] < |nodes| then Some(nodes[n].children[a]) else None
  }

  /** Node i's parent link: the root has none and depth 0; any other node hangs under an earlier node. */
  ghost predicate ParentLink(nodes: seq<Node>, i: nat)
    requires i < |nodes|
  {
    if i == 0 then nodes[0].parent == None && nodes[0].depth == 0
    else nodes[i].parent.Some? && nodes[i].parent.value < i && i in nodes[nodes[i].parent.value].children.Values
  }

  /** Node j's child links: each child is a later node, links back to j, is one level deeper, and holds the state the action leads to. */
  ghost predicate ChildLinks(e: Engine, nodes: seq<Node>, j: nat)
    requires j < |nodes|
  {
    forall k :: k in nodes[j].children ==>
      var c := nodes[j].children[k];
      && j < c < |nodes|
      && nodes[c].parent == Some(j)
      && nodes[c].depth == nodes[j].depth + 1
      && nodes[c].game == e.doAction(nodes[j].game, k)
  }

  ghost predicate WellFormed(e: Engine, nodes: seq<Node>)
  {
    && |nodes| > 0
    && (forall i :: 0 <= i < |nodes| ==> ParentLink(nodes, i))
    && (forall j :: 0 <= j < |nodes| ==> ChildLinks(e, nodes, j))
  }

  /** Node i's counters: wins never exceed playouts, and a child never has more playouts than its parent. */
  ghost predicate CountsOk(nodes: seq<Node>, i: nat)
    requires i < |nodes|
  {
    && 0 <= nodes[i].wins <= nodes[i].playouts
    && (nodes[i].parent.Some? && nodes[i].parent.value < |nodes| ==>
          nodes[i].playouts <= nodes[nodes[i].parent.value].playouts)
  }

  ghost predicate Consistent(nodes: seq<Node>)
  {
    forall i :: 0 <= i < |nodes| ==> CountsOk(nodes, i)
  }

  /** Node n and all its ancestors. */
  function Ancestry(nodes: seq<Node>, n: nat): (r: set<nat>)
    ensures forall i :: i in r ==> i <= n && i < |nodes|
    ensures n < |nodes| ==> n in r
    decreases n
  {
    if n >= |nodes| then {}
    else
      match nodes[n].parent
      case None => {n}
      case Some(p) => if p < n then {n} + Ancestry(nodes, p) else {n}
  }

  /** One playout recorded at a node. */
  function Visit(node: Node, win: int): Node
  {
    node.(wins := node.wins + win, playouts := node.playouts + 1)
  }

  /** The arena after recording one playout with result win at every node of on. */
  function Bumped(nodes: seq<Node>, on: set<nat>, win: int): (r: seq<Node>)
    ensures |r| == |nodes|
    ensures forall i :: 0 <= i < |nodes| ==> r[i] == if i in on then Visit(nodes[i], win) else nodes[i]
  {
    seq(|nodes|, i requires 0 <= i < |nodes| => if i in on then Visit(nodes[i], win) else nodes[i])
  }

  /** The arena after expansion of node n with action a: a fresh 0/0 leaf, one level deeper, under key a. */
  function Expanded(e: Engine, nodes: seq<Node>, n: nat, a: Action): (r: seq<Node>)
    requires n < |nodes|
    ensures |r| == |nodes| + 1
  {
    var node := nodes[n];
    nodes[n := node.(children := node.children[a := |nodes|])]
      + [Node(e.doAction(node.game, a), node.depth + 1, Some(n), map[], 0, 0)]
  }

  /** Two arenas with the same parent links have the same ancestries. */
  lemma {:induction false} AncestrySameLinks(a: seq<Node>, b: seq<Node>, n: nat)
    requires |a| == |b| && forall i :: 0 <= i < |a| ==> a[i].parent == b[i].parent
    ensures Ancestry(a, n) == Ancestry(b, n)
    decreases n
  {
    if n < |a| && a[n].parent.Some? && a[n].parent.value < n {
      AncestrySameLinks(a, b, a[n].parent.value);
    }
  }

  /** The parent of a node in an ancestry is in it too. */
  lemma {:induction false} AncestryClosed(nodes: seq<Node>, n: nat, i: nat)
    requires i in Ancestry(nodes, n) && nodes[i].parent.Some? && nodes[i].parent.value < i
    ensures nodes[i].parent.value in Ancestry(nodes, n)
    decreases n
  {
    if i != n {
      AncestryClosed(nodes, nodes[n].parent.value, i);
    }
  }

  /** Playouts recorded along an ancestry keep wins within playouts and children within their parents. */
  lemma BumpedConsistent(e: Engine, nodes: seq<Node>, n: nat, win: int)
    requires WellFormed(e, nodes) && Consistent(nodes) && n < |nodes| && (win == 0 || win == 1)
    ensures Consistent(Bumped(nodes, Ancestry(nodes, n), win))
  {
    var on := Ancestry(nodes, n);
    var r := Bumped(nodes, on, win);
    forall i | 0 <= i < |r| ensures CountsOk(r, i) {
      assert CountsOk(nodes, i);
      assert ParentLink(nodes, i);
      if i in on && nodes[i].parent.Some? {
        AncestryClosed(nodes, n, i);
      }
    }
  }

  /** Bumping node n and then the ancestry of its parent p is bumping the ancestry of n. */
  lemma BumpAncestors(nodes: seq<Node>, n: nat, p: nat, win: int)
    requires n < |nodes| && nodes[n].parent == Some(p) && p < n
    ensures Bumped(Bumped(nodes, {n}, win), Ancestry(nodes, p), win) == Bumped(nodes, Ancestry(nodes, n), win)
  {
    var on := Ancestry(nodes, n);
    assert on == {n} + Ancestry(nodes, p);
    var r, t := Bumped(Bumped(nodes, {n}, win), Ancestry(nodes, p), win), Bumped(nodes, on, win);
    forall i | 0 <= i < |nodes| ensures r[i] == t[i] {
      if i == n {
        assert n !in Ancestry(nodes, p);
      }
    }
  }

  /** Recording playouts changes no link, so the tree keeps its shape. */
  lemma BumpedWellFormed(e: Engine, nodes: seq<Node>, on: set<nat>, win: int)
    requires WellFormed(e, nodes)
    ensures WellFormed(e, Bumped(nodes, on, win))
  {
    var r := Bumped(nodes, on, win);
    forall i | 0 <= i < |r| ensures ParentLink(r, i) {
      assert ParentLink(nodes, i);
    }
    forall j | 0 <= j < |r| ensures ChildLinks(e, r, j) {
      assert ChildLinks(e, nodes, j);
    }
  }

  /** Expanding a node with a fresh action keeps the tree well formed. */
  lemma ExpandedWellFormed(e: Engine, nodes: seq<Node>, n: nat, a: Action)
    requires WellFormed(e, nodes) && n < |nodes| && a !in nodes[n].children
    ensures WellFormed(e, Expanded(e, nodes, n, a))
  {
    var r := Expanded(e, nodes, n, a);
    var leaf := |nodes|;
    assert r[leaf].parent == Some(n);
    FreshKeyKeepsValues(nodes[n].children, a, leaf);
    forall i | 0 <= i < |r| ensures ParentLink(r, i) {
      if i < leaf {
        assert ParentLink(nodes, i);
        if i > 0 {
          var p := nodes[i].parent.value;
          assert nodes[p].children.Values <= r[p].children.Values;
        }
      } else {
        assert r[n].children[a] == leaf;
      }
    }
    forall j | 0 <= j < |r| ensures ChildLinks(e, r, j) {
      if j < leaf {
        assert ChildLinks(e, nodes, j);
        forall k | k in r[j].children ensures var c := r[j].children[k]; j < c < |r| && r[c].parent == Some(j) {
          if !(j == n && k == a) {
            assert k in nodes[j].children;
          }
        }
      }
    }
  }

  lemma FreshKeyKeepsValues<K, V>(m: map<K, V>, k: K, v: V)
    requires k !in m
    ensures m.Values <= m[k := v].Values
  {
    forall x | x in m.Values ensures x in m[k := v].Values {
      var j :| j in m && m[j] == x;
      assert m[k := v][j] == x;
    }
  }

  /** A new leaf starts at 0 of 0 playouts, so the counters stay consistent. */
  lemma ExpandedConsistent(e: Engine, nodes: seq<Node>, n: nat, a: Action)
    requires WellFormed(e, nodes) && Consistent(nodes) && n < |nodes|
    ensures Consistent(Expanded(e, nodes, n, a))
  {
    var r := Expanded(e, nodes, n, a);
    assert forall i :: 0 <= i < |nodes| ==>
      r[i].playouts == nodes[i].playouts && r[i].wins == nodes[i].wins && r[i].parent == nodes[i].parent;
    forall i | 0 <= i < |r| ensures CountsOk(r, i) {
      if i < |nodes| {
        assert CountsOk(nodes, i);
        assert ParentLink(nodes, i);
      } else {
        assert CountsOk(nodes, n);
        assert r[i].parent == Some(n);
      }
    }
  }

  // ---------------------------------------------------------------------------------------
  // Scoring: calculateQsaOfChild and calculateUCT

  /** (double) wins / playouts, with division by zero as in Java: NaN or +Infinity rank as Top, -Infinity as Bottom. */
  function Ratio(wins: int, playouts: int): Score
  {
    if playouts != 0 then Finite(wins as real / playouts as real)
    else if wins >= 0 then Top
    else Bottom
  }

  /** calculateQsaOfChild: only a child key has a Q value. */
  function Qsa(nodes: seq<Node>, n: nat, a: Action): (r: Result<Score, MctsError>)
    requires n < |nodes|
    ensures r.Err? <==> ChildOf(nodes, n, a).None?
    ensures r.Err? ==> r.error == NotAChild
  {
    match ChildOf(nodes, n, a)
    case None => Err(NotAChild)
    case Some(c) => Ok(Ratio(nodes[c].wins, nodes[c].playouts))
  }

  /** In a consistent tree a child's Q is a win rate in [0, 1], or Top while it has no playouts. */
  lemma QsaIsWinRate(nodes: seq<Node>, n: nat, a: Action)
    requires Consistent(nodes) && n < |nodes| && ChildOf(nodes, n, a).Some?
    ensures var c := nodes[ChildOf(nodes, n, a).value];
      Qsa(nodes, n, a) == if c.playouts == 0 then Ok(Top) else Ok(Finite(c.wins as real / c.playouts as real))
    ensures var q := Qsa(nodes, n, a).value; q.Finite? ==> 0.0 <= q.value <= 1.0
  {
    var c := nodes[ChildOf(nodes, n, a).value];
    assert CountsOk(nodes, ChildOf(nodes, n, a).value);
    if c.playouts != 0 {
      RatioInUnitInterval(c.wins, c.playouts);
    }
  }

  lemma RatioInUnitInterval(w: int, p: int)
    requires 0 <= w <= p && p > 0
    ensures 0.0 <= w as real / p as real <= 1.0
  {
    assert w as real / p as real * p as real == w as real;
  }

  /** The Q term of calculateUCT: the child's win rate for the optimised player, its loss rate for anyone else. */
  function UctQ(p: Params, nodes: seq<Node>, n: nat, child: Node): real
    requires n < |nodes| && child.playouts != 0
  {
    if p.engine.currentPlayer(nodes[n].game) == p.playerId then child.wins as real / child.playouts as real
    else (child.playouts - child.wins) as real / child.playouts as real
  }

  /** The Q seen by any other player is one minus the optimised player's. */
  lemma OpponentQIsComplement(wins: int, playouts: int)
    requires playouts != 0
    ensures (playouts - wins) as real / playouts as real == 1.0 - wins as real / playouts as real
  {
    var P, W := playouts as real, wins as real;
    assert (P - W) / P == P / P - W / P;
    assert P / P == 1.0;
  }

  /**
   * calculateUCT: an invalid action throws; with no children, or for an action that leads to no
   * child, the score is MAX_VALUE (Top); for a child it is Q plus the exploration term, unless a
   * playout count is 0, which throws.
   */
  function Uct(p: Params, nodes: seq<Node>, n: nat, a: Action): (r: Result<Score, MctsError>)
    requires n < |nodes|
    ensures r.Ok? && r.value == Top <==>
      p.engine.isValidAction(nodes[n].game, a) && (nodes[n].children == map[] || ChildOf(nodes, n, a).None?)
    ensures r.Err? <==>
      !p.engine.isValidAction(nodes[n].game, a)
      || (nodes[n].children != map[] && ChildOf(nodes, n, a).Some?
          && (nodes[ChildOf(nodes, n, a).value].playouts == 0 || nodes[n].playouts == 0))
    ensures r.Ok? && r.value != Top ==> var c := nodes[ChildOf(nodes, n, a).value];
      r.value == Finite(UctQ(p, nodes, n, c) + p.exploration(nodes[n].playouts, c.playouts))
  {
    if !p.engine.isValidAction(nodes[n].game, a) then Err(InvalidAction)
    else if nodes[n].children == map[] then Ok(Top)
    else
      match ChildOf(nodes, n, a)
      case None => Ok(Top)
      case Some(c) =>
        var child := nodes[c];
        if child.playouts == 0 || nodes[n].playouts == 0 then Err(ZeroPlayouts)
        else Ok(Finite(UctQ(p, nodes, n, child) + p.exploration(nodes[n].playouts, child.playouts)))
  }

  /** Once every node has a playout (what the search loop guarantees before it selects), calculateUCT never throws for a valid action. */
  lemma UctDefinedOnVisitedTree(p: Params, nodes: seq<Node>, n: nat, a: Action)
    requires n < |nodes| && (forall i :: 0 <= i < |nodes| ==> nodes[i].playouts > 0)
    requires p.engine.isValidAction(nodes[n].game, a)
    ensures Uct(p, nodes, n, a).Ok?
  {
  }

  /** An action that leads to an existing child gets a finite score, so it ranks below any untried action. */
  lemma UntriedBeatsTried(p: Params, nodes: seq<Node>, n: nat, tried: Action, untried: Action)
    requires n < |nodes| && ChildOf(nodes, n, tried).Some? && Uct(p, nodes, n, tried).Ok?
    requires ChildOf(nodes, n, untried).None? && p.engine.isValidAction(nodes[n].game, untried)
    ensures Uct(p, nodes, n, untried) == Ok(Top)
    ensures AtMost(Uct(p, nodes, n, tried).value, Top) && Uct(p, nodes, n, tried).value != Top
  {
  }

  /** Among the UCT maxima at n, an untried action excludes every tried one. */
  lemma UntriedFirst(p: Params, nodes: seq<Node>, possibleActions: seq<Action>, n: nat, selected: Action)
    requires WellFormed(p.engine, nodes) && n < |nodes|
    requires MaximumValued(possibleActions, a => Uct(p, nodes, n, a)).Ok?
    requires selected in MaximumValued(possibleActions, a => Uct(p, nodes, n, a)).value
    ensures (exists a :: a in possibleActions && a !in nodes[n].children) ==> selected !in nodes[n].children
  {
    var score := a => Uct(p, nodes, n, a);
    MaximumValuedIsMaxima(possibleActions, score);
    assert ChildLinks(p.engine, nodes, n);
    if u :| u in possibleActions && u !in nodes[n].children {
      assert selected in possibleActions;
      if |possibleActions| >= 2 {
        MaximumValuedFailure(possibleActions, score);
        var i :| 0 <= i < |possibleActions| && possibleActions[i] == u;
        assert score(u).Ok?;
        assert ChildOf(nodes, n, u).None?;
        assert Val(score(u)) == Top;
        assert AtMost(Val(score(u)), Val(score(selected)));
        assert score(selected) == Ok(Top);
      } else {
        assert possibleActions == [possibleActions[0]];
      }
    }
  }

  /** Set.remove on the action set: every occurrence of x goes, the rest keep their order. */
  function Without(s: seq<Action>, x: Action): (r: seq<Action>)
    ensures forall i :: 0 <= i < |r| ==> r[i] in s && r[i] != x
    ensures forall i :: 0 <= i < |s| && s[i] != x ==> s[i] in r
  {
    if s == [] then [] else (if s[0] == x then [] else [s[0]]) + Without(s[1..], x)
  }

  // ---------------------------------------------------------------------------------------
  // The tree

  class SearchTree {
    const params: Params
    var nodes: seq<Node>

    ghost predicate Valid()
      reads this
    {
      WellFormed(params.engine, nodes)
    }

    /** MctsNode(game, null): a root that has not been explored yet. */
    constructor (params: Params, game: GameState)
      ensures Valid() && Consistent(nodes)
      ensures this.params == params && nodes == [Node(game, 0, None, map[], 0, 0)]
    {
      this.params := params;
      nodes := [Node(game, 0, None, map[], 0, 0)];
      new;
      assert ParentLink(nodes, 0);
      assert ChildLinks(params.engine, nodes, 0);
      assert CountsOk(nodes, 0);
    }

    /** MctsNode(wins, playouts, game, null): a root with given counters; consistent exactly when 0 <= wins <= playouts. */
    constructor WithCounts(params: Params, wins: int, playouts: int, game: GameState)
      ensures Valid() && (Consistent(nodes) <==> 0 <= wins <= playouts)
      ensures this.params == params && nodes == [Node(game, 0, None, map[], wins, playouts)]
    {
      this.params := params;
      nodes := [Node(game, 0, None, map[], wins, playouts)];
      new;
      assert ParentLink(nodes, 0);
      assert ChildLinks(params.engine, nodes, 0);
      assert CountsOk(nodes, 0) <==> 0 <= wins <= playouts;
    }

    /**
     * backpropagation(win): a win other than 0 or 1 throws before anything changes; otherwise
     * node n and every ancestor up to the root each gain one playout and win wins, and nothing
     * else changes.
     */
    method Backpropagation(n: nat, win: int) returns (r: Result<(), MctsError>)
      requires Valid() && n < |nodes|
      modifies this
      ensures Valid()
      ensures win != 0 && win != 1 ==> r == Err(BadReward) && nodes == old(nodes)
      ensures (win == 0 || win == 1) ==> r == Ok(()) && nodes == Bumped(old(nodes), Ancestry(old(nodes), n), win)
      ensures old(Consistent(nodes)) ==> Consistent(nodes)
      decreases n
    {
      if win != 0 && win != 1 {
        return Err(BadReward);
      }
      ghost var before := nodes;
      ghost var consistent := Consistent(nodes);
      if consistent {
        BumpedConsistent(params.engine, nodes, n, win);
      }
      nodes := nodes[n := Visit(nodes[n], win)];
      assert nodes == Bumped(before, {n}, win);
      BumpedWellFormed(params.engine, before, {n}, win);
      assert ParentLink(before, n);
      match nodes[n].parent
      case None => {
        assert Ancestry(before, n) == {n};
        r := Ok(());
      }
      case Some(p) => {
        ghost var mid := nodes;
        AncestrySameLinks(mid, before, p);
        r := Backpropagation(p, win);
        BumpAncestors(before, n, p, win);
      }
    }

    /**
     * expansion(action): no action gives back node n itself; an action the state rejects, or one
     * already expanded, throws and changes nothing; otherwise node n gets exactly one new child
     * under the action, and its index is returned.
     */
    method Expansion(n: nat, action: Option<Action>) returns (r: Result<nat, MctsError>)
      requires Valid() && n < |nodes|
      modifies this
      ensures Valid()
      ensures action.None? ==> r == Ok(n) && nodes == old(nodes)
      ensures action.Some? && !params.engine.isValidAction(old(nodes)[n].game, action.value) ==>
        r == Err(InvalidAction) && nodes == old(nodes)
      ensures (action.Some? && params.engine.isValidAction(old(nodes)[n].game, action.value)
               && action.value in old(nodes)[n].children) ==>
        r == Err(AlreadyExpanded) && nodes == old(nodes)
      ensures (action.Some? && params.engine.isValidAction(old(nodes)[n].game, action.value)
               && action.value !in old(nodes)[n].children) ==>
        r == Ok(|old(nodes)|) && nodes == Expanded(params.engine, old(nodes), n, action.value)
      ensures old(Consistent(nodes)) ==> Consistent(nodes)
    {
      if action.None? {
        return Ok(n);
      }
      var a := action.value;
      if !params.engine.isValidAction(nodes[n].game, a) {
        return Err(InvalidAction);
      }
      if a in nodes[n].children {
        return Err(AlreadyExpanded);
      }
      ExpandedWellFormed(params.engine, nodes, n, a);
      if Consistent(nodes) {
        ExpandedConsistent(params.engine, nodes, n, a);
      }
      var node := nodes[n];
      var newNode := Node(params.engine.doAction(node.game, a), node.depth + 1, Some(n), map[], 0, 0);
      var index := |nodes|;
      nodes := nodes[n := node.(children := node.children[a := index])] + [newNode];
      return Ok(index);
    }

    /**
     * selection(simulateAllDiceOutcomes): on a terminal state returns (n, no action). Otherwise it
     * picks an action, at random among the die outcomes other than the random roll in a die-roll
     * phase when all outcomes are simulated, else at random among the UCT maxima, and descends
     * while the action leads to an existing child. The result is n or a descendant of n, with an
     * action that is possible there and not yet expanded; an untried action at n stops the
     * descent at n.
     */
    method Selection(n: nat, simulateAllDiceOutcomes: bool) returns (r: Result<(nat, Option<Action>), MctsError>)
      requires Valid() && n < |nodes|
      ensures r.Ok? ==> var (m, act) := r.value;
        && m < |nodes| && n in Ancestry(nodes, m)
        && (act.None? <==> params.engine.possibleActions(nodes[m].game) == [])
        && (act.Some? ==> act.value in params.engine.possibleActions(nodes[m].game) && act.value !in nodes[m].children)
      ensures (&& r.Ok? && !(simulateAllDiceOutcomes && params.engine.inDieRollPhase(nodes[n].game))
               && exists a :: a in params.engine.possibleActions(nodes[n].game) && a !in nodes[n].children) ==>
        r.value.0 == n
      decreases |nodes| - n
    {
      var game := nodes[n].game;
      var possibleActions := params.engine.possibleActions(game);
      if |possibleActions| == 0 {
        return Ok((n, None));
      }
      var selectedAction: Action;
      if simulateAllDiceOutcomes && params.engine.inDieRollPhase(game) {
        var remaining := Without(possibleActions, params.engine.randomRollAction);
        if |remaining| == 0 {
          return Err(NoActionLeft);
        }
        var k :| 0 <= k < |remaining|;
        selectedAction := remaining[k];
        assert selectedAction in remaining;
      } else {
        var ns := nodes;
        var maxima := GetMaximumValuedActions(possibleActions, a => Uct(params, ns, n, a));
        if maxima.Err? {
          return Err(maxima.error);
        }
        MaximumValuedIsMaxima(possibleActions, a => Uct(params, ns, n, a));
        var k :| 0 <= k < |maxima.value|;
        selectedAction := maxima.value[k];
        assert selectedAction in maxima.value;
        UntriedFirst(params, ns, possibleActions, n, selectedAction);
      }
      if selectedAction in nodes[n].children {
        var c := nodes[n].children[selectedAction];
        assert ChildLinks(params.engine, nodes, n);
        r := Selection(c, simulateAllDiceOutcomes);
        if r.Ok? {
          assert nodes[c].parent == Some(n);
          AncestryClosed(nodes, r.value.0, c);
        }
      } else {
        r := Ok((n, Some(selectedAction)));
      }
    }

    /**
     * getBestChild: a leaf throws; otherwise a child key, chosen at random among those of maximal
     * Q, and the child it leads to.
     */
    method GetBestChild(n: nat) returns (r: Result<(nat, Action), MctsError>)
      requires Valid() && n < |nodes|
      ensures r.Err? <==> nodes[n].children == map[]
      ensures r.Err? ==> r.error == NoChildren
      ensures r.Ok? ==> var (c, a) := r.value;
        && a in nodes[n].children && c == nodes[n].children[a]
        && Qsa(nodes, n, a).Ok?
        && forall b :: b in nodes[n].children ==> AtMost(Val(Qsa(nodes, n, b)), Val(Qsa(nodes, n, a)))
    {
      var children := nodes[n].children;
      if children == map[] {
        return Err(NoChildren);
      }
      assert ChildLinks(params.engine, nodes, n);
      var keys := EnumerateKeys(children.Keys);
      var ns := nodes;
      var score := a => Qsa(ns, n, a);
      var maxima := GetMaximumValuedActions(keys, score);
      MaximumValuedFailure(keys, score);
      assert maxima.Ok?;
      MaximumValuedIsMaxima(keys, score);
      var some :| some in children.Keys;
      assert some in keys;
      var k :| 0 <= k < |maxima.value|;
      var selectedAction := maxima.value[k];
      assert selectedAction in maxima.value;
      return Ok((children[selectedAction], selectedAction));
    }
  }

  /** HashMap.keySet() iteration: the keys in some order, each exactly once. */
  method EnumerateKeys(keys: set<Action>) returns (xs: seq<Action>)
    ensures forall x :: x in xs <==> x in keys
    ensures |xs| == |keys|
    ensures forall i, j :: 0 <= i < j < |xs| ==> xs[i] != xs[j]
  {
    xs := [];
    var rest := keys;
    while rest != {}
      invariant forall x :: x in xs <==> x in keys && x !in rest
      invariant rest <= keys
      invariant |xs| + |rest| == |keys|
      invariant forall i, j :: 0 <= i < j < |xs| ==> xs[i] != xs[j]
      decreases |rest|
    {
      var x :| x in rest;
      xs := xs + [x];
      rest := rest - {x};
    }
  }
}
