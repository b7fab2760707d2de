/**
 * CardTracker: hand sizes per player (between 0 and 4), the graveyard of played cards,
 * and the hidden pool derived from them.
 */
module Cards {
  import opened Game
  import opened Lists

  /** INITIAL_CARDS_PER_PLAYER */
  const InitialCards: int := 2
  /** MAX_CARDS_PER_PLAYER */
  const MaxCards: int := 4

  /** A change to one player's hand size. */
  datatype HandEvent = Gained | Played

  /** How one event changes a hand size: a gain stops at MaxCards, a play stops at 0. */
  function AfterEvent(count: int, e: HandEvent): int
  {
    match e
    case Gained => if count < MaxCards then count + 1 else count
    case Played => if count > 0 then count - 1 else count
  }

  /** A hand size after a run of events, applied in order. */
  function AfterEvents(count: int, events: seq<HandEvent>): int
    decreases |events|
  {
    if events == [] then count else AfterEvent(AfterEvents(count, events[..|events| - 1]), events[|events| - 1])
  }

  /** Starting inside [0, MaxCards], a hand size stays there whatever the events. */
  lemma {:induction false} HandSizeStaysInRange(count: int, events: seq<HandEvent>)
    requires 0 <= count <= MaxCards
    ensures 0 <= AfterEvents(count, events) <= MaxCards
    decreases |events|
  {
    if events != [] {
      HandSizeStaysInRange(count, events[..|events| - 1]);
    }
  }

  /** k gains in a row take a hand to count + k, but never past MaxCards: once full, gains do nothing. */
  lemma {:induction false} GainsSaturate(count: int, k: nat)
    requires 0 <= count <= MaxCards
    ensures AfterEvents(count, seq(k, _ => Gained)) == if count + k < MaxCards then count + k else MaxCards
  {
    if k > 0 {
      assert seq(k, _ => Gained)[..k - 1] == seq(k - 1, _ => Gained);
      GainsSaturate(count, k - 1);
    }
  }

  class CardTracker {
    const numPlayers: nat
    /** totalCardsInGame: every card of the game, in the order the factory's stack dealt them. */
    const universe: seq<Card>
    /** Played cards, in the order they were recorded. */
    var graveyard: seq<Card>
    /** playerCardCounts */
    const counts: array<int>

    ghost predicate Valid()
      reads this, counts
    {
      counts.Length == numPlayers && forall p :: 0 <= p < numPlayers ==> 0 <= counts[p] <= MaxCards
    }

    /** The deck stands for the factory's card stack, drawn until empty. */
    constructor (numPlayers: nat, deck: seq<Card>)
      ensures Valid() && fresh(counts)
      ensures this.numPlayers == numPlayers && universe == deck && graveyard == []
      ensures forall p :: 0 <= p < numPlayers ==> counts[p] == InitialCards
    {
      this.numPlayers := numPlayers;
      universe := deck;
      graveyard := [];
      counts := new int[numPlayers](_ => InitialCards);
    }

    /** recordCardGained: one more card, unless the hand already holds MaxCards. */
    method RecordCardGained(p: int)
      requires Valid() && 0 <= p < numPlayers
      modifies counts
      ensures Valid()
      ensures counts[p] == AfterEvent(old(counts[p]), Gained)
      ensures forall q :: 0 <= q < numPlayers && q != p ==> counts[q] == old(counts[q])
    {
      if counts[p] < MaxCards {
        counts[p] := counts[p] + 1;
      }
    }

    /** recordCardPlayed: the card always goes to the graveyard; the hand shrinks unless it is already empty. */
    method RecordCardPlayed(p: int, card: Card)
      requires Valid() && 0 <= p < numPlayers
      modifies this, counts
      ensures Valid()
      ensures graveyard == old(graveyard) + [card]
      ensures counts[p] == AfterEvent(old(counts[p]), Played)
      ensures forall q :: 0 <= q < numPlayers && q != p ==> counts[q] == old(counts[q])
    {
      graveyard := graveyard + [card];
      if counts[p] > 0 {
        counts[p] := counts[p] - 1;
      }
    }

    /**
     * getHiddenPool: the universe less one occurrence of each graveyard card, then less one
     * occurrence of each of the caller's own cards, the survivors kept in universe order.
     */
    method GetHiddenPool(own: seq<Card>) returns (pool: seq<Card>)
      ensures pool == RemoveAll(RemoveAll(universe, graveyard), own)
      ensures multiset(pool) == multiset(universe) - multiset(graveyard) - multiset(own)
      ensures multiset(graveyard) + multiset(own) <= multiset(universe) ==>
        |pool| == |universe| - |graveyard| - |own|
    {
      pool := universe;
      for i := 0 to |graveyard|
        invariant pool == RemoveAll(universe, graveyard[..i])
      {
        RemoveAllStep(universe, graveyard, i);
        pool := RemoveFirst(pool, graveyard[i]);
      }
      assert graveyard[..|graveyard|] == graveyard;
      ghost var afterGraveyard := pool;
      for i := 0 to |own|
        invariant pool == RemoveAll(afterGraveyard, own[..i])
      {
        RemoveAllStep(afterGraveyard, own, i);
        pool := RemoveFirst(pool, own[i]);
      }
      assert own[..|own|] == own;
      HiddenPoolFacts(universe, graveyard, own);
    }

    /** getPlayerCardCount: always within [0, MaxCards]. */
    function PlayerCardCount(p: int): (r: int)
      requires Valid() && 0 <= p < numPlayers
      reads this, counts
      ensures 0 <= r <= MaxCards
      ensures r == counts[p]
    {
      counts[p]
    }

    /** getTotalCardsInGame: a copy of the universe (a sequence value, so the caller cannot change the tracker's). */
    method GetTotalCardsInGame() returns (cards: seq<Card>)
      ensures cards == universe
    {
      cards := universe;
    }
  }

  /**
   * The hidden pool is the multiset difference universe - graveyard - own; when the graveyard and
   * the own hand fit inside the universe, it holds exactly the remaining number of cards.
   */
  lemma HiddenPoolFacts(universe: seq<Card>, graveyard: seq<Card>, own: seq<Card>)
    ensures multiset(RemoveAll(RemoveAll(universe, graveyard), own))
         == multiset(universe) - multiset(graveyard) - multiset(own)
    ensures multiset(graveyard) + multiset(own) <= multiset(universe) ==>
      |RemoveAll(RemoveAll(universe, graveyard), own)| == |universe| - |graveyard| - |own|
  {
    if multiset(graveyard) + multiset(own) <= multiset(universe) {
      RemoveAllLength(universe, graveyard);
      var rest := RemoveAll(universe, graveyard);
      assert multiset(own) <= multiset(rest) by {
        forall c | c in multiset(own) ensures multiset(own)[c] <= multiset(rest)[c] {
          assert multiset(rest)[c] == multiset(universe)[c] - multiset(graveyard)[c];
        }
      }
      RemoveAllLength(rest, own);
    }
  }
}
