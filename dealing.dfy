/**
 * The card part of DetectiveGoetzbach.addInformationToGame: the hidden pool is shuffled and
 * dealt from the front, seat by seat, each opponent getting as many cards as the CardTracker
 * says it holds, or what is left of the pool.
 */
module Dealing {
  import opened Game

  /** How many cards the inner loop takes: the hand size, cut to what is left (never negative). */
  function Want(handSize: int, left: int): (k: nat)
  {
    if handSize <= 0 || left <= 0 then 0 else if handSize <= left then handSize else left
  }

  /** How many pool cards the seats below i take; the agent's own seat takes none. */
  function Consumed(i: nat, own: int, sizes: seq<int>, poolSize: nat): (c: nat)
    requires i <= |sizes|
    ensures c <= poolSize
  {
    if i == 0 then 0
    else
      var before := Consumed(i - 1, own, sizes, poolSize);
      before + (if i - 1 == own then 0 else Want(sizes[i - 1], poolSize - before))
  }

  /** The hand guessed for seat i: the next slice of the shuffled pool. */
  function Hand(i: nat, own: int, sizes: seq<int>, pool: seq<Card>): seq<Card>
    requires i < |sizes|
  {
    pool[Consumed(i, own, sizes, |pool|)..Consumed(i + 1, own, sizes, |pool|)]
  }

  /** game.getCards() after the puts for the seats below i. */
  function Dealt(i: nat, own: int, sizes: seq<int>, pool: seq<Card>, cards: map<int, seq<Card>>): map<int, seq<Card>>
    requires i <= |sizes|
  {
    if i == 0 then cards
    else if i - 1 == own then Dealt(i - 1, own, sizes, pool, cards)
    else Dealt(i - 1, own, sizes, pool, cards)[i - 1 := Hand(i - 1, own, sizes, pool)]
  }

  /** Collections.shuffle: some permutation of the pool (which one is left open). */
  method Shuffle(pool: seq<Card>) returns (shuffled: seq<Card>)
    ensures multiset(shuffled) == multiset(pool)
    ensures |shuffled| == |pool|
  {
    shuffled := [];
    var rest := pool;
    while rest != []
      invariant multiset(shuffled) + multiset(rest) == multiset(pool)
      invariant |shuffled| + |rest| == |pool|
      decreases |rest|
    {
      var k :| 0 <= k < |rest|;
      assert rest == rest[..k] + [rest[k]] + rest[k + 1..];
      shuffled := shuffled + [rest[k]];
      rest := rest[..k] + rest[k + 1..];
    }
  }

  /** The dealing loop: each opponent's hand is taken from the front of the shuffled pool. */
  method DealHands(numPlayers: nat, own: int, sizes: seq<int>, pool: seq<Card>, cards: map<int, seq<Card>>)
    returns (dealt: map<int, seq<Card>>, left: seq<Card>)
    requires |sizes| == numPlayers
    ensures dealt == Dealt(numPlayers, own, sizes, pool, cards)
    ensures left == pool[Consumed(numPlayers, own, sizes, |pool|)..]
  {
    dealt := cards;
    left := pool;
    for i := 0 to numPlayers
      invariant dealt == Dealt(i, own, sizes, pool, cards)
      invariant left == pool[Consumed(i, own, sizes, |pool|)..]
    {
      if i == own {
        continue;
      }
      var handSize := sizes[i];
      var guessed := TakeFront(left, handSize);
      HandLength(i, own, sizes, pool);
      assert guessed == Hand(i, own, sizes, pool);
      left := left[|guessed|..];
      dealt := dealt[i := guessed];
    }
  }

  /** The inner loop: up to handSize cards removed from the front of the pool, in order. */
  method TakeFront(pool: seq<Card>, handSize: int) returns (guessed: seq<Card>)
    ensures |guessed| == Want(handSize, |pool|)
    ensures guessed == pool[..|guessed|]
  {
    guessed := [];
    var rest := pool;
    var k := 0;
    while k < handSize && rest != []
      invariant 0 <= k <= |pool| && (k <= handSize || k == 0)
      invariant guessed == pool[..k] && rest == pool[k..]
      decreases |rest|
    {
      guessed := guessed + [rest[0]];
      rest := rest[1..];
      k := k + 1;
    }
  }

  /** Later seats start where earlier ones stop: the hands are consecutive, non-overlapping slices. */
  lemma {:induction false} ConsumedMonotone(i: nat, j: nat, own: int, sizes: seq<int>, poolSize: nat)
    requires i <= j <= |sizes|
    ensures Consumed(i, own, sizes, poolSize) <= Consumed(j, own, sizes, poolSize)
    decreases j - i
  {
    if i < j {
      ConsumedMonotone(i, j - 1, own, sizes, poolSize);
    }
  }

  /** The hands dealt so far, in seat order (the own seat's slice is empty). */
  function Concat(i: nat, own: int, sizes: seq<int>, pool: seq<Card>): seq<Card>
    requires i <= |sizes|
  {
    if i == 0 then [] else Concat(i - 1, own, sizes, pool) + Hand(i - 1, own, sizes, pool)
  }

  /**
   * The dealt hands, in seat order, are the front of the shuffled pool: no card is dealt twice,
   * none is invented, and together with the cards left over they make up the pool.
   */
  lemma {:induction false} ConcatIsPrefix(i: nat, own: int, sizes: seq<int>, pool: seq<Card>)
    requires i <= |sizes|
    ensures Concat(i, own, sizes, pool) == pool[..Consumed(i, own, sizes, |pool|)]
  {
    if i > 0 {
      var c0, c := Consumed(i - 1, own, sizes, |pool|), Consumed(i, own, sizes, |pool|);
      ConsumedMonotone(i - 1, i, own, sizes, |pool|);
      ConcatIsPrefix(i - 1, own, sizes, pool);
      AppendSlices(Concat(i - 1, own, sizes, pool), pool, c0, c);
    } else {
      assert pool[..Consumed(0, own, sizes, |pool|)] == [];
    }
  }

  lemma HandsPartitionPool(i: nat, own: int, sizes: seq<int>, pool: seq<Card>)
    requires i <= |sizes|
    ensures Concat(i, own, sizes, pool) == pool[..Consumed(i, own, sizes, |pool|)]
    ensures multiset(Concat(i, own, sizes, pool)) + multiset(pool[Consumed(i, own, sizes, |pool|)..]) == multiset(pool)
  {
    ConcatIsPrefix(i, own, sizes, pool);
    var c := Consumed(i, own, sizes, |pool|);
    SplitMultiset(pool, c);
  }

  lemma AppendSlices(front: seq<Card>, s: seq<Card>, a: nat, b: nat)
    requires a <= b <= |s| && front == s[..a]
    ensures front + s[a..b] == s[..b]
  {
    assert s[..b] == s[..a] + s[a..b];
  }

  lemma SplitMultiset(s: seq<Card>, c: nat)
    requires c <= |s|
    ensures multiset(s[..c]) + multiset(s[c..]) == multiset(s)
  {
    assert s == s[..c] + s[c..];
  }

  /** A guessed hand takes the hand size, cut to what the seats before it left in the pool. */
  lemma HandLength(i: nat, own: int, sizes: seq<int>, pool: seq<Card>)
    requires i < |sizes| && i != own
    ensures |Hand(i, own, sizes, pool)| == Want(sizes[i], |pool| - Consumed(i, own, sizes, |pool|))
  {
    var c0, c1 := Consumed(i, own, sizes, |pool|), Consumed(i + 1, own, sizes, |pool|);
    assert c1 == c0 + Want(sizes[i], |pool| - c0);
  }

  /**
   * Every opponent's card map entry is its hand; the own seat and keys outside the seats keep
   * their entries.
   */
  lemma {:induction false} DealtHands(n: nat, own: int, sizes: seq<int>, pool: seq<Card>, cards: map<int, seq<Card>>)
    requires n <= |sizes|
    ensures forall i :: 0 <= i < n && i != own ==>
      i in Dealt(n, own, sizes, pool, cards) && Dealt(n, own, sizes, pool, cards)[i] == Hand(i, own, sizes, pool)
    ensures forall k :: (k == own || !(0 <= k < n)) ==>
      (k in Dealt(n, own, sizes, pool, cards) <==> k in cards)
      && (k in cards ==> Dealt(n, own, sizes, pool, cards)[k] == cards[k])
  {
    if n > 0 {
      DealtHands(n - 1, own, sizes, pool, cards);
    }
  }

  /**
   * When the pool is at least as large as the tracked hands of all opponents, every guessed
   * hand has exactly the tracked size.
   */
  lemma AmplePoolFillsHands(n: nat, own: int, sizes: seq<int>, pool: seq<Card>)
    requires n <= |sizes|
    requires forall i :: 0 <= i < |sizes| ==> sizes[i] >= 0
    requires OpponentCards(n, own, sizes) <= |pool|
    ensures Consumed(n, own, sizes, |pool|) == OpponentCards(n, own, sizes)
    ensures forall i :: 0 <= i < n && i != own ==> |Hand(i, own, sizes, pool)| == sizes[i]
  {
    AmpleConsumed(n, own, sizes, |pool|);
    forall i | 0 <= i < n && i != own ensures |Hand(i, own, sizes, pool)| == sizes[i] {
      AmpleHand(i, n, own, sizes, pool);
    }
  }

  lemma AmpleHand(i: nat, n: nat, own: int, sizes: seq<int>, pool: seq<Card>)
    requires i < n <= |sizes| && i != own
    requires forall k :: 0 <= k < |sizes| ==> sizes[k] >= 0
    requires OpponentCards(n, own, sizes) <= |pool|
    ensures |Hand(i, own, sizes, pool)| == sizes[i]
  {
    OpponentCardsMonotone(i + 1, n, own, sizes);
    AmpleConsumed(i + 1, own, sizes, |pool|);
    AmpleConsumed(i, own, sizes, |pool|);
  }

  lemma {:induction false} AmpleConsumed(n: nat, own: int, sizes: seq<int>, poolSize: nat)
    requires n <= |sizes|
    requires forall i :: 0 <= i < |sizes| ==> sizes[i] >= 0
    requires OpponentCards(n, own, sizes) <= poolSize
    ensures Consumed(n, own, sizes, poolSize) == OpponentCards(n, own, sizes)
  {
    if n > 0 {
      OpponentCardsMonotone(n - 1, n, own, sizes);
      AmpleConsumed(n - 1, own, sizes, poolSize);
    }
  }

  lemma {:induction false} OpponentCardsMonotone(i: nat, j: nat, own: int, sizes: seq<int>)
    requires i <= j <= |sizes|
    requires forall k :: 0 <= k < |sizes| ==> sizes[k] >= 0
    ensures OpponentCards(i, own, sizes) <= OpponentCards(j, own, sizes)
    decreases j - i
  {
    if i < j {
      OpponentCardsMonotone(i, j - 1, own, sizes);
    }
  }

  /** The total tracked hand size of the opponents among the seats below n. */
  function OpponentCards(n: nat, own: int, sizes: seq<int>): int
    requires n <= |sizes|
  {
    if n == 0 then 0 else OpponentCards(n - 1, own, sizes) + (if n - 1 == own then 0 else sizes[n - 1])
  }
}
