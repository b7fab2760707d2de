/** The java.util.List operations the agent builds on, as functions on sequences. */
module Lists {

  /** List.remove(Object): drops the first element equal to x; a list without x is returned as it is. */
  function RemoveFirst<T(==)>(s: seq<T>, x: T): (r: seq<T>)
    ensures x in s ==> |r| == |s| - 1
    ensures x !in s ==> r == s
  {
    if s == [] then []
    else if s[0] == x then s[1..]
    else [s[0]] + RemoveFirst(s[1..], x)
  }

  /** List.remove takes away one occurrence of x, if there is one, and nothing else. */
  lemma {:induction false} RemoveFirstMultiset<T>(s: seq<T>, x: T)
    ensures multiset(RemoveFirst(s, x)) == multiset(s) - multiset{x}
  {
    if s != [] {
      assert s == [s[0]] + s[1..];
      if s[0] != x {
        RemoveFirstMultiset(s[1..], x);
      }
    }
  }

  /** List.remove keeps the order of what remains: it cuts out exactly the first occurrence. */
  lemma {:induction false} RemoveFirstCutsFirstOccurrence<T>(s: seq<T>, x: T, i: nat)
    requires i < |s| && s[i] == x && x !in s[..i]
    ensures RemoveFirst(s, x) == s[..i] + s[i + 1..]
  {
    if i > 0 {
      assert s[0] in s[..i];
      var t := s[1..];
      assert t[..i - 1] == s[1..i];
      assert x !in t[..i - 1];
      RemoveFirstCutsFirstOccurrence(t, x, i - 1);
      assert [s[0]] + t[..i - 1] == s[..i];
      assert t[i..] == s[i + 1..];
    }
  }

  /** `for (x : xs) list.remove(x)` on a copy of s: one occurrence removed per element of xs, in order. */
  function RemoveAll<T(==)>(s: seq<T>, xs: seq<T>): (r: seq<T>)
    ensures multiset(r) == multiset(s) - multiset(xs)
    ensures |r| >= |s| - |xs|
    decreases |xs|
  {
    if xs == [] then s
    else
      var init, last := xs[..|xs| - 1], xs[|xs| - 1];
      assert xs == init + [last];
      RemoveFirstMultiset(RemoveAll(s, init), last);
      RemoveFirst(RemoveAll(s, init), last)
  }

  /** One more turn of the removal loop removes the next element of xs. */
  lemma RemoveAllStep<T>(s: seq<T>, xs: seq<T>, i: nat)
    requires i < |xs|
    ensures RemoveAll(s, xs[..i + 1]) == RemoveFirst(RemoveAll(s, xs[..i]), xs[i])
  {
    assert xs[..i + 1][..i] == xs[..i];
  }

  /** When xs is a sub-multiset of s, every removal hits, so exactly |xs| elements go. */
  lemma {:induction false} RemoveAllLength<T>(s: seq<T>, xs: seq<T>)
    requires multiset(xs) <= multiset(s)
    ensures |RemoveAll(s, xs)| == |s| - |xs|
    decreases |xs|
  {
    if xs != [] {
      var init, last := xs[..|xs| - 1], xs[|xs| - 1];
      assert xs == init + [last];
      assert multiset(xs) == multiset(init) + multiset{last};
      RemoveAllLength(s, init);
      var rest := RemoveAll(s, init);
      assert multiset(rest)[last] == multiset(s)[last] - multiset(init)[last];
      assert last in multiset(rest);
    }
  }

  /** No element occurs twice. */
  predicate Distinct<T(==)>(s: seq<T>)
  {
    forall i, j :: 0 <= i < j < |s| ==> s[i] != s[j]
  }

  /** List.remove only takes elements away. */
  lemma {:induction false} RemoveFirstSubset<T>(s: seq<T>, x: T)
    ensures forall y :: y in RemoveFirst(s, x) ==> y in s
  {
    if s != [] && s[0] != x {
      RemoveFirstSubset(s[1..], x);
    }
  }

  /** On a list without duplicates, List.remove(x) leaves no x behind and no duplicates. */
  lemma {:induction false} RemoveFirstDistinct<T>(s: seq<T>, x: T)
    requires Distinct(s)
    ensures Distinct(RemoveFirst(s, x)) && x !in RemoveFirst(s, x)
  {
    if s != [] {
      var t := s[1..];
      assert Distinct(t) by {
        forall i, j | 0 <= i < j < |t| ensures t[i] != t[j] {
          assert t[i] == s[i + 1] && t[j] == s[j + 1];
        }
      }
      assert s[0] !in t by {
        forall j | 0 <= j < |t| ensures t[j] != s[0] {
          assert t[j] == s[j + 1];
        }
      }
      if s[0] != x {
        RemoveFirstDistinct(t, x);
        RemoveFirstSubset(t, x);
        var r := RemoveFirst(t, x);
        assert RemoveFirst(s, x) == [s[0]] + r;
        forall i, j | 0 <= i < j < |[s[0]] + r| ensures ([s[0]] + r)[i] != ([s[0]] + r)[j] {
          if i == 0 {
            assert ([s[0]] + r)[j] == r[j - 1];
            assert r[j - 1] in r;
          } else {
            assert ([s[0]] + r)[i] == r[i - 1] && ([s[0]] + r)[j] == r[j - 1];
          }
        }
      }
    }
  }
}
