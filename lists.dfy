/** Facts about duplicate-free sequences and their reorderings. */
module Lists {

  /** No element occurs twice. */
  predicate Distinct<T(==)>(s: seq<T>) {
    forall i, j :: 0 <= i < j < |s| ==> s[i] != s[j]
  }

  /** Appending a new element keeps a list duplicate-free. */
  lemma DistinctAppend<T>(s: seq<T>, x: T)
    requires Distinct(s) && x !in s
    ensures Distinct(s + [x])
  {
  }

  /** A duplicate-free sequence has as many distinct elements as entries. */
  lemma {:induction false} DistinctCardinality<T>(s: seq<T>)
    requires Distinct(s)
    ensures |set x | x in s| == |s|
  {
    if s != [] {
      DistinctCardinality(s[1..]);
      assert (set x | x in s) == (set x | x in s[1..]) + {s[0]};
      assert s[0] !in s[1..];
    }
  }

  /** A duplicate-free sequence listing exactly the members of a set is as long as the set is large. */
  lemma ListsSet<T>(s: seq<T>, members: set<T>)
    requires Distinct(s)
    requires forall x :: x in s <==> x in members
    ensures |members| == |s|
  {
    DistinctCardinality(s);
    assert (set x | x in s) == members;
  }

  /** Taking the same element out of two reorderings of one list leaves two reorderings. */
  lemma RemoveMatching<T>(a: seq<T>, b: seq<T>, j: nat)
    requires multiset(a) == multiset(b)
    requires a != [] && j < |b| && b[j] == a[0]
    ensures multiset(a[1..]) == multiset(b[..j] + b[j + 1..])
  {
    var x := a[0];
    var rest := b[..j] + b[j + 1..];
    assert b == b[..j] + [x] + b[j + 1..];
    assert a == [x] + a[1..];
    assert multiset(b) == multiset(rest) + multiset{x};
    assert multiset(a) == multiset(a[1..]) + multiset{x};
    assert multiset(a[1..]) == multiset(a) - multiset{x} == multiset(b) - multiset{x} == multiset(rest);
  }

  /** A duplicate-free list holds each member of its set once. */
  lemma {:induction false} DistinctMultiset<T>(a: seq<T>)
    requires Distinct(a)
    ensures multiset(a) == multiset(set x | x in a)
  {
    if a != [] {
      DistinctMultiset(a[1..]);
      assert a == [a[0]] + a[1..];
      assert (set x | x in a) == {a[0]} + (set x | x in a[1..]);
      assert a[0] !in (set x | x in a[1..]);
    }
  }

  /** Two disjoint duplicate-free lists, joined, are a reordering of one that lists their keys once. */
  lemma SameKeys<T>(a: seq<T>, b: seq<T>, c: seq<T>)
    requires Distinct(a) && Distinct(b) && Distinct(c)
    requires forall k :: k in b ==> k !in a
    requires forall k :: k in c <==> k in a || k in b
    ensures multiset(a + b) == multiset(c)
  {
    assert Distinct(a + b) by {
      forall i, j | 0 <= i < j < |a + b| ensures (a + b)[i] != (a + b)[j] {
        if j >= |a| && i < |a| { assert (a + b)[j] in b; }
      }
    }
    DistinctMultiset(a + b);
    DistinctMultiset(c);
    assert (set x | x in a + b) == (set x | x in c);
  }
}
