/** Facts about finite sequences and sets that several models share. */
module Collections {

  ghost predicate NoDuplicates<T>(s: seq<T>) {
    forall i, j :: 0 <= i < j < |s| ==> s[i] != s[j]
  }

  function Elements<T(!new)>(s: seq<T>): (r: set<T>)
    ensures forall x :: x in r <==> x in s
  {
    set x | x in s
  }

  /** The position of the first occurrence, as Python's list.index. */
  function IndexOf<T(==)>(s: seq<T>, x: T): (k: nat)
    requires x in s
    ensures k < |s| && s[k] == x && x !in s[..k]
  {
    if s[0] == x then 0
    else
      var k := IndexOf(s[1..], x);
      assert s[..k + 1] == [s[0]] + s[1..][..k];
      k + 1
  }

  function Without<T>(s: seq<T>, k: nat): seq<T>
    requires k < |s|
  {
    s[..k] + s[k + 1..]
  }

  lemma WithoutElements<T(!new)>(s: seq<T>, k: nat)
    requires k < |s| && NoDuplicates(s)
    ensures NoDuplicates(Without(s, k))
    ensures Elements(Without(s, k)) == Elements(s) - {s[k]}
  {
    var r := Without(s, k);
    forall x
      ensures x in r <==> x in s && x != s[k]
    {
      if x in s && x != s[k] {
        var i :| 0 <= i < |s| && s[i] == x;
        assert r[if i < k then i else i - 1] == x;
      }
    }
  }

  lemma SubsetCardinality<T>(a: set<T>, b: set<T>)
    requires a <= b
    ensures |a| <= |b|
    ensures |a| == |b| ==> a == b
  {
    if a != {} {
      var x :| x in a;
      SubsetCardinality(a - {x}, b - {x});
    }
  }

  lemma {:induction false} NoDuplicatesCardinality<T(!new)>(s: seq<T>)
    requires NoDuplicates(s)
    ensures |Elements(s)| == |s|
  {
    if s != [] {
      var init, last := s[..|s| - 1], s[|s| - 1];
      NoDuplicatesCardinality(init);
      assert Elements(s) == Elements(init) + {last};
    }
  }

  /** The converse: a sequence as long as its set of elements repeats nothing. */
  lemma {:induction false} FullCardinality<T(!new)>(s: seq<T>)
    ensures |Elements(s)| <= |s|
    ensures |Elements(s)| == |s| ==> NoDuplicates(s)
  {
    if s != [] {
      var init, last := s[..|s| - 1], s[|s| - 1];
      FullCardinality(init);
      assert Elements(s) == Elements(init) + {last};
      if last in init {
        assert Elements(s) == Elements(init);
      }
    }
  }

  /** Pigeonhole: a repetition-free sequence over a finite set is no longer than the set. */
  lemma Pigeonhole<T(!new)>(s: seq<T>, universe: set<T>)
    requires NoDuplicates(s) && forall x :: x in s ==> x in universe
    ensures |s| <= |universe|
  {
    NoDuplicatesCardinality(s);
    SubsetCardinality(Elements(s), universe);
  }

  /** Two permutations of each other stay so when the same element is taken out of both. */
  lemma TakeOut<T>(p: seq<T>, x: T, q: seq<T>, p': seq<T>, q': seq<T>)
    requires multiset(p + ([x] + q)) == multiset(p' + ([x] + q'))
    ensures multiset(p + q) == multiset(p' + q')
  {
    assert multiset(p + q) == multiset(p + ([x] + q)) - multiset{x};
    assert multiset(p' + q') == multiset(p' + ([x] + q')) - multiset{x};
  }

  ghost function Interval(lo: int, hi: int): (r: set<int>)
    ensures forall t :: t in r <==> lo <= t < hi
    ensures |r| == if lo <= hi then hi - lo else 0
    decreases hi - lo
  {
    if hi <= lo then {} else Interval(lo, hi - 1) + {hi - 1}
  }
}
