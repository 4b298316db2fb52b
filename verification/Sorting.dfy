/** The order of Python's sorted() on strings: by code points, first difference first. */
module Sorting {
  import opened Collections

  predicate Less(a: string, b: string) {
    if b == "" then false
    else if a == "" then true
    else a[0] < b[0] || (a[0] == b[0] && Less(a[1..], b[1..]))
  }

  /**
   * After a common beginning of k characters, a ends and b does not, or both go on and a with the
   * smaller character.
   */
  ghost predicate PrecedesAt(a: string, b: string, k: nat) {
    && k <= |a| && k < |b| && a[..k] == b[..k]
    && (k == |a| || a[k] < b[k])
  }

  ghost predicate Precedes(a: string, b: string) {
    exists k: nat :: PrecedesAt(a, b, k)
  }

  lemma CommonBeginning(a: string, b: string, k: nat)
    ensures PrecedesAt(a, b, k) && k > 0 ==> a[0] == b[0]
  {
    if PrecedesAt(a, b, k) && k > 0 {
      assert a[..k][0] == b[..k][0];
    }
  }

  /** The comparison character by character decides exactly that order. */
  lemma {:induction false} LessExactly(a: string, b: string)
    ensures Less(a, b) <==> Precedes(a, b)
  {
    if a == "" || b == "" {
      if b != "" { assert PrecedesAt(a, b, 0); }
    } else if a[0] == b[0] {
      LessExactly(a[1..], b[1..]);
      if k: nat :| PrecedesAt(a[1..], b[1..], k) {
        assert a[..k + 1] == [a[0]] + a[1..][..k] && b[..k + 1] == [b[0]] + b[1..][..k];
        assert PrecedesAt(a, b, k + 1);
      }
      if k: nat :| PrecedesAt(a, b, k) {
        assert k > 0;
        assert a[1..][..k - 1] == a[..k][1..] && b[1..][..k - 1] == b[..k][1..];
        assert PrecedesAt(a[1..], b[1..], k - 1);
      }
    } else {
      if a[0] < b[0] { assert PrecedesAt(a, b, 0); }
      if k: nat :| PrecedesAt(a, b, k) {
        CommonBeginning(a, b, k);
      }
    }
  }

  lemma {:induction false} LessTotal(a: string, b: string)
    ensures a == b || Less(a, b) || Less(b, a)
  {
    if a != "" && b != "" && a[0] == b[0] {
      LessTotal(a[1..], b[1..]);
      assert a == [a[0]] + a[1..] && b == [b[0]] + b[1..];
    }
  }

  lemma {:induction false} LessTransitive(a: string, b: string, c: string)
    requires Less(a, b) && Less(b, c)
    ensures Less(a, c)
  {
    if a != "" && a[0] == b[0] == c[0] {
      LessTransitive(a[1..], b[1..], c[1..]);
    }
  }

  ghost predicate Ascending(s: seq<string>) {
    forall i, j :: 0 <= i < j < |s| ==> Less(s[i], s[j])
  }

  /** sorted(xs) for a set: its elements, each once, each before those it precedes. */
  ghost predicate IsSortedListing(s: seq<string>, xs: set<string>) {
    && (forall i, j :: 0 <= i < j < |s| ==> Precedes(s[i], s[j]))
    && Elements(s) == xs
  }

  method Insert(s: seq<string>, x: string) returns (r: seq<string>)
    requires Ascending(s) && x !in s
    ensures Ascending(r) && Elements(r) == Elements(s) + {x}
  {
    var i := 0;
    while i < |s| && Less(s[i], x)
      invariant 0 <= i <= |s|
      invariant forall k :: 0 <= k < i ==> Less(s[k], x)
    {
      i := i + 1;
    }
    r := s[..i] + [x] + s[i..];
    forall k | i <= k < |s|
      ensures Less(x, s[k])
    {
      LessTotal(s[i], x);
      if k > i { LessTransitive(x, s[i], s[k]); }
    }
    assert Elements(r) == Elements(s) + {x} by {
      assert s == s[..i] + s[i..];
    }
  }

  method Sorted(xs: set<string>) returns (r: seq<string>)
    ensures IsSortedListing(r, xs)
  {
    r := [];
    var todo := xs;
    while todo != {}
      invariant todo <= xs && Ascending(r) && Elements(r) == xs - todo
      decreases todo
    {
      var x :| x in todo;
      r := Insert(r, x);
      todo := todo - {x};
    }
    forall i, j | 0 <= i < j < |r|
      ensures Precedes(r[i], r[j])
    {
      LessExactly(r[i], r[j]);
    }
  }
}
