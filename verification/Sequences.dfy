/** Facts about sequences and finite sets that several parts of the model share. */
module Sequences {

  ghost predicate Distinct<T>(s: seq<T>) {
    forall i, j :: 0 <= i < j < |s| ==> s[i] != s[j]
  }

  ghost function Elements<T>(s: seq<T>): set<T> {
    set x | x in s
  }

  /** The last `n` elements of `s`, or all of `s` when it is shorter. */
  function LastN<T>(s: seq<T>, n: nat): (r: seq<T>)
    ensures |r| == if |s| <= n then |s| else n
    ensures r == s[|s| - |r|..]
  {
    if |s| <= n then s else s[|s| - n..]
  }

  /** A window moves on by one: append, and drop the oldest when there is one too many. */
  lemma LastNAppend<T>(s: seq<T>, x: T, n: nat)
    requires n >= 1
    ensures var w := LastN(s, n) + [x]; LastN(s + [x], n) == if |w| > n then w[1..] else w
  {
  }

  lemma {:induction false} DistinctSize<T>(s: seq<T>)
    requires Distinct(s)
    ensures |Elements(s)| == |s|
  {
    if s == [] {
      assert Elements(s) == {};
    } else {
      var n := |s| - 1;
      DistinctSize(s[..n]);
      assert Elements(s) == Elements(s[..n]) + {s[n]};
      assert s[n] !in s[..n];
    }
  }

  lemma DistinctAppend<T>(s: seq<T>, x: T)
    requires Distinct(s) && x !in s
    ensures Distinct(s + [x])
    ensures Elements(s + [x]) == Elements(s) + {x}
  {
    assert forall y :: y in s + [x] <==> y in s || y == x;
  }

  lemma {:induction false} SubsetSize<T>(small: set<T>, large: set<T>)
    requires small <= large
    ensures |small| <= |large|
    ensures |small| == |large| ==> small == large
  {
    if small != {} {
      var x :| x in small;
      SubsetSize(small - {x}, large - {x});
    }
  }

  /** Walks a hash table: every member once, in an order the caller cannot predict. */
  method Enumerate<T(==)>(s: set<T>) returns (order: seq<T>)
    ensures Distinct(order) && Elements(order) == s && |order| == |s|
  {
    order := [];
    var rest := s;
    while rest != {}
      invariant Distinct(order)
      invariant Elements(order) + rest == s && Elements(order) !! rest
      decreases rest
    {
      var x :| x in rest;
      DistinctAppend(order, x);
      order := order + [x];
      rest := rest - {x};
    }
    DistinctSize(order);
  }
}
