/** Sorted iteration over finite sets of keys, for any total order. */
module Ordering {
  import opened Common

  ghost predicate TotalOrder<K(!new)>(le: (K, K) -> bool) {
    && (forall a, b :: le(a, b) || le(b, a))
    && (forall a, b :: le(a, b) && le(b, a) ==> a == b)
    && (forall a, b, c :: le(a, b) && le(b, c) ==> le(a, c))
  }

  ghost predicate IsLeast<K>(s: set<K>, le: (K, K) -> bool, m: K) {
    m in s && forall k | k in s :: le(m, k)
  }

  lemma {:induction false} LeastExists<K(!new)>(s: set<K>, le: (K, K) -> bool)
    requires TotalOrder(le) && s != {}
    ensures exists m :: IsLeast(s, le, m)
    decreases |s|
  {
    var x :| x in s;
    var rest := s - {x};
    assert s == rest + {x};
    if rest == {} {
      assert IsLeast(s, le, x);
    } else {
      LeastExists(rest, le);
      var y :| IsLeast(rest, le, y);
      assert IsLeast(s, le, if le(x, y) then x else y);
    }
  }

  ghost function Least<K(!new)>(s: set<K>, le: (K, K) -> bool): (m: K)
    requires TotalOrder(le) && s != {}
    ensures IsLeast(s, le, m)
  {
    LeastExists(s, le);
    var m :| IsLeast(s, le, m);
    m
  }

  /** The elements of s, least first. */
  ghost function Sorted<K(!new)>(s: set<K>, le: (K, K) -> bool): (q: seq<K>)
    requires TotalOrder(le)
    ensures |q| == |s| && forall k :: k in q <==> k in s
    decreases |s|
  {
    if s == {} then []
    else
      var m := Least(s, le);
      [m] + Sorted(s - {m}, le)
  }

  lemma SortedUnfold<K(!new)>(s: set<K>, le: (K, K) -> bool, m: K)
    requires TotalOrder(le) && IsLeast(s, le, m)
    ensures Sorted(s, le) == [m] + Sorted(s - {m}, le)
  {
    assert IsLeast(s, le, Least(s, le));
    assert Least(s, le) == m;
  }

  lemma {:induction false} SortedIsOrdered<K(!new)>(s: set<K>, le: (K, K) -> bool, i: nat, j: nat)
    requires TotalOrder(le) && i < j < |s|
    ensures var q := Sorted(s, le);
            le(q[i], q[j]) && q[i] != q[j]
    decreases |s|
  {
    var m := Least(s, le);
    var q, rest := Sorted(s, le), Sorted(s - {m}, le);
    assert q == [m] + rest by {
      SortedUnfold(s, le, m);
    }
    if i == 0 {
      assert rest[j - 1] in rest;
      assert rest[j - 1] in s - {m};
    } else {
      SortedIsOrdered(s - {m}, le, i - 1, j - 1);
      assert q[i] == rest[i - 1] && q[j] == rest[j - 1];
    }
  }

  /** QStringList::sort on a list of distinct keys. */
  method Sort<K(==, !new)>(keys: set<K>, le: (K, K) -> bool) returns (out: seq<K>)
    requires TotalOrder(le)
    ensures out == Sorted(keys, le)
  {
    out := [];
    var rest := keys;
    while rest != {}
      invariant out + Sorted(rest, le) == Sorted(keys, le)
      decreases |rest|
    {
      LeastExists(rest, le);
      var m :| m in rest && forall k | k in rest :: le(m, k);
      SortedUnfold(rest, le, m);
      ConcatAssoc(out, [m], Sorted(rest - {m}, le));
      out := out + [m];
      rest := rest - {m};
    }
  }
}
