/** Counting arguments: finite sets of naturals, and lists without repetition. */
module Counting {

  /** The n naturals below n. */
  ghost function Below(n: nat): (s: set<nat>)
    ensures |s| == n && forall i :: i in s <==> 0 <= i < n
  {
    if n == 0 then {} else Below(n - 1) + {n - 1}
  }

  lemma {:induction false} SubsetSize<T>(a: set<T>, b: set<T>)
    requires a <= b
    ensures |a| <= |b|
    ensures |a| == |b| ==> a == b
    decreases |a|
  {
    if a != {} {
      var x :| x in a;
      SubsetSize(a - {x}, b - {x});
      assert a == (a - {x}) + {x} && b == (b - {x}) + {x};
    }
  }

  /** A map that is one to one has as many values as keys. */
  lemma {:induction false} InjectiveImage(owner: map<nat, nat>, values: set<nat>)
    requires forall a, b | a in owner && b in owner && owner[a] == owner[b] :: a == b
    requires forall v :: v in values <==> exists a :: a in owner && owner[a] == v
    ensures |owner| == |values|
    decreases |owner|
  {
    if owner == map[] {
      assert values == {};
    } else {
      var a :| a in owner;
      var rest := owner - {a};
      assert owner.Keys == rest.Keys + {a};
      assert owner[a] in values;
      forall v: nat ensures v in values - {owner[a]} <==> exists b :: b in rest && rest[b] == v {
        if v in values - {owner[a]} {
          var b :| b in owner && owner[b] == v;
          assert b in rest && rest[b] == v;
        }
        if b :| b in rest && rest[b] == v {
          assert b in owner && owner[b] == v;
        }
      }
      InjectiveImage(rest, values - {owner[a]});
    }
  }

  ghost predicate NoRepeats(xs: seq<nat>) {
    forall a, b | 0 <= a < b < |xs| :: xs[a] != xs[b]
  }

  ghost function Elements(xs: seq<nat>): set<nat> {
    set x | x in xs
  }

  /** A list without repetition has as many elements as entries, each once. */
  lemma {:induction false} NoRepeatsCounts(xs: seq<nat>)
    requires NoRepeats(xs)
    ensures forall x :: multiset(xs)[x] <= 1
    ensures |Elements(xs)| == |xs|
  {
    if xs != [] {
      NoRepeatsCounts(xs[1..]);
      assert xs == [xs[0]] + xs[1..];
      assert xs[0] !in xs[1..];
      assert Elements(xs) == Elements(xs[1..]) + {xs[0]};
    }
  }

  /** By pigeonhole a list of numbers below n without repetition has at most n entries,
      and n of them only when all n numbers are in it, each once. */
  lemma Pigeonhole(xs: seq<nat>, n: nat)
    requires NoRepeats(xs) && forall x | x in xs :: x < n
    ensures |xs| <= n
    ensures |xs| == n <==> forall k: nat | k < n :: k in xs
    ensures |xs| == n ==> multiset(xs) == multiset(Below(n))
  {
    NoRepeatsCounts(xs);
    assert Elements(xs) <= Below(n);
    if forall k: nat | k < n :: k in xs {
      assert Elements(xs) == Below(n);
    }
    SubsetSize(Elements(xs), Below(n));
    if |xs| == n {
      EachOnce(xs, n);
    }
  }

  lemma EachOnce(xs: seq<nat>, n: nat)
    requires Elements(xs) == Below(n) && forall x :: multiset(xs)[x] <= 1
    ensures forall k: nat | k < n :: k in xs
    ensures multiset(xs) == multiset(Below(n))
  {
    forall k: nat | k < n ensures k in xs {
      assert k in Elements(xs);
    }
    forall x ensures multiset(xs)[x] == multiset(Below(n))[x] {
      assert x in multiset(xs) <==> x in Elements(xs);
    }
  }
}
