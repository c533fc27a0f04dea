/** Finite runs of a state machine whose steps are given by a partial function. */
module Runs {

  datatype Option<+T> = None | Some(value: T)

  /** The labels ls lead, one enabled step after the other, from s to s'. */
  ghost predicate Leads<S(!new), L(!new)>(next: (S, L) -> Option<S>, s: S, ls: seq<L>, s': S)
    decreases |ls|
  {
    if ls == [] then s' == s
    else
      var o := next(s, ls[0]);
      o.Some? && Leads(next, o.value, ls[1..], s')
  }

  lemma LeadsOne<S(!new), L(!new)>(next: (S, L) -> Option<S>, s: S, l: L)
    requires next(s, l).Some?
    ensures Leads(next, s, [l], next(s, l).value)
  {
    assert [l][1..] == [];
  }

  lemma {:induction false} LeadsConcat<S(!new), L(!new)>(next: (S, L) -> Option<S>, s: S, a: seq<L>, s1: S, b: seq<L>, s2: S)
    requires Leads(next, s, a, s1) && Leads(next, s1, b, s2)
    ensures Leads(next, s, a + b, s2)
    decreases |a|
  {
    if a == [] {
      assert a + b == b;
    } else {
      LeadsConcat(next, next(s, a[0]).value, a[1..], s1, b, s2);
      assert (a + b)[1..] == a[1..] + b;
    }
  }
}
