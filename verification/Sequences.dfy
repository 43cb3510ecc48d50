/** Sequences with an element taken out: free lists and runqueues. */
module Sequences {

  /** The sequence without x, in order. */
  function Except(q: seq<int>, x: int): seq<int>
  {
    if q == [] then [] else if q[0] == x then Except(q[1..], x) else [q[0]] + Except(q[1..], x)
  }

  lemma {:induction false} ExceptMembers(q: seq<int>, x: int)
    ensures forall y :: y in Except(q, x) <==> y in q && y != x
  {
    if q != [] { ExceptMembers(q[1..], x); }
  }

  lemma {:induction false} ExceptAbsent(q: seq<int>, x: int)
    requires x !in q
    ensures Except(q, x) == q
  {
    if q != [] { ExceptAbsent(q[1..], x); }
  }

  lemma ExceptFront(y: int, q: seq<int>, x: int)
    ensures Except([y] + q, x) == if y == x then Except(q, x) else [y] + Except(q, x)
  {
    assert ([y] + q)[1..] == q;
  }

  lemma {:induction false} ExceptBack(q: seq<int>, y: int, x: int)
    ensures Except(q + [y], x) == Except(q, x) + if y == x then [] else [y]
  {
    if q == [] {
      assert q + [y] == [y];
    } else {
      assert (q + [y])[1..] == q[1..] + [y];
      ExceptBack(q[1..], y, x);
    }
  }

  predicate NoRepeat(q: seq<int>)
  {
    forall i, j :: 0 <= i < j < |q| ==> q[i] != q[j]
  }

  lemma {:induction false} ExceptNoRepeat(q: seq<int>, x: int)
    requires NoRepeat(q)
    ensures NoRepeat(Except(q, x))
  {
    if q != [] {
      ExceptNoRepeat(q[1..], x);
      ExceptMembers(q[1..], x);
      assert q[0] !in q[1..];
    }
  }
}
