/** What the models share: bytes, optional values, and lists without repetition. */
module Basics {
  type byte = x: int | 0 <= x < 256

  datatype Option<+V> = None | Some(value: V)

  ghost predicate Distinct<E>(s: seq<E>) {
    forall i, j :: 0 <= i < j < |s| ==> s[i] != s[j]
  }

  /** Removing one element from a list. */
  function Without(s: seq<nat>, x: nat): seq<nat> {
    if s == [] then [] else if s[0] == x then s[1..] else [s[0]] + Without(s[1..], x)
  }

  lemma {:induction false} WithoutFacts(s: seq<nat>, x: nat)
    requires Distinct(s)
    ensures Distinct(Without(s, x))
    ensures forall y :: y in Without(s, x) <==> y in s && y != x
  {
    if s != [] && s[0] != x {
      var t := s[1..];
      assert forall k :: 0 <= k < |t| ==> t[k] == s[k + 1];
      WithoutFacts(t, x);
      assert s[0] !in Without(t, x);
    }
  }

  /** Removing the first element. */
  lemma Popped(s: seq<nat>)
    requires Distinct(s) && s != []
    ensures Distinct(s[1..]) && forall y :: y in s[1..] <==> y in s && y != s[0]
  {
    assert s == [s[0]] + s[1..];
  }

  /** Adding a last element. */
  lemma Appended(s: seq<nat>, x: nat)
    requires Distinct(s) && x !in s
    ensures Distinct(s + [x]) && forall y :: y in s + [x] <==> y in s || y == x
  {
  }
}
