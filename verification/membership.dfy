/**
 Membership of one array in a list of arrays, compared element by element:
 the check that gates every move the human asks for.
 */
module Membership {

  /** Whether `sub` and `inner` agree at every index from `i` on; both have the same length. */
  function AgreeFrom<T(==)>(sub: seq<T>, inner: seq<T>, i: nat): (agree: bool)
    requires |sub| == |inner| && i <= |sub|
    ensures agree <==> sub[i..] == inner[i..]
    decreases |sub| - i
  {
    if i == |sub| then true
    else sub[i] == inner[i] && AgreeFrom(sub, inner, i + 1)
  }

  /** Same length and equal elements at every index. */
  function SameArray<T(==)>(sub: seq<T>, inner: seq<T>): (same: bool)
    ensures same <==> sub == inner
  {
    |sub| == |inner| && AgreeFrom(sub, inner, 0)
  }

  /** Whether some element of `outer` has the same elements as `inner`, scanning from the front. */
  function ArrayInArray<T(==)>(outer: seq<seq<T>>, inner: seq<T>): (found: bool)
    ensures found <==> inner in outer
  {
    if outer == [] then false
    else SameArray(outer[0], inner) || ArrayInArray(outer[1..], inner)
  }
}
