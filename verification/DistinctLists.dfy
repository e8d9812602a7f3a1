/** Lists of distinct slot numbers, and how many there can be. */
module DistinctLists {

  ghost predicate Distinct(list: seq<nat>) {
    list == [] || (list[0] !in list[1..] && Distinct(list[1..]))
  }

  /** Distinct numbers below `n` are at most `n`, and fewer if one is missing. */
  lemma {:induction false} Pigeonhole(list: seq<nat>, n: nat)
    requires Distinct(list) && forall i :: i in list ==> i < n
    ensures |list| <= n
    ensures forall x: nat :: x < n && x !in list ==> |list| < n
    decreases n
  {
    assert list == [] || list[0] in list;
    if n == 0 {
    } else if n - 1 in list {
      var rest := Remove(list, n - 1);
      Pigeonhole(rest, n - 1);
    } else {
      Pigeonhole(list, n - 1);
    }
  }

  ghost function Remove(list: seq<nat>, x: nat): (r: seq<nat>)
    requires Distinct(list) && x in list
    ensures Distinct(r) && |r| == |list| - 1
    ensures forall y :: y in r <==> y in list && y != x
  {
    if list[0] == x then list[1..] else [list[0]] + Remove(list[1..], x)
  }

  /** Distinct numbers below `n` with none missing are exactly `n`. */
  lemma Full(list: seq<nat>, n: nat)
    requires Distinct(list) && forall i :: i in list ==> i < n
    requires forall i: nat :: i < n ==> i in list
    ensures |list| == n
    decreases n
  {
    assert list == [] || list[0] in list;
    if n > 0 {
      Full(Remove(list, n - 1), n - 1);
    }
  }

  /** Appending a new number keeps a list distinct. */
  lemma {:induction false} DistinctAppend(list: seq<nat>, x: nat)
    requires Distinct(list) && x !in list
    ensures Distinct(list + [x])
  {
    if list != [] {
      DistinctAppend(list[1..], x);
      assert (list + [x])[1..] == list[1..] + [x];
    }
  }
}
