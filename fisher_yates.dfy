/**
 * The Fisher–Yates shuffle that the sliding puzzle and the quiz both run on a
 * copied array: for i from length-1 down to 1, pick j in [0, i] and swap a[i]
 * with a[j]. The random choice of j is an explicit input.
 */
module FisherYates {

  /** `rolls[i]` is the index j that step i picks, i.e. floor(random * (i + 1)). */
  predicate ValidRolls(rolls: seq<nat>, n: nat) {
    |rolls| == n && forall i :: 0 <= i < n ==> rolls[i] <= i
  }

  /** `s` with the entries at `i` and `j` exchanged. */
  function Swap<T>(s: seq<T>, i: nat, j: nat): (r: seq<T>)
    requires i < |s| && j < |s|
    ensures |r| == |s| && r[i] == s[j] && r[j] == s[i]
    ensures forall k :: 0 <= k < |s| && k != i && k != j ==> r[k] == s[k]
    ensures multiset(r) == multiset(s)
  {
    s[i := s[j]][j := s[i]]
  }

  /**
   * The contents of the array when the loop counter is `i`, that is after the
   * steps |s|-1, |s|-2, ..., i+1 have been performed.
   */
  function Pass<T>(s: seq<T>, rolls: seq<nat>, i: nat): (r: seq<T>)
    requires ValidRolls(rolls, |s|)
    ensures |r| == |s| && multiset(r) == multiset(s)
    decreases |s| - i
  {
    if i + 1 >= |s| then s
    else Swap(Pass(s, rolls, i + 1), i + 1, rolls[i + 1])
  }

  /** The result of the whole shuffle. */
  function Shuffled<T>(s: seq<T>, rolls: seq<nat>): (r: seq<T>)
    requires ValidRolls(rolls, |s|)
    ensures |r| == |s| && multiset(r) == multiset(s)
  {
    Pass(s, rolls, 0)
  }

  /** The in-place loop. */
  method ShuffleInPlace<T>(a: array<T>, rolls: seq<nat>)
    requires ValidRolls(rolls, a.Length)
    modifies a
    ensures a[..] == Shuffled(old(a[..]), rolls)
    ensures multiset(a[..]) == multiset(old(a[..]))
  {
    var i := a.Length - 1;
    while i > 0
      invariant -1 <= i < a.Length
      invariant a[..] == Pass(old(a[..]), rolls, if i < 0 then 0 else i)
    {
      var j := rolls[i];
      a[i], a[j] := a[j], a[i];
      i := i - 1;
    }
  }
}
