/** The array helpers of the game's `Utils` class. Their file is not part of this model:
    the bodies below are the behaviour the rest of the code relies on, taken as given
    (membership and removal by identity, removing the first occurrence only). */
module Utils {

  /** Index of the first occurrence of `x` in `s`, or -1. */
  function IndexOf<T(==)>(s: seq<T>, x: T): (i: int)
    ensures -1 <= i < |s|
    ensures i == -1 <==> x !in s
    ensures 0 <= i ==> s[i] == x && x !in s[..i]
  {
    if s == [] then -1
    else if s[0] == x then 0
    else
      var j := IndexOf(s[1..], x);
      assert s[1..][..if j < 0 then 0 else j] == s[1..1 + if j < 0 then 0 else j];
      if j < 0 then -1 else j + 1
  }

  /** `Utils.IsElementInArray`: membership by identity. */
  predicate IsElementInArray<T(==)>(s: seq<T>, x: T)
  {
    x in s
  }

  /** `Utils.RemoveFromArrayAtIndex`: the sequence without its `i`-th element. */
  function RemoveFromArrayAtIndex<T>(s: seq<T>, i: nat): (r: seq<T>)
    requires i < |s|
    ensures |r| == |s| - 1
    ensures forall j :: 0 <= j < i ==> r[j] == s[j]
    ensures forall j :: i <= j < |r| ==> r[j] == s[j + 1]
    ensures multiset(r) == multiset(s) - multiset{s[i]}
  {
    assert s == s[..i] + [s[i]] + s[i + 1..];
    s[..i] + s[i + 1..]
  }

  /** `Utils.TryRemoveFromArray`: removes the first occurrence of `x` and says whether there was one. */
  function TryRemoveFromArray<T(==)>(s: seq<T>, x: T): (r: (seq<T>, bool))
    ensures r.1 <==> x in s
    ensures !r.1 ==> r.0 == s
    ensures r.1 ==> r.0 == RemoveFromArrayAtIndex(s, IndexOf(s, x))
  {
    var i := IndexOf(s, x);
    if i < 0 then (s, false) else (RemoveFromArrayAtIndex(s, i), true)
  }

  /** `Utils.RemoveFromArray`: removes the first occurrence of `x`, if any. */
  function RemoveFromArray<T(==)>(s: seq<T>, x: T): (r: seq<T>)
    ensures x in s ==> multiset(r) == multiset(s) - multiset{x}
    ensures x !in s ==> r == s
  {
    TryRemoveFromArray(s, x).0
  }
}
