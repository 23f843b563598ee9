/** Searches over sequences, in the shape of Rust's `Iterator::find` and
    `Iterator::position`, and removal of one element, as `VecDeque::remove`. */
module Seqs {
  import opened Wrappers

  /** Index of the first element of `s` that satisfies `p`. */
  function FindFirst<T>(s: seq<T>, p: T -> bool): (r: Option<nat>)
    ensures r.Some? ==> r.value < |s| && p(s[r.value])
    ensures r.Some? ==> forall j :: 0 <= j < r.value ==> !p(s[j])
    ensures r.None? ==> forall j :: 0 <= j < |s| ==> !p(s[j])
  {
    if s == [] then None
    else if p(s[0]) then Some(0)
    else
      match FindFirst(s[1..], p)
      case None =>
        assert forall j :: 1 <= j < |s| ==> s[j] == s[1..][j - 1];
        None
      case Some(k) =>
        assert forall j :: 1 <= j <= k ==> s[j] == s[1..][j - 1];
        Some(k + 1)
  }

  /** Index of the first occurrence of `x` in `s`. */
  function IndexOf<T(==)>(s: seq<T>, x: T): (r: Option<nat>)
    ensures r.Some? ==> r.value < |s| && s[r.value] == x && x !in s[..r.value]
    ensures r.None? <==> x !in s
  {
    FindFirst(s, y => y == x)
  }

  /** `s` without its element at index `i`. */
  function RemoveAt<T>(s: seq<T>, i: nat): (r: seq<T>)
    requires i < |s|
    ensures |r| == |s| - 1
    ensures forall j :: 0 <= j < i ==> r[j] == s[j]
    ensures forall j :: i <= j < |r| ==> r[j] == s[j + 1]
  {
    s[..i] + s[i + 1..]
  }

  /** `s` without the first occurrence of `x`, or `s` itself when `x` does not occur. */
  function RemoveFirst<T(==)>(s: seq<T>, x: T): seq<T>
  {
    match IndexOf(s, x)
    case Some(i) => RemoveAt(s, i)
    case None => s
  }

  /** Removing index `i` takes exactly one copy of `s[i]` out of the multiset. */
  lemma RemoveAtMultiset<T>(s: seq<T>, i: nat)
    requires i < |s|
    ensures multiset(RemoveAt(s, i)) + multiset{s[i]} == multiset(s)
  {
    assert s == s[..i] + [s[i]] + s[i + 1..];
    assert RemoveAt(s, i) == s[..i] + s[i + 1..];
  }

  /** Appending `x` and then removing the first occurrence of `x` gives back
      the same multiset of elements; the very same sequence when `x` was absent,
      and otherwise the earlier occurrence moved to the back. */
  lemma PushBackThenRemoveFirst<T>(s: seq<T>, x: T)
    ensures multiset(RemoveFirst(s + [x], x)) == multiset(s)
    ensures x !in s ==> RemoveFirst(s + [x], x) == s
    ensures x in s ==> RemoveFirst(s + [x], x) == RemoveFirst(s, x) + [x]
  {
    var t := s + [x];
    var i := IndexOf(t, x).value;
    assert RemoveFirst(t, x) == RemoveAt(t, i);
    if x !in s {
      assert i == |s|;
      assert RemoveAt(t, i) == s;
    } else {
      var k := IndexOf(s, x).value;
      assert t[..k] == s[..k];
      assert t[k] == x;
      assert i == k;
      assert RemoveAt(t, i) == RemoveAt(s, k) + [x];
      RemoveAtMultiset(s, k);
    }
  }
}
