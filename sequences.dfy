/** Sequence operations shared by an entity's tag list, the cells of the spatial index and
    the renderer's list of placed characters. */
module Sequences {

  /** `s` with its first element equal to `x` erased; `s` itself when no element equals `x`. */
  function RemoveFirst<T(==)>(s: seq<T>, x: T): (r: seq<T>)
    ensures x !in s ==> r == s
    ensures x in s ==> |r| == |s| - 1
    ensures multiset(r) == multiset(s) - multiset{x}
  {
    if s == [] then []
    else if s[0] == x then
      assert s == [s[0]] + s[1..];
      s[1..]
    else
      assert s == [s[0]] + s[1..];
      [s[0]] + RemoveFirst(s[1..], x)
  }

  /** Erasing the first match is erasing the element at the first index that holds `x`:
      everything before and after it stays, in the same order. */
  lemma {:induction false} RemoveFirstAt<T>(s: seq<T>, x: T, i: nat)
    requires i < |s| && s[i] == x && x !in s[..i]
    ensures RemoveFirst(s, x) == s[..i] + s[i + 1..]
  {
    if i > 0 {
      var t := s[1..];
      SplitHead(s, i);
      RemoveFirstAt(t, x, i - 1);
    }
  }

  /** Cutting `s` at a positive index `i`, seen from its tail. */
  lemma SplitHead<T>(s: seq<T>, i: nat)
    requires 0 < i < |s|
    ensures s[..i] == [s[0]] + s[1..][..i - 1]
    ensures s[1..][i..] == s[i + 1..]
  {
    assert s[..i] == [s[0]] + s[1..i];
  }

  /** Erasing the element right after the prefix `k` leaves `k` followed by the rest `t`. */
  lemma EraseAfter<T>(k: seq<T>, x: T, t: seq<T>)
    ensures (k + ([x] + t))[|k|] == x
    ensures (k + ([x] + t))[..|k|] + (k + ([x] + t))[|k| + 1..] == k + t
    ensures k + ([x] + t) == (k + [x]) + t
  {
    var s := k + ([x] + t);
    assert s[..|k|] == k;
    assert s[|k| + 1..] == t;
  }
}
