/** Lists without repetition, taking elements out of them, and sizes of sets. */
module Sequences {

  predicate NoRepeats<T(==)>(s: seq<T>) {
    forall i, j :: 0 <= i < j < |s| ==> s[i] != s[j]
  }

  /** The first position of an element. */
  function IndexOf<T(==)>(s: seq<T>, x: T): (i: nat)
    requires x in s
    ensures i < |s| && s[i] == x && x !in s[..i]
  {
    if s[0] == x then 0 else 1 + IndexOf(s[1..], x)
  }

  function RemoveAt<T>(s: seq<T>, i: nat): (r: seq<T>)
    requires i < |s|
    ensures |r| == |s| - 1 && forall j :: 0 <= j < |r| ==> r[j] == if j < i then s[j] else s[j + 1]
  {
    s[..i] + s[i + 1..]
  }

  /** The list without the first x. */
  function Unlinked<T(==)>(s: seq<T>, x: T): seq<T>
    requires x in s
  {
    RemoveAt(s, IndexOf(s, x))
  }

  lemma UnlinkedLater<T>(s: seq<T>, x: T)
    requires x in s && s[0] != x
    ensures x in s[1..] && Unlinked(s, x) == [s[0]] + Unlinked(s[1..], x)
  {
    var rest, i := s[1..], IndexOf(s, x);
    assert IndexOf(rest, x) == i - 1;
    assert s[..i] == [s[0]] + rest[..i - 1] && s[i + 1..] == rest[i..];
  }

  lemma UnlinkedMembers<T>(s: seq<T>, x: T)
    requires x in s
    ensures |Unlinked(s, x)| == |s| - 1 && forall y :: y in Unlinked(s, x) ==> y in s
  {
  }

  lemma {:induction false} FirstAt<T>(s: seq<T>, i: nat)
    requires i < |s| && s[i] !in s[..i]
    ensures IndexOf(s, s[i]) == i
  {
    if i > 0 {
      assert s[..i][0] == s[0] && s[1..][..i - 1] == s[..i][1..];
      FirstAt(s[1..], i - 1);
    }
  }

  lemma UnlinkedAt<T>(s: seq<T>, i: nat)
    requires i < |s| && s[i] !in s[..i]
    ensures Unlinked(s, s[i]) == s[..i] + s[i + 1..]
  {
    FirstAt(s, i);
  }

  lemma SubsetSize<T>(s: set<T>, t: set<T>)
    requires s <= t
    ensures |s| <= |t|
  {
    assert t == (t - s) + s;
  }
}
