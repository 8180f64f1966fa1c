/** Sequence operations that the queues of several modules mean. */
module Seqs {

  ghost predicate Distinct<T>(s: seq<T>) {
    forall i, j :: 0 <= i < j < |s| ==> s[i] != s[j]
  }

  /** `s` with `e` put at position `i`. */
  ghost function Inserted<T>(s: seq<T>, i: nat, e: T): (t: seq<T>)
    requires i <= |s|
    ensures |t| == |s| + 1 && t[i] == e
    ensures forall k :: 0 <= k < i ==> t[k] == s[k]
    ensures forall k :: i < k < |t| ==> t[k] == s[k - 1]
    ensures forall x :: x in t ==> x == e || x in s
  {
    s[..i] + [e] + s[i..]
  }

  /** `s` without its position `i`. */
  ghost function Deleted<T>(s: seq<T>, i: nat): (t: seq<T>)
    requires i < |s|
    ensures |t| == |s| - 1
    ensures forall k :: 0 <= k < i ==> t[k] == s[k]
    ensures forall k :: i <= k < |t| ==> t[k] == s[k + 1]
    ensures forall x :: x in t ==> x in s
  {
    s[..i] + s[i + 1..]
  }

  ghost function Reversed<T>(s: seq<T>): (r: seq<T>)
    ensures |r| == |s| && forall i :: 0 <= i < |s| ==> r[i] == s[|s| - 1 - i]
  {
    seq(|s|, i requires 0 <= i < |s| => s[|s| - 1 - i])
  }

  /** A position of `e` in `s`. */
  ghost function Find<T>(s: seq<T>, e: T): (i: nat)
    requires e in s
    ensures i < |s| && s[i] == e
  {
    var i :| 0 <= i < |s| && s[i] == e; i
  }

  lemma Assoc<T>(a: seq<T>, b: seq<T>, c: seq<T>)
    ensures (a + b) + c == a + (b + c)
  {
  }
}
