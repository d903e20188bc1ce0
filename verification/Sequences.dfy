/** Facts about sequences that the queues and the reaper share. */
module Sequences {

  ghost predicate Distinct<T>(s: seq<T>) {
    forall i, j :: 0 <= i < j < |s| ==> s[i] != s[j]
  }

  /** The item at `k` occurs nowhere else. */
  lemma Apart<T>(s: seq<T>, k: nat)
    requires Distinct(s) && k < |s|
    ensures forall i :: 0 <= i < |s| && i != k ==> s[i] != s[k]
  {
  }

  function Without<T>(s: seq<T>, k: nat): (r: seq<T>)
    requires k < |s|
    ensures |r| == |s| - 1
    ensures forall i :: 0 <= i < k ==> r[i] == s[i]
    ensures forall i :: k <= i < |r| ==> r[i] == s[i + 1]
    ensures Distinct(s) ==> Distinct(r)
  {
    s[..k] + s[k + 1..]
  }

  /** `x` in front of what was at `k`, or last when `k` is the length. */
  function Inserted<T>(s: seq<T>, k: nat, x: T): (r: seq<T>)
    requires k <= |s|
    ensures |r| == |s| + 1 && r[k] == x
    ensures forall i :: 0 <= i < k ==> r[i] == s[i]
    ensures forall i :: k < i < |r| ==> r[i] == s[i - 1]
    ensures Distinct(s) && x !in s ==> Distinct(r)
  {
    s[..k] + [x] + s[k..]
  }

  ghost predicate Separate<T>(a: seq<T>, b: seq<T>) {
    forall i, j :: 0 <= i < |a| && 0 <= j < |b| ==> a[i] != b[j]
  }

  /** Items of two separate sequences, seen from one item of each. */
  lemma SeparateAt<T>(a: seq<T>, b: seq<T>, i: nat, j: nat)
    requires Separate(a, b) && i < |a| && j < |b|
    ensures forall n :: 0 <= n < |b| ==> a[i] != b[n]
    ensures forall n :: 0 <= n < |a| ==> a[n] != b[j]
    ensures a[i] !in b && b[j] !in a
  {
  }

  /** The first item of `a` and behind it all of `b` but its first. */
  function Reheaded<T>(a: seq<T>, b: seq<T>): (r: seq<T>)
    requires |a| > 0 && |b| > 0
    ensures |r| == |b| && r[0] == a[0]
    ensures forall i :: 0 < i < |b| ==> r[i] == b[i]
    ensures r[1..] == b[1..]
    ensures Separate(a, b) && Distinct(b) ==> Distinct(r)
  {
    [a[0]] + b[1..]
  }

  lemma ReheadedSeparate<T>(a: seq<T>, b: seq<T>)
    requires |a| > 0 && |b| > 0 && Separate(a, b) && Distinct(a) && Distinct(b)
    ensures Separate(Reheaded(a, b), Reheaded(b, a))
    ensures Distinct(Reheaded(a, b)) && Distinct(Reheaded(b, a))
  {
  }

  /** All of `a` and behind it all of `b` but its first. */
  function Joined<T>(a: seq<T>, b: seq<T>): (r: seq<T>)
    requires |b| > 0
    ensures |r| == |a| + |b| - 1
    ensures forall i :: 0 <= i < |a| ==> r[i] == a[i]
    ensures forall i :: |a| <= i < |r| ==> r[i] == b[i - |a| + 1]
    ensures |a| > 0 ==> r[1..] == a[1..] + b[1..]
    ensures Separate(a, b) && Distinct(a) && Distinct(b) ==> Distinct(r)
    ensures Separate(a, b) && Distinct(b) ==> Separate(r, [b[0]])
  {
    a + b[1..]
  }

  function Reversed<T>(s: seq<T>): (r: seq<T>)
    ensures |r| == |s|
    ensures forall i :: 0 <= i < |s| ==> r[i] == s[|s| - 1 - i]
  {
    if s == [] then [] else Reversed(s[1..]) + [s[0]]
  }
}
