/** Bytes, packets, and the arithmetic of laying packets end to end. */
module Bytes {
  newtype Byte = x: int | 0 <= x < 256

  const NUL: Byte := 0
  const NEWLINE: Byte := 10

  type Packet = seq<Byte>

  /** All packets laid end to end. */
  function Flatten(ps: seq<Packet>): seq<Byte> {
    if ps == [] then [] else ps[0] + Flatten(ps[1..])
  }

  function Sum(sizes: seq<nat>): nat {
    if sizes == [] then 0 else sizes[0] + Sum(sizes[1..])
  }

  function Sizes(ps: seq<Packet>): seq<nat> {
    seq(|ps|, i requires 0 <= i < |ps| => |ps[i]|)
  }

  lemma {:induction false} FlattenConcat(a: seq<Packet>, b: seq<Packet>)
    ensures Flatten(a + b) == Flatten(a) + Flatten(b)
  {
    hide Flatten;
    if a == [] {
      FlattenOne([]);
      assert a + b == b && [] + Flatten(b) == Flatten(b);
    } else {
      FlattenConcat(a[1..], b);
      FlattenFirst(a);
      FlattenFirst(a + b);
      assert (a + b)[0] == a[0] && (a + b)[1..] == a[1..] + b;
      assert a[0] + (Flatten(a[1..]) + Flatten(b)) == a[0] + Flatten(a[1..]) + Flatten(b);
    }
  }

  lemma {:induction false} FlattenFirst(ps: seq<Packet>)
    requires ps != []
    ensures Flatten(ps) == ps[0] + Flatten(ps[1..])
  {
  }

  lemma FlattenOne(p: Packet)
    ensures Flatten([p]) == p
    ensures Flatten([]) == []
  {
    assert [p][1..] == [];
  }

  lemma SliceOfRest(s: seq<Byte>, from: nat, lo: nat, hi: nat)
    requires from <= |s| && lo <= hi <= |s| - from
    ensures s[from..][lo..hi] == s[from + lo..from + hi]
  {
  }

  lemma SliceAndNext(s: seq<Byte>, a: nat, b: nat, c: nat)
    requires a <= b <= c <= |s|
    ensures s[a..b] + s[b..c] == s[a..c] && s[a..b] <= s[a..]
  {
  }

  /** Cutting a list of packets cuts the flattened bytes at the same place. */
  lemma FlattenSplit(ps: seq<Packet>, k: nat)
    requires k <= |ps|
    ensures Flatten(ps) == Flatten(ps[..k]) + Flatten(ps[k..])
  {
    assert ps == ps[..k] + ps[k..];
    FlattenConcat(ps[..k], ps[k..]);
  }

  lemma {:induction false} SumConcat(a: seq<nat>, b: seq<nat>)
    ensures Sum(a + b) == Sum(a) + Sum(b)
  {
    if a == [] {
      assert a + b == b;
    } else {
      SumConcat(a[1..], b);
      assert (a + b)[1..] == a[1..] + b;
    }
  }

  lemma {:induction false} SumNext(sizes: seq<nat>, k: nat)
    requires k < |sizes|
    ensures Sum(sizes[..k + 1]) == Sum(sizes[..k]) + sizes[k]
  {
    assert sizes[..k + 1] == sizes[..k] + [sizes[k]];
    SumConcat(sizes[..k], [sizes[k]]);
    assert Sum([sizes[k]]) == sizes[k];
  }

  lemma {:induction false} SumMonotone(sizes: seq<nat>, j: nat, k: nat)
    requires j <= k <= |sizes|
    ensures Sum(sizes[..j]) <= Sum(sizes[..k])
  {
    assert sizes[..k] == sizes[..j] + sizes[j..k];
    SumConcat(sizes[..j], sizes[j..k]);
  }

  lemma {:induction false} FlattenLength(ps: seq<Packet>)
    ensures |Flatten(ps)| == Sum(Sizes(ps))
  {
    if ps == [] {
    } else {
      FlattenLength(ps[1..]);
      assert Sizes(ps)[1..] == Sizes(ps[1..]);
    }
  }

  lemma {:induction false} FlattenMember(ps: seq<Packet>, b: Byte)
    ensures b in Flatten(ps) <==> exists i :: 0 <= i < |ps| && b in ps[i]
  {
    if ps == [] {
    } else {
      FlattenMember(ps[1..], b);
      if b in Flatten(ps[1..]) {
        var i :| 0 <= i < |ps[1..]| && b in ps[1..][i];
        assert b in ps[i + 1];
      }
      if i :| 0 <= i < |ps| && b in ps[i] {
        if i > 0 { assert b in ps[1..][i - 1]; }
      }
    }
  }
}
