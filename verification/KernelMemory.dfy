/** The kernel allocator as the driver sees it: blocks of bytes at addresses,
    handed out one by one and given back one by one. Which address a block gets,
    and what its bytes are at first, is not determined. */
module KernelMemory {
  import opened Bytes
  import opened CircularBuffer

  type Blocks = map<Addr, seq<Byte>>

  lemma {:induction false} Bounded(s: set<nat>) returns (b: nat)
    ensures forall x :: x in s ==> x < b
  {
    if s == {} {
      b := 0;
    } else {
      var y :| y in s;
      var c := Bounded(s - {y});
      b := if c <= y then y + 1 else c;
      assert forall x :: x in s ==> x == y || x in s - {y};
    }
  }

  lemma UnusedAddress(live: Blocks)
    ensures exists p: Addr :: p != NULL && p !in live
  {
    var b := Bounded(live.Keys);
    assert b + 1 != NULL && b + 1 !in live;
  }

  /** Block `p` became block `q` of `n` bytes, with its old bytes in front. */
  ghost predicate Moved(before: Blocks, p: Addr, after: Blocks, q: Addr, n: nat) {
    && p in before
    && q != NULL && (q == p || q !in before) && q in after
    && |after[q]| == n && before[p] <= after[q]
    && after == (before - {p})[q := after[q]]
  }

  /** Blocks are numbered as they are issued; `fates[n]` says where block `n`
      is, or `None` once it was freed. An address may be issued again, a number
      is not. */
  type Fates = seq<Option<Addr>>

  ghost predicate Accounted(fates: Fates, live: Blocks) {
    && (forall p :: p in live <==> Some(p) in fates)
    && (forall m, n :: 0 <= m < n < |fates| && fates[m].Some? ==> fates[m] != fates[n])
  }

  ghost function BlockAt(fates: Fates, live: Blocks, p: Addr): (n: nat)
    requires Accounted(fates, live) && p in live
    ensures n < |fates| && fates[n] == Some(p)
  {
    var n :| 0 <= n < |fates| && fates[n] == Some(p);
    n
  }

  lemma FreedBlock(fates: Fates, live: Blocks, p: Addr)
    requires Accounted(fates, live) && p in live
    ensures Accounted(fates[BlockAt(fates, live, p) := None], live - {p})
  {
    var n := BlockAt(fates, live, p);
    var fates' := fates[n := None];
    assert fates'[n] == None;
    forall q ensures q in live - {p} <==> Some(q) in fates' {
      if q in live - {p} {
        var m := BlockAt(fates, live, q);
        assert fates'[m] == Some(q);
      }
    }
  }

  lemma IssuedBlock(fates: Fates, live: Blocks, p: Addr, bytes: seq<Byte>)
    requires Accounted(fates, live) && p !in live
    ensures Accounted(fates + [Some(p)], live[p := bytes])
  {
  }

  class Kmem {
    var live: Blocks
    ghost var fates: Fates

    ghost predicate Valid()
      reads this
    {
      NULL !in live && Accounted(fates, live)
    }

    constructor ()
      ensures Valid() && live == map[] && fates == []
    {
      live, fates := map[], [];
    }

    method Kmalloc(n: nat, ok: bool) returns (p: Addr)
      requires Valid()
      modifies this
      ensures Valid()
      ensures !ok ==> p == NULL && live == old(live) && fates == old(fates)
      ensures ok ==>
        && p != NULL && p !in old(live) && p in live && |live[p]| == n
        && live == old(live)[p := live[p]]
        && fates == old(fates) + [Some(p)]
    {
      if !ok {
        return NULL;
      }
      UnusedAddress(live);
      p :| p != NULL && p !in live;
      assert |seq(n, _ => NUL)| == n;
      var fill: seq<Byte> :| |fill| == n;
      IssuedBlock(fates, live, p, fill);
      live, fates := live[p := fill], fates + [Some(p)];
    }

    method Kfree(p: Addr)
      requires Valid()
      requires p in live
      modifies this
      ensures Valid()
      ensures live == old(live) - {p}
      ensures fates == old(fates[BlockAt(fates, live, p) := None])
    {
      FreedBlock(fates, live, p);
      live, fates := live - {p}, fates[BlockAt(fates, live, p) := None];
    }

    /** Makes a block larger, where it is or elsewhere, and keeps its bytes. */
    method Krealloc(p: Addr, n: nat, ok: bool) returns (q: Addr)
      requires Valid()
      requires p in live && |live[p]| <= n
      modifies this
      ensures Valid()
      ensures !ok ==> q == NULL && live == old(live) && fates == old(fates)
      ensures ok ==> Moved(old(live), p, live, q, n)
      ensures ok && q == p ==> fates == old(fates)
      ensures ok && q != p ==> fates == old(fates[BlockAt(fates, live, p) := None]) + [Some(q)]
    {
      if !ok {
        return NULL;
      }
      q :| q != NULL && (q == p || q !in live);
      assert |seq(n - |live[p]|, _ => NUL)| == n - |live[p]|;
      var more: seq<Byte> :| |more| == n - |live[p]|;
      var bytes := live[p] + more;
      if q != p {
        FreedBlock(fates, live, p);
        fates := fates[BlockAt(fates, live, p) := None];
        IssuedBlock(fates, live - {p}, q, bytes);
        fates := fates + [Some(q)];
      }
      live := (live - {p})[q := bytes];
    }

    /** Copies bytes into a block. A copy from user space that faults may have
        overwritten any of the bytes it was to write. */
    method CopyIn(p: Addr, offset: nat, data: seq<Byte>, ok: bool)
      requires Valid()
      requires p in live && offset + |data| <= |live[p]|
      modifies this`live
      ensures Valid()
      ensures p in live && |live[p]| == |old(live)[p]| && live == old(live)[p := live[p]]
      ensures live[p][..offset] == old(live)[p][..offset]
      ensures live[p][offset + |data|..] == old(live)[p][offset + |data|..]
      ensures ok ==> live[p][offset..offset + |data|] == data
    {
      var bytes := data;
      if !ok {
        bytes :| |bytes| == |data|;
      }
      live := live[p := live[p][..offset] + bytes + live[p][offset + |data|..]];
    }

    /** Allocates a block and fills it. */
    method Duplicate(bytes: seq<Byte>, ok: bool) returns (p: Addr)
      requires Valid()
      modifies this
      ensures Valid()
      ensures !ok ==> p == NULL && live == old(live) && fates == old(fates)
      ensures ok ==> p != NULL && p !in old(live) && live == old(live)[p := bytes]
    {
      hide Accounted;
      p := Kmalloc(|bytes|, ok);
      if p != NULL {
        CopyIn(p, 0, bytes, true);
        assert live[p] == bytes;
      }
    }
  }
}
