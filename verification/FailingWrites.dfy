/** What any history of writes leaves in the log, failures of allocations and
    copies included, said without running it. */
module FailingWrites {
  import opened Bytes
  import opened PacketLog
  import opened WriteHistory
  import DeviceRuns

  /** What one write did to the accumulator: its bytes went in, with or without
      memory for a packet at that moment; or the copy failed and what was pending
      is lost. A write that found no room for its bytes is not in the history. */
  datatype Item = Took(data: seq<Byte>, ready: bool) | Lost

  /** The bytes that went in. */
  function Gathered(items: seq<Item>): seq<Byte> {
    if items == [] then []
    else
      var x := items[|items| - 1];
      Gathered(items[..|items| - 1]) + if x.Took? then x.data else []
  }

  /** The accumulator is emptied behind item `k`, if not before: what it holds was
      lost, or a newline is in it and there is memory for the packet. */
  predicate Empties(items: seq<Item>, k: nat)
    requires k < |items|
  {
    items[k].Lost? || (items[k].ready && NEWLINE in Gathered(items[..k + 1]))
  }

  predicate EmptiesSomewhere(items: seq<Item>) {
    exists k :: 0 <= k < |items| && Empties(items, k)
  }

  function FirstFrom(items: seq<Item>, i: nat): (k: nat)
    requires exists k :: i <= k < |items| && Empties(items, k)
    ensures i <= k < |items| && Empties(items, k)
    ensures forall j :: i <= j < k ==> !Empties(items, j)
    decreases |items| - i
  {
    if Empties(items, i) then i else FirstFrom(items, i + 1)
  }

  /** The packets: what was gathered up to each place where the accumulator is
      emptied and nothing was lost. */
  function Packets(items: seq<Item>): seq<Packet>
    decreases |items|
  {
    if !EmptiesSomewhere(items) then []
    else
      var k := FirstFrom(items, 0);
      (if items[k].Lost? then [] else [Gathered(items[..k + 1])]) + Packets(items[k + 1..])
  }

  /** What was gathered behind the last such place. */
  function Rest(items: seq<Item>): seq<Byte>
    decreases |items|
  {
    if !EmptiesSomewhere(items) then Gathered(items) else Rest(items[FirstFrom(items, 0) + 1..])
  }

  lemma GatheredSnoc(items: seq<Item>, x: Item)
    ensures Gathered(items + [x]) == Gathered(items) + if x.Took? then x.data else []
  {
    assert (items + [x])[..|items|] == items;
  }

  lemma FirstEmptied(items: seq<Item>, k: nat)
    requires k < |items| && Empties(items, k) && forall j :: 0 <= j < k ==> !Empties(items, j)
    ensures Packets(items) == (if items[k].Lost? then [] else [Gathered(items[..k + 1])]) + Packets(items[k + 1..])
    ensures Rest(items) == Rest(items[k + 1..])
  {
    hide Empties, Gathered;
    assert FirstFrom(items, 0) == k;
  }

  lemma NeverEmptied(items: seq<Item>)
    requires !EmptiesSomewhere(items)
    ensures Packets(items) == [] && Rest(items) == Gathered(items)
  {
  }

  lemma NoItems()
    ensures Packets([]) == [] && Rest([]) == [] && Gathered([]) == []
  {
  }

  lemma SameInFront(items: seq<Item>, x: Item, k: nat)
    requires k < |items|
    ensures Empties(items + [x], k) == Empties(items, k)
  {
    assert (items + [x])[..k + 1] == items[..k + 1];
  }

  /** How one more write changes the packets and the rest. */
  ghost predicate FollowsWith(items: seq<Item>, x: Item) {
    var longer := items + [x];
    var all := Rest(items) + if x.Took? then x.data else [];
    if x.Took? && x.ready && NEWLINE in all then Packets(longer) == Packets(items) + [all] && Rest(longer) == []
    else Packets(longer) == Packets(items) && Rest(longer) == if x.Lost? then [] else all
  }

  lemma {:induction false} PacketsSnoc(items: seq<Item>, x: Item)
    ensures FollowsWith(items, x)
    decreases |items|
  {
    hide Packets, Rest, Gathered, Empties;
    var longer := items + [x];
    forall k | 0 <= k < |items| ensures Empties(longer, k) == Empties(items, k) {
      SameInFront(items, x, k);
    }
    if EmptiesSomewhere(items) {
      var k := FirstFrom(items, 0);
      PacketsSnoc(items[k + 1..], x);
      FirstEmptied(items, k);
      FirstEmptied(longer, k);
      assert longer[k + 1..] == items[k + 1..] + [x] && longer[..k + 1] == items[..k + 1];
    } else {
      LastItem(items, x);
    }
  }

  lemma LastItem(items: seq<Item>, x: Item)
    requires forall k :: 0 <= k < |items| ==> !Empties(items + [x], k)
    requires !EmptiesSomewhere(items)
    ensures FollowsWith(items, x)
  {
    hide Packets, Rest, Gathered;
    var longer := items + [x];
    NeverEmptied(items);
    GatheredSnoc(items, x);
    NoItems();
    assert longer[..|items| + 1] == longer && longer[|items| + 1..] == [];
    if Empties(longer, |items|) {
      FirstEmptied(longer, |items|);
    } else {
      NeverEmptied(longer);
    }
  }

  ghost predicate NothingLost(items: seq<Item>) {
    forall i :: 0 <= i < |items| ==> items[i].Took?
  }

  /** What was pending whenever a copy failed. */
  function LostBytes(items: seq<Item>): nat {
    if items == [] then 0
    else
      var before, x := items[..|items| - 1], items[|items| - 1];
      LostBytes(before) + if x.Lost? then |Rest(before)| else 0
  }

  /** Every packet holds a newline; every byte that went in is in a packet, pending
      or lost by a failed copy; and unless a copy failed, packets and rest are those
      bytes in order, however many packets could not be allocated at first. */
  lemma {:induction false} HistoryConserves(items: seq<Item>)
    ensures forall p :: p in Packets(items) ==> NEWLINE in p
    ensures |Flatten(Packets(items))| + |Rest(items)| + LostBytes(items) == |Gathered(items)|
    ensures NothingLost(items) ==> Flatten(Packets(items)) + Rest(items) == Gathered(items)
    decreases |items|
  {
    hide Packets, Rest, Gathered, Flatten;
    NoItems();
    if items == [] {
      FlattenOne([]);
    } else {
      var before, x := items[..|items| - 1], items[|items| - 1];
      assert items == before + [x];
      HistoryConserves(before);
      PacketsSnoc(before, x);
      GatheredSnoc(before, x);
      var all := Rest(before) + if x.Took? then x.data else [];
      FlattenConcat(Packets(before), [all]);
      FlattenOne(all);
    }
  }

  function Datas(items: seq<Item>): seq<seq<Byte>>
    requires NothingLost(items)
  {
    seq(|items|, i requires 0 <= i < |items| => items[i].data)
  }

  /** When nothing fails this is the history cut behind every newline. */
  lemma {:induction false} WithoutFailures(items: seq<Item>)
    requires NothingLost(items) && forall i :: 0 <= i < |items| ==> items[i].ready
    ensures Packets(items) == Cut(Datas(items)) && Rest(items) == Tail(Datas(items))
    decreases |items|
  {
    hide Packets, Rest, Gathered, Flatten, Cut, Tail;
    NoItems();
    CutConserves(Datas(items));
    if items == [] {
      assert Datas(items) == [];
      NoCut([]);
      FlattenOne([]);
    } else {
      var before, x := items[..|items| - 1], items[|items| - 1];
      assert items == before + [x] && Datas(items) == Datas(before) + [x.data];
      WithoutFailures(before);
      CutConserves(Datas(before));
      PacketsSnoc(before, x);
      CutSnoc(Datas(before), x.data);
    }
  }

  /** The history of a run. */
  function Items(es: seq<DeviceRuns.Event>): seq<Item> {
    if es == [] then []
    else
      var before, e := es[..|es| - 1], es[|es| - 1];
      Items(before) + Happened(DeviceRuns.After(before), e)
  }

  function Happened(s: DeviceRuns.Sys, e: DeviceRuns.Event): seq<Item> {
    if e.Write? && !DeviceRuns.Blocks(s, e) then ItemOf(s.dev, e.data, e.env) else []
  }

  /** What one write does to the accumulator, if anything. */
  function ItemOf(m: Model, data: seq<Byte>, env: WriteEnv): (item: seq<Item>)
    ensures |item| <= 1
  {
    if NeedsRoom(m, |data|) && !env.growOk then []
    else if env.copyOk then [Took(data, env.commitOk)]
    else [Lost]
  }

  /** The device after a write is the packets and the rest of the longer history. */
  lemma WriteOnHistory(m: Model, data: seq<Byte>, env: WriteEnv, log: seq<Packet>, items: seq<Item>)
    requires m.log == log + Packets(items) && m.pending == Rest(items)
    ensures var m', items' := WriteTo(m, data, env).0, items + ItemOf(m, data, env);
            m'.log == log + Packets(items') && m'.pending == Rest(items')
  {
    hide Packets, Rest;
    var item := ItemOf(m, data, env);
    if item == [] {
      assert items + item == items;
    } else {
      assert item == [item[0]];
      PacketsSnoc(items, item[0]);
    }
  }

  /** After any run, whatever failed in it, the log and the pending bytes are the
      packets and the rest of its history. */
  lemma {:induction false} RunFollowsHistory(es: seq<DeviceRuns.Event>)
    ensures DeviceRuns.After(es).dev.log == Packets(Items(es))
    ensures DeviceRuns.After(es).dev.pending == Rest(Items(es))
  {
    hide Packets, Rest, WriteTo, ItemOf;
    if es == [] {
      NoItems();
    } else {
      var before, e := es[..|es| - 1], es[|es| - 1];
      var s := DeviceRuns.After(before);
      RunFollowsHistory(before);
      if e.Write? && !DeviceRuns.Blocks(s, e) {
        assert [] + Packets(Items(before)) == Packets(Items(before));
        WriteOnHistory(s.dev, e.data, e.env, [], Items(before));
        assert [] + Packets(Items(es)) == Packets(Items(es));
      } else {
        assert Items(es) == Items(before);
      }
    }
  }
}
