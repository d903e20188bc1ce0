/** Singly linked tail queues. A cell is a next-word: the head's first-pointer
    or an element's link. The queue also keeps the address of the last one. */
module SingleTailQueue {
  import opened Sequences

  class Cell {
    var next: Cell?

    constructor () {
      next := null;
    }
  }

  /** The cells of a queue, head first: each points to the one behind it. */
  ghost predicate Chained(c: seq<Cell>)
    reads c
  {
    && |c| > 0 && Distinct(c)
    && (forall i {:trigger c[i].next} :: 0 <= i < |c| - 1 ==> c[i].next == c[i + 1])
    && c[|c| - 1].next == null
  }

  lemma LastOf(c: seq<Cell>)
    requires Chained(c)
    ensures |c| > 0 && (c[0].next == null <==> |c| == 1)
  {
    assert |c| > 1 ==> c[0].next == c[1];
  }

  /** The chain determines the sequence. */
  lemma {:induction false} ChainDetermines(c: seq<Cell>, d: seq<Cell>)
    requires Chained(c) && Chained(d) && c[0] == d[0]
    ensures c == d
  {
    assert |c| > 1 ==> c[0].next == c[1];
    assert |d| > 1 ==> d[0].next == d[1];
    if |c| == 1 || |d| == 1 {
    } else {
      var c', d' := c[1..], d[1..];
      assert forall i :: 0 <= i < |c'| ==> c'[i] == c[i + 1];
      assert forall i :: 0 <= i < |d'| ==> d'[i] == d[i + 1];
      ChainDetermines(c', d');
      assert c == [c[0]] + c' && d == [d[0]] + d';
    }
  }

  class Queue {
    const head: Cell
    var last: Cell
    /** The head and then the elements. */
    ghost var cells: seq<Cell>

    ghost predicate Valid()
      reads this, cells
    {
      && Chained(cells) && cells[0] == head
      && last == cells[|cells| - 1]
    }

    ghost function Elems(): seq<Cell>
      requires Valid()
      reads this, cells
    {
      cells[1..]
    }

    constructor ()
      ensures Valid() && Elems() == [] && fresh(head)
    {
      head := new Cell();
      last := head;
      new;
      Init();
    }

    method Init()
      modifies this, head
      ensures Valid() && cells == [head]
    {
      head.next := null;
      last := head;
      cells := [head];
    }

    method InsertHead(elm: Cell)
      requires Valid() && elm !in cells
      modifies this, cells, elm
      ensures Valid() && Elems() == [elm] + old(Elems())
    {
      hide Distinct;
      ghost var c := Inserted(cells, 1, elm);
      Apart(cells, 0);
      elm.next := head.next;
      if elm.next == null {
        last := elm;
      }
      head.next := elm;
      cells := c;
    }

    method InsertAfter(listelm: Cell, elm: Cell, ghost k: nat)
      requires Valid() && elm !in cells
      requires 0 < k < |cells| && cells[k] == listelm
      modifies this, cells, elm
      ensures Valid() && cells == Inserted(old(cells), k + 1, elm)
    {
      hide Distinct;
      ghost var c := Inserted(cells, k + 1, elm);
      Apart(cells, k);
      assert k + 1 < |cells| ==> listelm.next == cells[k + 1];
      elm.next := listelm.next;
      if elm.next == null {
        last := elm;
      }
      listelm.next := elm;
      cells := c;
    }

    method InsertTail(elm: Cell)
      requires Valid() && elm !in cells
      modifies this, cells, elm
      ensures Valid() && Elems() == old(Elems()) + [elm]
    {
      hide Distinct;
      ghost var c := Inserted(cells, |cells|, elm);
      Apart(cells, |cells| - 1);
      elm.next := null;
      last.next := elm;
      last := elm;
      cells := c;
    }

    ghost predicate Disjoint(other: Queue)
      reads this, other
    {
      this != other && Separate(cells, other.cells)
    }

    /** Moves all elements of the other queue behind these; it is empty afterwards. */
    method Concat(other: Queue)
      requires Valid() && other.Valid() && Disjoint(other)
      modifies this, cells, other, other.cells
      ensures Valid() && Elems() == old(Elems()) + old(other.Elems())
      ensures other.Valid() && other.Elems() == []
      ensures Disjoint(other)
    {
      hide Distinct, Separate;
      if other.head.next != null {
        ghost var c := Joined(cells, other.cells);
        Apart(cells, |cells| - 1);
        Apart(other.cells, 0);
        SeparateAt(cells, other.cells, |cells| - 1, 0);
        assert other.cells[0].next == other.cells[1];
        last.next := other.head.next;
        last := other.last;
        cells := c;
        other.Init();
      }
    }

    method RemoveHead()
      requires Valid() && Elems() != []
      modifies this, cells
      ensures Valid() && Elems() == old(Elems())[1..]
    {
      hide Distinct;
      ghost var c := Without(cells, 1);
      Apart(cells, 0);
      assert head.next == cells[1];
      assert |cells| > 2 ==> cells[1].next == cells[2];
      head.next := head.next.next;
      if head.next == null {
        last := head;
      }
      cells := c;
    }

    /** Removes the elements up to and including `elm`. */
    method RemoveHeadUntil(elm: Cell, ghost k: nat)
      requires Valid() && 0 < k < |cells| && cells[k] == elm
      modifies this, cells
      ensures Valid() && Elems() == old(cells)[k + 1..]
    {
      ghost var c := [head] + cells[k + 1..];
      assert forall i :: 0 < i < |c| ==> c[i] == cells[k + i];
      assert Distinct(c);
      hide Distinct;
      Apart(cells, 0);
      assert k + 1 < |cells| ==> elm.next == cells[k + 1];
      head.next := elm.next;
      if head.next == null {
        last := head;
      }
      cells := c;
    }

    /** Removes the element behind `elm`, which must not be the last. */
    method RemoveAfter(elm: Cell, ghost k: nat)
      requires Valid() && k + 1 < |cells| && cells[k] == elm
      modifies this, cells
      ensures Valid() && cells == Without(old(cells), k + 1)
    {
      hide Distinct;
      ghost var c := Without(cells, k + 1);
      Apart(cells, k);
      assert elm.next == cells[k + 1];
      assert k + 2 < |cells| ==> cells[k + 1].next == cells[k + 2];
      elm.next := elm.next.next;
      if elm.next == null {
        last := elm;
      }
      cells := c;
    }

    /** Removes an element wherever it is, walking to the one in front of it. */
    method Remove(elm: Cell, ghost k: nat)
      requires Valid() && 0 < k < |cells| && cells[k] == elm
      modifies this, cells
      ensures Valid() && cells == Without(old(cells), k)
    {
      if head.next == elm {
        assert k == 1;
        RemoveHead();
      } else {
        var curelm := head.next;
        ghost var i := 1;
        assert cells[0].next == cells[1];
        while curelm.next != elm
          invariant 0 < i < k && curelm == cells[i]
          decreases k - i
        {
          assert cells[i].next == cells[i + 1];
          curelm := curelm.next;
          i := i + 1;
        }
        assert cells[i].next == cells[i + 1];
        RemoveAfter(curelm, i);
      }
    }

    method Swap(other: Queue)
      requires Valid() && other.Valid() && Disjoint(other)
      modifies this, cells, other, other.cells
      ensures Valid() && Elems() == old(other.Elems())
      ensures other.Valid() && other.Elems() == old(Elems())
      ensures Disjoint(other)
    {
      assert head in cells && other.head in other.cells;
      hide Distinct, Separate, Chained;
      ghost var c, d := Exchange(other);
      LastOf(c);
      LastOf(d);
      if head.next == null {
        last := head;
      }
      if other.head.next == null {
        other.last := other.head;
      }
      cells, other.cells := c, d;
    }

    /** Exchanges the words of the two heads. */
    method Exchange(other: Queue) returns (ghost c: seq<Cell>, ghost d: seq<Cell>)
      requires Valid() && other.Valid() && Disjoint(other)
      modifies head, other.head, `last, other`last
      ensures c == Reheaded(cells, other.cells) && d == Reheaded(other.cells, cells)
      ensures Chained(c) && Chained(d) && Separate(c, d)
      ensures |c| > 1 ==> last == c[|c| - 1]
      ensures |d| > 1 ==> other.last == d[|d| - 1]
    {
      hide Distinct, Separate;
      ghost var a, b := cells, other.cells;
      c, d := Reheaded(a, b), Reheaded(b, a);
      ReheadedSeparate(a, b);
      SeparateAt(a, b, 0, 0);
      Apart(a, 0);
      Apart(b, 0);
      assert |a| > 1 ==> a[0].next == a[1];
      assert |b| > 1 ==> b[0].next == b[1];
      var swapFirst, swapLast := head.next, last;
      head.next := other.head.next;
      last := other.last;
      other.head.next := swapFirst;
      other.last := swapLast;
    }

    method Last() returns (r: Cell?)
      requires Valid()
      ensures r == if Elems() == [] then null else Elems()[|Elems()| - 1]
    {
      r := if head.next == null then null else last;
    }

    /** The elements in the order of a loop. */
    method Forward() returns (visited: seq<Cell>)
      requires Valid()
      ensures visited == Elems()
    {
      visited := [];
      var v := head.next;
      while v != null
        invariant visited <= Elems()
        invariant v == if |visited| == |Elems()| then null else Elems()[|visited|]
        decreases |Elems()| - |visited|
      {
        assert v == cells[|visited| + 1];
        visited := visited + [v];
        v := v.next;
      }
    }
  }
}
