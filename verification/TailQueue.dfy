/** Doubly linked tail queues. A head and an entry have the same two words: a
    pointer to the next element and the address of a next-word. So one kind of
    cell stands for both, the address of a cell's next-word is the cell, and
    reading an entry as a head is no more than following its cell. */
module TailQueue {
  import opened Sequences

  /** `next` is tqh_first or tqe_next; `back` is tqh_last or tqe_prev. */
  class Cell {
    var next: Cell?
    var back: Cell?

    constructor () {
      next, back := null, null;
    }
  }

  /** The cells of a queue, head first: every next-word points to the cell behind
      it, the last to nothing; every back link names the cell in front of it, and
      the head's names the last. */
  ghost predicate Linked(c: seq<Cell>)
    reads c
  {
    && |c| > 0 && Distinct(c)
    && (forall i {:trigger c[i].next} :: 0 <= i < |c| - 1 ==> c[i].next == c[i + 1])
    && c[|c| - 1].next == null
    && (forall i {:trigger c[i].back} :: 0 < i < |c| ==> c[i].back == c[i - 1])
    && c[0].back == c[|c| - 1]
  }

  /** Linked, but for the back link that names the head. */
  ghost predicate LinkedPastHead(c: seq<Cell>)
    reads c
  {
    && |c| > 0 && Distinct(c)
    && (forall i {:trigger c[i].next} :: 0 <= i < |c| - 1 ==> c[i].next == c[i + 1])
    && c[|c| - 1].next == null
    && (forall i {:trigger c[i].back} :: 1 < i < |c| ==> c[i].back == c[i - 1])
    && (|c| > 1 ==> c[0].back == c[|c| - 1])
  }

  /** Two chains of cells side by side: linked, but for the words that would join
      the cell at `k` to the one in front of it, and the head's back link. */
  ghost predicate LinkedBut(c: seq<Cell>, k: nat)
    reads c
  {
    && 0 < k < |c| && Distinct(c)
    && (forall i {:trigger c[i].next} :: 0 <= i < |c| - 1 && i != k - 1 ==> c[i].next == c[i + 1])
    && c[|c| - 1].next == null
    && (forall i {:trigger c[i].back} :: 0 < i < |c| && i != k ==> c[i].back == c[i - 1])
  }

  lemma JoinedIsLinkedBut(a: seq<Cell>, b: seq<Cell>)
    requires Linked(a) && Linked(b) && Separate(a, b) && |b| > 1
    ensures LinkedBut(Joined(a, b), |a|)
  {
    hide Distinct, Separate;
  }

  /** The links determine the sequence. */
  lemma LinksDetermine(c: seq<Cell>, d: seq<Cell>)
    requires Linked(c) && Linked(d) && c[0] == d[0]
    ensures c == d
  {
    LinksAgree(c, d, if |c| <= |d| then |c| else |d|);
  }

  lemma {:induction false} LinksAgree(c: seq<Cell>, d: seq<Cell>, k: nat)
    requires Linked(c) && Linked(d) && c[0] == d[0]
    requires 0 < k <= |c| && k <= |d|
    ensures c[..k] == d[..k]
    ensures (k < |c|) == (k < |d|)
  {
    if k == 1 {
    } else {
      LinksAgree(c, d, k - 1);
      assert c[k - 2] == c[..k - 1][k - 2] == d[..k - 1][k - 2] == d[k - 2];
      assert c[k - 2].next == c[k - 1] && d[k - 2].next == d[k - 1];
      assert c[..k] == c[..k - 1] + [c[k - 1]] && d[..k] == d[..k - 1] + [d[k - 1]];
    }
    assert c[k - 1] == d[k - 1];
    assert k < |c| ==> c[k - 1].next == c[k];
    assert k < |d| ==> d[k - 1].next == d[k];
  }

  class Queue {
    const head: Cell
    /** The head and then the elements. */
    ghost var cells: seq<Cell>

    ghost predicate Valid()
      reads this, cells
    {
      Linked(cells) && cells[0] == head
    }

    ghost function Elems(): seq<Cell>
      requires Valid()
      reads this, cells
    {
      cells[1..]
    }

    constructor ()
      ensures Valid() && Elems() == [] && fresh(head)
    {
      head := new Cell();
      new;
      Init();
    }

    method Init()
      modifies this, head
      ensures Valid() && cells == [head]
    {
      head.next := null;
      head.back := head;
      cells := [head];
    }

    method InsertHead(elm: Cell)
      requires Valid() && elm !in cells
      modifies this, cells, elm
      ensures Valid() && Elems() == [elm] + old(Elems())
    {
      hide Distinct;
      ghost var c := Inserted(cells, 1, elm);
      Apart(cells, 0);
      if |cells| > 1 { Apart(cells, 1); }
      elm.next := head.next;
      if elm.next != null {
        head.next.back := elm;
      } else {
        head.back := elm;
      }
      head.next := elm;
      elm.back := head;
      cells := c;
    }

    method InsertBefore(listelm: Cell, elm: Cell, ghost k: nat)
      requires Valid() && elm !in cells
      requires 0 < k < |cells| && cells[k] == listelm
      modifies this, cells, elm
      ensures Valid() && cells == Inserted(old(cells), k, elm)
    {
      hide Distinct;
      ghost var c := Inserted(cells, k, elm);
      Apart(cells, k);
      Apart(cells, k - 1);
      assert listelm.back == cells[k - 1];
      elm.back := listelm.back;
      elm.next := listelm;
      listelm.back.next := elm;
      listelm.back := elm;
      cells := c;
    }

    method InsertAfter(listelm: Cell, elm: Cell, ghost k: nat)
      requires Valid() && elm !in cells
      requires 0 < k < |cells| && cells[k] == listelm
      modifies this, cells, elm
      ensures Valid() && cells == Inserted(old(cells), k + 1, elm)
    {
      hide Distinct;
      ghost var c := Inserted(cells, k + 1, elm);
      Apart(cells, 0);
      Apart(cells, k);
      if k + 1 < |cells| { Apart(cells, k + 1); }
      assert k + 1 < |cells| ==> listelm.next == cells[k + 1];
      elm.next := listelm.next;
      if elm.next != null {
        elm.next.back := elm;
      } else {
        head.back := elm;
      }
      listelm.next := elm;
      elm.back := listelm;
      cells := c;
    }

    method InsertTail(elm: Cell)
      requires Valid() && elm !in cells
      modifies this, cells, elm
      ensures Valid() && Elems() == old(Elems()) + [elm]
    {
      hide Distinct;
      ghost var c := Inserted(cells, |cells|, elm);
      Apart(cells, 0);
      Apart(cells, |cells| - 1);
      elm.next := null;
      elm.back := head.back;
      head.back.next := elm;
      head.back := elm;
      cells := c;
    }

    method Remove(elm: Cell, ghost k: nat)
      requires Valid() && 0 < k < |cells| && cells[k] == elm
      modifies this, cells
      ensures Valid() && cells == Without(old(cells), k)
    {
      hide Distinct;
      ghost var c := Without(cells, k);
      Apart(cells, 0);
      Apart(cells, k);
      Apart(cells, k - 1);
      if k + 1 < |cells| { Apart(cells, k + 1); }
      assert elm.back == cells[k - 1];
      assert k + 1 < |cells| ==> elm.next == cells[k + 1];
      if elm.next != null {
        elm.next.back := elm.back;
      } else {
        head.back := elm.back;
      }
      elm.back.next := elm.next;
      cells := c;
    }

    method Replace(elm: Cell, elm2: Cell, ghost k: nat)
      requires Valid() && 0 < k < |cells| && cells[k] == elm
      requires elm2 !in cells
      modifies this, cells, elm2
      ensures Valid() && cells == old(cells)[k := elm2]
    {
      ghost var c := cells[k := elm2];
      assert Distinct(c);
      hide Distinct;
      Apart(cells, 0);
      Apart(cells, k);
      Apart(cells, k - 1);
      if k + 1 < |cells| { Apart(cells, k + 1); }
      assert elm.back == cells[k - 1];
      assert k + 1 < |cells| ==> elm.next == cells[k + 1];
      elm2.next := elm.next;
      if elm2.next != null {
        elm2.next.back := elm2;
      } else {
        head.back := elm2;
      }
      elm2.back := elm.back;
      elm2.back.next := elm2;
      cells := c;
    }

    ghost predicate Disjoint(other: Queue)
      reads this, other
    {
      this != other && Separate(cells, other.cells)
    }

    /** Moves all elements of the other queue behind these; it is empty afterwards. */
    method Concat(other: Queue)
      requires Valid() && other.Valid() && Disjoint(other)
      modifies this, cells, other, other.cells
      ensures Valid() && Elems() == old(Elems()) + old(other.Elems())
      ensures other.Valid() && other.Elems() == []
      ensures Disjoint(other)
    {
      hide Distinct, Separate;
      if other.head.next != null {
        ghost var c := Splice(other);
        SeparateAt(c, [other.head], 0, 0);
        cells := c;
        other.Init();
      }
    }

    /** Links the elements of a queue that is not empty behind these. */
    method Splice(other: Queue) returns (ghost c: seq<Cell>)
      requires Valid() && other.Valid() && Disjoint(other) && |other.cells| > 1
      modifies cells, other.cells
      ensures c == Joined(cells, other.cells)
      ensures Linked(c) && Separate(c, [other.head])
    {
      assert other.cells[0].next == other.cells[1];
      hide Distinct, Separate;
      c := Joined(cells, other.cells);
      JoinedIsLinkedBut(cells, other.cells);
      SeparateAt(c, [other.head], 0, 0);
      CloseJoint(other.head, c, |cells|);
    }

    method CloseJoint(second: Cell, ghost c: seq<Cell>, ghost k: nat)
      requires LinkedBut(c, k) && c[0] == head && second !in c
      requires head.back == c[k - 1] && second.next == c[k] && second.back == c[|c| - 1]
      modifies c[0], c[k - 1], c[k]
      ensures Linked(c)
    {
      hide Distinct;
      Apart(c, 0);
      Apart(c, k - 1);
      Apart(c, k);
      head.back.next := second.next;
      second.next.back := head.back;
      head.back := second.back;
    }

    method Swap(other: Queue)
      requires Valid() && other.Valid() && Disjoint(other)
      modifies this, cells, other, other.cells
      ensures Valid() && Elems() == old(other.Elems())
      ensures other.Valid() && other.Elems() == old(Elems())
      ensures Disjoint(other)
    {
      assert head in cells && other.head in other.cells;
      hide Distinct, Separate, Linked, LinkedPastHead;
      ghost var c, d := Exchange(other);
      SeparateAt(c, d, 0, 0);
      if |c| > 1 { SeparateAt(c, d, 1, 0); }
      if |d| > 1 { SeparateAt(c, d, 0, 1); }
      Adopt(c);
      other.Adopt(d);
    }

    /** Exchanges the words of the two heads. */
    method Exchange(other: Queue) returns (ghost c: seq<Cell>, ghost d: seq<Cell>)
      requires Valid() && other.Valid() && Disjoint(other)
      modifies head, other.head
      ensures c == Reheaded(cells, other.cells) && d == Reheaded(other.cells, cells)
      ensures LinkedPastHead(c) && LinkedPastHead(d) && Separate(c, d)
    {
      hide Distinct, Separate;
      ghost var a, b := cells, other.cells;
      c, d := Reheaded(a, b), Reheaded(b, a);
      ReheadedSeparate(a, b);
      SeparateAt(a, b, 0, 0);
      Apart(a, 0);
      Apart(b, 0);
      assert |a| > 1 ==> a[0].next == a[1];
      assert |b| > 1 ==> b[0].next == b[1];
      var swapFirst, swapLast := head.next, head.back;
      head.next := other.head.next;
      head.back := other.head.back;
      other.head.next := swapFirst;
      other.head.back := swapLast;
    }

    /** The head got the words of another head: makes the first element, or the
        empty queue, name this one. */
    method Adopt(ghost c: seq<Cell>)
      requires LinkedPastHead(c) && c[0] == head
      modifies `cells, head`back
      modifies (if |c| > 1 then {c[1]} else {})`back
      ensures Valid() && cells == c
    {
      hide Distinct;
      Apart(c, 0);
      if |c| > 1 { Apart(c, 1); }
      assert |c| > 1 ==> c[0].next == c[1];
      var first := head.next;
      if first != null {
        first.back := head;
      } else {
        head.back := head;
      }
      cells := c;
    }

    // ----- Access -----

    method Last() returns (r: Cell?)
      requires Valid()
      ensures r == if Elems() == [] then null else Elems()[|Elems()| - 1]
    {
      r := head.back.back.next;
    }

    method Prev(elm: Cell, ghost k: nat) returns (r: Cell?)
      requires Valid() && k < |Elems()| && Elems()[k] == elm
      ensures r == if k == 0 then null else Elems()[k - 1]
    {
      assert elm == cells[k + 1];
      assert elm.back == cells[k];
      assert k > 0 ==> cells[k].back == cells[k - 1] && cells[k - 1].next == cells[k];
      r := elm.back.back.next;
    }

    /** The elements in the order of a forward loop. */
    method Forward() returns (visited: seq<Cell>)
      requires Valid()
      ensures visited == Elems()
    {
      visited := [];
      var v := head.next;
      while v != null
        invariant visited <= Elems()
        invariant v == if |visited| == |Elems()| then null else Elems()[|visited|]
        decreases |Elems()| - |visited|
      {
        assert v == cells[|visited| + 1];
        visited := visited + [v];
        v := v.next;
      }
    }

    /** The elements in the order of a reverse loop. */
    method Backward() returns (visited: seq<Cell>)
      requires Valid()
      ensures visited == Reversed(Elems())
    {
      visited := [];
      var v := Last();
      ghost var k := |Elems()|;
      while v != null
        invariant 0 <= k <= |Elems()| && |visited| == |Elems()| - k
        invariant v == if k == 0 then null else Elems()[k - 1]
        invariant forall i :: 0 <= i < |visited| ==> visited[i] == Elems()[|Elems()| - 1 - i]
        decreases k
      {
        visited := visited + [v];
        k := k - 1;
        v := Prev(v, k);
      }
    }
  }
}
