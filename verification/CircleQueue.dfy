/** Circular queues: the head is a cell of the circle, and both ends of the
    queue are next to it. */
module CircleQueue {
  import opened Sequences

  /** `next` is cqh_first or cqe_next; `prev` is cqh_last or cqe_prev. */
  class Cell {
    var next: Cell?
    var prev: Cell?

    constructor () {
      next, prev := null, null;
    }
  }

  /** The cells of the circle, head first: the backward chain is the forward
      chain reversed, and both close at the head. */
  ghost predicate Circle(c: seq<Cell>)
    reads c
  {
    && |c| > 0 && Distinct(c)
    && (forall i {:trigger c[i].next} :: 0 <= i < |c| - 1 ==> c[i].next == c[i + 1])
    && c[|c| - 1].next == c[0]
    && (forall i {:trigger c[i].prev} :: 0 < i < |c| ==> c[i].prev == c[i - 1])
    && c[0].prev == c[|c| - 1]
  }

  /** One item more of a sequence that is walked round from `k`. */
  lemma TurnGoesOn(es: seq<Cell>, k: nat, i: nat)
    requires k < |es| && i < |es|
    ensures i > k && i + 1 < |es| ==> es[k..i] + [es[i]] == es[k..i + 1]
    ensures i > k && i + 1 == |es| ==> es[k..i] + [es[i]] == es[k..] + es[..0]
    ensures i < k ==> es[k..] + es[..i] + [es[i]] == es[k..] + es[..i + 1]
  {
  }

  class Queue {
    const head: Cell
    /** The head and then the elements. */
    ghost var cells: seq<Cell>

    ghost predicate Valid()
      reads this, cells
    {
      Circle(cells) && cells[0] == head
    }

    ghost function Elems(): seq<Cell>
      requires Valid()
      reads this, cells
    {
      cells[1..]
    }

    constructor ()
      ensures Valid() && Elems() == [] && fresh(head)
    {
      head := new Cell();
      new;
      head.next := head;
      head.prev := head;
      cells := [head];
    }

    method InsertHead(elm: Cell)
      requires Valid() && elm !in cells
      modifies this, cells, elm
      ensures Valid() && Elems() == [elm] + old(Elems())
    {
      hide Distinct;
      ghost var c := Inserted(cells, 1, elm);
      Apart(cells, 0);
      if |cells| > 1 { Apart(cells, 1); }
      assert |cells| > 1 ==> cells[0].next == cells[1];
      elm.next := head.next;
      elm.prev := head;
      if head.prev == head {
        head.prev := elm;
      } else {
        head.next.prev := elm;
      }
      head.next := elm;
      cells := c;
    }

    method InsertBefore(listelm: Cell, elm: Cell, ghost k: nat)
      requires Valid() && elm !in cells
      requires 0 < k < |cells| && cells[k] == listelm
      modifies this, cells, elm
      ensures Valid() && cells == Inserted(old(cells), k, elm)
    {
      hide Distinct;
      ghost var c := Inserted(cells, k, elm);
      Apart(cells, 0);
      Apart(cells, k);
      Apart(cells, k - 1);
      assert listelm.prev == cells[k - 1];
      elm.next := listelm;
      elm.prev := listelm.prev;
      if listelm.prev == head {
        head.next := elm;
      } else {
        listelm.prev.next := elm;
      }
      listelm.prev := elm;
      cells := c;
    }

    method InsertAfter(listelm: Cell, elm: Cell, ghost k: nat)
      requires Valid() && elm !in cells
      requires 0 < k < |cells| && cells[k] == listelm
      modifies this, cells, elm
      ensures Valid() && cells == Inserted(old(cells), k + 1, elm)
    {
      hide Distinct;
      ghost var c := Inserted(cells, k + 1, elm);
      Apart(cells, 0);
      Apart(cells, k);
      if k + 1 < |cells| { Apart(cells, k + 1); }
      assert k + 1 < |cells| ==> listelm.next == cells[k + 1];
      elm.next := listelm.next;
      elm.prev := listelm;
      if listelm.next == head {
        head.prev := elm;
      } else {
        listelm.next.prev := elm;
      }
      listelm.next := elm;
      cells := c;
    }

    method InsertTail(elm: Cell)
      requires Valid() && elm !in cells
      modifies this, cells, elm
      ensures Valid() && Elems() == old(Elems()) + [elm]
    {
      hide Distinct;
      ghost var c := Inserted(cells, |cells|, elm);
      Apart(cells, 0);
      Apart(cells, |cells| - 1);
      assert |cells| > 1 ==> cells[0].next == cells[1];
      elm.next := head;
      elm.prev := head.prev;
      if head.next == head {
        head.next := elm;
      } else {
        head.prev.next := elm;
      }
      head.prev := elm;
      cells := c;
    }

    method Remove(elm: Cell, ghost k: nat)
      requires Valid() && 0 < k < |cells| && cells[k] == elm
      modifies this, cells
      ensures Valid() && cells == Without(old(cells), k)
    {
      hide Distinct;
      ghost var c := Without(cells, k);
      Apart(cells, 0);
      Apart(cells, k);
      Apart(cells, k - 1);
      if k + 1 < |cells| { Apart(cells, k + 1); }
      assert elm.prev == cells[k - 1];
      assert k + 1 < |cells| ==> elm.next == cells[k + 1];
      if elm.next == head {
        head.prev := elm.prev;
      } else {
        elm.next.prev := elm.prev;
      }
      if elm.prev == head {
        head.next := elm.next;
      } else {
        elm.prev.next := elm.next;
      }
      cells := c;
    }

    // ----- Walking the circle past the head -----

    function LoopNext(elm: Cell, ghost k: nat): (r: Cell)
      requires Valid() && k < |Elems()| && Elems()[k] == elm
      reads this, cells
      ensures r == Elems()[if k + 1 == |Elems()| then 0 else k + 1]
    {
      assert elm == cells[k + 1] && cells[0].next == cells[1];
      assert k + 2 < |cells| ==> cells[k + 1].next == cells[k + 2];
      if elm.next == head then head.next else elm.next
    }

    function LoopPrev(elm: Cell, ghost k: nat): (r: Cell)
      requires Valid() && k < |Elems()| && Elems()[k] == elm
      reads this, cells
      ensures r == Elems()[if k == 0 then |Elems()| - 1 else k - 1]
    {
      assert elm == cells[k + 1] && cells[k + 1].prev == cells[k];
      if elm.prev == head then head.prev else elm.prev
    }

    /** Stepping on and stepping back undo each other, at both ends too. */
    lemma LoopStepsAreInverse(elm: Cell, k: nat)
      requires Valid() && k < |Elems()| && Elems()[k] == elm
      ensures var next := if k + 1 == |Elems()| then 0 else k + 1;
              LoopPrev(LoopNext(elm, k), next) == elm
      ensures var prev := if k == 0 then |Elems()| - 1 else k - 1;
              LoopNext(LoopPrev(elm, k), prev) == elm
    {
    }

    /** As many steps as there are elements visit each one and end where they began. */
    method LoopAround(elm: Cell, ghost k: nat) returns (visited: seq<Cell>, end: Cell)
      requires Valid() && k < |Elems()| && Elems()[k] == elm
      ensures visited == Elems()[k..] + Elems()[..k]
      ensures end == elm
    {
      ghost var es := Elems();
      assert forall i :: 0 <= i < |es| && i != k ==> es[i] != elm by {
        Apart(cells, k + 1);
        assert forall i :: 0 <= i < |es| ==> es[i] == cells[i + 1];
      }
      hide Circle, Distinct;
      visited, end := [elm], LoopNext(elm, k);
      ghost var i: nat := if k + 1 == |es| then 0 else k + 1;
      while end != elm
        invariant i < |es| && end == es[i]
        invariant visited == if i > k then es[k..i] else es[k..] + es[..i]
        decreases if i > k then |es| - i + k + 1 else k - i
      {
        TurnGoesOn(es, k, i);
        visited := visited + [end];
        end := LoopNext(end, i);
        i := if i + 1 == |es| then 0 else i + 1;
      }
    }

    /** The elements in the order of a forward loop. */
    method Forward() returns (visited: seq<Cell>)
      requires Valid()
      ensures visited == Elems()
    {
      visited := [];
      var v := head.next;
      assert |cells| > 1 ==> cells[0].next == cells[1];
      while v != head
        invariant visited <= Elems()
        invariant v == if |visited| == |Elems()| then head else Elems()[|visited|]
        decreases |Elems()| - |visited|
      {
        assert v == cells[|visited| + 1];
        visited := visited + [v];
        v := v.next;
      }
    }

    /** The elements in the order of a reverse loop. */
    method Backward() returns (visited: seq<Cell>)
      requires Valid()
      ensures visited == Reversed(Elems())
    {
      visited := [];
      var v := head.prev;
      ghost var k := |Elems()|;
      while v != head
        invariant 0 <= k <= |Elems()| && |visited| == |Elems()| - k
        invariant v == cells[k]
        invariant forall i :: 0 <= i < |visited| ==> visited[i] == Elems()[|Elems()| - 1 - i]
        decreases k
      {
        assert k > 0 && cells[k].prev == cells[k - 1];
        visited := visited + [v];
        k := k - 1;
        v := v.prev;
      }
    }
  }
}
