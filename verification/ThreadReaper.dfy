/** The server's list of connection threads and the sweep that joins, unlinks
    and frees those that have finished. */
module ThreadReaper {
  import opened Sequences

  class Node {
    var next: Node?
    var status: bool

    constructor ()
      ensures next == null && !status
    {
      next, status := null, false;
    }
  }

  ghost predicate Chained(s: seq<Node>)
    reads s
  {
    && Distinct(s)
    && (forall i {:trigger s[i].next} :: 0 <= i < |s| - 1 ==> s[i].next == s[i + 1])
    && (|s| > 0 ==> s[|s| - 1].next == null)
  }

  lemma {:induction false} NextInChain(s: seq<Node>, k: nat)
    requires Chained(s) && k < |s|
    ensures s[k].next == if k + 1 < |s| then s[k + 1] else null
  {
  }

  lemma {:induction false} AppendBehind(a: seq<Node>, b: seq<Node>, n: Node)
    ensures a + (b + [n]) == a + b + [n]
  {
  }

  /** The nodes of `s` that are not in `gone`, in their order. */
  ghost function Kept(s: seq<Node>, gone: seq<Node>): seq<Node> {
    if s == [] then []
    else if s[|s| - 1] in gone then Kept(s[..|s| - 1], gone)
    else Kept(s[..|s| - 1], gone) + [s[|s| - 1]]
  }

  lemma {:induction false} KeptMembers(s: seq<Node>, gone: seq<Node>)
    ensures forall n :: n in Kept(s, gone) <==> n in s && n !in gone
  {
    if s == [] {
    } else {
      KeptMembers(s[..|s| - 1], gone);
      assert s == s[..|s| - 1] + [s[|s| - 1]];
    }
  }

  /** A node that is not in the list makes no difference to what is kept. */
  lemma {:induction false} KeptIgnores(s: seq<Node>, gone: seq<Node>, n: Node)
    requires n !in s
    ensures Kept(s, gone + [n]) == Kept(s, gone)
  {
    if s == [] {
    } else {
      assert s[|s| - 1] in s;
      KeptIgnores(s[..|s| - 1], gone, n);
    }
  }

  /** The sweep is at position `i` of the list: `front` is what it kept, and
      `removed` what it removed, each in the order of the list. */
  ghost predicate Progress(all: seq<Node>, i: nat, front: seq<Node>, removed: seq<Node>) {
    && i <= |all| && Distinct(all) && Distinct(removed)
    && front == Kept(all[..i], removed)
    && (forall n :: n in removed ==> n in all[..i])
  }

  lemma {:induction false} ProgressStarts(all: seq<Node>)
    requires Chained(all)
    ensures Progress(all, 0, [], [])
  {
  }

  lemma {:induction false} ProgressEnds(all: seq<Node>, front: seq<Node>, removed: seq<Node>)
    requires Progress(all, |all|, front, removed)
    ensures front == Kept(all, removed) && Distinct(removed)
    ensures forall n :: n in removed ==> n in all
    ensures forall n :: n in all ==> n in front || n in removed
    ensures forall n :: n in front ==> n in all && n !in removed
  {
    assert all[..|all|] == all;
    KeptMembers(all, removed);
  }

  /** The next node is in the list behind `front`, and the sweep goes on past it
      whether it keeps it or removes it. */
  lemma {:induction false} ProgressGoesOn(all: seq<Node>, i: nat, front: seq<Node>, removed: seq<Node>, list: seq<Node>)
    requires Progress(all, i, front, removed) && i < |all|
    requires list == front + all[i..]
    ensures |front| < |list| && list[|front|] == all[i] && all[i] !in removed
    ensures Progress(all, i + 1, front + [all[i]], removed)
    ensures list == front + [all[i]] + all[i + 1..]
    ensures Progress(all, i + 1, front, removed + [all[i]])
    ensures Without(list, |front|) == front + all[i + 1..]
    ensures forall n :: n in list ==> n in all
  {
    hide Kept;
    var x := all[i];
    OneMore(all, i);
    KeptIgnores(all[..i], removed, x);
    KeptMembers(all[..i], removed);
    KeptSnoc(all[..i], x, removed);
    KeptSnoc(all[..i], x, removed + [x]);
    assert list[|front|] == x && list == front + ([x] + all[i + 1..]);
    assert forall n :: n in list ==> n in front || n in all[i..];
  }

  lemma {:induction false} OneMore(all: seq<Node>, i: nat)
    requires i < |all| && Distinct(all)
    ensures all[..i + 1] == all[..i] + [all[i]] && all[i] !in all[..i]
    ensures all[i..] == [all[i]] + all[i + 1..]
  {
  }

  lemma {:induction false} KeptSnoc(s: seq<Node>, x: Node, gone: seq<Node>)
    ensures Kept(s + [x], gone) == if x in gone then Kept(s, gone) else Kept(s, gone) + [x]
  {
    assert (s + [x])[..|s|] == s;
  }

  // ----- When threads finish -----

  /** The threads that finish right before node `i` is looked at. */
  function Now(finishing: seq<set<Node>>, i: nat): set<Node> {
    if i < |finishing| then finishing[i] else {}
  }

  /** Whether the thread of `n` has finished by the time `i` nodes were looked at;
      those in `done` had finished before. */
  ghost predicate HasFinished(done: set<Node>, finishing: seq<set<Node>>, i: nat, n: Node) {
    n in done || exists j :: 0 <= j < i && n in Now(finishing, j)
  }

  lemma OneMoment(done: set<Node>, finishing: seq<set<Node>>, i: nat, n: Node)
    ensures HasFinished(done, finishing, i + 1, n) <==> HasFinished(done, finishing, i, n) || n in Now(finishing, i)
  {
  }

  /** Of the first `i` nodes, those are removed whose threads had finished when they
      were looked at, and no others. */
  ghost predicate RemovedFinished(all: seq<Node>, i: nat, removed: seq<Node>, done: set<Node>, finishing: seq<set<Node>>)
    requires i <= |all|
  {
    forall x :: 0 <= x < i ==> (all[x] in removed <==> HasFinished(done, finishing, x + 1, all[x]))
  }

  lemma OneMoreRemoved(all: seq<Node>, i: nat, front: seq<Node>, removed: seq<Node>, done: set<Node>, finishing: seq<set<Node>>)
    requires i < |all| && Progress(all, i, front, removed) && RemovedFinished(all, i, removed, done, finishing)
    ensures var removed' := if HasFinished(done, finishing, i + 1, all[i]) then removed + [all[i]] else removed;
            RemovedFinished(all, i + 1, removed', done, finishing)
  {
    hide HasFinished, Kept;
    OneMore(all, i);
    forall x | 0 <= x < i ensures all[x] != all[i] {
      assert all[x] in all[..i];
    }
  }

  class ThreadList {
    var first: Node?
    ghost var nodes: seq<Node>
    ghost var freed: seq<Node>
    ghost var joined: seq<Node>

    ghost predicate Valid()
      reads this, nodes
    {
      && Chained(nodes)
      && first == (if |nodes| == 0 then null else nodes[0])
      && (forall n :: n in nodes ==> n !in freed)
    }

    /** Only threads that have finished were waited for. */
    ghost predicate JoinedFinished()
      reads this, joined
    {
      forall n :: n in joined ==> n.status
    }

    constructor ()
      ensures Valid() && JoinedFinished() && nodes == [] && freed == [] && joined == []
    {
      first, nodes, freed, joined := null, [], [], [];
    }

    method InsertHead(elm: Node)
      requires Valid() && elm !in nodes && elm !in freed
      modifies `first, `nodes, elm`next
      ensures Valid() && nodes == [elm] + old(nodes)
    {
      elm.next := first;
      first := elm;
      nodes := [elm] + nodes;
    }

    /** Unlinks a node of the list; the walk to the one in front of it ends. */
    method Remove(elm: Node, ghost k: nat)
      requires Valid() && k < |nodes| && nodes[k] == elm
      modifies `first, `nodes, nodes`next
      ensures Valid() && nodes == Without(old(nodes), k)
      ensures elm.next == old(elm.next)
    {
      hide Distinct;
      ghost var rest := Without(nodes, k);
      Apart(nodes, k);
      assert k + 1 < |nodes| ==> nodes[k].next == nodes[k + 1];
      if first == elm {
        first := first.next;
      } else {
        var curelm := first;
        ghost var i := 0;
        Apart(nodes, 0);
        while curelm.next != elm
          invariant 0 <= i < k && curelm == nodes[i]
          decreases k - i
        {
          assert nodes[i].next == nodes[i + 1];
          curelm := curelm.next;
          i := i + 1;
        }
        Apart(nodes, i);
        assert nodes[i].next == nodes[i + 1];
        curelm.next := curelm.next.next;
      }
      nodes := rest;
    }

    /** The threads in `finishing` that are still in the list finish. */
    method ThreadsRun(finishing: set<Node>)
      requires Valid() && JoinedFinished()
      modifies nodes`status
      ensures forall n :: n in nodes ==> n.status == (old(n.status) || n in finishing)
      ensures JoinedFinished()
    {
      var v := first;
      ghost var i := 0;
      while v != null
        invariant 0 <= i <= |nodes| && v == if i == |nodes| then null else nodes[i]
        invariant forall k :: 0 <= k < i ==> nodes[k].status == (old(nodes[k].status) || nodes[k] in finishing)
        invariant forall k :: i <= k < |nodes| ==> nodes[k].status == old(nodes[k].status)
        invariant JoinedFinished()
        decreases |nodes| - i
      {
        if v in finishing {
          v.status := true;
        }
        assert v == nodes[i] && (i + 1 < |nodes| ==> v.next == nodes[i + 1]);
        v := v.next;
        i := i + 1;
      }
    }

    /** Waits for a thread; only for one that has finished, and only once. */
    method Join(node: Node)
      requires node.status && node !in freed && node !in joined
      modifies `joined
      ensures joined == old(joined) + [node]
    {
      joined := joined + [node];
    }

    /** Frees a node that is out of the list, joined, and not freed yet. */
    method Free(node: Node)
      requires node !in nodes && node !in freed && node in joined
      modifies `freed
      ensures freed == old(freed) + [node]
    {
      freed := freed + [node];
    }

    /** Joins, unlinks and frees a finished node. */
    method Reap(node: Node, ghost k: nat)
      requires Valid() && k < |nodes| && nodes[k] == node
      requires node.status && node !in joined && JoinedFinished()
      modifies this, nodes`next
      ensures JoinedFinished()
      ensures Valid() && nodes == Without(old(nodes), k)
      ensures joined == old(joined) + [node] && freed == old(freed) + [node]
    {
      Join(node);
      Remove(node, k);
      assert node !in nodes && node !in freed;
      Free(node);
    }

    /** Looks at one node after more threads have finished, and reaps it if its own has. */
    method Visit(node: Node, finishing: set<Node>, ghost k: nat) returns (gone: bool)
      requires Valid() && k < |nodes| && nodes[k] == node && node !in joined
      requires JoinedFinished()
      modifies this, nodes
      ensures JoinedFinished()
      ensures Valid() && nodes == if gone then Without(old(nodes), k) else old(nodes)
      ensures joined == old(joined) + (if gone then [node] else [])
      ensures freed == old(freed) + (if gone then [node] else [])
      ensures forall n :: n in old(nodes) ==> n.status == (old(n.status) || n in finishing)
      ensures gone == (old(node.status) || node in finishing)
    {
      ThreadsRun(finishing);
      assert node !in freed;
      gone := node.status;
      if gone {
        Reap(node, k);
      }
    }

    /** Where a sweep of the list `all` stands after `i` nodes. What was joined
        and freed before it is in `joined0` and `freed0`; the threads in `done`
        had finished when it began. */
    ghost predicate Sweeping(all: seq<Node>, i: nat, front: seq<Node>, removed: seq<Node>,
                             joined0: seq<Node>, freed0: seq<Node>, done: set<Node>, finishing: seq<set<Node>>)
      reads this, nodes, joined
    {
      && Valid() && JoinedFinished()
      && Progress(all, i, front, removed) && nodes == front + all[i..]
      && joined == joined0 + removed && freed == freed0 + removed
      && (forall n :: n in all ==> n !in joined0)
      && (forall n :: n in nodes ==> n.status == HasFinished(done, finishing, i, n))
      && RemovedFinished(all, i, removed, done, finishing)
    }

    /** Looks at the next node of a sweep. */
    method SweepOne(node: Node, finishing: seq<set<Node>>, visits: nat, ghost all: seq<Node>, ghost front: seq<Node>,
                    ghost removed: seq<Node>, ghost joined0: seq<Node>, ghost freed0: seq<Node>, ghost done: set<Node>)
      returns (next: Node?, ghost front': seq<Node>, ghost removed': seq<Node>)
      requires visits < |all| && node == all[visits]
      requires Sweeping(all, visits, front, removed, joined0, freed0, done, finishing)
      modifies this, all
      ensures Sweeping(all, visits + 1, front', removed', joined0, freed0, done, finishing)
      ensures next == if visits + 1 < |all| then all[visits + 1] else null
    {
      hide Kept, Distinct, Chained, Progress, HasFinished, RemovedFinished;
      ghost var k, i := |front|, visits;
      ProgressGoesOn(all, i, front, removed, nodes);
      assert nodes[k] in nodes && node !in freed;
      NextInChain(nodes, k);
      assert i + 1 < |all| ==> nodes[k + 1] == all[i + 1];
      next := node.next;
      assert node !in joined;
      assert forall j :: 0 <= j < |nodes| ==> nodes[j] in all;
      ghost var before := nodes;
      forall n | n in nodes
        ensures HasFinished(done, finishing, i + 1, n) == (n.status || n in Now(finishing, i))
      {
        OneMoment(done, finishing, i, n);
      }
      var gone := Visit(node, Now(finishing, visits), k);
      AppendBehind(joined0, removed, node);
      AppendBehind(freed0, removed, node);
      OneMoreRemoved(all, i, front, removed, done, finishing);
      front' := if gone then front else front + [all[i]];
      removed' := if gone then removed + [all[i]] else removed;
      assert forall n :: n in nodes ==> n in before;
    }

    /** One pass over the list while threads go on finishing: those in
        `finishing[i]` right before node `i` is looked at. Every node that is looked
        at is still allocated. */
    method Sweep(finishing: seq<set<Node>>) returns (ghost removed: seq<Node>)
      requires Valid() && JoinedFinished() && forall n :: n in nodes ==> n !in joined
      modifies this, nodes
      ensures Valid() && JoinedFinished() && forall n :: n in nodes ==> n !in joined
      ensures Distinct(removed) && forall n :: n in removed ==> n in old(nodes)
      ensures joined == old(joined) + removed && freed == old(freed) + removed
      ensures nodes == Kept(old(nodes), removed)
      // Exactly the nodes go whose threads had finished when they were looked at.
      ensures RemovedFinished(old(nodes), |old(nodes)|, removed, old(set n | n in nodes && n.status), finishing)
      ensures forall n :: n in nodes ==> n.status == HasFinished(old(set m | m in nodes && m.status), finishing, |old(nodes)|, n)
    {
      ghost var all, done := nodes, set n | n in nodes && n.status;
      ghost var front: seq<Node> := [];
      var visits := 0;
      removed := [];
      SweepStarts(done, finishing);
      hide Sweeping, Kept, Distinct, Chained, HasFinished, RemovedFinished;
      var node := first;
      while node != null
        invariant visits <= |all| && node == if visits == |all| then null else all[visits]
        invariant Sweeping(all, visits, front, removed, old(joined), old(freed), done, finishing)
        decreases |all| - visits
      {
        node, front, removed := SweepOne(node, finishing, visits, all, front, removed, old(joined), old(freed), done);
        visits := visits + 1;
      }
      SweepEnds(all, front, removed, old(joined), old(freed), done, finishing);
    }

    lemma SweepStarts(done: set<Node>, finishing: seq<set<Node>>)
      requires Valid() && JoinedFinished() && forall n :: n in nodes ==> n !in joined
      requires forall n :: n in nodes ==> (n.status <==> n in done)
      ensures Sweeping(nodes, 0, [], [], joined, freed, done, finishing)
    {
      ProgressStarts(nodes);
    }

    lemma SweepEnds(all: seq<Node>, front: seq<Node>, removed: seq<Node>,
                    joined0: seq<Node>, freed0: seq<Node>, done: set<Node>, finishing: seq<set<Node>>)
      requires Sweeping(all, |all|, front, removed, joined0, freed0, done, finishing)
      ensures Valid() && JoinedFinished() && forall n :: n in nodes ==> n !in joined
      ensures Distinct(removed) && forall n :: n in removed ==> n in all
      ensures joined == joined0 + removed && freed == freed0 + removed
      ensures nodes == Kept(all, removed)
      ensures RemovedFinished(all, |all|, removed, done, finishing)
      ensures forall n :: n in nodes ==> n.status == HasFinished(done, finishing, |all|, n)
    {
      hide Kept, Distinct, Chained, HasFinished, RemovedFinished;
      ProgressEnds(all, front, removed);
      assert nodes == front;
    }
  }
}
