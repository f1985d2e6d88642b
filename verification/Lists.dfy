/**
 * The intrusive linked lists of lib_lists: nodes that carry their own next pointer and, in
 * a doubly linked list, a prev pointer. Every operation relinks nodes in place.
 */
module Lists {
  import opened Basics
  import opened Orderings

  class Node {
    var next: Node?
    var prev: Node?

    constructor ()
      ensures next == null && prev == null
    {
      next, prev := null, null;
    }
  }

  ghost function Members(s: seq<Node>): set<Node> {
    set n | n in s
  }

  /** The node at position i, or null outside the sequence. */
  function At(s: seq<Node>, i: int): (n: Node?) {
    if 0 <= i < |s| then s[i] else null
  }

  ghost predicate Forward(s: seq<Node>)
    reads s`next
  {
    forall i {:trigger s[i].next} :: 0 <= i < |s| ==> s[i].next == At(s, i + 1)
  }

  ghost predicate Backward(s: seq<Node>)
    reads s`prev
  {
    forall i {:trigger s[i].prev} :: 0 <= i < |s| ==> s[i].prev == At(s, i - 1)
  }

  function Inserted(s: seq<Node>, i: nat, node: Node): (r: seq<Node>)
    requires i <= |s|
  {
    s[..i] + [node] + s[i..]
  }

  /** The node stands at that place, and without it the sequence is what it was. */
  lemma InsertedAt(s: seq<Node>, i: nat, node: Node)
    requires i <= |s|
    ensures var r := Inserted(s, i, node); |r| == |s| + 1 && r[i] == node && Without(r, i) == s
  {
    var r := Inserted(s, i, node);
    assert r[..i] == s[..i] && r[i + 1..] == s[i..];
    assert s[..i] + s[i..] == s;
  }

  /** An acyclic chain: following next walks the sequence, and prev walks it back. */
  ghost predicate Chain(s: seq<Node>, doubly: bool)
    reads s
  {
    Distinct(s) && Forward(s) && (doubly ==> Backward(s))
  }

  lemma DistinctInsert(s: seq<Node>, i: nat, node: Node)
    requires Distinct(s) && node !in s && i <= |s|
    ensures Distinct(Inserted(s, i, node)) && (i > 0 ==> Inserted(s, i, node)[0] == s[0])
  {
  }

  class List {
    /** Whether the nodes of this list are doubly linked. */
    const doubly: bool
    var head: Node?
    /** The nodes given up so far, in the order in which the deletion callback saw them. */
    var freed: seq<Node>
    /** The nodes that make up the list. */
    ghost var nodes: seq<Node>

    ghost predicate Valid()
      reads this, nodes
    {
      Chain(nodes, doubly) && head == At(nodes, 0)
    }

    constructor (doubly: bool)
      ensures Valid() && this.doubly == doubly && nodes == [] && freed == []
    {
      this.doubly := doubly;
      head, freed, nodes := null, [], [];
    }

    /**
     * The deletion callback: the node is given up, and from then on its links may hold
     * anything (with no callback they stay as they are, which this allows for).
     */
    method Dispose(node: Node)
      modifies this`freed, node
      ensures freed == old(freed) + [node]
    {
      freed := freed + [node];
      node.next := *;
      node.prev := *;
    }

    method PushFront(node: Node)
      requires Valid() && node !in nodes
      modifies this`head, this`nodes, Members(nodes), node
      ensures Valid() && nodes == [node] + old(nodes)
    {
      node.next := head;
      head := node;
      if doubly {
        if node.next != null {
          node.next.prev := node;
        }
        node.prev := null;
      }
      nodes := [node] + nodes;
    }

    method PopFront() returns (ok: bool)
      requires Valid()
      modifies this`head, this`nodes, this`freed, Members(nodes)
      ensures Valid() && ok == (old(nodes) != [])
      ensures ok ==> nodes == old(nodes)[1..] && freed == old(freed) + [old(nodes)[0]]
      ensures !ok ==> nodes == old(nodes) && freed == old(freed)
    {
      if head == null {
        return false;
      }
      var tmp := head;
      head := tmp.next;
      nodes := nodes[1..];
      Dispose(tmp);
      if doubly {
        if head != null {
          head.prev := null;
        }
      }
      return true;
    }

    method PushBack(node: Node)
      requires Valid() && node !in nodes
      modifies this`head, this`nodes, Members(nodes), node
      ensures Valid() && nodes == old(nodes) + [node]
    {
      node.next := null;
      if head == null {
        if doubly {
          node.prev := null;
        }
        head := node;
      } else {
        var tmp := head;
        ghost var k := 0;
        while tmp.next != null
          invariant 0 <= k < |nodes| && tmp == nodes[k]
          decreases |nodes| - k
        {
          tmp := tmp.next;
          k := k + 1;
        }
        if doubly {
          node.prev := tmp;
        }
        tmp.next := node;
      }
      nodes := nodes + [node];
    }

    method PopBack() returns (ok: bool)
      requires Valid()
      modifies this`head, this`nodes, this`freed, Members(nodes)
      ensures Valid() && ok == (old(nodes) != [])
      ensures ok ==> nodes == old(nodes)[..|old(nodes)| - 1]
      ensures ok ==> freed == old(freed) + [old(nodes)[|old(nodes)| - 1]]
      ensures !ok ==> nodes == old(nodes) && freed == old(freed)
    {
      if head == null {
        return false;
      }
      var tmp := head;
      if tmp.next == null {
        ok := PopFront();
        return;
      }
      ghost var k := 0;
      while tmp.next.next != null
        invariant 0 <= k < |nodes| - 1 && tmp == nodes[k] && tmp.next != null
        decreases |nodes| - k
      {
        tmp := tmp.next;
        k := k + 1;
      }
      Dispose(tmp.next);
      nodes := nodes[..|nodes| - 1];
      tmp.next := null;
      return true;
    }

    method InsertAfter(ref: Node, node: Node, ghost i: nat)
      requires Valid() && node !in nodes && i < |nodes| && ref == nodes[i]
      modifies this`nodes, Members(nodes), node
      ensures Valid() && nodes == Inserted(old(nodes), i + 1, node)
    {
      ghost var s := nodes;
      Link(ref, node, doubly, s, i);
      nodes := Inserted(s, i + 1, node);
    }

    /** insert_after_internal, on the chain that the reference is in. */
    static method Link(ref: Node, node: Node, doubly: bool, ghost s: seq<Node>, ghost i: nat)
      requires Chain(s, doubly) && node !in s && i < |s| && ref == s[i]
      modifies Members(s), node
      ensures Chain(Inserted(s, i + 1, node), doubly) && At(Inserted(s, i + 1, node), 0) == At(s, 0)
    {
      DistinctInsert(s, i + 1, node);
      if doubly {
        LinkBack(ref, node, s, i);
      }
      LinkOn(ref, node, s, i);
    }

    static method LinkBack(ref: Node, node: Node, ghost s: seq<Node>, ghost i: nat)
      requires Distinct(s) && Forward(s) && Backward(s) && node !in s && i < |s| && ref == s[i]
      modifies s`prev, node`prev
      ensures Backward(Inserted(s, i + 1, node))
    {
      if ref.next != null {
        ref.next.prev := node;
      }
      node.prev := ref;
    }

    static method LinkOn(ref: Node, node: Node, ghost s: seq<Node>, ghost i: nat)
      requires Distinct(s) && Forward(s) && node !in s && i < |s| && ref == s[i]
      modifies ref`next, node`next
      ensures Forward(Inserted(s, i + 1, node))
    {
      node.next := ref.next;
      ref.next := node;
    }

    /**
     * `home` is the list that the reference is in, if any: this one or another. The code
     * finds its place through the links alone, so it serves a reference in another list too,
     * except for the first node of that list.
     */
    method InsertBefore(ref: Node, node: Node, ghost home: List?, ghost i: nat) returns (ok: bool)
      requires Valid() && doubly && node !in nodes
      requires if home == null then ref !in nodes && ref.prev == null
               else home.Valid() && home.doubly && node !in home.nodes && i < |home.nodes| && ref == home.nodes[i]
      requires home != null && home != this ==> Members(nodes) !! Members(home.nodes)
      modifies this`head, this`nodes, Members(nodes), node
      modifies if home == null then {} else {home}, if home == null then {} else Members(home.nodes)
      ensures Valid() && ok == (home != null && (home == this || i > 0))
      ensures home != this ==> nodes == old(nodes)
      ensures home != null ==>
                home.Valid() && home.nodes == if ok then Inserted(old(home.nodes), i, node) else old(home.nodes)
    {
      if ref.prev == null {
        assert home != null ==> i == 0;
        if head == ref {
          assert ref in Members(nodes) && (home != null ==> ref in Members(home.nodes));
          InsertFirst(node);
          return true;
        }
        return false;
      }
      InsertInner(ref, node, home, i);
      return true;
    }

    method InsertFirst(node: Node)
      requires Valid() && node !in nodes
      modifies this`head, this`nodes, Members(nodes), node
      ensures Valid() && nodes == Inserted(old(nodes), 0, node)
    {
      PushFront(node);
      assert Inserted(old(nodes), 0, node) == [node] + old(nodes);
    }

    /** The reference has a predecessor, in this list or in another. */
    method InsertInner(ref: Node, node: Node, ghost home: List, ghost i: nat)
      requires Valid() && home.Valid() && home.doubly && node !in nodes && node !in home.nodes
      requires 0 < i < |home.nodes| && ref == home.nodes[i]
      requires home != this ==> Members(nodes) !! Members(home.nodes)
      modifies home`nodes, Members(home.nodes), node
      ensures Valid() && (home != this ==> nodes == old(nodes))
      ensures home.Valid() && home.nodes == Inserted(old(home.nodes), i, node)
    {
      ghost var s := home.nodes;
      assert ref.prev == s[i - 1];
      Link(ref.prev, node, true, s, i - 1);
      home.nodes := Inserted(s, i, node);
    }

    method Remove(node: Node) returns (ok: bool)
      requires Valid()
      modifies this`head, this`nodes, this`freed, Members(nodes)
      ensures Valid() && ok == (node in old(nodes))
      ensures forall i :: 0 <= i < |old(nodes)| && old(nodes)[i] == node ==>
                nodes == Without(old(nodes), i)
      ensures freed == old(freed) + if ok then [node] else []
      ensures !ok ==> nodes == old(nodes)
    {
      if head == null {
        return false;
      }
      if node == head {
        ok := PopFront();
        return;
      }
      var it := head;
      ghost var k := 0;
      while it.next != node && it.next != null
        invariant 0 <= k < |nodes| && it == nodes[k] && node !in nodes[..k + 1]
        decreases |nodes| - k
      {
        it := it.next;
        k := k + 1;
      }
      if it.next == null {
        return false;
      }
      Bypass(it, node, k);
      return true;
    }

    /** The relinking step of Remove: the node after `it` is taken out. */
    method Bypass(it: Node, node: Node, ghost k: nat)
      requires Valid() && k + 1 < |nodes| && it == nodes[k] && node == nodes[k + 1]
      modifies this`nodes, this`freed, Members(nodes)
      ensures Valid() && nodes == Without(old(nodes), k + 1)
      ensures freed == old(freed) + [node]
    {
      ghost var rest := Without(nodes, k + 1);
      DistinctWithout(nodes, k + 1);
      var tmp := it.next.next;
      if doubly {
        LinkBackOver(tmp, node, k);
      }
      assert it.next == node;
      LinkOver(it, tmp, k);
      assert head == At(rest, 0) && it == rest[k];
      nodes := rest;
    }

    method LinkBackOver(tmp: Node?, node: Node, ghost k: nat)
      requires Distinct(nodes) && Backward(nodes)
      requires k + 1 < |nodes| && node == nodes[k + 1] && tmp == At(nodes, k + 2)
      modifies nodes`prev
      ensures Backward(Without(nodes, k + 1))
    {
      if tmp != null {
        tmp.prev := node.prev;
      }
    }

    method LinkOver(it: Node, tmp: Node?, ghost k: nat)
      requires Distinct(nodes) && Forward(nodes)
      requires k + 1 < |nodes| && it == nodes[k] && tmp == At(nodes, k + 2)
      requires doubly ==> Backward(Without(nodes, k + 1))
      modifies this`freed, it`next, nodes[k + 1]
      ensures Forward(Without(nodes, k + 1)) && (doubly ==> Backward(Without(nodes, k + 1)))
      ensures freed == old(freed) + [nodes[k + 1]]
    {
      DistinctWithout(nodes, k + 1);
      Dispose(it.next);
      it.next := tmp;
    }

    method RemoveIf(pred: Node -> bool) returns (count: nat)
      requires Valid()
      modifies this`head, this`nodes, this`freed, Members(nodes)
      ensures Valid() && nodes == Others(old(nodes), pred)
      ensures freed == old(freed) + Matching(old(nodes), pred)
      ensures count == |Matching(old(nodes), pred)| == |old(nodes)| - |nodes|
      ensures forall n :: n in nodes ==> !pred(n)
    {
      count := FilterNodes(pred);
      FilterSplits(old(nodes), pred);
      FilterSeparates(old(nodes), pred);
    }

    method FilterNodes(pred: Node -> bool) returns (count: nat)
      requires Valid()
      modifies this`head, this`nodes, this`freed, Members(nodes)
      ensures Valid() && nodes == Others(old(nodes), pred)
      ensures freed == old(freed) + Matching(old(nodes), pred)
      ensures count == |Matching(old(nodes), pred)|
    {
      ghost var all, before := nodes, freed;
      var node := head;
      ghost var kept: seq<Node>, todo: seq<Node>, gone: seq<Node> := [], nodes, [];
      count := 0;
      while node != null
        invariant Valid() && Members(nodes) <= Members(all)
        invariant nodes == kept + todo && node == At(todo, 0) && count == |gone|
        invariant Filtering(all, kept, todo, gone, pred)
        invariant freed == before + gone
        decreases |todo|
      {
        node, count, kept, gone := FilterOne(node, pred, all, kept, todo, before, gone, count);
        todo := todo[1..];
      }
    }

    method FilterOne(node: Node, pred: Node -> bool, ghost all: seq<Node>, ghost kept: seq<Node>, ghost todo: seq<Node>,
                     ghost before: seq<Node>, ghost gone: seq<Node>, n: nat)
      returns (tmp: Node?, count: nat, ghost kept': seq<Node>, ghost gone': seq<Node>)
      requires Valid() && nodes == kept + todo && todo != [] && todo[0] == node && n == |gone|
      requires Filtering(all, kept, todo, gone, pred) && freed == before + gone
      modifies this`head, this`nodes, this`freed, Members(nodes)
      ensures Valid() && Members(nodes) <= Members(old(nodes)) && tmp == At(todo[1..], 0)
      ensures nodes == kept' + todo[1..] && count == |gone'|
      ensures Filtering(all, kept', todo[1..], gone', pred) && freed == before + gone'
    {
      FilteringStep(all, kept, todo, gone, pred);
      assert Without(nodes, |kept|) == kept + todo[1..];
      assert nodes == kept + [node] + todo[1..];
      assert nodes[|kept|] == node && At(nodes, |kept| + 1) == At(todo[1..], 0);
      var removed;
      tmp, removed := Visit(node, pred(node), |kept|);
      count, kept', gone' := n, kept + [node], gone;
      if removed {
        count, kept', gone' := count + 1, kept, gone + [node];
      }
    }

    /** One step of a walk: the successor is read before the node may be taken out. */
    method Visit(node: Node, drop: bool, ghost i: nat) returns (tmp: Node?, gone: bool)
      requires Valid() && i < |nodes| && nodes[i] == node
      modifies this`head, this`nodes, this`freed, Members(nodes)
      ensures Valid() && Members(nodes) <= Members(old(nodes)) && tmp == At(old(nodes), i + 1) && gone == drop
      ensures nodes == if drop then Without(old(nodes), i) else old(nodes)
      ensures freed == old(freed) + if drop then [node] else []
    {
      tmp := node.next;
      gone := false;
      if drop {
        gone := Remove(node);
      }
    }

    method Unique(same: (Node, Node) -> bool) returns (count: nat)
      requires Valid()
      modifies this`head, this`nodes, this`freed, Members(nodes)
      ensures Valid() && nodes == Heads(old(nodes), same)
      ensures freed == old(freed) + Repeats(old(nodes), same)
      ensures count == |Repeats(old(nodes), same)| == |old(nodes)| - |nodes|
    {
      ghost var all, before := nodes, freed;
      count := 0;
      HeadsCount(all, same);
      var ref := head;
      ghost var done: seq<Node>, todo: seq<Node>, gone: seq<Node> := [], nodes, [];
      while ref != null
        invariant Valid() && Members(nodes) <= Members(all)
        invariant nodes == done + todo && ref == At(todo, 0) && count == |gone|
        invariant Thinning(all, done, todo, gone, same)
        invariant freed == before + gone
        decreases |todo|
      {
        ghost var run, rest;
        ref, count, run, rest := KeepOne(ref, same, all, done, todo, before, gone, count);
        done, todo, gone := done + [todo[0]], rest, gone + run;
      }
    }

    method KeepOne(ref: Node, same: (Node, Node) -> bool, ghost all: seq<Node>,
                   ghost done: seq<Node>, ghost todo: seq<Node>,
                   ghost before: seq<Node>, ghost gone: seq<Node>, n: nat)
      returns (next: Node?, count: nat, ghost run: seq<Node>, ghost rest: seq<Node>)
      requires Valid() && nodes == done + todo && todo != [] && todo[0] == ref
      requires Thinning(all, done, todo, gone, same) && freed == before + gone
      modifies this`head, this`nodes, this`freed, Members(nodes)
      ensures Valid() && Members(nodes) <= Members(old(nodes))
      ensures nodes == (done + [todo[0]]) + rest && next == At(rest, 0) && |rest| < |todo|
      ensures Thinning(all, done + [todo[0]], rest, gone + run, same)
      ensures count == n + |run| && freed == before + (gone + run)
    {
      ThinningStep(all, done, todo, gone, same);
      run, rest := Run(todo, same), PastRun(todo, same);
      count := DropRun(ref, same, done, todo, n);
      next := Next(ref, done, rest);
    }

    method Next(node: Node, ghost front: seq<Node>, ghost rest: seq<Node>) returns (next: Node?)
      requires Valid() && nodes == front + [node] + rest
      ensures next == At(rest, 0)
    {
      assert nodes[|front|] == node;
      next := node.next;
    }

    /** The inner loop of Unique: the run matched with `ref` is taken out after it. */
    method DropRun(ref: Node, same: (Node, Node) -> bool,
                   ghost done: seq<Node>, ghost todo: seq<Node>, n: nat) returns (count: nat)
      requires Valid() && nodes == done + todo && todo != [] && todo[0] == ref
      modifies this`head, this`nodes, this`freed, Members(nodes)
      ensures Valid() && Members(nodes) <= Members(old(nodes)) && nodes == done + [ref] + PastRun(todo, same)
      ensures count == n + |Run(todo, same)| && freed == old(freed) + Run(todo, same)
    {
      count := n;
      ghost var run, rest, before := 0, todo[1..], freed;
      var node := Next(ref, done, rest);
      while node != null && same(ref, node)
        invariant Valid() && Members(nodes) <= Members(old(nodes))
        invariant nodes == done + [ref] + rest && node == At(rest, 0) && count == n + run
        invariant Running(todo, run, rest, same)
        invariant freed == before + todo[1..1 + run]
        decreases |rest|
      {
        RunningStep(todo, run, rest, same);
        node, count := DropOne(node, count, done + [ref], rest);
        run, rest := run + 1, rest[1..];
      }
    }

    method DropOne(node: Node, n: nat, ghost front: seq<Node>, ghost rest: seq<Node>)
      returns (tmp: Node?, count: nat)
      requires Valid() && nodes == front + rest && rest != [] && rest[0] == node
      modifies this`head, this`nodes, this`freed, Members(nodes)
      ensures Valid() && Members(nodes) <= Members(old(nodes))
      ensures nodes == front + rest[1..] && tmp == At(rest[1..], 0) && count == n + 1
      ensures freed == old(freed) + [node]
    {
      assert nodes[|front|] == node;
      assert Without(nodes, |front|) == front + rest[1..];
      var gone;
      tmp, gone := Visit(node, true, |front|);
      count := n;
      if gone {
        count := count + 1;
      }
    }

    method Reverse()
      requires Valid()
      modifies this`head, this`nodes, Members(nodes)
      ensures Valid() && nodes == Reversed(old(nodes))
    {
      var node := head;
      var prev: Node? := null;
      ghost var k, s := 0, nodes;
      while node != null
        invariant 0 <= k <= |s| && s == nodes == old(nodes)
        invariant node == At(s, k) && prev == At(s, k - 1)
        invariant head == if k == 0 then At(s, 0) else s[k - 1]
        invariant NextTurned(s, k) && (doubly ==> PrevTurned(s, k))
        decreases |s| - k
      {
        var next := Turn(node, prev, s, k);
        head := node;
        prev := node;
        node := next;
        k := k + 1;
      }
      nodes := Reversed(s);
      DistinctReversed(s);
    }

    method Turn(node: Node, prev: Node?, ghost s: seq<Node>, ghost k: nat) returns (next: Node?)
      requires Distinct(s) && k < |s| && node == s[k] && prev == At(s, k - 1)
      requires NextTurned(s, k) && (doubly ==> PrevTurned(s, k))
      modifies node
      ensures next == At(s, k + 1) && NextTurned(s, k + 1) && (doubly ==> PrevTurned(s, k + 1))
    {
      next := node.next;
      node.next := prev;
      if doubly {
        node.prev := next;
      }
    }

    method Clear()
      requires Valid()
      modifies this`head, this`nodes, this`freed, Members(nodes)
      ensures Valid() && nodes == []
      ensures freed == old(freed) + old(nodes)
    {
      var tmp := head;
      ghost var k := 0;
      while tmp != null
        invariant 0 <= k <= |nodes| && nodes == old(nodes) && tmp == At(nodes, k)
        invariant forall i {:trigger nodes[i].next} :: k <= i < |nodes| ==> nodes[i].next == At(nodes, i + 1)
        invariant freed == old(freed) + nodes[..k]
        decreases |nodes| - k
      {
        var next := tmp.next;
        Dispose(tmp);
        tmp := next;
        k := k + 1;
      }
      head := null;
      assert nodes[..k] == nodes;
      nodes := [];
    }

    /**
     * Bubble sort, for exactly the comparators and lists on which its passes end. For a
     * transitive comparator that is when any two different nodes are accepted one way round
     * (Orderings.TerminatesIffComparable).
     */
    method Sort(cmp: (Node, Node) -> bool)
      requires Valid() && Terminates(nodes, cmp)
      modifies this`head, this`nodes, Members(nodes)
      ensures Valid() && multiset(nodes) == multiset(old(nodes))
      ensures NeighboursOrdered(nodes, cmp)
      ensures Transitive(old(nodes), cmp) ==>
                nodes == StableSort(old(nodes), cmp) && Ordered(nodes, cmp)
    {
      ghost var all := nodes;
      ghost var left: nat :| NeighboursOrdered(Passes(nodes, left, cmp), cmp);
      if Transitive(all, cmp) { TerminatesIffComparable(all, cmp); }
      var sorted := false;
      while !sorted
        invariant Valid() && SortStep(all, nodes, cmp)
        invariant if sorted then NeighboursOrdered(nodes, cmp) else NeighboursOrdered(Passes(nodes, left, cmp), cmp)
        decreases left, !sorted
      {
        SameMembers(nodes, all);
        SortStepPass(all, nodes, 0, cmp);
        sorted := Pass(cmp);
        if !sorted { left := left - 1; }
      }
      if Transitive(all, cmp) {
        OrderedIsSorted(nodes, cmp);
        TransitiveAmong(nodes, all, cmp);
        OrderedWhenNeighboursAre(nodes, cmp);
      }
    }

    /** One pass of the sort; `before` and `here` stand for the slot that the pass looks at. */
    method Pass(cmp: (Node, Node) -> bool) returns (sorted: bool)
      requires Valid()
      modifies this`head, this`nodes, Members(nodes)
      ensures Valid() && nodes == PassFrom(old(nodes), 0, cmp)
      ensures sorted <==> NeighboursOrdered(old(nodes), cmp)
      ensures sorted ==> nodes == old(nodes)
    {
      sorted := true;
      var before: Node? := null;
      var here := head;
      ghost var k, s := 0, nodes;
      while here != null && here.next != null
        invariant Valid() && Members(nodes) <= Members(s)
        invariant 0 <= k <= |nodes| && here == At(nodes, k) && before == At(nodes, k - 1)
        invariant k == |nodes| ==> k == 0
        invariant Passing(s, nodes, k, sorted, cmp)
        decreases |nodes| - k
      {
        before, here, sorted := PassOne(before, here, sorted, cmp, s, k);
        k := k + 1;
      }
      PassingDone(s, nodes, k, sorted, cmp);
    }

    /** One round of the pass. */
    method PassOne(before: Node?, here: Node, sorted: bool, cmp: (Node, Node) -> bool, ghost s: seq<Node>, ghost k: nat)
      returns (before': Node?, here': Node?, sorted': bool)
      requires Valid() && k + 1 < |nodes| && here == nodes[k] && before == At(nodes, k - 1)
      requires Passing(s, nodes, k, sorted, cmp)
      modifies this`head, this`nodes, Members(nodes)
      ensures Valid() && Members(nodes) <= Members(old(nodes)) && k + 1 < |nodes|
      ensures before' == nodes[k] && here' == nodes[k + 1] && Passing(s, nodes, k + 1, sorted', cmp)
    {
      PassingStep(s, nodes, k, sorted, cmp);
      sorted' := sorted;
      var turned;
      before', here', turned := Compare(before, here, cmp, k);
      if turned {
        sorted' := false;
      }
    }

    /** One comparison of the pass, moving on to the next slot. */
    method Compare(before: Node?, here: Node, cmp: (Node, Node) -> bool, ghost k: nat)
      returns (before': Node?, here': Node?, turned: bool)
      requires Valid() && k + 1 < |nodes| && here == nodes[k] && before == At(nodes, k - 1)
      modifies this`head, this`nodes, Members(nodes)
      ensures Valid() && Members(nodes) <= Members(old(nodes)) && turned == !cmp(old(nodes)[k], old(nodes)[k + 1])
      ensures nodes == if turned then Exchanged(old(nodes), k) else old(nodes)
      ensures before' == nodes[k] && here' == nodes[k + 1]
    {
      before' := here;
      var b := here.next;
      turned := !cmp(here, b);
      if turned {
        Exchange(before, here, b, k);
        before' := b;
      }
      here' := before'.next;
    }

    method Exchange(before: Node?, a: Node, b: Node, ghost k: nat)
      requires Valid() && k + 1 < |nodes| && a == nodes[k] && b == nodes[k + 1]
      requires before == At(nodes, k - 1)
      modifies this`head, this`nodes, Members(nodes)
      ensures Valid() && nodes == Exchanged(old(nodes), k) && Members(nodes) <= Members(old(nodes))
    {
      ghost var swapped := Exchanged(nodes, k);
      DistinctExchanged(nodes, k);
      ExchangedWithin(nodes, k);
      ExchangeOn(before, a, b, k);
      if doubly {
        ExchangeBack(a, b, k);
      }
      nodes := swapped;
    }

    /** The next half of an exchange: the slot in front and the two nodes. */
    method ExchangeOn(before: Node?, a: Node, b: Node, ghost k: nat)
      requires Distinct(nodes) && Forward(nodes) && head == At(nodes, 0)
      requires k + 1 < |nodes| && a == nodes[k] && b == nodes[k + 1] && before == At(nodes, k - 1)
      modifies this`head, nodes`next
      ensures Forward(Exchanged(nodes, k)) && head == At(Exchanged(nodes, k), 0) && a.next == At(nodes, k + 2)
    {
      if before == null {
        head := b;
      } else {
        before.next := b;
      }
      a.next := b.next;
      b.next := a;
    }

    /** The prev half of an exchange, done after the next pointers have been turned. */
    method ExchangeBack(a: Node, b: Node, ghost k: nat)
      requires Distinct(nodes) && Backward(nodes)
      requires k + 1 < |nodes| && a == nodes[k] && b == nodes[k + 1] && a.next == At(nodes, k + 2)
      modifies nodes`prev
      ensures Backward(Exchanged(nodes, k))
    {
      b.prev := a.prev;
      a.prev := b;
      if a.next != null {
        a.next.prev := a;
      }
    }
  }

  /** The first k next pointers have been turned round. */
  ghost predicate NextTurned(s: seq<Node>, k: nat)
    reads s`next
  {
    forall i {:trigger s[i].next} :: 0 <= i < |s| ==> s[i].next == At(s, if i < k then i - 1 else i + 1)
  }

  ghost predicate PrevTurned(s: seq<Node>, k: nat)
    reads s`prev
  {
    forall i {:trigger s[i].prev} :: 0 <= i < |s| && i < k ==> s[i].prev == At(s, i + 1)
  }

  lemma DistinctReversed(s: seq<Node>)
    requires Distinct(s)
    ensures Distinct(Reversed(s))
  {
  }

  ghost predicate OrderedUpTo(s: seq<Node>, k: nat, cmp: (Node, Node) -> bool) {
    forall i :: i < k ==> InOrder(s, i, cmp)
  }

  /** A pass over `s0` has reached position k of what is now `s`. */
  ghost predicate Passing(s0: seq<Node>, s: seq<Node>, k: nat, sorted: bool, cmp: (Node, Node) -> bool) {
    && |s| == |s0| && PassFrom(s0, 0, cmp) == PassFrom(s, k, cmp)
    && if sorted then s == s0 && OrderedUpTo(s, k, cmp) else !NeighboursOrdered(s0, cmp)
  }

  lemma PassingStep(s0: seq<Node>, s: seq<Node>, k: nat, sorted: bool, cmp: (Node, Node) -> bool)
    requires Passing(s0, s, k, sorted, cmp) && k + 1 < |s|
    ensures if cmp(s[k], s[k + 1]) then Passing(s0, s, k + 1, sorted, cmp)
            else Passing(s0, Exchanged(s, k), k + 1, false, cmp)
  {
    assert sorted ==> (cmp(s[k], s[k + 1]) <==> InOrder(s0, k, cmp));
  }

  lemma PassingDone(s0: seq<Node>, s: seq<Node>, k: nat, sorted: bool, cmp: (Node, Node) -> bool)
    requires Passing(s0, s, k, sorted, cmp) && k + 1 >= |s|
    ensures s == PassFrom(s0, 0, cmp) && (sorted <==> NeighboursOrdered(s0, cmp)) && (sorted ==> s == s0)
  {
    if sorted {
      forall i ensures InOrder(s, i, cmp) {
        assert i < k ==> InOrder(s, i, cmp);
      }
    }
  }

  /** RemoveIf has kept `kept` and taken out `gone`, and has `todo` left to look at. */
  ghost predicate Filtering(all: seq<Node>, kept: seq<Node>, todo: seq<Node>, gone: seq<Node>, pred: Node -> bool) {
    Others(all, pred) == kept + Others(todo, pred) && Matching(all, pred) == gone + Matching(todo, pred)
  }

  lemma FilteringStep(all: seq<Node>, kept: seq<Node>, todo: seq<Node>, gone: seq<Node>, pred: Node -> bool)
    requires Filtering(all, kept, todo, gone, pred) && todo != []
    ensures if pred(todo[0]) then Filtering(all, kept, todo[1..], gone + [todo[0]], pred)
            else Filtering(all, kept + [todo[0]], todo[1..], gone, pred)
  {
  }

  /** Unique has kept `done` and taken out `gone`, and has `todo` left to look at. */
  ghost predicate Thinning(all: seq<Node>, done: seq<Node>, todo: seq<Node>, gone: seq<Node>, same: (Node, Node) -> bool) {
    Heads(all, same) == done + Heads(todo, same) && Repeats(all, same) == gone + Repeats(todo, same)
  }

  lemma ThinningStep(all: seq<Node>, done: seq<Node>, todo: seq<Node>, gone: seq<Node>, same: (Node, Node) -> bool)
    requires Thinning(all, done, todo, gone, same) && todo != []
    ensures Thinning(all, done + [todo[0]], PastRun(todo, same),
                     gone + Run(todo, same), same)
  {
  }

  /** The inner loop of Unique has taken out `run` nodes after the first of `todo`. */
  ghost predicate Running(todo: seq<Node>, run: nat, rest: seq<Node>, same: (Node, Node) -> bool) {
    run < |todo| && rest == todo[1 + run..] &&
    RunLength(todo[0], todo[1..], same) == run + RunLength(todo[0], rest, same)
  }

  lemma RunningStep(todo: seq<Node>, run: nat, rest: seq<Node>, same: (Node, Node) -> bool)
    requires Running(todo, run, rest, same) && rest != [] && same(todo[0], rest[0])
    ensures Running(todo, run + 1, rest[1..], same)
    ensures todo[1..1 + (run + 1)] == todo[1..1 + run] + [rest[0]]
  {
  }

  lemma ExchangedWithin(s: seq<Node>, k: nat)
    requires k + 1 < |s|
    ensures Members(Exchanged(s, k)) == Members(s)
  {
    ExchangedMembers(s, k);
    SameMembers(s, Exchanged(s, k));
    assert forall n :: n in Exchanged(s, k) ==> n in s;
    assert forall n :: n in s ==> n in Exchanged(s, k);
  }

  /** What every exchange of the sort keeps, seen from the list it began with. */
  ghost predicate SortStep(all: seq<Node>, s: seq<Node>, cmp: (Node, Node) -> bool) {
    Distinct(s) && multiset(s) == multiset(all) &&
    (Transitive(all, cmp) ==> Comparable(s, cmp) && StableSort(s, cmp) == StableSort(all, cmp))
  }

  lemma TransitiveAmong(s: seq<Node>, all: seq<Node>, cmp: (Node, Node) -> bool)
    requires multiset(s) == multiset(all) && Transitive(all, cmp)
    ensures Transitive(s, cmp)
  {
    SameMembers(s, all);
  }

  lemma SortStepExchange(all: seq<Node>, s: seq<Node>, k: nat, cmp: (Node, Node) -> bool)
    requires SortStep(all, s, cmp) && k + 1 < |s| && !cmp(s[k], s[k + 1])
    ensures SortStep(all, Exchanged(s, k), cmp)
  {
    assert s[k] in s && s[k + 1] in s && s[k] != s[k + 1];
    ExchangedMembers(s, k);
    DistinctExchanged(s, k);
    if Transitive(all, cmp) {
      ComparableExchanged(s, k, cmp);
      SameMembers(s, all);
      ExchangeKeepsSorted(s, k, all, cmp);
    }
  }

  lemma {:induction false} SortStepPass(all: seq<Node>, s: seq<Node>, k: nat, cmp: (Node, Node) -> bool)
    requires SortStep(all, s, cmp)
    ensures SortStep(all, PassFrom(s, k, cmp), cmp)
    decreases |s| - k
  {
    if k + 1 < |s| {
      if cmp(s[k], s[k + 1]) {
        SortStepPass(all, s, k + 1, cmp);
      } else {
        SortStepExchange(all, s, k, cmp);
        SortStepPass(all, Exchanged(s, k), k + 1, cmp);
      }
    }
  }
}
