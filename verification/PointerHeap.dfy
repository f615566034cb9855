/**
 The pointer-based complete max-heap. The ghost sequence `slots` lists the nodes in level
 order; the tree is complete because slot k's child pointers are exactly slots 2k and 2k+1.
 Insertion walks the path spelled by the bits of the new size and relinks nodes along it.
 */
module PointerHeap {
  import opened Sequences
  import opened HeapOrder
  import opened Shifts

  class Node {
    var left: Node?
    var right: Node?
    const value: int

    constructor (value: int)
      ensures this.value == value
    {
      this.value := value;
      left, right := null, null;
    }
  }

  /** The node in slot `k`, or null outside the tree. */
  ghost function NodeAt(slots: seq<Node>, k: nat): Node? {
    if 1 <= k <= |slots| then slots[k - 1] else null
  }

  /** Every node except the one in slot `but` has exactly its children in level order. */
  ghost predicate LinkedBut(slots: seq<Node>, but: nat)
    reads slots
  {
    forall k :: 1 <= k <= |slots| && k != but ==>
      Slot(slots, k).left == NodeAt(slots, 2 * k) && Slot(slots, k).right == NodeAt(slots, 2 * k + 1)
  }

  ghost function Values(slots: seq<Node>): (r: seq<int>)
    ensures |r| == |slots|
    ensures forall k :: 1 <= k <= |slots| ==> Slot(r, k) == Slot(slots, k).value
  {
    seq(|slots|, i requires 0 <= i < |slots| => slots[i].value)
  }

  /** `slots` with `node` in slot `e`, which may be the first slot behind the end. */
  ghost function Placed(slots: seq<Node>, e: nat, node: Node): seq<Node>
    requires 1 <= e <= |slots| + 1
  {
    if e <= |slots| then Put(slots, e, node) else slots + [node]
  }

  /** Whether the bit of `path` that the one-bit `mask` selects is set. */
  function BitSet(path: nat, mask: nat): bool
    requires mask > 0
  {
    path / mask % 2 == 1
  }

  /** The largest power of two not above `n`. */
  function TopBit(n: nat): (m: nat)
    requires n > 0
    ensures m == Pow2(Depth(n)) && 1 <= m <= n
  {
    if n == 1 then 1 else 2 * TopBit(n / 2)
  }

  /** Following one more bit of the path leads to the left or the right child. */
  lemma NextOnPath(q: nat, d: nat)
    requires d > 0
    ensures BitSet(q, Pow2(d - 1)) <==> ShiftRight(q, d - 1) == 2 * ShiftRight(q, d) + 1
    ensures !BitSet(q, Pow2(d - 1)) <==> ShiftRight(q, d - 1) == 2 * ShiftRight(q, d)
  {
    ShiftRightIsQuotient(q, d - 1);
  }

  /** Moves the mask to the next lower bit and reads that bit of the path. */
  method NextBit(path: nat, mask: nat, ghost d: nat) returns (half: nat, goRight: bool)
    requires d > 0 && mask == Pow2(d)
    ensures half == Pow2(d - 1)
    ensures ShiftRight(path, d - 1) == if goRight then 2 * ShiftRight(path, d) + 1 else 2 * ShiftRight(path, d)
  {
    half := mask / 2;
    goRight := BitSet(path, half);
    NextOnPath(path, d);
  }

  /** A node just outside the tree still points to the children of slot `e`. */
  ghost predicate PointsBelow(node: Node, slots: seq<Node>, e: nat)
    reads node
  {
    node !in slots && node.left == NodeAt(slots, 2 * e) && node.right == NodeAt(slots, 2 * e + 1)
  }

  /** One turn of merge_on_path: `edge` takes over the outsider's place above slot `down`. */
  method MergeStep(outsider: Node, edge: Node, goRight: bool, ghost slots: seq<Node>, ghost e: nat)
    returns (next: Node?, ghost slots': seq<Node>)
    requires 1 <= e <= |slots| && edge == Slot(slots, e) && Distinct(slots) && LinkedBut(slots, e)
    requires PointsBelow(outsider, slots, e)
    requires (if goRight then 2 * e + 1 else 2 * e) <= |slots| + 1
    modifies edge
    ensures var down := if goRight then 2 * e + 1 else 2 * e;
      && slots' == Placed(slots, down, outsider) && next == NodeAt(slots, down)
      && Distinct(slots') && LinkedBut(slots', down)
      && (next != null ==> PointsBelow(next, slots', down))
  {
    ghost var down := if goRight then 2 * e + 1 else 2 * e;
    if goRight {
      edge.left := outsider.left;
      edge.right := outsider;
      next := outsider.right;
    } else {
      edge.right := outsider.right;
      edge.left := outsider;
      next := outsider.left;
    }
    slots' := Placed(slots, down, outsider);
    assert edge in slots;
    PlacedDistinct(slots, down, outsider);
    forall k | 1 <= k <= |slots'| && k != down
      ensures Slot(slots', k).left == NodeAt(slots', 2 * k) && Slot(slots', k).right == NodeAt(slots', 2 * k + 1)
    {
      assert Slot(slots', k) == Slot(slots, k);
      if k != e {
        assert Slot(slots, k) != edge;
      }
    }
    if next != null {
      assert next == Slot(slots, down) && next != edge;
    }
  }

  /** Shifting from level `d` places the element there and shifts the displaced one on from below. */
  lemma ShiftPlaced(slots: seq<Node>, node: Node, d: nat)
    requires d <= Depth(|slots| + 1)
    ensures var e := ShiftRight(|slots| + 1, d);
      && 1 <= e <= |slots| + 1 && (e == |slots| + 1 <==> d == 0)
      && Shift(slots, node, d) ==
           if d == 0 then Placed(slots, e, node) else Shift(Placed(slots, e, node), Slot(slots, e), d - 1)
  {
    AboveBounds(|slots| + 1, d);
  }

  lemma PlacedDistinct(slots: seq<Node>, e: nat, node: Node)
    requires Distinct(slots) && node !in slots && 1 <= e <= |slots| + 1
    ensures Distinct(Placed(slots, e, node))
    ensures NodeAt(slots, e) != null ==> NodeAt(slots, e) !in Placed(slots, e, node)
  {
  }

  /**
   Where merge_on_path stands at level `d`: `edge` sits in its slot with its own links still to
   be written, everything else is linked, and the node it displaced is outside.
   */
  ghost predicate Merging(outsider: Node?, edge: Node, path: nat, mask: nat, slots: seq<Node>, d: nat)
    reads slots, outsider
  {
    var e := ShiftRight(path, d);
    && 0 < path && d <= Depth(path) && mask == Pow2(d)
    && 1 <= e <= |slots| == (if d == 0 then path else path - 1)
    && NodeAt(slots, e) == edge && Distinct(slots) && LinkedBut(slots, e)
    && (outsider == null <==> d == 0)
    && (outsider != null ==> PointsBelow(outsider, slots, e))
  }

  /** The pointer writes of one turn of the loop of merge_on_path. */
  method MoveDown(outsider: Node, edge: Node, path: nat, mask: nat, ghost slots: seq<Node>, ghost d: nat)
    returns (next: Node?, half: nat, ghost slots': seq<Node>)
    requires d > 0 && Merging(outsider, edge, path, mask, slots, d)
    modifies edge
    ensures Merging(next, outsider, path, half, slots', d - 1)
    ensures 1 <= ShiftRight(path, d - 1) <= path
    ensures slots' == Placed(slots, ShiftRight(path, d - 1), outsider) && next == NodeAt(slots, ShiftRight(path, d - 1))
  {
    ghost var e, down := ShiftRight(path, d), ShiftRight(path, d - 1);
    LevelBounds(path, d - 1);
    var goRight;
    half, goRight := NextBit(path, mask, d);
    next, slots' := MergeStep(outsider, edge, goRight, slots, e);
  }

  /** What the level order will be once the outsider has been pushed down from below level `d`. */
  ghost function Settled(slots: seq<Node>, outsider: Node?, d: nat): seq<Node>
    requires d > 0 ==> outsider != null && d - 1 <= Depth(|slots| + 1)
  {
    if d == 0 then slots else Shift<Node>(slots, outsider, d - 1)
  }

  /** A turn of the loop does not change where everything will settle. */
  lemma TurnSettles(slots: seq<Node>, outsider: Node, path: nat, d: nat)
    requires path == |slots| + 1 && 0 < d <= Depth(path)
    ensures var e := ShiftRight(path, d - 1);
      && 1 <= e <= path && (d > 1 ==> e < path)
      && Settled(slots, outsider, d) == Settled(Placed(slots, e, outsider), NodeAt(slots, e), d - 1)
  {
    ShiftPlaced(slots, outsider, d - 1);
  }

  /** One turn of the loop of merge_on_path. */
  method MergeTurn(outsider: Node, edge: Node, path: nat, mask: nat, ghost slots: seq<Node>, ghost d: nat,
                   ghost nodes: set<Node>) returns (next: Node?, half: nat, ghost slots': seq<Node>)
    requires d > 0 && Merging(outsider, edge, path, mask, slots, d) && InSet(slots, nodes) && outsider in nodes
    modifies edge
    ensures Merging(next, outsider, path, half, slots', d - 1)
    ensures Settled(slots', next, d - 1) == Settled(slots, outsider, d)
    ensures InSet(slots', nodes) && (next != null ==> next in nodes)
  {
    TurnSettles(slots, outsider, path, d);
    next, half, slots' := MoveDown(outsider, edge, path, mask, slots, d);
  }

  lemma LevelBounds(path: nat, d: nat)
    requires 0 < path && d <= Depth(path)
    ensures 1 <= ShiftRight(path, d) <= path && (ShiftRight(path, d) == path <==> d == 0)
  {
    AboveBounds(path, d);
  }

  /**
   The loop of merge_on_path: pushes the outsiders down the rest of the path. The mask is never
   zero when it is tested: it still has one bit for every level below the edge.
   */
  method PushDown(first: Node?, start: Node, path: nat, bit: nat, ghost before: seq<Node>, ghost d0: nat,
                  ghost nodes: set<Node>) returns (edge: Node, ghost slots: seq<Node>)
    requires path == |before| + 1 && d0 <= Depth(path) && 1 <= ShiftRight(path, d0) <= path
    requires first == NodeAt(before, ShiftRight(path, d0)) && start in nodes && InSet(before, nodes)
    requires Merging(first, start, path, bit, Placed(before, ShiftRight(path, d0), start), d0)
    modifies nodes
    ensures slots == Shift(before, start, d0) && Merging(null, edge, path, 1, slots, 0) && edge in nodes
  {
    ghost var placed := Placed(before, ShiftRight(path, d0), start);
    PlacedSettles(before, first, start, path, d0, nodes);
    edge, slots := PushLoop(first, start, path, bit, placed, d0, nodes, Shift(before, start, d0));
  }

  lemma PlacedSettles(before: seq<Node>, first: Node?, start: Node, path: nat, d: nat, nodes: set<Node>)
    requires path == |before| + 1 && d <= Depth(path) && 1 <= ShiftRight(path, d) <= path
    requires first == NodeAt(before, ShiftRight(path, d)) && start in nodes && InSet(before, nodes)
    requires d > 0 ==> first != null && d - 1 <= Depth(|Placed(before, ShiftRight(path, d), start)| + 1)
    ensures Settled(Placed(before, ShiftRight(path, d), start), first, d) == Shift(before, start, d)
    ensures InSet(Placed(before, ShiftRight(path, d), start), nodes) && (first != null ==> first in nodes)
  {
    ShiftPlaced(before, start, d);
  }

  method PushLoop(first: Node?, start: Node, path: nat, bit: nat, ghost placed: seq<Node>, ghost d0: nat,
                  ghost nodes: set<Node>, ghost target: seq<Node>) returns (edge: Node, ghost slots: seq<Node>)
    requires Merging(first, start, path, bit, placed, d0) && target == Settled(placed, first, d0)
    requires InSet(placed, nodes) && start in nodes && (first != null ==> first in nodes)
    modifies nodes
    ensures slots == target && Merging(null, edge, path, 1, slots, 0) && edge in nodes
  {
    var outsider, mask := first, bit;
    edge, slots := start, placed;
    ghost var d: nat := d0;
    while outsider != null
      invariant d <= d0 && Merging(outsider, edge, path, mask, slots, d)
      invariant target == Settled(slots, outsider, d)
      invariant InSet(slots, nodes) && edge in nodes && (outsider != null ==> outsider in nodes)
      decreases d
    {
      var moved: Node := outsider;
      outsider, mask, slots := MergeTurn(moved, edge, path, mask, slots, d, nodes);
      edge, d := moved, d - 1;
    }
  }

  /** merge_on_path: the loop, then the new last node gets no children. */
  method MergeOnPath(first: Node?, start: Node, path: nat, bit: nat, ghost before: seq<Node>, ghost d0: nat,
                     ghost nodes: set<Node>) returns (ghost slots: seq<Node>)
    requires path == |before| + 1 && d0 <= Depth(path) && 1 <= ShiftRight(path, d0) <= path
    requires first == NodeAt(before, ShiftRight(path, d0)) && start in nodes && InSet(before, nodes)
    requires Merging(first, start, path, bit, Placed(before, ShiftRight(path, d0), start), d0)
    modifies nodes
    ensures slots == Shift(before, start, d0) && Distinct(slots) && LinkedBut(slots, 0)
  {
    var edge;
    edge, slots := PushDown(first, start, path, bit, before, d0, nodes);
    CloseLeaf(edge, slots);
  }

  ghost predicate InSet(slots: seq<Node>, nodes: set<Node>) {
    forall i :: 0 <= i < |slots| ==> slots[i] in nodes
  }

  /** Once the last slot's node has no children, nothing is left to link. */
  method CloseLeaf(edge: Node, ghost slots: seq<Node>)
    requires slots != [] && Slot(slots, |slots|) == edge && Distinct(slots) && LinkedBut(slots, |slots|)
    modifies edge
    ensures LinkedBut(slots, 0)
  {
    edge.left := null;
    edge.right := null;
    forall k | 1 <= k < |slots|
      ensures Slot(slots, k) != edge
    {
      assert slots[k - 1] != slots[|slots| - 1];
    }
  }

  /** set_child: hangs `node` below `parent`, where slot `e` is. */
  method SetChild(parent: Node, goRight: bool, node: Node, ghost slots: seq<Node>, ghost p: nat)
    requires 1 <= p <= |slots| && parent == Slot(slots, p) && Distinct(slots) && LinkedBut(slots, 0) && node !in slots
    requires (if goRight then 2 * p + 1 else 2 * p) <= |slots| + 1
    modifies parent
    ensures var e := if goRight then 2 * p + 1 else 2 * p;
      && Distinct(Placed(slots, e, node)) && LinkedBut(Placed(slots, e, node), e)
      && (e <= |slots| ==> PointsBelow(Slot(slots, e), Placed(slots, e, node), e))
  {
    ghost var e := if goRight then 2 * p + 1 else 2 * p;
    if goRight {
      parent.right := node;
    } else {
      parent.left := node;
    }
    PlacedDistinct(slots, e, node);
    ghost var placed := Placed(slots, e, node);
    forall k | 1 <= k <= |placed| && k != e
      ensures Slot(placed, k).left == NodeAt(placed, 2 * k) && Slot(placed, k).right == NodeAt(placed, 2 * k + 1)
    {
      assert Slot(placed, k) == Slot(slots, k);
      assert k != p ==> Slot(slots, k) != parent;
    }
    if e <= |slots| {
      assert Slot(slots, e) != parent && NodeAt(slots, e) !in placed;
    }
  }

  /** The bit under the mask: which child of the level above the path goes through. */
  method LastTurn(path: nat, mask: nat, ghost d: nat) returns (goRight: bool)
    requires mask == Pow2(d)
    ensures ShiftRight(path, d) == if goRight then 2 * ShiftRight(path, d + 1) + 1 else 2 * ShiftRight(path, d + 1)
  {
    goRight := BitSet(path, mask);
    NextOnPath(path, d + 1);
  }

  /** set_child on the parent found by the walk. */
  method AttachBelow(parent: Node, goRight: bool, node: Node, ghost slots: seq<Node>, ghost path: nat, ghost mask: nat,
                     ghost d: nat)
    requires Distinct(slots) && LinkedBut(slots, 0) && node !in slots
    requires path == |slots| + 1 && d < Depth(path) && mask == Pow2(d)
    requires parent == NodeAt(slots, ShiftRight(path, d + 1))
    requires ShiftRight(path, d) == if goRight then 2 * ShiftRight(path, d + 1) + 1 else 2 * ShiftRight(path, d + 1)
    modifies parent
    ensures 1 < ShiftRight(path, d) <= path
    ensures Merging(NodeAt(slots, ShiftRight(path, d)), node, path, mask, Placed(slots, ShiftRight(path, d), node), d)
  {
    LevelBounds(path, d);
    LevelBounds(path, d + 1);
    SetChild(parent, goRight, node, slots, ShiftRight(path, d + 1));
  }

  class Heap {
    var nNodes: nat
    var root: Node?
    const less: Less
    ghost var slots: seq<Node>

    /** The nodes form a complete tree. */
    ghost predicate Tree()
      reads this, slots
    {
      && root == NodeAt(slots, 1)
      && Distinct(slots) && LinkedBut(slots, 0)
    }

    ghost predicate Valid()
      reads this, slots
    {
      nNodes == |slots| && Tree() && StrictWeak(less) && Ordered(less, Values(slots))
    }

    /** heap_init */
    constructor (less: Less)
      requires StrictWeak(less)
      ensures Valid() && slots == [] && this.less == less
    {
      nNodes, root, slots := 0, null, [];
      this.less := less;
    }

    /** get_child along the path: one level down from the node at level `d`. */
    method Descend(current: Node, path: nat, mask: nat, ghost d: nat) returns (child: Node?, half: nat)
      requires Tree() && path == |slots| + 1 && 0 < d <= Depth(path) && mask == Pow2(d)
      requires current == NodeAt(slots, ShiftRight(path, d))
      ensures half == Pow2(d - 1) && 1 <= ShiftRight(path, d - 1) <= path
      ensures child == NodeAt(slots, ShiftRight(path, d - 1))
      ensures current == ParentAt(slots, path, d - 1)
    {
      LevelBounds(path, d);
      LevelBounds(path, d - 1);
      assert current == Slot(slots, ShiftRight(path, d));
      var goRight;
      half, goRight := NextBit(path, mask, d);
      child := if goRight then current.right else current.left;
    }

    /** The walk of insert_on_path: down the path while the new value is less. */
    method WalkDown(value: int, path: nat) returns (parent: Node?, current: Node?, mask: nat, ghost d: nat)
      requires Tree() && path == |slots| + 1
      ensures d == StopLevel(less, Values(slots), value, Depth(path)) && mask == Pow2(d)
      ensures 1 <= ShiftRight(path, d) <= path && current == NodeAt(slots, ShiftRight(path, d))
      ensures parent == ParentAt(slots, path, d)
    {
      mask := TopBit(path);
      d := Depth(path);
      AboveDepth(path);
      parent, current := null, root;
      ghost var stop := StopLevel(less, Values(slots), value, d);
      WalkStep(less, slots, value, d);
      while current != null && less(value, current.value)
        invariant d <= Depth(path) && mask == Pow2(d)
        invariant current == NodeAt(slots, ShiftRight(path, d)) && parent == ParentAt(slots, path, d)
        invariant Walks(less, slots, value, d, stop)
        decreases d
      {
        parent := current;
        current, mask := WalkTurn(current, path, mask, value, d, stop);
        d := d - 1;
      }
    }

    method WalkTurn(current: Node, path: nat, mask: nat, ghost value: int, ghost d: nat, ghost stop: nat)
      returns (child: Node?, half: nat)
      requires Tree() && path == |slots| + 1 && 0 < d <= Depth(path) && mask == Pow2(d)
      requires current == NodeAt(slots, ShiftRight(path, d)) && less(value, current.value)
      requires Walks(less, slots, value, d, stop)
      ensures half == Pow2(d - 1) && child == NodeAt(slots, ShiftRight(path, d - 1))
      ensures current == ParentAt(slots, path, d - 1) && Walks(less, slots, value, d - 1, stop)
    {
      child, half := Descend(current, path, mask, d);
      WalkStep(less, slots, value, d - 1);
    }

    /** Links the new node into the place found by the walk. */
    method Attach(node: Node, parent: Node?, path: nat, mask: nat, ghost d: nat)
      requires Tree() && path == |slots| + 1 && node !in slots && d <= Depth(path) && mask == Pow2(d)
      requires parent == ParentAt(slots, path, d)
      modifies this`root, slots
      ensures 1 <= ShiftRight(path, d) <= path
      ensures var placed := Placed(slots, ShiftRight(path, d), node);
        && root == NodeAt(placed, 1)
        && Merging(NodeAt(slots, ShiftRight(path, d)), node, path, mask, placed, d)
    {
      LevelBounds(path, d);
      if d == Depth(path) {
        AboveDepth(path);
        PlacedAtRoot(slots, node);
      } else {
        LevelBounds(path, d + 1);
      }
      if parent == null {
        root := node;
      } else {
        var goRight := LastTurn(path, mask, d);
        AttachBelow(parent, goRight, node, slots, path, mask, d);
      }
    }

    /** insert_on_path, called with the size already counting the new node. */
    method InsertOnPath(node: Node)
      requires Tree() && nNodes == |slots| + 1 && node !in slots
      modifies this`root, this`slots, slots, node
      ensures Tree() && nNodes == |slots|
      ensures slots == Shift(old(slots), node, StopLevel(less, Values(old(slots)), node.value, Depth(|old(slots)| + 1)))
      ensures Values(slots) == TopDown(less, Values(old(slots)), node.value)
    {
      ghost var before := slots;
      var path := nNodes;
      ghost var d;
      var parent, current, mask;
      parent, current, mask, d := WalkDown(node.value, path);
      Replace(node, parent, current, path, mask, d);
      ShiftValues(before, node, d);
    }

    /** The second half of insert_on_path: the new node takes its place, what was there is pushed down. */
    method Replace(node: Node, parent: Node?, current: Node?, path: nat, mask: nat, ghost d: nat)
      requires Tree() && path == |slots| + 1 && node !in slots && d <= Depth(path) && mask == Pow2(d)
      requires 1 <= ShiftRight(path, d) <= path && current == NodeAt(slots, ShiftRight(path, d))
      requires parent == ParentAt(slots, path, d)
      modifies this`root, this`slots, slots, node
      ensures Tree() && slots == Shift(old(slots), node, d)
    {
      ghost var before := slots;
      Attach(node, parent, path, mask, d);
      RootAfter(before, node, d);
      slots := MergeOnPath(current, node, path, mask, before, d, Elements(before) + {node});
    }

    /** heap_insert; `memory` says whether malloc gave a node. */
    method Insert(value: int, memory: bool) returns (status: int)
      requires Valid() && nNodes + 1 < 0x8000_0000
      modifies this, slots
      ensures Valid()
      ensures status == if memory then 0 else ENOMEM
      ensures !memory ==> slots == old(slots)
      ensures memory ==> Values(slots) == ArrayInsert(less, Values(old(slots)), value)
      ensures memory ==> exists node: Node :: fresh(node) && multiset(slots) == multiset(old(slots)) + multiset{node}
      ensures forall k :: 0 <= k < |slots| ==> slots[k] in old(slots) || fresh(slots[k])
    {
      if !memory {
        return ENOMEM;
      }
      var node := new Node(value);
      nNodes := nNodes + 1;
      ghost var before := slots;
      InsertOnPath(node);
      Inserted(less, before, slots, node);
      return 0;
    }

    /**
     The level-order walk of show: the queue cell read in each turn has been filled, every node
     is visited once, and the children of the k-th node come 2k-th and (2k+1)-th.
     */
    method Show() returns (visited: seq<Node>)
      requires Valid()
      ensures visited == slots
      ensures forall k :: 1 <= k <= |visited| ==>
        Slot(visited, k).left == NodeAt(visited, 2 * k) && Slot(visited, k).right == NodeAt(visited, 2 * k + 1)
    {
      visited := [];
      if nNodes == 0 {
        return;
      }
      var queue := new Node?[nNodes](_ => null);
      queue[0] := root;
      var i, j := 0, 0;
      while i != nNodes
        invariant 0 <= i <= nNodes && j == LastFilled(i, nNodes)
        invariant forall m :: 0 <= m <= j ==> queue[m] == slots[m]
        invariant visited == slots[..i]
        decreases nNodes - i
      {
        var node: Node := queue[i];
        visited := visited + [node];
        j := Enqueue(queue, node, i, j);
        i := i + 1;
      }
    }

    /** One turn of the walk: the children of the node visited `i`-th, from 0, go to the next free cells. */
    method Enqueue(queue: array<Node?>, node: Node, ghost i: nat, j: nat) returns (j': nat)
      requires Tree() && i < |slots| == queue.Length && node == slots[i] && j == LastFilled(i, |slots|)
      requires forall m :: 0 <= m <= j ==> queue[m] == slots[m]
      modifies queue
      ensures j' == LastFilled(i + 1, |slots|) && forall m :: 0 <= m <= j' ==> queue[m] == slots[m]
    {
      assert node == Slot(slots, i + 1);
      j' := j;
      if node.left != null {
        j' := j' + 1;
        queue[j'] := node.left;
      }
      if node.right != null {
        j' := j' + 1;
        queue[j'] := node.right;
      }
    }

    /** cardinality of the subtree whose root is slot `k`. */
    method Cardinality(node: Node?, ghost k: nat) returns (c: nat)
      requires Tree() && 1 <= k && node == NodeAt(slots, k)
      ensures c == |Subtree(k, |slots|)|
      decreases |slots| + 1 - k, k <= |slots|
    {
      SubtreeSplit(k, |slots|);
      if node == null {
        return 0;
      }
      assert node == Slot(slots, k);
      var i := Cardinality(node.left, 2 * k);
      var j := Cardinality(node.right, 2 * k + 1);
      return i + j + 1;
    }

    /** subheap_is_valid: true exactly if no node below slot `k` exceeds its parent. */
    method SubheapIsValid(node: Node?, ghost k: nat) returns (ok: bool)
      requires Tree() && 1 <= k && node == NodeAt(slots, k)
      ensures ok <==> SubtreeOrdered(less, Values(slots), k)
      decreases |slots| + 1 - k, k <= |slots|
    {
      OrderedSplit(less, Values(slots), k);
      if node == null {
        return true;
      }
      assert node == Slot(slots, k) && node.value == Slot(Values(slots), k);
      var left, right := node.left, node.right;
      if left != null && less(node.value, left.value) {
        assert left.value == Slot(Values(slots), 2 * k);
        return false;
      } else if right != null && less(node.value, right.value) {
        assert right.value == Slot(Values(slots), 2 * k + 1);
        return false;
      }
      ok := SubheapIsValid(left, 2 * k);
      if ok {
        ok := SubheapIsValid(right, 2 * k + 1);
      }
    }

    /** heap_is_valid accepts every heap built by insertions, and its node count is the stored size. */
    method IsValid() returns (count: nat, ok: bool)
      requires Valid()
      ensures count == nNodes && ok
    {
      WholeTree(nNodes);
      count := Cardinality(root, 1);
      ok := SubheapIsValid(root, 1);
    }
  }

  /** The last queue cell in use once `i` nodes of `n` have been visited. */
  ghost function LastFilled(i: nat, n: nat): int {
    if 2 * i < n then 2 * i else n - 1
  }

  /** Slot `j` does not exceed its parent. */
  ghost predicate Holds(less: Less, a: seq<int>, j: nat) {
    2 <= j <= |a| ==> !less(Slot(a, j / 2), Slot(a, j))
  }

  /** Going up from slot `j` leads through slot `k`. */
  ghost predicate Below(k: nat, j: nat) {
    j == k || (j > k && Below(k, j / 2))
  }

  /** The slots of an `n`-node tree at or below slot `k`. */
  ghost function Subtree(k: nat, n: nat): set<nat> {
    set j: nat | j <= n && Below(k, j)
  }

  lemma {:induction false} BelowChildren(k: nat, j: nat)
    requires k > 0
    ensures Below(k, j) <==> j == k || Below(2 * k, j) || Below(2 * k + 1, j)
    ensures !(Below(2 * k, j) && Below(2 * k + 1, j))
    ensures Below(2 * k, j) || Below(2 * k + 1, j) ==> j != k
    decreases j
  {
    if j > 0 {
      BelowChildren(k, j / 2);
    }
  }

  /** A subtree is its root and the two disjoint subtrees of its children. */
  lemma SubtreeSplit(k: nat, n: nat)
    requires k > 0
    ensures k > n ==> Subtree(k, n) == {}
    ensures k <= n ==>
      && Subtree(k, n) == {k} + Subtree(2 * k, n) + Subtree(2 * k + 1, n)
      && |Subtree(k, n)| == 1 + |Subtree(2 * k, n)| + |Subtree(2 * k + 1, n)|
      && k in Subtree(k, n) && k !in Subtree(2 * k, n) && k !in Subtree(2 * k + 1, n)
  {
    forall j: nat
      ensures Below(k, j) <==> j == k || Below(2 * k, j) || Below(2 * k + 1, j)
      ensures !(Below(2 * k, j) && Below(2 * k + 1, j))
      ensures Below(2 * k, j) || Below(2 * k + 1, j) ==> j != k
      ensures Below(k, j) ==> j >= k
    {
      BelowChildren(k, j);
    }
    if k <= n {
      var l, r := Subtree(2 * k, n), Subtree(2 * k + 1, n);
      assert Subtree(k, n) == {k} + l + r;
      assert l !! r && k !in l + r;
      assert |l + r| == |l| + |r|;
    }
  }

  lemma SubtreeRoot(k: nat, n: nat)
    requires k > 0
    ensures if k <= n then k in Subtree(k, n) else Subtree(k, n) == {}
  {
    SubtreeSplit(k, n);
  }

  /** No node strictly below slot `k` exceeds its parent. */
  ghost predicate SubtreeOrdered(less: Less, a: seq<int>, k: nat) {
    forall j :: j in Subtree(k, |a|) && j != k ==> Holds(less, a, j)
  }

  lemma OrderedSplit(less: Less, a: seq<int>, k: nat)
    requires k > 0
    ensures k > |a| ==> SubtreeOrdered(less, a, k)
    ensures k <= |a| ==> (SubtreeOrdered(less, a, k) <==>
      && Holds(less, a, 2 * k) && Holds(less, a, 2 * k + 1)
      && SubtreeOrdered(less, a, 2 * k) && SubtreeOrdered(less, a, 2 * k + 1))
  {
    SubtreeSplit(k, |a|);
    SubtreeRoot(2 * k, |a|);
    SubtreeRoot(2 * k + 1, |a|);
    if k <= |a| {
      HoldSplit(less, a, k, Subtree(k, |a|), Subtree(2 * k, |a|), Subtree(2 * k + 1, |a|));
    }
  }

  lemma HoldSplit(less: Less, a: seq<int>, k: nat, all: set<nat>, l: set<nat>, r: set<nat>)
    requires all == {k} + l + r && k !in l && k !in r
    requires if 2 * k > |a| then l == {} else 2 * k in l
    requires if 2 * k + 1 > |a| then r == {} else 2 * k + 1 in r
    ensures (forall j :: j in all && j != k ==> Holds(less, a, j)) <==>
      && Holds(less, a, 2 * k) && Holds(less, a, 2 * k + 1)
      && (forall j :: j in l && j != 2 * k ==> Holds(less, a, j))
      && (forall j :: j in r && j != 2 * k + 1 ==> Holds(less, a, j))
  {
  }

  lemma {:induction false} WholeTree(n: nat)
    ensures |Subtree(1, n)| == n
    ensures forall j :: 1 <= j <= n ==> j in Subtree(1, n)
  {
    if n == 0 {
      assert Subtree(1, 0) == {};
    } else {
      WholeTree(n - 1);
      BelowRoot(n);
      assert Subtree(1, n) == Subtree(1, n - 1) + {n};
    }
  }

  lemma {:induction false} BelowRoot(j: nat)
    requires j > 0
    ensures Below(1, j)
  {
    if j > 1 {
      BelowRoot(j / 2);
    }
  }

  const ENOMEM := 12

  /** The value sequence moves exactly as the node sequence does. */
  lemma {:induction false} ShiftValues(slots: seq<Node>, node: Node, d: nat)
    requires d <= Depth(|slots| + 1)
    ensures Values(Shift(slots, node, d)) == Shift(Values(slots), node.value, d)
    decreases d
  {
    if d == 0 {
      assert Values(slots + [node]) == Values(slots) + [node.value];
    } else {
      AboveBounds(|slots| + 1, d);
      var e := ShiftRight(|slots| + 1, d);
      ShiftValues(Put(slots, e, node), Slot(slots, e), d - 1);
      assert Values(Put(slots, e, node)) == Put(Values(slots), e, node.value);
    }
  }

  /** Pushing nodes down the path does not change which node is at the root. */
  lemma RootAfter(slots: seq<Node>, node: Node, d: nat)
    requires d <= Depth(|slots| + 1)
    ensures 1 <= ShiftRight(|slots| + 1, d) <= |slots| + 1
    ensures NodeAt(Shift(slots, node, d), 1) == NodeAt(Placed(slots, ShiftRight(|slots| + 1, d), node), 1)
  {
    var path := |slots| + 1;
    LevelBounds(path, d);
    ShiftReplace(slots, node, node, d);
    if d == Depth(path) {
      AboveDepth(path);
    } else {
      AboveDepth(path);
      forall j | 0 <= j <= d
        ensures ShiftRight(path, j) != 1
      {
        AboveInjective(path, j, Depth(path));
      }
      ShiftUpdate(slots, node, node, d, 1);
    }
  }

  /** The node one level above level `d` of the path, or null above the root. */
  ghost function ParentAt(slots: seq<Node>, path: nat, d: nat): Node?
    requires path > 0
  {
    if d == Depth(path) then null else NodeAt(slots, ShiftRight(path, d + 1))
  }

  /** What the comparison at level `d` says about where the walk stops. */
  ghost predicate Walks(less: Less, slots: seq<Node>, value: int, d: nat, stop: nat)
    requires d <= Depth(|slots| + 1)
  {
    var current := NodeAt(slots, ShiftRight(|slots| + 1, d));
    && 1 <= ShiftRight(|slots| + 1, d) <= |slots| + 1
    && (current == null <==> d == 0)
    && stop == if d > 0 && less(value, current.value) then StopLevel(less, Values(slots), value, d - 1) else d
  }

  lemma WalkStep(less: Less, slots: seq<Node>, value: int, d: nat)
    requires d <= Depth(|slots| + 1)
    ensures Walks(less, slots, value, d, StopLevel(less, Values(slots), value, d))
  {
    LevelBounds(|slots| + 1, d);
    if d > 0 {
      assert Slot(Values(slots), ShiftRight(|slots| + 1, d)) == Slot(slots, ShiftRight(|slots| + 1, d)).value;
    }
  }

  /** Putting the new node in the root's place leaves only its own links to be written. */
  lemma PlacedAtRoot(slots: seq<Node>, node: Node)
    requires Distinct(slots) && LinkedBut(slots, 0) && node !in slots
    ensures var placed := Placed(slots, 1, node);
      && Distinct(placed) && LinkedBut(placed, 1)
      && (slots != [] ==> PointsBelow(Slot(slots, 1), placed, 1))
  {
    PlacedDistinct(slots, 1, node);
    var placed := Placed(slots, 1, node);
    forall k | 1 <= k <= |placed| && k != 1
      ensures Slot(placed, k).left == NodeAt(placed, 2 * k) && Slot(placed, k).right == NodeAt(placed, 2 * k + 1)
    {
      assert Slot(placed, k) == Slot(slots, k);
    }
    if slots != [] {
      assert NodeAt(slots, 1) == Slot(slots, 1);
    }
  }

  /** What the relinking amounts to: the array insertion, on the old nodes and the new one. */
  lemma Inserted(less: Less, before: seq<Node>, after: seq<Node>, node: Node)
    requires StrictWeak(less) && Ordered(less, Values(before))
    requires after == Shift(before, node, StopLevel(less, Values(before), node.value, Depth(|before| + 1)))
    requires Values(after) == TopDown(less, Values(before), node.value)
    ensures Ordered(less, Values(after)) && Values(after) == ArrayInsert(less, Values(before), node.value)
    ensures multiset(after) == multiset(before) + multiset{node}
    ensures forall k :: 0 <= k < |after| ==> after[k] in before || after[k] == node
  {
    InsertKeepsOrder(less, Values(before), node.value);
    TopDownIsArrayInsert(less, Values(before), node.value);
    ShiftMultiset(before, node, StopLevel(less, Values(before), node.value, Depth(|before| + 1)));
    SameNodes(before, after, node);
  }

  lemma SameNodes(before: seq<Node>, after: seq<Node>, node: Node)
    requires multiset(after) == multiset(before) + multiset{node}
    ensures forall k :: 0 <= k < |after| ==> after[k] in before || after[k] == node
  {
    forall k | 0 <= k < |after|
      ensures after[k] in before || after[k] == node
    {
      assert after[k] in multiset(after);
    }
  }

  /** An empty heap and one insertion after another: its level order is that of the same array insertions. */
  method BuildHeap(less: Less, xs: seq<int>) returns (heap: Heap)
    requires StrictWeak(less) && |xs| < 0x7fff_ffff
    ensures heap.Valid() && heap.less == less && heap.nNodes == |xs|
    ensures Values(heap.slots) == InsertAll(less, xs) && multiset(Values(heap.slots)) == multiset(xs)
  {
    heap := new Heap(less);
    for i := 0 to |xs|
      invariant fresh(heap) && heap.Valid() && heap.less == less && heap.nNodes == i
      invariant Values(heap.slots) == InsertAll(less, xs[..i])
      invariant forall k :: 0 <= k < |heap.slots| ==> fresh(heap.slots[k])
    {
      NextInserted(less, xs, i, Values(heap.slots));
      var status := heap.Insert(xs[i], true);
    }
    assert xs[..|xs|] == xs;
    EveryInsertSequence(less, xs);
  }

  lemma NextInserted(less: Less, xs: seq<int>, i: nat, a: seq<int>)
    requires StrictWeak(less) && i < |xs| && a == InsertAll(less, xs[..i]) && Ordered(less, a)
    ensures InsertAll(less, xs[..i + 1]) == ArrayInsert(less, a, xs[i])
  {
    assert xs[..i + 1][..i] == xs[..i];
    TopDownIsArrayInsert(less, a, xs[i]);
  }
}
