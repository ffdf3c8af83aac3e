/** Nodes of the decision tree and the intrusive doubly linked list that chains the free ones (common/list.c). */
module TreeNodes {

  /** A process as the tree sees it; `coreProcess` is the index of the caller's record it stands for. */
  datatype TreeProcess = TreeProcess(numThreads: int, socketId: int, prevSocketId: int, rank: int, coreProcess: nat)

  /** Everything a node holds except its list links. */
  datatype View = View(min: int, norme: int, numSocketChanges: nat, placedNumProcesses: nat, depth: nat,
                       processes: seq<TreeProcess>, data: seq<int>, best: TreeNode?, father: TreeNode?)

  class TreeNode {
    var previous: TreeNode?
    var next: TreeNode?

    var min: int
    var norme: int
    var numSocketChanges: nat
    var placedNumProcesses: nat
    var depth: nat
    var processes: seq<TreeProcess>
    /** Free cores of each socket. */
    var data: seq<int>
    var best: TreeNode?
    var father: TreeNode?

    constructor (numSockets: nat, numProcesses: nat)
    {
      processes := seq(numProcesses, _ => TreeProcess(0, 0, 0, 0, 0));
      data := seq(numSockets, _ => 0);
      previous, next, best, father := null, null, null, null;
      min, norme, numSocketChanges, placedNumProcesses, depth := 0, 0, 0, 0, 0;
    }

    ghost function Contents(): View
      reads this`min, this`norme, this`numSocketChanges, this`placedNumProcesses, this`depth
      reads this`processes, this`data, this`best, this`father
    {
      View(min, norme, numSocketChanges, placedNumProcesses, depth, processes, data, best, father)
    }
  }

  ghost function Without<T>(s: seq<T>, k: nat): (r: seq<T>)
    requires k < |s|
    ensures |r| == |s| - 1 && forall i :: 0 <= i < |r| ==> r[i] == s[if i < k then i else i + 1]
  {
    s[..k] + s[k+1..]
  }

  class ListHead {
    var first: TreeNode?
    var last: TreeNode?
    /** The chained nodes, first to last. */
    ghost var nodes: seq<TreeNode>
    /** The same nodes as a set. */
    ghost var chained: set<TreeNode>

    constructor ()
      ensures Valid() && nodes == [] && chained == {}
    {
      first, last, nodes, chained := null, null, [], {};
    }

    /** first, last and the links of the chained nodes spell out `nodes` in both directions. */
    ghost predicate Valid()
      reads this, chained
    {
      && (forall i :: 0 <= i < |nodes| ==> nodes[i] in chained)
      && (forall i, j :: 0 <= i < j < |nodes| ==> nodes[i] != nodes[j])
      && |chained| == |nodes|
      && first == NodeAt(0) && last == NodeAt(|nodes| - 1)
      && (forall i {:trigger nodes[i].previous} :: 0 <= i < |nodes| ==> nodes[i].previous == NodeAt(i - 1))
      && (forall i {:trigger nodes[i].next} :: 0 <= i < |nodes| ==> nodes[i].next == NodeAt(i + 1))
    }

    /** Node i of the chain, null outside it. */
    ghost function NodeAt(i: int): TreeNode?
      reads this
    {
      if 0 <= i < |nodes| then nodes[i] else null
    }

    method AddFirst(node: TreeNode)
      requires Valid() && node !in chained
      modifies this, node`previous, node`next, chained`previous
      ensures Valid() && nodes == [node] + old(nodes) && chained == old(chained) + {node}
    {
      node.previous := null;
      node.next := first;
      if first != null {
        first.previous := node;
      } else {
        last := node;
      }
      first := node;
      nodes, chained := [node] + nodes, chained + {node};
    }

    method Remove(node: TreeNode, ghost k: nat)
      requires Valid() && k < |nodes| && nodes[k] == node
      modifies this, chained`previous, chained`next
      ensures Valid() && nodes == Without(old(nodes), k) && chained == old(chained) - {node}
    {
      if node.previous != null {
        node.previous.next := node.next;
      } else {
        first := node.next;
      }
      if node.next != null {
        node.next.previous := node.previous;
      } else {
        last := node.previous;
      }
      nodes, chained := Without(nodes, k), chained - {node};
      Unlinked(k);
    }

    /** Skipping node k in both directions leaves the chain of the other nodes. */
    twostate lemma Unlinked(k: nat)
      requires old(Valid()) && k < |old(nodes)| && nodes == Without(old(nodes), k)
      requires chained == old(chained) - {old(nodes)[k]}
      requires first == if k == 0 then old(NodeAt(1)) else old(first)
      requires last == if k == |nodes| then old(NodeAt(k - 1)) else old(last)
      requires forall j {:trigger old(nodes)[j].next} :: 0 <= j < |old(nodes)| ==>
        old(nodes)[j].next == if j == k - 1 then old(NodeAt(k + 1)) else old(nodes[j].next)
      requires forall j {:trigger old(nodes)[j].previous} :: 0 <= j < |old(nodes)| ==>
        old(nodes)[j].previous == if j == k + 1 then old(NodeAt(k - 1)) else old(nodes[j].previous)
      ensures Valid()
    {
      forall i {:trigger nodes[i].previous} {:trigger nodes[i].next} | 0 <= i < |nodes|
        ensures nodes[i].previous == NodeAt(i - 1) && nodes[i].next == NodeAt(i + 1)
      {
        var j := if i < k then i else i + 1;
        assert nodes[i] == old(nodes)[j];
      }
    }

    method GetFirst() returns (node: TreeNode?)
      requires Valid()
      ensures node == null <==> nodes == []
      ensures node != null ==> node in chained && node == nodes[0]
    {
      node := first;
    }
  }
}
