/** common/decision_tree.c over heap nodes: the pool of free nodes, the counters of a node, and the recursion. */
module DecisionTree {
  import opened Sums
  import opened Placement
  import opened Search
  import opened Options
  import opened TreeNodes
  import opened Sorting
  import opened CallerOrder
  import opened Processes

  const DECISION_NODE_THRESHOLD: nat := 64

  ghost function Opt(node: TreeNode?): set<TreeNode> {
    if node == null then {} else {node}
  }

  ghost function One(node: TreeNode?): nat {
    if node == null then 0 else 1
  }

  ghost predicate Counts(n: nat, nodes: set<TreeNode>) {
    n == |nodes|
  }

  /** The sorted process array after the placement of its first |p| processes. */
  ghost function Placed(base: seq<TreeProcess>, p: seq<nat>): seq<TreeProcess>
    requires |p| <= |base|
  {
    seq(|base|, k requires 0 <= k < |base| => if k < |p| then base[k].(socketId := p[k]) else base[k])
  }

  ghost function FreeCores(d: Demand, p: seq<nat>): seq<int>
    requires Fits(d, p)
  {
    seq(d.numSockets, s requires 0 <= s < d.numSockets => d.coresPerSocket - Loads(d, p)[s])
  }

  /** The configuration spells out the sorted process array that the root holds. */
  ghost predicate Describes(cfg: Config, base: seq<TreeProcess>) {
    && cfg.Valid() && cfg.cut
    && |base| == |cfg.demand.threads|
    && forall k :: 0 <= k < |base| ==>
         base[k].numThreads == cfg.demand.threads[k] && base[k].prevSocketId == cfg.previous[k]
  }

  /** The counters of a node. */
  datatype State = State(placed: nat, processes: seq<TreeProcess>, data: seq<int>, norme: int)

  ghost function StateOf(x: TreeNode): State
    reads x
  {
    State(x.placedNumProcesses, x.processes, x.data, x.norme)
  }

  /** What the counters must be, recomputed from the placement alone. */
  ghost function Expected(cfg: Config, base: seq<TreeProcess>, p: seq<nat>): State {
    if |p| <= |base| && Fits(cfg.demand, p)
    then State(|p|, Placed(base, p), FreeCores(cfg.demand, p), Norme(cfg.demand, p))
    else State(0, [], [], 0)
  }

  /** The counters that tree_update_node keeps are the ones recomputed from the placement alone. */
  ghost predicate At(x: TreeNode, cfg: Config, base: seq<TreeProcess>, p: seq<nat>)
    reads x
  {
    StateOf(x) == Expected(cfg, base, p)
  }

  /** A node's min, counter and candidate. */
  datatype Held = Held(min: int, changes: int, best: Option<(State, int)>)

  ghost function HeldBy(x: TreeNode): Held
    reads x, x.best
  {
    Held(x.min, x.numSocketChanges, if x.best == null then None else Some((StateOf(x.best), x.best.numSocketChanges)))
  }

  ghost function HeldFor(cfg: Config, base: seq<TreeProcess>, t: Track): Held {
    Held(t.min, t.changes, match t.best
      case None => None
      case Some(leaf) => Some((Expected(cfg, base, leaf.sockets), leaf.changes)))
  }

  /** The node's min, counter and candidate are those of the track. */
  ghost predicate Holds(x: TreeNode, cfg: Config, base: seq<TreeProcess>, t: Track)
    reads x, x.best
  {
    HeldBy(x) == HeldFor(cfg, base, t)
  }

  /** Free cores and placed threads add up to the cores of the node. */
  lemma FreeCoresConserved(d: Demand, p: seq<nat>)
    requires Fits(d, p)
    ensures Sum(FreeCores(d, p)) + Sum(d.threads[..|p|]) == d.numSockets * d.coresPerSocket
  {
    LoadsTotal(d, p);
    SumComplement(Loads(d, p), FreeCores(d, p), d.coresPerSocket);
  }

  lemma {:induction false} SumComplement(xs: seq<int>, ys: seq<int>, c: int)
    requires |xs| == |ys| && forall i :: 0 <= i < |xs| ==> ys[i] == c - xs[i]
    ensures Sum(xs) + Sum(ys) == |xs| * c
  {
    if xs != [] {
      SumComplement(xs[..|xs|-1], ys[..|xs|-1], c);
    }
  }

  /** The effect of one more process on norme, as tree_update_node computes it. */
  lemma NormeStep(d: Demand, p: seq<nat>, s: nat, free: int)
    requires Fits(d, p) && d.Valid() && |p| < |d.threads| && s < d.numSockets
    requires Loads(d, p)[s] <= d.coresPerSocket
    requires free == d.coresPerSocket - Loads(d, p)[s] - d.threads[|p|]
    ensures Fits(d, p + [s])
    ensures Norme(d, p + [s])
         == if free > 0 then Norme(d, p) else if Norme(d, p) == UNSET then free else Norme(d, p) + free
    ensures Loads(d, p + [s]) == Loads(d, p)[s := d.coresPerSocket - free]
  {
    var q := p + [s];
    var loads := Loads(d, p);
    assert q[..|p|] == p;
    assert Loads(d, q) == loads[s := d.coresPerSocket - free];
    ExcessUpdate(loads, d.coresPerSocket, s, d.coresPerSocket - free);
    CostBound(d, p);
    if free > 0 {
      if i :| 0 <= i < d.numSockets && loads[i] >= d.coresPerSocket {
        assert Loads(d, q)[i] >= d.coresPerSocket;
      }
    } else {
      assert Loads(d, q)[s] >= d.coresPerSocket;
      if Norme(d, p) == UNSET {
        NothingFull(loads, d.coresPerSocket, |loads|);
      }
    }
  }

  lemma {:induction false} NothingFull(loads: seq<int>, cores: int, n: nat)
    requires n <= |loads| && !SomeFull(loads, cores)
    ensures ExcessUpTo(loads, cores, n) == 0
  {
    if n > 0 {
      NothingFull(loads, cores, n - 1);
    }
  }

  class Tree {
    const numSockets: nat
    const numCoresPerSocket: nat
    const numProcesses: nat
    var numFreeNodes: nat
    const freeNodes: ListHead

    /** Nodes handed out and not yet given back. */
    ghost var live: set<TreeNode>
    /** Every node that is live or chained. */
    ghost var owned: set<TreeNode>
    /** How many nodes are live, and the most there ever were. */
    ghost var numLive: nat
    ghost var peak: nat

    /** No node is both live and chained in the free list; the counter is the list's length, within the threshold. */
    ghost predicate Valid()
      reads this, freeNodes, freeNodes.chained
    {
      && freeNodes.Valid()
      && numFreeNodes == |freeNodes.nodes| <= DECISION_NODE_THRESHOLD
      && (forall x {:trigger x in owned} :: x in owned ==> (x in live <==> x !in freeNodes.chained))
      && live <= owned && freeNodes.chained <= owned
      && Counts(numLive, live) && numLive <= peak
    }

    constructor (numSockets: nat, numCoresPerSocket: nat, numProcesses: nat)
      ensures Valid() && fresh(freeNodes) && fresh(owned)
      ensures live == {} && numLive == 0 && peak == 0 && numFreeNodes == DECISION_NODE_THRESHOLD
      ensures this.numSockets == numSockets && this.numCoresPerSocket == numCoresPerSocket
      ensures this.numProcesses == numProcesses
    {
      this.numSockets := numSockets;
      this.numCoresPerSocket := numCoresPerSocket;
      this.numProcesses := numProcesses;
      freeNodes := new ListHead();
      numFreeNodes := 0;
      live, owned, numLive, peak := {}, {}, 0, 0;
      new;
      hide ListHead.Valid;
      for i := 0 to DECISION_NODE_THRESHOLD
        invariant Valid() && fresh(freeNodes) && fresh(owned)
        invariant live == {} && numLive == 0 && peak == 0 && numFreeNodes == i
      {
        AddNewNode();
      }
    }

    /** One step of filling the pool. */
    method AddNewNode()
      requires Valid() && numFreeNodes < DECISION_NODE_THRESHOLD
      modifies this`numFreeNodes, this`owned, freeNodes, freeNodes.chained`previous
      ensures Valid() && numFreeNodes == old(numFreeNodes) + 1
      ensures owned > old(owned) && fresh(owned - old(owned))
    {
      hide Counts; hide ListHead.Valid;
      var node := new TreeNode(numSockets, numProcesses);
      owned := owned + {node};
      freeNodes.AddFirst(node);
      numFreeNodes := numFreeNodes + 1;
    }

    method AllocNode() returns (node: TreeNode)
      requires Valid()
      modifies this`numFreeNodes, this`live, this`numLive, this`owned, this`peak, freeNodes
      modifies freeNodes.chained`previous, freeNodes.chained`next
      ensures Valid() && fresh(owned - old(owned))
      ensures node !in old(live) && live == old(live) + {node}
      ensures numLive == old(numLive) + 1 && peak == Max(old(peak), numLive)
      ensures old(freeNodes.nodes) != [] ==>
        node == old(freeNodes.nodes)[0] && numFreeNodes == old(numFreeNodes) - 1 && owned == old(owned)
      ensures old(freeNodes.nodes) == [] ==> fresh(node) && numFreeNodes == old(numFreeNodes) == 0
    {
      hide Counts; hide ListHead.Valid;
      var first := freeNodes.GetFirst();
      if first != null {
        node := first;
        ReuseNode(node);
      } else {
        node := new TreeNode(numSockets, numProcesses);
        owned := owned + {node};
        HandOut(node);
      }
    }

    /** Takes the first node out of the free list. */
    method ReuseNode(node: TreeNode)
      requires Valid() && node in freeNodes.chained && |freeNodes.nodes| > 0 && node == freeNodes.nodes[0]
      modifies this`numFreeNodes, this`live, this`numLive, this`peak, freeNodes
      modifies freeNodes.chained`previous, freeNodes.chained`next
      ensures Valid() && live == old(live) + {node}
      ensures numLive == old(numLive) + 1 && peak == Max(old(peak), numLive)
      ensures numFreeNodes == old(numFreeNodes) - 1
    {
      hide Counts; hide ListHead.Valid;
      freeNodes.Remove(node, 0);
      numFreeNodes := numFreeNodes - 1;
      HandOut(node);
    }

    ghost method HandOut(node: TreeNode)
      requires Counts(numLive, live) && node !in live
      modifies this`live, this`numLive, this`peak
      ensures live == old(live) + {node} && numLive == old(numLive) + 1 && peak == Max(old(peak), numLive)
      ensures Counts(numLive, live)
    {
      live, numLive := live + {node}, numLive + 1;
      peak := Max(peak, numLive);
    }

    ghost method TakeBack(node: TreeNode)
      requires Counts(numLive, live) && node in live
      modifies this`live, this`numLive
      ensures live == old(live) - {node} && numLive == old(numLive) - 1
      ensures Counts(numLive, live)
    {
      live, numLive := live - {node}, numLive - 1;
    }

    method FreeNode(node: TreeNode?)
      requires Valid() && (node == null || node in live)
      modifies this`numFreeNodes, this`live, this`numLive, this`owned, freeNodes, freeNodes.chained`previous
      modifies Opt(node)`previous, Opt(node)`next
      ensures Valid() && owned <= old(owned)
      ensures live == old(live) - Opt(node) && numLive == old(numLive) - One(node)
      ensures freeNodes.chained == old(freeNodes.chained)
        + if old(numFreeNodes) < DECISION_NODE_THRESHOLD then Opt(node) else {}
    {
      hide Counts; hide ListHead.Valid;
      if node == null {
        return;
      }
      TakeBack(node);
      if numFreeNodes < DECISION_NODE_THRESHOLD {
        freeNodes.AddFirst(node);
        numFreeNodes := numFreeNodes + 1;
        return;
      }
      owned := owned - {node};
    }

    /** Copies a node's state into a child node. */
    method DupNode(dup: TreeNode, node: TreeNode)
      requires dup != node
      modifies dup`min, dup`norme, dup`numSocketChanges, dup`placedNumProcesses, dup`depth
      modifies dup`processes, dup`data, dup`best, dup`father
      ensures dup.Contents() == node.Contents().(depth := node.depth + 1, best := null, father := node)
    {
      dup.min := node.min;
      dup.norme := node.norme;
      dup.numSocketChanges := node.numSocketChanges;
      dup.placedNumProcesses := node.placedNumProcesses;
      dup.depth := node.depth + 1;
      dup.processes := node.processes;
      dup.data := node.data;
      dup.best := null;
      dup.father := node;
    }

    /** Places the node's next process on a socket and updates the counters. */
    method UpdateNode(node: TreeNode, socketId: nat, ghost cfg: Config, ghost base: seq<TreeProcess>, ghost p: seq<nat>)
      requires Describes(cfg, base) && At(node, cfg, base, p) && Fits(cfg.demand, p) && |p| < |base|
      requires socketId < cfg.demand.numSockets
      requires Loads(cfg.demand, p)[socketId] <= cfg.demand.coresPerSocket
      modifies node`norme, node`numSocketChanges, node`placedNumProcesses, node`processes, node`data
      ensures At(node, cfg, base, p + [socketId]) && Fits(cfg.demand, p + [socketId])
      ensures node.numSocketChanges == old(node.numSocketChanges) + Changes(cfg, p, socketId)
    {
      var k := node.placedNumProcesses;
      var process := node.processes[k];
      var free := node.data[socketId] - process.numThreads;
      NormeStep(cfg.demand, p, socketId, free);

      node.data := node.data[socketId := free];
      node.processes := node.processes[k := process.(socketId := socketId)];
      node.placedNumProcesses := k + 1;
      assert node.processes == Placed(base, p + [socketId]);
      assert node.data == FreeCores(cfg.demand, p + [socketId]);

      if process.prevSocketId != socketId {
        node.numSocketChanges := node.numSocketChanges + 1;
      }
      if node.data[socketId] > 0 {
        return;
      }
      if node.norme == UNSET {
        node.norme := node.data[socketId];
      } else {
        node.norme := node.norme + node.data[socketId];
      }
    }

    ghost predicate Measures(cfg: Config)
      reads this
    {
      && cfg.demand.numSockets == numSockets
      && cfg.demand.coresPerSocket == numCoresPerSocket
      && |cfg.demand.threads| == numProcesses
    }

    /** The whole recursion at one node. `rival` is the candidate its father holds, `tf` the father's track. */
    method BuildTreeRecursive(node: TreeNode, ghost cfg: Config, ghost base: seq<TreeProcess>, ghost p: seq<nat>,
                              ghost tf: Track, ghost rival: TreeNode?)
      requires Valid() && Measures(cfg) && Describes(cfg, base)
      requires node in live && node.best == null && At(node, cfg, base, p) && Fits(cfg.demand, p) && |p| < |base|
      requires node.father == null ==> rival == null
      requires node.father != null ==>
        && node.father in live && node.father != node
        && rival == node.father.best && Opt(rival) <= live - {node, node.father}
        && Holds(node.father, cfg, base, tf)
      modifies this`numFreeNodes, this`live, this`numLive, this`owned, this`peak, freeNodes, freeNodes.chained
      modifies node`min, node`numSocketChanges, node`best
      modifies Opt(node.father)`min, Opt(node.father)`best, Opt(rival)`previous, Opt(rival)`next
      ensures Valid() && fresh(owned - old(owned))
      ensures var t := Explore(cfg, p, 0, Track(old(node.min), old(node.numSocketChanges), None));
        && (node.father == null ==>
              && Holds(node, cfg, base, t)
              && live == old(live) + Opt(node.best) && node.best !in old(live)
              && numLive == old(numLive) + One(node.best))
        && (node.father != null ==>
              && Holds(node.father, cfg, base, Report(tf, t))
              && live == old(live) - Opt(rival) + Opt(node.father.best)
              && numLive == old(numLive) - One(rival) + One(node.father.best)
              && (node.father.best == rival || node.father.best !in old(live)))
      ensures peak <= Max(old(peak), old(numLive) + 2 * (numProcesses - |p|))
      decreases numProcesses - |p|, 2
    {
      hide Counts; hide ListHead.Valid; hide Expected; hide Visit;
      ghost var t := Explore(cfg, p, 0, Track(node.min, node.numSocketChanges, None));
      ExploreChildren(node, cfg, base, p);
      if node.father != null {
        ReportToFather(node, node.father, cfg, base, t, tf);
      }
    }

    /** The end of the recursion: the node's candidate replaces its father's, or is freed. */
    method ReportToFather(node: TreeNode, father: TreeNode, ghost cfg: Config, ghost base: seq<TreeProcess>,
                          ghost t: Track, ghost tf: Track)
      requires Valid() && node != father && father == node.father && father in live
      requires father != node.best && father != father.best
      requires Opt(node.best) <= live && Opt(father.best) <= live && (node.best != null ==> node.best != father.best)
      requires Holds(node, cfg, base, t) && Holds(father, cfg, base, tf)
      modifies this`numFreeNodes, this`live, this`numLive, this`owned, freeNodes, freeNodes.chained`previous
      modifies father`min, father`best, Opt(node.best)`previous, Opt(node.best)`next
      modifies Opt(father.best)`previous, Opt(father.best)`next
      ensures Valid() && owned <= old(owned)
      ensures Holds(father, cfg, base, Report(tf, t))
      ensures tf.min >= t.min ==>
        father.best == old(father.best) && live == old(live) - Opt(node.best)
        && numLive == old(numLive) - One(node.best)
      ensures tf.min < t.min ==>
        father.best == node.best && live == old(live) - Opt(old(father.best))
        && numLive == old(numLive) - One(old(father.best))
    {
      hide Counts; hide ListHead.Valid; hide Expected;
      if father.min >= node.min {
        FreeNode(node.best);
      } else {
        FreeNode(father.best);
        father.min := node.min;
        father.best := node.best;
      }
    }

    /** The loop over the sockets. */
    method ExploreChildren(node: TreeNode, ghost cfg: Config, ghost base: seq<TreeProcess>, ghost p: seq<nat>)
      requires Valid() && Measures(cfg) && Describes(cfg, base)
      requires node in live && node.best == null && At(node, cfg, base, p) && Fits(cfg.demand, p) && |p| < |base|
      modifies this`numFreeNodes, this`live, this`numLive, this`owned, this`peak, freeNodes, freeNodes.chained
      modifies node`min, node`numSocketChanges, node`best
      ensures Valid() && fresh(owned - old(owned))
      ensures Holds(node, cfg, base, Explore(cfg, p, 0, Track(old(node.min), old(node.numSocketChanges), None)))
      ensures live == old(live) + Opt(node.best) && node.best !in old(live)
      ensures numLive == old(numLive) + One(node.best)
      ensures peak <= Max(old(peak), old(numLive) + 2 * (numProcesses - |p|))
      decreases numProcesses - |p|, 1
    {
      hide Counts; hide ListHead.Valid; hide Expected; hide Visit;
      var child: TreeNode? := AllocNode();
      ghost var t := Track(node.min, node.numSocketChanges, None);
      ghost var goal := Explore(cfg, p, 0, t);
      for i := 0 to numSockets
        invariant Valid() && fresh(owned - old(owned))
        invariant At(node, cfg, base, p) && Holds(node, cfg, base, t)
        invariant live == old(live) + Opt(child) + Opt(node.best)
        invariant child !in old(live) && node.best !in old(live) && (child != null ==> child != node.best)
        invariant Explore(cfg, p, i, t) == goal
        invariant peak <= Max(old(peak), old(numLive) + 2 * (numProcesses - |p|))
        invariant numLive == old(numLive) + One(child) + One(node.best)
      {
        child := NextChild(node, child, i, cfg, base, p, t, old(live));
        t := Visit(cfg, p, i, t);
      }
      FreeNode(child);
    }

    /** One iteration of that loop. `others` are the live nodes besides the spare child and the candidate. */
    method NextChild(node: TreeNode, spare: TreeNode?, i: nat, ghost cfg: Config, ghost base: seq<TreeProcess>,
                     ghost p: seq<nat>, ghost t: Track, ghost others: set<TreeNode>)
      returns (child: TreeNode?)
      requires Valid() && Measures(cfg) && Describes(cfg, base)
      requires At(node, cfg, base, p) && Fits(cfg.demand, p) && |p| < |base| && i < numSockets
      requires Holds(node, cfg, base, t)
      requires node in others && live == others + Opt(spare) + Opt(node.best)
      requires spare !in others && node.best !in others && (spare != null ==> spare != node.best)
      modifies this`numFreeNodes, this`live, this`numLive, this`owned, this`peak, freeNodes, freeNodes.chained
      modifies node`min, node`numSocketChanges, node`best, Opt(spare), Opt(node.best)
      ensures Valid() && fresh(owned - old(owned))
      ensures Holds(node, cfg, base, Visit(cfg, p, i, t))
      ensures live == others + Opt(child) + Opt(node.best)
      ensures child !in others && node.best !in others && (child != null ==> child != node.best)
      ensures numLive - One(child) - One(node.best) == old(numLive - One(spare) - One(node.best))
      ensures peak <= Max(old(peak), old(numLive - One(spare) - One(node.best)) + 2 * (numProcesses - |p|))
      decreases numProcesses - |p|, 1, 0
    {
      hide Counts; hide ListHead.Valid; hide Expected; hide Visit;
      child := spare;
      if child == null {
        child := AllocNode();
      }
      child := VisitChild(node, child, i, cfg, base, p, t, others);
    }

    /** The iteration once there is a spare child node. */
    method VisitChild(node: TreeNode, spare: TreeNode, i: nat, ghost cfg: Config, ghost base: seq<TreeProcess>,
                      ghost p: seq<nat>, ghost t: Track, ghost others: set<TreeNode>)
      returns (child: TreeNode?)
      requires Valid() && Measures(cfg) && Describes(cfg, base)
      requires At(node, cfg, base, p) && Fits(cfg.demand, p) && |p| < |base| && i < numSockets
      requires Holds(node, cfg, base, t)
      requires node in others && live == others + {spare} + Opt(node.best)
      requires spare !in others && node.best !in others && spare != node.best
      modifies this`numFreeNodes, this`live, this`numLive, this`owned, this`peak, freeNodes, freeNodes.chained
      modifies node`min, node`numSocketChanges, node`best, spare, Opt(node.best)
      ensures Valid() && fresh(owned - old(owned))
      ensures Holds(node, cfg, base, Visit(cfg, p, i, t))
      ensures live == others + Opt(child) + Opt(node.best)
      ensures child !in others && node.best !in others && (child != null ==> child != node.best)
      ensures numLive - One(child) - One(node.best) == old(numLive - 1 - One(node.best))
      ensures peak <= Max(old(peak), old(numLive - 1 - One(node.best)) + 2 * (numProcesses - |p|))
      decreases numProcesses - |p|, 0
    {
      hide Counts; hide ListHead.Valid; hide Expected; hide Norme; hide Loads;
      child := spare;
      ReadFreeCores(node, i, cfg, base, p);
      if node.data[i] >= 0 {
        CreateChild(child, node, i, cfg, base, p);
        if child.norme == UNSET || child.norme >= node.min {
          var remaining := numProcesses - child.placedNumProcesses;
          if remaining != 0 {
            BuildTreeRecursive(child, cfg, base, p + [i], t, node.best);
          } else {
            child := KeepLeaf(node, child, i, cfg, base, p, t);
          }
        }
      }
    }

    lemma ReadFreeCores(node: TreeNode, i: nat, cfg: Config, base: seq<TreeProcess>, p: seq<nat>)
      requires At(node, cfg, base, p) && Fits(cfg.demand, p) && |p| <= |base| && i < cfg.demand.numSockets
      ensures |node.data| == cfg.demand.numSockets
      ensures node.data[i] == cfg.demand.coresPerSocket - Loads(cfg.demand, p)[i]
    {
    }

    /** Makes `child` the child of `node` on socket i. */
    method CreateChild(child: TreeNode, node: TreeNode, i: nat, ghost cfg: Config, ghost base: seq<TreeProcess>,
                       ghost p: seq<nat>)
      requires Describes(cfg, base) && child != node
      requires At(node, cfg, base, p) && Fits(cfg.demand, p) && |p| < |base| && i < cfg.demand.numSockets
      requires Loads(cfg.demand, p)[i] <= cfg.demand.coresPerSocket
      modifies child
      ensures Fits(cfg.demand, p + [i]) && At(child, cfg, base, p + [i])
      ensures child.placedNumProcesses == |p| + 1 && child.norme == Norme(cfg.demand, p + [i])
      ensures child.min == node.min && child.best == null && child.father == node
      ensures child.numSocketChanges == node.numSocketChanges + Changes(cfg, p, i)
    {
      DupNode(child, node);
      UpdateNode(child, i, cfg, base, p);
    }

    /** The end of an iteration whose child is a leaf: keep it as the candidate or leave it as the spare node. */
    method KeepLeaf(node: TreeNode, leaf: TreeNode, i: nat, ghost cfg: Config, ghost base: seq<TreeProcess>,
                    ghost p: seq<nat>, ghost t: Track)
      returns (child: TreeNode?)
      requires node != leaf && node.best != leaf && node.best != node && Holds(node, cfg, base, t)
      requires At(leaf, cfg, base, p + [i]) && |p| < |cfg.previous|
      requires leaf.numSocketChanges == t.changes + Changes(cfg, p, i)
      modifies node`min, node`numSocketChanges, node`best, leaf`min
      ensures {child, node.best} == {leaf, old(node.best)}
      ensures Holds(node, cfg, base,
        if leaf.norme < t.min || (t.best.Some? && leaf.numSocketChanges >= t.best.value.changes) then t
        else Track(leaf.norme, leaf.numSocketChanges, Some(Leaf(p + [i], leaf.numSocketChanges))))
    {
      child := leaf;
      child.min := child.norme;
      if child.min < node.min {
        return;
      }
      if node.best != null && child.numSocketChanges >= node.best.numSocketChanges {
        return;
      }
      var tmp := node.best;
      node.best := child;
      node.min := child.min;
      node.numSocketChanges := child.numSocketChanges;
      child := tmp;
    }

    ghost predicate Ready()
      reads this, freeNodes, freeNodes.chained
    {
      Valid() && numSockets >= 1 && numProcesses >= 1
    }

    ghost function DemandFor(threads: seq<int>): Demand {
      Demand(numSockets, numCoresPerSocket, threads)
    }

    /** decision_tree_compute_placement. `found` is false where that function stops the program with
        a fatal error. */
    method ComputePlacement(processes: seq<CoreProcess>, ghost threads: seq<int>, ghost previous: seq<int>)
      returns (found: bool)
      requires Ready() && |processes| == numProcesses == |threads| == |previous| && Distinct(processes)
      requires forall i :: 0 <= i < |processes| ==>
        processes[i].numThreads == threads[i] && processes[i].prevSocketId == previous[i]
      requires DemandFor(threads).Valid()
      modifies this`numFreeNodes, this`live, this`numLive, this`owned, this`peak, freeNodes, freeNodes.chained
      modifies processes`socketId, processes`prevSocketId
      ensures Valid() && fresh(owned - old(owned))
      ensures found <==> ComputedPlacement(DemandFor(threads)).Some?
      ensures found ==> forall i :: 0 <= i < |processes| ==>
        && processes[i].socketId == ComputedPlacement(DemandFor(threads)).value[i]
        && processes[i].prevSocketId == old(processes[i].socketId)
      ensures found ==> live == old(live)
      ensures peak <= Max(old(peak), old(numLive) + 2 * numProcesses + 1)
    {
      hide Counts; hide ListHead.Valid; hide Expected; hide Setup; hide SortOrder; hide Describes; hide HeldFor;
      hide Assign; hide Outcome;
      ghost var d := DemandFor(threads);
      ghost var cfg := Setup(d, previous);
      ghost var base: seq<TreeProcess>;
      var root: TreeNode;
      root, base := AllocRootNode(processes, threads, previous);
      SearchFromRoot(root, cfg, base);
      PlacementIgnoresHistory(d, previous);
      found := root.best != null;
      if found {
        PublishBest(root, processes, cfg, base, threads);
      }
    }

    /** The search from the root node. */
    method SearchFromRoot(root: TreeNode, ghost cfg: Config, ghost base: seq<TreeProcess>)
      requires Valid() && Measures(cfg) && Describes(cfg, base)
      requires root in live && root.best == null && root.father == null && At(root, cfg, base, [])
      requires root.min == UNSET && root.numSocketChanges == 0
      modifies this`numFreeNodes, this`live, this`numLive, this`owned, this`peak, freeNodes, freeNodes.chained
      modifies root`min, root`numSocketChanges, root`best
      ensures Valid() && fresh(owned - old(owned))
      ensures Holds(root, cfg, base, Outcome(cfg))
      ensures root.best == null <==> Outcome(cfg).best.None?
      ensures live == old(live) + Opt(root.best) && root.best !in old(live)
      ensures numLive == old(numLive) + One(root.best)
      ensures peak <= Max(old(peak), old(numLive) + 2 * numProcesses)
    {
      hide Counts; hide ListHead.Valid; hide Expected; hide Visit;
      BuildTreeRecursive(root, cfg, base, [], Track(0, 0, None), null);
    }

    /** Hands the best placement to the caller's records and gives the last two nodes back. */
    method PublishBest(root: TreeNode, processes: seq<CoreProcess>, ghost cfg: Config, ghost base: seq<TreeProcess>,
                       ghost threads: seq<int>)
      requires Valid() && root in live && Opt(root.best) <= live && root.best != root
      requires cfg.Valid() && |base| == |cfg.demand.threads| && Outcome(cfg).best.Some?
      requires Holds(root, cfg, base, Outcome(cfg))
      requires |processes| == |base| == |threads| && Distinct(processes)
      requires |Outcome(cfg).best.value.sockets| == |threads|
      requires forall k :: 0 <= k < |base| ==> base[k].coreProcess == SortOrder(threads)[k]
      modifies this`numFreeNodes, this`live, this`numLive, this`owned, freeNodes, freeNodes.chained
      modifies root, Opt(root.best)
      modifies processes`socketId, processes`prevSocketId
      ensures Valid() && owned <= old(owned)
      ensures forall i :: 0 <= i < |processes| ==>
        && processes[i].socketId == Assign<nat>(SortOrder(threads), Outcome(cfg).best.value.sockets)[i]
        && processes[i].prevSocketId == old(processes[i].socketId)
      ensures live == old(live) - {root} - Opt(old(root.best))
      ensures numLive == old(numLive) - 2
    {
      hide Counts; hide ListHead.Valid; hide Outcome; hide SortOrder; hide Assign;
      OutcomeGenuine(cfg);
      LeafCounters(root, cfg, base, Outcome(cfg));
      hide Expected;
      UpdateCoreProcessesList(root.best, processes, base, Outcome(cfg).best.value.sockets, threads);
      FreeNode(root.best);
      FreeNode(root);
    }

    method AllocRootNode(processes: seq<CoreProcess>, ghost threads: seq<int>, ghost previous: seq<int>)
      returns (root: TreeNode, ghost base: seq<TreeProcess>)
      requires Ready() && |processes| == numProcesses == |threads| == |previous|
      requires forall i :: 0 <= i < |processes| ==>
        processes[i].numThreads == threads[i] && processes[i].prevSocketId == previous[i]
      requires DemandFor(threads).Valid()
      modifies this`numFreeNodes, this`live, this`numLive, this`owned, this`peak, freeNodes, freeNodes.chained
      ensures Valid() && fresh(owned - old(owned))
      ensures root !in old(live) && live == old(live) + {root}
      ensures numLive == old(numLive) + 1 && peak == Max(old(peak), numLive)
      ensures var cfg := Setup(DemandFor(threads), previous);
        Describes(cfg, base) && At(root, cfg, base, []) && root.min == UNSET && root.numSocketChanges == 0
      ensures root.best == null && root.father == null
      ensures |base| == |threads| && forall k :: 0 <= k < |base| ==> base[k].coreProcess == SortOrder(threads)[k]
    {
      hide Counts; hide ListHead.Valid; hide Expected;
      root := AllocNode();
      base := InitRootNode(root, processes, threads, previous);
    }

    method InitRootNode(root: TreeNode, processes: seq<CoreProcess>, ghost threads: seq<int>, ghost previous: seq<int>)
      returns (ghost base: seq<TreeProcess>)
      requires numSockets >= 1 && numProcesses >= 1
      requires |processes| == numProcesses == |threads| == |previous|
      requires forall i :: 0 <= i < |processes| ==>
        processes[i].numThreads == threads[i] && processes[i].prevSocketId == previous[i]
      requires DemandFor(threads).Valid()
      modifies root
      ensures Describes(Setup(DemandFor(threads), previous), base)
      ensures At(root, Setup(DemandFor(threads), previous), base, [])
      ensures root.min == UNSET && root.numSocketChanges == 0 && root.best == null && root.father == null
      ensures |base| == |threads| && forall k :: 0 <= k < |base| ==> base[k].coreProcess == SortOrder(threads)[k]
    {
      hide Expected; hide Permutation; hide Ascending; hide Setup; hide SortOrder; hide Describes;
      root.min := UNSET;
      root.norme := UNSET;
      root.father := null;
      root.best := null;
      root.numSocketChanges := 0;
      root.placedNumProcesses := 0;
      root.depth := 0;
      root.data := EmptySockets();
      var copied, keys := CopyProcesses(processes, threads, previous);
      root.processes := Pick(copied, SortOrder(keys));
      base := root.processes;
      RootCounters(DemandFor(threads), previous, base);
    }

    method EmptySockets() returns (data: seq<int>)
      ensures data == seq(numSockets, _ => numCoresPerSocket)
    {
      data := [];
      for i := 0 to numSockets
        invariant data == seq(i, _ => numCoresPerSocket)
      {
        data := data + [numCoresPerSocket];
      }
    }

    method CopyProcesses(processes: seq<CoreProcess>, ghost threads: seq<int>, ghost previous: seq<int>)
      returns (copied: seq<TreeProcess>, keys: seq<int>)
      requires |processes| == numProcesses == |threads| == |previous|
      requires forall i :: 0 <= i < |processes| ==>
        processes[i].numThreads == threads[i] && processes[i].prevSocketId == previous[i]
      ensures keys == threads && |copied| == |processes|
      ensures forall k :: 0 <= k < |copied| ==>
        && copied[k].numThreads == threads[k]
        && copied[k].prevSocketId == previous[k]
        && copied[k].coreProcess == k
    {
      copied, keys := [], [];
      for i := 0 to numProcesses
        invariant |keys| == |copied| == i
        invariant forall k :: 0 <= k < i ==>
          && keys[k] == threads[k]
          && copied[k].numThreads == threads[k]
          && copied[k].prevSocketId == previous[k]
          && copied[k].coreProcess == k
      {
        var process := processes[i];
        keys := keys + [process.numThreads];
        copied := copied + [TreeProcess(process.numThreads, -1, process.prevSocketId, process.nodeRank, i)];
      }
    }

    /** tree_update_core_processes_list: the leaf's sockets go back to the caller's records. */
    method UpdateCoreProcessesList(leaf: TreeNode, processes: seq<CoreProcess>, ghost base: seq<TreeProcess>,
                                   ghost p: seq<nat>, ghost threads: seq<int>)
      requires |processes| == |base| == |p| == |threads| && Distinct(processes)
      requires leaf.placedNumProcesses == |p| && leaf.processes == Placed(base, p)
      requires forall k :: 0 <= k < |base| ==> base[k].coreProcess == SortOrder(threads)[k]
      modifies processes`socketId, processes`prevSocketId
      ensures forall i :: 0 <= i < |processes| ==>
        && processes[i].socketId == Assign<nat>(SortOrder(threads), p)[i]
        && processes[i].prevSocketId == old(processes[i].socketId)
    {
      hide SortOrder; hide Ascending; hide Assign;
      ghost var order := SortOrder(threads);
      for i := 0 to leaf.placedNumProcesses
        invariant forall k :: 0 <= k < i ==>
          processes[order[k]].socketId == p[k] && processes[order[k]].prevSocketId == old(processes[order[k]].socketId)
        invariant forall k :: i <= k < |order| ==>
          processes[order[k]].socketId == old(processes[order[k]].socketId)
      {
        var treeProcess := leaf.processes[i];
        var coreProcess := processes[treeProcess.coreProcess];
        var socketId := coreProcess.socketId;
        coreProcess.socketId := treeProcess.socketId;
        coreProcess.prevSocketId := socketId;
      }
      forall i | 0 <= i < |processes|
        ensures processes[i].socketId == Assign<nat>(order, p)[i]
        ensures processes[i].prevSocketId == old(processes[i].socketId)
      {
        assert order[PlaceOf(order, i)] == i;
      }
    }
  }

  lemma LeafCounters(x: TreeNode, cfg: Config, base: seq<TreeProcess>, t: Track)
    requires cfg.Valid() && |base| == |cfg.demand.threads| && Genuine(cfg, t)
    requires Holds(x, cfg, base, t) && t.best.Some?
    ensures x.best != null && x.best.placedNumProcesses == |t.best.value.sockets|
    ensures x.best.processes == Placed(base, t.best.value.sockets)
  {
  }

  /** The root's counters are those of the empty placement. */
  lemma RootCounters(d: Demand, previous: seq<int>, base: seq<TreeProcess>)
    requires d.Valid() && |previous| == |d.threads| == |base| >= 1
    requires forall k :: 0 <= k < |base| ==>
      && base[k].numThreads == d.threads[SortOrder(d.threads)[k]]
      && base[k].prevSocketId == previous[SortOrder(d.threads)[k]]
    ensures Describes(Setup(d, previous), base)
    ensures Expected(Setup(d, previous), base, []) == State(0, base, seq(d.numSockets, _ => d.coresPerSocket), UNSET)
  {
    assert Placed(base, []) == base;
  }
}
