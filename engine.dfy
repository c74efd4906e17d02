/**
 * The traversal as the component runs it: the colour, discovery and finish
 * refs, the `tempo` ref and the highlighted edge are fields that `dfsVisit`
 * and `startDFS` overwrite step by step. Each method is proved to leave the
 * fields exactly as the corresponding function of module Dfs describes, so
 * every lemma proved there holds of the engine.
 */
module Engine {
  import opened Wrappers
  import opened Graph
  import opened Dfs

  class DfsEngine {
    /** The node list captured by the render that started the traversal. */
    const nodes: seq<Node>
    var nodeStates: map<NodeId, Color>
    var discoveryTime: map<NodeId, int>
    var finishTime: map<NodeId, int>
    var tempo: int
    var highlightedEdge: Option<Edge>
    /** The highlight changes and stamps published to the renderer, in order. */
    ghost var trace: seq<Event>

    /** The fields read as one run state. */
    ghost function Snapshot(): Run
      reads this
    {
      Run(nodeStates, discoveryTime, finishTime, tempo, highlightedEdge, trace)
    }

    /** The run invariant holds of the fields. */
    ghost predicate Valid()
      reads this
    {
      Consistent(Snapshot())
    }

    /** The refs as the component first creates them: empty records, `tempo` 0, no highlight. */
    constructor (nodes: seq<Node>)
      ensures this.nodes == nodes
      ensures Snapshot() == Run(map[], map[], map[], 0, None, [])
      ensures Valid()
    {
      this.nodes := nodes;
      nodeStates := map[];
      discoveryTime := map[];
      finishTime := map[];
      tempo := 0;
      highlightedEdge := None;
      trace := [];
    }

    /**
     * `dfsVisit(node, parentId)`: a missing node, or one whose recorded state
     * is not white, is left alone; otherwise the node is entered, its
     * children are examined in stored order, and it is left.
     */
    method DfsVisit(node: Option<Node>, parentId: Option<NodeId>)
      modifies this
      ensures Snapshot() == Dfs.Visit(nodes, old(Snapshot()), node, parentId)
      ensures old(Valid()) ==> Valid()
      decreases Whites(nodeStates), 0
    {
      if Valid() {
        VisitKeepsConsistent(nodes, Snapshot(), node, parentId);
      }
      if node.None? {
        return;
      }
      var n := node.value;
      var currentState := if n.id in nodeStates then Some(nodeStates[n.id]) else None;
      if currentState != Some(White) {
        return;
      }
      Enter(n.id, parentId);
      RecolorLeavesWhites(old(nodeStates), n.id, Gray);
      VisitChildrenOf(n);
      Leave(n.id);
    }

    /** The first part of `dfsVisit`: highlight the edge in, turn `id` gray, stamp its discovery. */
    method Enter(id: NodeId, parentId: Option<NodeId>)
      modifies this
      ensures Snapshot() == Discover(old(Snapshot()), id, parentId)
    {
      var edge := if parentId.Some? && parentId.value != "" then Some((parentId.value, id)) else None;
      highlightedEdge, nodeStates, tempo, discoveryTime, trace :=
        edge, nodeStates[id := Gray], tempo + 1, discoveryTime[id := tempo + 1],
        trace + [Highlight(edge), Discovered(id, tempo + 1)];
    }

    /**
     * The `for (const childId of n.childrenIds)` loop of `dfsVisit`: a child
     * id is looked up, and a node found there that is recorded white is
     * visited with `n.id` as its parent.
     */
    method VisitChildrenOf(n: Node)
      modifies this
      ensures Snapshot() == Dfs.VisitChildren(nodes, old(Snapshot()), n.id, n.childrenIds)
      ensures old(Valid()) ==> Valid()
      decreases Whites(nodeStates), 1
    {
      if Valid() {
        VisitChildrenKeepsConsistent(nodes, Snapshot(), n.id, n.childrenIds);
      }
      ghost var result := VisitChildren(nodes, Snapshot(), n.id, n.childrenIds);
      var i := 0;
      while i < |n.childrenIds|
        invariant 0 <= i <= |n.childrenIds|
        invariant Whites(nodeStates) <= Whites(old(nodeStates))
        invariant VisitChildren(nodes, Snapshot(), n.id, n.childrenIds[i..]) == result
      {
        ghost var before := Snapshot();
        var childNode := FindNodeById(nodes, n.childrenIds[i]);
        if childNode.Some? && childNode.value.id in nodeStates && nodeStates[childNode.value.id] == White {
          DfsVisit(childNode, Some(n.id));
        }
        ChildStep(nodes, n.id, n.childrenIds, i, result, before, Snapshot());
        i := i + 1;
      }
      assert n.childrenIds[i..] == [];
    }

    /** The last part of `dfsVisit`: turn `id` black, stamp its finish, clear the highlight. */
    method Leave(id: NodeId)
      modifies this
      ensures Snapshot() == Finish(old(Snapshot()), id)
    {
      nodeStates, tempo, finishTime, highlightedEdge, trace :=
        nodeStates[id := Black], tempo + 1, finishTime[id := tempo + 1], None,
        trace + [Finished(id, tempo + 1), Highlight(None)];
    }

    /**
     * `startDFS`: the reset, then a visit of `nodes[0]` if there is one, then
     * the sweep over every node still white. The run invariant holds after.
     */
    method StartDFS()
      modifies this
      ensures Snapshot() == Dfs.StartDfs(nodes)
      ensures Valid()
    {
      ResetRun();
      if |nodes| > 0 {
        DfsVisit(Some(nodes[0]), None);
      }
      assert Snapshot() == VisitFirst(nodes);
      VisitRemaining();
      StartDfsFinishesEveryNode(nodes);
    }

    /**
     * The reset at the head of `startDFS`: a fresh colour record with every
     * node white, empty stamp records, `tempo` 0 and no highlighted edge.
     */
    method ResetRun()
      modifies this
      ensures Snapshot() == Dfs.Reset(nodes)
    {
      var initialStates: map<NodeId, Color> := map[];
      for i := 0 to |nodes|
        invariant initialStates == AllWhite(nodes[..i])
      {
        assert nodes[..i + 1][..i] == nodes[..i];
        initialStates := initialStates[nodes[i].id := White];
      }
      assert nodes[..|nodes|] == nodes;
      nodeStates, discoveryTime, finishTime, tempo, highlightedEdge, trace :=
        initialStates, map[], map[], 0, None, [Highlight(None)];
    }

    /** The `for (const node of nodes)` sweep of `startDFS`: each node still white is visited as a root. */
    method VisitRemaining()
      modifies this
      ensures Snapshot() == Sweep(nodes, old(Snapshot()), 0)
    {
      for k := 0 to |nodes|
        invariant Sweep(nodes, Snapshot(), k) == Sweep(nodes, old(Snapshot()), 0)
      {
        ghost var before := Snapshot();
        var node := nodes[k];
        if node.id in nodeStates && nodeStates[node.id] == White {
          DfsVisit(Some(node), None);
        }
        SweepStep(nodes, before, k, Snapshot());
      }
    }
  }
}
