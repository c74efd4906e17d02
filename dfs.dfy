/**
 * The depth-first traversal as pure functions over one run's state: the
 * colour map, the two timestamp maps, the shared `tempo` counter, the
 * highlighted edge and the events published to the rendering layer.
 * `Visit` is `dfsVisit`, `VisitChildren` its loop over `childrenIds`,
 * `StartDfs` is `startDFS`. The engine class in module Engine is proved to
 * compute exactly these functions; the lemmas here state what they promise.
 */
module Dfs {
  import opened Wrappers
  import opened Graph

  /** White = not yet discovered, Gray = discovered and open, Black = finished. */
  datatype Color = White | Gray | Black

  /** A highlighted edge `[parentId, childId]`. */
  type Edge = (NodeId, NodeId)

  /** What the rendering layer observes, in order. */
  datatype Event =
    | Highlight(edge: Option<Edge>)
    | Discovered(id: NodeId, time: int)
    | Finished(id: NodeId, time: int)

  /** One run's mutable state (the refs and the highlighted-edge state). */
  datatype Run = Run(
    states: map<NodeId, Color>,
    discovery: map<NodeId, int>,
    finish: map<NodeId, int>,
    tempo: int,
    highlightedEdge: Option<Edge>,
    trace: seq<Event>)

  /** The ids whose recorded colour is white. An id with no entry is not white. */
  function Whites(states: map<NodeId, Color>): set<NodeId>
  {
    set id | id in states && states[id] == White
  }

  predicate IsWhite(st: Run, id: NodeId)
  {
    id in st.states && st.states[id] == White
  }

  /** `if (parentId)`: a missing or empty parent id highlights nothing. */
  function EdgeInto(parentId: Option<NodeId>, id: NodeId): Option<Edge>
  {
    if parentId.Some? && parentId.value != "" then Some((parentId.value, id)) else None
  }

  /** Whether `dfsVisit(node)` does any work: the node exists and is white. */
  predicate Enters(st: Run, node: Option<Node>)
  {
    node.Some? && IsWhite(st, node.value.id)
  }

  /** Entering a node: highlight, turn it gray, advance the clock, stamp discovery. */
  function Discover(st: Run, id: NodeId, parentId: Option<NodeId>): Run
  {
    var t := st.tempo + 1;
    var edge := EdgeInto(parentId, id);
    st.(states := st.states[id := Gray], discovery := st.discovery[id := t], tempo := t,
        highlightedEdge := edge, trace := st.trace + [Highlight(edge), Discovered(id, t)])
  }

  /** Leaving a node: turn it black, advance the clock, stamp finish, clear the highlight. */
  function Finish(st: Run, id: NodeId): Run
  {
    var t := st.tempo + 1;
    st.(states := st.states[id := Black], finish := st.finish[id := t], tempo := t,
        highlightedEdge := None, trace := st.trace + [Finished(id, t), Highlight(None)])
  }

  /**
   * `dfsVisit(node, parentId)` on the graph `g`. Only white nodes change
   * colour, and each of them ends black; nothing else is touched.
   */
  function Visit(g: seq<Node>, st: Run, node: Option<Node>, parentId: Option<NodeId>): (r: Run)
    ensures Whites(r.states) <= Whites(st.states)
    decreases Whites(st.states), 0, 0
  {
    if !Enters(st, node) then st
    else
      var id := node.value.id;
      var entered := Discover(st, id, parentId);
      assert id in Whites(st.states) - Whites(entered.states);
      Finish(VisitChildren(g, entered, id, node.value.childrenIds), id)
  }

  /**
   * The `for (const childId of node.childrenIds)` loop: children in stored
   * order; an id that names no node, or a node that is not white, is passed
   * over; a white child is visited with `parentId` as its parent.
   */
  function VisitChildren(g: seq<Node>, st: Run, parentId: NodeId, cs: seq<NodeId>): (r: Run)
    ensures Whites(r.states) <= Whites(st.states)
    decreases Whites(st.states), 1, |cs|
  {
    if cs == [] then st
    else
      var child := FindNodeById(g, cs[0]);
      var next := if child.Some? && IsWhite(st, child.value.id) then Visit(g, st, child, Some(parentId)) else st;
      VisitChildren(g, next, parentId, cs[1..])
  }

  /** The colour map `startDFS` builds: every node of `g` white. */
  function AllWhite(g: seq<Node>): (m: map<NodeId, Color>)
    ensures m.Keys == Ids(g)
    ensures forall id :: id in m ==> m[id] == White
  {
    if g == [] then map[]
    else
      IdsSnoc(g);
      AllWhite(g[..|g| - 1])[g[|g| - 1].id := White]
  }

  /** The state right after the reset at the start of `startDFS`. */
  function Reset(g: seq<Node>): Run
  {
    Run(AllWhite(g), map[], map[], 0, None, [Highlight(None)])
  }

  /** The `for (const node of nodes)` sweep of `startDFS`, from position `i`. */
  function Sweep(g: seq<Node>, st: Run, i: nat): (r: Run)
    requires i <= |g|
    ensures Whites(r.states) <= Whites(st.states)
    decreases |g| - i
  {
    if i == |g| then st
    else
      var next := if IsWhite(st, g[i].id) then Visit(g, st, Some(g[i]), None) else st;
      Sweep(g, next, i + 1)
  }

  /** The first part of `startDFS`: reset, then visit `nodes[0]` if there is one. */
  function VisitFirst(g: seq<Node>): Run
  {
    var st := Reset(g);
    if |g| > 0 then Visit(g, st, Some(g[0]), None) else st
  }

  /** `startDFS`: reset, visit `nodes[0]`, then sweep every node still white. */
  function StartDfs(g: seq<Node>): Run
  {
    Sweep(g, VisitFirst(g), 0)
  }

  // ---------------------------------------------------------------------
  // What a visit leaves alone

  /**
   * `r` is `st` carried forward: the same ids have a colour, a node that was
   * not white keeps its colour, a white node does not end gray, and the
   * published events only grow.
   */
  ghost predicate Extends(st: Run, r: Run)
  {
    && r.states.Keys == st.states.Keys
    && (forall id :: id in st.states && st.states[id] != White ==> r.states[id] == st.states[id])
    && (forall id :: id in st.states && st.states[id] == White ==> r.states[id] != Gray)
    && st.trace <= r.trace
  }

  /**
   * A visit only extends the run. One that does not enter (missing node, or
   * a node not recorded white) changes nothing at all; one that enters
   * leaves the node black and no edge highlighted.
   */
  lemma {:induction false} VisitFrame(g: seq<Node>, st: Run, node: Option<Node>, parentId: Option<NodeId>)
    ensures var r := Visit(g, st, node, parentId);
      && Extends(st, r)
      && (!Enters(st, node) ==> r == st)
      && (Enters(st, node) ==> r.states[node.value.id] == Black && r.highlightedEdge == None)
    decreases Whites(st.states), 0, 0
  {
    if Enters(st, node) {
      var id := node.value.id;
      RecolorLeavesWhites(st.states, id, Gray);
      VisitChildrenFrame(g, Discover(st, id, parentId), id, node.value.childrenIds);
    }
  }

  lemma {:induction false} VisitChildrenFrame(g: seq<Node>, st: Run, parentId: NodeId, cs: seq<NodeId>)
    ensures Extends(st, VisitChildren(g, st, parentId, cs))
    decreases Whites(st.states), 1, |cs|
  {
    if cs != [] {
      var child := FindNodeById(g, cs[0]);
      if child.Some? && IsWhite(st, child.value.id) {
        var next := Visit(g, st, child, Some(parentId));
        VisitFrame(g, st, child, Some(parentId));
        VisitChildrenFrame(g, next, parentId, cs[1..]);
      } else {
        VisitChildrenFrame(g, st, parentId, cs[1..]);
      }
    }
  }

  /** The sweep only extends the run, and leaves no node of the list white from `i` on. */
  lemma {:induction false} SweepFrame(g: seq<Node>, st: Run, i: nat)
    requires i <= |g|
    ensures var r := Sweep(g, st, i);
      Extends(st, r) && forall j :: i <= j < |g| ==> !IsWhite(r, g[j].id)
    decreases |g| - i
  {
    if i < |g| {
      var next := if IsWhite(st, g[i].id) then Visit(g, st, Some(g[i]), None) else st;
      VisitFrame(g, st, Some(g[i]), None);
      SweepFrame(g, next, i + 1);
    }
  }

  /** One turn of the children loop: examine `cs[i]`, visiting it if it names a white node. */
  lemma ChildStep(g: seq<Node>, parentId: NodeId, cs: seq<NodeId>, i: nat, result: Run, before: Run, after: Run)
    requires i < |cs|
    requires VisitChildren(g, before, parentId, cs[i..]) == result
    requires var child := FindNodeById(g, cs[i]);
      after == if child.Some? && IsWhite(before, child.value.id) then Visit(g, before, child, Some(parentId)) else before
    ensures VisitChildren(g, after, parentId, cs[i + 1..]) == result
  {
    assert cs[i..][1..] == cs[i + 1..];
  }

  /** One turn of the sweep: visit `g[i]` as a root if it is still white. */
  lemma SweepStep(g: seq<Node>, st: Run, i: nat, after: Run)
    requires i < |g|
    requires after == if IsWhite(st, g[i].id) then Visit(g, st, Some(g[i]), None) else st
    ensures Sweep(g, after, i + 1) == Sweep(g, st, i)
  {
  }

  // ---------------------------------------------------------------------
  // The run invariant

  /**
   * What holds of the run state between any two steps of a run: a node has
   * a discovery time exactly when it is not white and a finish time exactly
   * when it is black; stamps lie in 1..tempo, discovery precedes finish, no
   * two stamps are equal, and a finished node's interval either ends before
   * a later-discovered node starts or encloses that node's whole interval.
   */
  ghost predicate Consistent(st: Run)
  {
    ColorsMatchStamps(st) && StampsInRange(st) && StampsDistinct(st) && IntervalsNest(st)
  }

  ghost predicate ColorsMatchStamps(st: Run)
  {
    && (forall id :: id in st.discovery <==> id in st.states && st.states[id] != White)
    && (forall id :: id in st.finish <==> id in st.states && st.states[id] == Black)
  }

  ghost predicate StampsInRange(st: Run)
  {
    && st.tempo >= 0
    && (forall id :: id in st.discovery ==> 1 <= st.discovery[id] <= st.tempo)
    && (forall id :: id in st.finish ==> id in st.discovery && st.discovery[id] < st.finish[id] <= st.tempo)
  }

  ghost predicate StampsDistinct(st: Run)
  {
    && (forall u, v :: u in st.discovery && v in st.discovery && u != v ==> st.discovery[u] != st.discovery[v])
    && (forall u, v :: u in st.finish && v in st.finish && u != v ==> st.finish[u] != st.finish[v])
    && (forall u, v :: u in st.discovery && v in st.finish ==> st.discovery[u] != st.finish[v])
  }

  ghost predicate IntervalsNest(st: Run)
  {
    forall u, v :: u in st.finish && u in st.discovery && v in st.discovery && st.discovery[u] < st.discovery[v] ==>
      st.finish[u] < st.discovery[v] || (v in st.finish && st.finish[v] < st.finish[u])
  }

  /** Stamps already written are never rewritten (each is written once per run). */
  ghost predicate StampsKept(st: Run, r: Run)
  {
    && (forall id :: id in st.discovery ==> id in r.discovery && r.discovery[id] == st.discovery[id])
    && (forall id :: id in st.finish ==> id in r.finish && r.finish[id] == st.finish[id])
    && st.tempo <= r.tempo
  }

  /** Every node discovered between `st` and `r` was stamped in that stretch and is finished. */
  ghost predicate FreshStamps(st: Run, r: Run)
  {
    forall id :: id in Whites(st.states) && id !in Whites(r.states) ==>
      id in r.discovery && id in r.finish && st.tempo < r.discovery[id] && r.finish[id] <= r.tempo
  }

  lemma ResetConsistent(g: seq<Node>)
    ensures Consistent(Reset(g)) && Whites(Reset(g).states) == Ids(g)
  {
  }

  lemma DiscoverKeepsConsistent(st: Run, id: NodeId, parentId: Option<NodeId>)
    requires Consistent(st) && IsWhite(st, id)
    ensures var r := Discover(st, id, parentId);
      Consistent(r) && StampsKept(st, r) && r.discovery[id] == r.tempo == st.tempo + 1
  {
    var r := Discover(st, id, parentId);
    assert id !in st.discovery && id !in st.finish;
    assert r.tempo == st.tempo + 1 && r.finish == st.finish && r.discovery == st.discovery[id := r.tempo];
    assert r.states == st.states[id := Gray];
    DiscoverColors(st, r, id);
    DiscoverRange(st, r, id);
    DiscoverDistinct(st, r, id);
    DiscoverNest(st, r, id);
  }

  lemma DiscoverColors(st: Run, r: Run, id: NodeId)
    requires ColorsMatchStamps(st) && IsWhite(st, id)
    requires r.tempo == st.tempo + 1 && r.finish == st.finish && r.discovery == st.discovery[id := r.tempo]
    requires r.states == st.states[id := Gray]
    ensures ColorsMatchStamps(r) && StampsKept(st, r)
  {
  }

  lemma DiscoverRange(st: Run, r: Run, id: NodeId)
    requires StampsInRange(st) && id !in st.finish
    requires r.tempo == st.tempo + 1 && r.finish == st.finish && r.discovery == st.discovery[id := r.tempo]
    ensures StampsInRange(r)
  {
    forall x | x in r.finish ensures x in r.discovery && r.discovery[x] < r.finish[x] <= r.tempo {
      assert x != id && x in st.discovery;
    }
  }

  lemma DiscoverDistinct(st: Run, r: Run, id: NodeId)
    requires StampsInRange(st) && StampsDistinct(st) && id !in st.discovery
    requires r.tempo == st.tempo + 1 && r.finish == st.finish && r.discovery == st.discovery[id := r.tempo]
    ensures StampsDistinct(r)
  {
    forall u, v | u in r.discovery && v in r.discovery && u != v ensures r.discovery[u] != r.discovery[v] {
      if u != id && v != id {
        assert r.discovery[u] == st.discovery[u] && r.discovery[v] == st.discovery[v];
      }
    }
    forall u, v | u in r.discovery && v in r.finish ensures r.discovery[u] != r.finish[v] {
      if u != id {
        assert r.discovery[u] == st.discovery[u];
      }
    }
  }

  lemma DiscoverNest(st: Run, r: Run, id: NodeId)
    requires StampsInRange(st) && IntervalsNest(st) && id !in st.discovery && id !in st.finish
    requires r.tempo == st.tempo + 1 && r.finish == st.finish && r.discovery == st.discovery[id := r.tempo]
    ensures IntervalsNest(r)
  {
    forall u, v | u in r.finish && u in r.discovery && v in r.discovery && r.discovery[u] < r.discovery[v]
      ensures r.finish[u] < r.discovery[v] || (v in r.finish && r.finish[v] < r.finish[u])
    {
      assert u != id;
      if v != id {
        assert r.discovery[v] == st.discovery[v] && r.discovery[u] == st.discovery[u];
      }
    }
  }

  /** Finishing a gray node after everything discovered since it has finished. */
  lemma FinishKeepsConsistent(st: Run, id: NodeId)
    requires Consistent(st) && id in st.states && st.states[id] == Gray
    requires forall v :: v in st.discovery && st.discovery[v] > st.discovery[id] ==> v in st.finish
    ensures var r := Finish(st, id);
      Consistent(r) && StampsKept(st, r) && r.finish[id] == r.tempo == st.tempo + 1
  {
    var r := Finish(st, id);
    assert id in st.discovery && id !in st.finish;
    assert r.tempo == st.tempo + 1 && r.discovery == st.discovery && r.finish == st.finish[id := r.tempo];
    assert r.states == st.states[id := Black];
    FinishColors(st, r, id);
    FinishRange(st, r, id);
    FinishDistinct(st, r, id);
    FinishNest(st, r, id);
  }

  lemma FinishColors(st: Run, r: Run, id: NodeId)
    requires ColorsMatchStamps(st) && id in st.states && st.states[id] == Gray
    requires r.tempo == st.tempo + 1 && r.discovery == st.discovery && r.finish == st.finish[id := r.tempo]
    requires r.states == st.states[id := Black]
    ensures ColorsMatchStamps(r) && StampsKept(st, r)
  {
  }

  lemma FinishRange(st: Run, r: Run, id: NodeId)
    requires StampsInRange(st) && id in st.discovery
    requires r.tempo == st.tempo + 1 && r.discovery == st.discovery && r.finish == st.finish[id := r.tempo]
    ensures StampsInRange(r)
  {
    forall x | x in r.finish ensures x in r.discovery && r.discovery[x] < r.finish[x] <= r.tempo {
      if x != id {
        assert r.finish[x] == st.finish[x];
      }
    }
  }

  lemma FinishDistinct(st: Run, r: Run, id: NodeId)
    requires StampsInRange(st) && StampsDistinct(st) && id !in st.finish
    requires r.tempo == st.tempo + 1 && r.discovery == st.discovery && r.finish == st.finish[id := r.tempo]
    ensures StampsDistinct(r)
  {
    forall u, v | u in r.finish && v in r.finish && u != v ensures r.finish[u] != r.finish[v] {
      if u != id && v != id {
        assert r.finish[u] == st.finish[u] && r.finish[v] == st.finish[v];
      }
    }
    forall u, v | u in r.discovery && v in r.finish ensures r.discovery[u] != r.finish[v] {
      if v != id {
        assert r.finish[v] == st.finish[v];
      }
    }
  }

  lemma FinishNest(st: Run, r: Run, id: NodeId)
    requires StampsInRange(st) && IntervalsNest(st) && id in st.discovery && id !in st.finish
    requires forall v :: v in st.discovery && st.discovery[v] > st.discovery[id] ==> v in st.finish
    requires r.tempo == st.tempo + 1 && r.discovery == st.discovery && r.finish == st.finish[id := r.tempo]
    ensures IntervalsNest(r)
  {
    forall u, v | u in r.finish && u in r.discovery && v in r.discovery && r.discovery[u] < r.discovery[v]
      ensures r.finish[u] < r.discovery[v] || (v in r.finish && r.finish[v] < r.finish[u])
    {
      if u == id {
        assert v in st.finish && v != id;
        assert r.finish[v] == st.finish[v];
      } else if v == id {
        assert r.finish[u] == st.finish[u];
      } else {
        assert r.finish[u] == st.finish[u];
        assert v in st.finish ==> r.finish[v] == st.finish[v];
      }
    }
  }

  lemma FreshStampsCompose(a: Run, b: Run, c: Run)
    requires Whites(c.states) <= Whites(b.states)
    requires StampsKept(a, b) && StampsKept(b, c) && FreshStamps(a, b) && FreshStamps(b, c)
    ensures StampsKept(a, c) && FreshStamps(a, c)
  {
  }

  lemma {:induction false} VisitKeepsConsistent(g: seq<Node>, st: Run, node: Option<Node>, parentId: Option<NodeId>)
    requires Consistent(st)
    ensures var r := Visit(g, st, node, parentId);
      Consistent(r) && StampsKept(st, r) && FreshStamps(st, r)
    decreases |Whites(st.states)|, 0, 0
  {
    if Enters(st, node) {
      var id := node.value.id;
      var entered := Discover(st, id, parentId);
      DiscoverKeepsConsistent(st, id, parentId);
      RecolorLeavesWhites(st.states, id, Gray);
      assert id in Whites(st.states);
      assert |Whites(entered.states)| == |Whites(st.states)| - 1;
      VisitChildrenKeepsConsistent(g, entered, id, node.value.childrenIds);
      VisitChildrenFrame(g, entered, id, node.value.childrenIds);
      FinishAfterChildren(st, entered, VisitChildren(g, entered, id, node.value.childrenIds), id);
    }
  }

  /** The last step of a visit: `id` finishes once its children are done. */
  lemma FinishAfterChildren(st: Run, entered: Run, done: Run, id: NodeId)
    requires ColorsMatchStamps(entered) && StampsInRange(entered) && StampsKept(st, entered)
    requires id in entered.discovery && entered.discovery[id] == entered.tempo == st.tempo + 1
    requires Whites(entered.states) == Whites(st.states) - {id}
    requires Consistent(done) && StampsKept(entered, done) && FreshStamps(entered, done)
    requires done.states.Keys == entered.states.Keys && Whites(done.states) <= Whites(entered.states)
    requires id in done.states && done.states[id] == Gray
    ensures var r := Finish(done, id);
      Consistent(r) && StampsKept(st, r) && FreshStamps(st, r)
  {
    FinishedConsistent(entered, done, id);
    FinishStamps(done, id);
    VisitStampsFresh(st, entered, done, Finish(done, id), id);
  }

  lemma FinishStamps(st: Run, id: NodeId)
    requires id !in st.finish && id in st.states && st.states[id] != White
    ensures var r := Finish(st, id);
      StampsKept(st, r) && id in r.finish && r.finish[id] == r.tempo && Whites(r.states) == Whites(st.states)
  {
    RecolorLeavesWhites(st.states, id, Black);
  }

  lemma FinishedConsistent(entered: Run, done: Run, id: NodeId)
    requires ColorsMatchStamps(entered) && StampsInRange(entered)
    requires id in entered.discovery && entered.discovery[id] == entered.tempo
    requires Consistent(done) && StampsKept(entered, done) && FreshStamps(entered, done)
    requires done.states.Keys == entered.states.Keys
    requires id in done.states && done.states[id] == Gray
    ensures Consistent(Finish(done, id))
  {
    LaterDiscoveriesFinished(entered, done, id);
    FinishKeepsConsistent(done, id);
  }

  /** A subset is no larger than its superset. */
  lemma {:induction false} SubsetCard(a: set<NodeId>, b: set<NodeId>)
    requires a <= b
    ensures |a| <= |b|
    decreases b
  {
    if a != {} {
      var x :| x in a;
      SubsetCard(a - {x}, b - {x});
    }
  }

  /** Giving a node a non-white colour removes it, and only it, from the white set. */
  lemma RecolorLeavesWhites(m: map<NodeId, Color>, id: NodeId, c: Color)
    requires c != White
    ensures Whites(m[id := c]) == Whites(m) - {id}
  {
  }

  /** After the children of `id` are done, every node discovered after `id` has finished. */
  lemma LaterDiscoveriesFinished(entered: Run, done: Run, id: NodeId)
    requires ColorsMatchStamps(entered) && StampsInRange(entered) && ColorsMatchStamps(done)
    requires id in entered.discovery && entered.discovery[id] == entered.tempo
    requires done.states.Keys == entered.states.Keys
    requires StampsKept(entered, done) && FreshStamps(entered, done)
    ensures forall v :: v in done.discovery && done.discovery[v] > done.discovery[id] ==> v in done.finish
  {
    forall v | v in done.discovery && done.discovery[v] > done.discovery[id]
      ensures v in done.finish
    {
      assert v !in entered.discovery;
      assert v in Whites(entered.states) - Whites(done.states);
    }
  }

  /** Chains the stamp facts of discovery, the children and finish into one visit. */
  lemma VisitStampsFresh(st: Run, entered: Run, done: Run, r: Run, id: NodeId)
    requires StampsKept(st, entered) && id in entered.discovery && entered.discovery[id] == entered.tempo == st.tempo + 1
    requires Whites(entered.states) == Whites(st.states) - {id}
    requires StampsKept(entered, done) && FreshStamps(entered, done) && Whites(done.states) <= Whites(entered.states)
    requires StampsKept(done, r) && id in r.finish && r.finish[id] == r.tempo && Whites(r.states) == Whites(done.states)
    ensures StampsKept(st, r) && FreshStamps(st, r)
  {
  }

  lemma {:induction false} VisitChildrenKeepsConsistent(g: seq<Node>, st: Run, parentId: NodeId, cs: seq<NodeId>)
    requires Consistent(st)
    ensures var r := VisitChildren(g, st, parentId, cs);
      Consistent(r) && StampsKept(st, r) && FreshStamps(st, r)
    decreases |Whites(st.states)|, 1, |cs|
  {
    if cs != [] {
      var child := FindNodeById(g, cs[0]);
      var next := if child.Some? && IsWhite(st, child.value.id) then Visit(g, st, child, Some(parentId)) else st;
      var rest := VisitChildren(g, next, parentId, cs[1..]);
      assert VisitChildren(g, st, parentId, cs) == rest;
      VisitKeepsConsistent(g, st, child, Some(parentId));
      assert Visit(g, st, child, Some(parentId)) == next;
      SubsetCard(Whites(next.states), Whites(st.states));
      VisitChildrenKeepsConsistent(g, next, parentId, cs[1..]);
      FreshStampsCompose(st, next, rest);
    }
  }

  // ---------------------------------------------------------------------
  // The clock

  /** Each visit advances `tempo` by exactly two for every node it discovers. */
  lemma {:induction false} VisitCountsTempo(g: seq<Node>, st: Run, node: Option<Node>, parentId: Option<NodeId>)
    ensures var r := Visit(g, st, node, parentId);
      r.tempo == st.tempo + 2 * (|Whites(st.states)| - |Whites(r.states)|)
    decreases Whites(st.states), 0, 0
  {
    if Enters(st, node) {
      var id := node.value.id;
      var entered := Discover(st, id, parentId);
      RecolorLeavesWhites(st.states, id, Gray);
      assert id in Whites(st.states);
      var done := VisitChildren(g, entered, id, node.value.childrenIds);
      VisitChildrenCountsTempo(g, entered, id, node.value.childrenIds);
      RecolorLeavesWhites(done.states, id, Black);
      assert id !in Whites(done.states);
      assert Whites(done.states) - {id} == Whites(done.states);
    }
  }

  lemma {:induction false} VisitChildrenCountsTempo(g: seq<Node>, st: Run, parentId: NodeId, cs: seq<NodeId>)
    ensures var r := VisitChildren(g, st, parentId, cs);
      r.tempo == st.tempo + 2 * (|Whites(st.states)| - |Whites(r.states)|)
    decreases Whites(st.states), 1, |cs|
  {
    if cs != [] {
      var child := FindNodeById(g, cs[0]);
      if child.Some? && IsWhite(st, child.value.id) {
        VisitCountsTempo(g, st, child, Some(parentId));
        VisitChildrenCountsTempo(g, Visit(g, st, child, Some(parentId)), parentId, cs[1..]);
      } else {
        VisitChildrenCountsTempo(g, st, parentId, cs[1..]);
      }
    }
  }

  // ---------------------------------------------------------------------
  // One visit

  /**
   * A visit that enters `node` publishes, first, the highlight of the
   * incoming edge and the discovery, and, last, the finish and the cleared
   * highlight; whatever its descendants publish comes in between.
   */
  lemma VisitEventOrder(g: seq<Node>, st: Run, node: Option<Node>, parentId: Option<NodeId>)
    requires Enters(st, node)
    ensures var r := Visit(g, st, node, parentId); var id := node.value.id;
      && |r.trace| >= |st.trace| + 4
      && r.trace[..|st.trace| + 2] == st.trace + [Highlight(EdgeInto(parentId, id)), Discovered(id, st.tempo + 1)]
      && r.trace[|r.trace| - 2..] == [Finished(id, r.tempo), Highlight(None)]
  {
    var id := node.value.id;
    var entered := Discover(st, id, parentId);
    var done := VisitChildren(g, entered, id, node.value.childrenIds);
    var r := Finish(done, id);
    VisitChildrenFrame(g, entered, id, node.value.childrenIds);
    assert r.trace == done.trace + [Finished(id, r.tempo), Highlight(None)];
    assert entered.trace == st.trace + [Highlight(EdgeInto(parentId, id)), Discovered(id, st.tempo + 1)];
    assert r.trace[..|st.trace| + 2] == entered.trace by {
      assert entered.trace <= done.trace;
    }
  }

  /**
   * A visit that enters `node` stamps it with discovery `tempo + 1` and
   * finish equal to the final `tempo`, and the nodes discovered during the
   * visit are exactly those whose discovery falls inside that interval; each
   * of them lies strictly inside it: disc(node) < disc(d) < fin(d) < fin(node).
   */
  lemma VisitBracketsDescendants(g: seq<Node>, st: Run, node: Option<Node>, parentId: Option<NodeId>)
    requires Consistent(st) && Enters(st, node)
    ensures var r := Visit(g, st, node, parentId); var id := node.value.id;
      && id in r.discovery && id in r.finish
      && r.discovery[id] == st.tempo + 1 && r.finish[id] == r.tempo
      && (forall d :: d in Whites(st.states) && d !in Whites(r.states) && d != id ==>
           && d in r.discovery && d in r.finish
           && r.discovery[id] < r.discovery[d] < r.finish[d] < r.finish[id])
      && (forall d :: d in r.discovery && d != id && r.discovery[id] < r.discovery[d] < r.finish[id] ==>
           d in Whites(st.states) && d !in Whites(r.states))
  {
    VisitKeepsConsistent(g, st, node, parentId);
    VisitFrame(g, st, node, parentId);
    DiscoveredInsideWereWhite(st, Visit(g, st, node, parentId));
    var id := node.value.id;
    var entered := Discover(st, id, parentId);
    DiscoverKeepsConsistent(st, id, parentId);
    RecolorLeavesWhites(st.states, id, Gray);
    var done := VisitChildren(g, entered, id, node.value.childrenIds);
    VisitChildrenKeepsConsistent(g, entered, id, node.value.childrenIds);
    VisitChildrenFrame(g, entered, id, node.value.childrenIds);
    FinishStamps(done, id);
    InsideInterval(st, entered, done, Finish(done, id), id);
  }

  /** A node first stamped after `st.tempo` was white in `st` and is no longer white in `r`. */
  lemma DiscoveredInsideWereWhite(st: Run, r: Run)
    requires Consistent(st) && Consistent(r) && StampsKept(st, r) && r.states.Keys == st.states.Keys
    ensures forall d :: d in r.discovery && st.tempo < r.discovery[d] ==> d in Whites(st.states) && d !in Whites(r.states)
  {
    forall d | d in r.discovery && st.tempo < r.discovery[d]
      ensures d in Whites(st.states) && d !in Whites(r.states)
    {
      assert d !in st.discovery;
    }
  }

  lemma InsideInterval(st: Run, entered: Run, done: Run, r: Run, id: NodeId)
    requires id in entered.discovery && entered.discovery[id] == entered.tempo == st.tempo + 1
    requires Whites(entered.states) == Whites(st.states) - {id}
    requires StampsInRange(done) && StampsKept(entered, done) && FreshStamps(entered, done)
    requires StampsKept(done, r) && id in r.finish && r.finish[id] == r.tempo == done.tempo + 1
    requires Whites(r.states) == Whites(done.states)
    ensures id in r.discovery && r.discovery[id] == st.tempo + 1
    ensures forall d :: d in Whites(st.states) && d !in Whites(r.states) && d != id ==>
      && d in r.discovery && d in r.finish
      && r.discovery[id] < r.discovery[d] < r.finish[d] < r.finish[id]
  {
  }

  /** When a visit ends, every child id that names a node has left white. */
  lemma VisitExploresChildren(g: seq<Node>, st: Run, node: Option<Node>, parentId: Option<NodeId>)
    requires Enters(st, node)
    ensures var r := Visit(g, st, node, parentId);
      forall c :: c in node.value.childrenIds && c in Ids(g) && c in st.states ==> !IsWhite(r, c)
  {
    var id := node.value.id;
    var entered := Discover(st, id, parentId);
    VisitChildrenExplores(g, entered, id, node.value.childrenIds);
  }

  lemma {:induction false} VisitChildrenExplores(g: seq<Node>, st: Run, parentId: NodeId, cs: seq<NodeId>)
    ensures var r := VisitChildren(g, st, parentId, cs);
      forall c :: c in cs && c in Ids(g) && c in st.states ==> !IsWhite(r, c)
    decreases |cs|
  {
    if cs != [] {
      var child := FindNodeById(g, cs[0]);
      var next := if child.Some? && IsWhite(st, child.value.id) then Visit(g, st, child, Some(parentId)) else st;
      VisitFrame(g, st, child, Some(parentId));
      VisitChildrenFrame(g, next, parentId, cs[1..]);
      VisitChildrenExplores(g, next, parentId, cs[1..]);
      assert forall c :: c in cs ==> c == cs[0] || c in cs[1..];
    }
  }

  // ---------------------------------------------------------------------
  // A whole run

  /** No node is open (between two top-level visits). */
  ghost predicate NoGray(st: Run)
  {
    forall id :: id in st.states ==> st.states[id] != Gray
  }

  /** The sweep of `startDFS` keeps the run invariant and the clock accounting. */
  lemma {:induction false} SweepKeepsRun(g: seq<Node>, st: Run, i: nat)
    requires i <= |g| && Consistent(st) && NoGray(st)
    ensures var r := Sweep(g, st, i);
      && Consistent(r) && NoGray(r)
      && r.tempo == st.tempo + 2 * (|Whites(st.states)| - |Whites(r.states)|)
      && (st.highlightedEdge == None ==> r.highlightedEdge == None)
    decreases |g| - i
  {
    if i < |g| {
      var next := if IsWhite(st, g[i].id) then Visit(g, st, Some(g[i]), None) else st;
      if IsWhite(st, g[i].id) {
        VisitKeepsConsistent(g, st, Some(g[i]), None);
        VisitCountsTempo(g, st, Some(g[i]), None);
        VisitFrame(g, st, Some(g[i]), None);
      }
      SweepKeepsRun(g, next, i + 1);
    }
  }

  /** The run invariant and the clock accounting for a whole `startDFS`. */
  lemma StartDfsKeepsRun(g: seq<Node>)
    ensures var r := StartDfs(g);
      && Consistent(r) && NoGray(r) && r.highlightedEdge == None
      && r.tempo == 2 * (|Ids(g)| - |Whites(r.states)|)
  {
    VisitFirstKeepsRun(g);
    SweepKeepsRun(g, VisitFirst(g), 0);
  }

  lemma VisitFirstKeepsRun(g: seq<Node>)
    ensures var r := VisitFirst(g);
      && Consistent(r) && NoGray(r) && r.highlightedEdge == None
      && r.tempo == 2 * (|Ids(g)| - |Whites(r.states)|)
  {
    VisitFirstConsistent(g);
    VisitFirstTempo(g);
  }

  lemma VisitFirstConsistent(g: seq<Node>)
    ensures var r := VisitFirst(g); Consistent(r) && NoGray(r) && r.highlightedEdge == None
  {
    ResetConsistent(g);
    if |g| > 0 {
      VisitKeepsConsistent(g, Reset(g), Some(g[0]), None);
      VisitFrame(g, Reset(g), Some(g[0]), None);
    }
  }

  lemma VisitFirstTempo(g: seq<Node>)
    ensures VisitFirst(g).tempo == 2 * (|Ids(g)| - |Whites(VisitFirst(g).states)|)
  {
    assert Whites(Reset(g).states) == Ids(g);
    if |g| > 0 {
      VisitCountsTempo(g, Reset(g), Some(g[0]), None);
    }
  }

  /** After `startDFS` no node id of the graph is white. */
  lemma StartDfsLeavesNoWhite(g: seq<Node>)
    ensures StartDfs(g).states.Keys == Ids(g) && Whites(StartDfs(g).states) == {}
  {
    var r := StartDfs(g);
    if |g| > 0 {
      VisitFrame(g, Reset(g), Some(g[0]), None);
    }
    SweepFrame(g, VisitFirst(g), 0);
    forall id | id in r.states ensures r.states[id] != White {
      var n :| n in g && n.id == id;
      var j :| 0 <= j < |g| && g[j] == n;
    }
  }

  /**
   * `startDFS` on any graph, cyclic or not, ends with every node black,
   * every node stamped once with discovery and once with finish, the run
   * invariant holding, `tempo` equal to twice the number of node ids and no
   * highlighted edge. The result does not depend on any earlier run.
   */
  lemma StartDfsFinishesEveryNode(g: seq<Node>)
    ensures var r := StartDfs(g);
      && r.states.Keys == Ids(g)
      && (forall n :: n in g ==> r.states[n.id] == Black)
      && r.discovery.Keys == Ids(g) && r.finish.Keys == Ids(g)
      && Consistent(r)
      && r.tempo == 2 * |Ids(g)|
      && r.highlightedEdge == None
  {
    StartDfsKeepsRun(g);
    StartDfsLeavesNoWhite(g);
    var r := StartDfs(g);
    AllBlackWhenDone(r);
  }

  /** With no white and no gray node left, every node is black and fully stamped. */
  lemma AllBlackWhenDone(r: Run)
    requires ColorsMatchStamps(r) && NoGray(r) && Whites(r.states) == {}
    ensures forall id :: id in r.states ==> r.states[id] == Black
    ensures r.discovery.Keys == r.states.Keys && r.finish.Keys == r.states.Keys
  {
    forall id | id in r.states ensures r.states[id] == Black {
      assert id !in Whites(r.states);
    }
  }

  /** With unique ids (fresh UUIDs), a full run leaves `tempo` at twice the node count. */
  lemma StartDfsTempo(g: seq<Node>)
    requires UniqueIds(g)
    ensures StartDfs(g).tempo == 2 * |g|
  {
    StartDfsFinishesEveryNode(g);
    UniqueIdsCount(g);
  }

  /** In a run where every discovered node is finished, any two intervals nest or are disjoint. */
  lemma FinishedIntervalsNestOrAreDisjoint(r: Run, ids: set<NodeId>)
    requires StampsDistinct(r) && IntervalsNest(r)
    requires r.discovery.Keys == ids && r.finish.Keys == ids
    ensures forall u, v :: u in ids && v in ids && u != v ==>
      || r.finish[u] < r.discovery[v]
      || r.finish[v] < r.discovery[u]
      || (r.discovery[u] < r.discovery[v] && r.finish[v] < r.finish[u])
      || (r.discovery[v] < r.discovery[u] && r.finish[u] < r.finish[v])
  {
    forall u, v | u in ids && v in ids && u != v
      ensures || r.finish[u] < r.discovery[v]
              || r.finish[v] < r.discovery[u]
              || (r.discovery[u] < r.discovery[v] && r.finish[v] < r.finish[u])
              || (r.discovery[v] < r.discovery[u] && r.finish[u] < r.finish[v])
    {
      assert r.discovery[u] != r.discovery[v];
    }
  }

  /**
   * The parenthesis theorem for a completed run: the intervals
   * [discovery, finish] of two different nodes are either disjoint or one
   * lies strictly inside the other.
   */
  lemma StartDfsIntervalsNestOrAreDisjoint(g: seq<Node>)
    ensures StartDfs(g).discovery.Keys == Ids(g) && StartDfs(g).finish.Keys == Ids(g)
    ensures var r := StartDfs(g);
      forall u, v :: u in Ids(g) && v in Ids(g) && u != v ==>
        || r.finish[u] < r.discovery[v]
        || r.finish[v] < r.discovery[u]
        || (r.discovery[u] < r.discovery[v] && r.finish[v] < r.finish[u])
        || (r.discovery[v] < r.discovery[u] && r.finish[u] < r.finish[v])
  {
    StartDfsFinishesEveryNode(g);
    FinishedIntervalsNestOrAreDisjoint(StartDfs(g), Ids(g));
  }
}
