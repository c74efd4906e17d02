/**
 * The graph store of the visual DFS editor: nodes kept in creation order,
 * each holding the ordered ids of its children, and the `createNode` step
 * that appends a node and links it under the selected parents.
 */
module Graph {
  import opened Wrappers

  type NodeId = string

  /** A node as the traversal sees it; screen coordinates are not modelled. */
  datatype Node = Node(id: NodeId, value: string, childrenIds: seq<NodeId>)

  /** The ids present in a node list. */
  function Ids(nodes: seq<Node>): set<NodeId>
  {
    set n | n in nodes :: n.id
  }

  /** The ids of a list are those of all but its last node, plus the last one's. */
  lemma IdsSnoc(nodes: seq<Node>)
    requires nodes != []
    ensures Ids(nodes) == Ids(nodes[..|nodes| - 1]) + {nodes[|nodes| - 1].id}
  {
    var init, last := nodes[..|nodes| - 1], nodes[|nodes| - 1];
    assert nodes == init + [last];
    assert forall n :: n in nodes <==> n in init || n == last;
  }

  /** With unique ids there are as many ids as nodes. */
  lemma {:induction false} UniqueIdsCount(nodes: seq<Node>)
    requires UniqueIds(nodes)
    ensures |Ids(nodes)| == |nodes|
  {
    if nodes != [] {
      var init, last := nodes[..|nodes| - 1], nodes[|nodes| - 1];
      assert UniqueIds(init);
      UniqueIdsCount(init);
      IdsSnoc(nodes);
      assert last.id !in Ids(init) by {
        forall n | n in init ensures n.id != last.id {
          var j :| 0 <= j < |init| && init[j] == n;
          assert nodes[j] == n;
        }
      }
    }
  }

  /** No two nodes share an id (what fresh UUIDs guarantee). */
  predicate UniqueIds(nodes: seq<Node>)
  {
    forall i, j :: 0 <= i < j < |nodes| ==> nodes[i].id != nodes[j].id
  }

  predicate NoDuplicates(ids: seq<NodeId>)
  {
    forall i, j :: 0 <= i < j < |ids| ==> ids[i] != ids[j]
  }

  /** `Array.prototype.findIndex` with the predicate `n.id === id`. */
  function FindIndex(nodes: seq<Node>, id: NodeId): (r: int)
    ensures -1 <= r < |nodes|
    ensures r == -1 <==> id !in Ids(nodes)
    ensures r >= 0 ==> nodes[r].id == id && forall j :: 0 <= j < r ==> nodes[j].id != id
  {
    if nodes == [] then -1
    else if nodes[0].id == id then 0
    else
      var k := FindIndex(nodes[1..], id);
      assert Ids(nodes) == {nodes[0].id} + Ids(nodes[1..]) by {
        assert forall n :: n in nodes <==> n == nodes[0] || n in nodes[1..];
      }
      if k == -1 then -1 else k + 1
  }

  /** `findNodeById`: the first node carrying `id`, or `undefined`. */
  function FindNodeById(nodes: seq<Node>, id: NodeId): (r: Option<Node>)
    ensures r.Some? <==> id in Ids(nodes)
    ensures r.Some? ==> r.value in nodes && r.value.id == id
  {
    var k := FindIndex(nodes, id);
    if k == -1 then None else Some(nodes[k])
  }

  /** `find` returns the first node carrying the id. */
  lemma FindNodeByIdFirst(nodes: seq<Node>, id: NodeId, i: nat)
    requires i < |nodes| && nodes[i].id == id
    requires forall j :: 0 <= j < i ==> nodes[j].id != id
    ensures FindNodeById(nodes, id) == Some(nodes[i])
  {
    assert nodes[i] in nodes;
  }

  /** With unique ids, the node found is the one node that carries the id. */
  lemma FindNodeByIdUnique(nodes: seq<Node>, id: NodeId, i: nat)
    requires UniqueIds(nodes) && i < |nodes| && nodes[i].id == id
    ensures FindNodeById(nodes, id) == Some(nodes[i])
  {
  }

  // ---------------------------------------------------------------------
  // String.prototype.trim

  /**
   * The characters `String.prototype.trim` strips: the WhiteSpace
   * (TAB, VT, FF, ZWNBSP and every space separator of category Zs) and
   * LineTerminator code points of the ECMAScript grammar.
   */
  predicate IsWhitespace(c: char)
  {
    || c == '\t' || c == '\n' || c == '\U{B}' || c == '\U{C}' || c == '\r'
    || c == ' ' || c == '\U{A0}' || c == '\U{1680}'
    || ('\U{2000}' <= c <= '\U{200A}')
    || c == '\U{2028}' || c == '\U{2029}' || c == '\U{202F}' || c == '\U{205F}'
    || c == '\U{3000}' || c == '\U{FEFF}'
  }

  predicate AllWhitespace(s: string)
  {
    forall i :: 0 <= i < |s| ==> IsWhitespace(s[i])
  }

  /** Drops leading whitespace: the result is the suffix starting at the first other character. */
  function TrimStart(s: string): (r: string)
    ensures |r| <= |s| && r == s[|s| - |r|..]
    ensures AllWhitespace(s[..|s| - |r|])
    ensures r == [] || !IsWhitespace(r[0])
  {
    if s != [] && IsWhitespace(s[0]) then TrimStart(s[1..]) else s
  }

  /** Drops trailing whitespace: the result is the prefix ending at the last other character. */
  function TrimEnd(s: string): (r: string)
    ensures |r| <= |s| && r == s[..|r|]
    ensures AllWhitespace(s[|r|..])
    ensures r == [] || !IsWhitespace(r[|r| - 1])
  {
    if s != [] && IsWhitespace(s[|s| - 1]) then TrimEnd(s[..|s| - 1]) else s
  }

  /**
   * `newValue.trim()`: the longest infix of `s` that neither starts nor
   * ends with whitespace; empty exactly when `s` is all whitespace.
   */
  function Trim(s: string): (r: string)
    ensures r == [] <==> AllWhitespace(s)
    ensures r == [] || (!IsWhitespace(r[0]) && !IsWhitespace(r[|r| - 1]))
    ensures exists k :: 0 <= k && k + |r| <= |s| && r == s[k..k + |r|]
              && AllWhitespace(s[..k]) && AllWhitespace(s[k + |r|..])
  {
    var t := TrimStart(s);
    var r := TrimEnd(t);
    TrimSlices(s, |s| - |t|, t, r);
    r
  }

  /** Joins the facts about the two halves of `Trim`. */
  lemma TrimSlices(s: string, k: nat, t: string, r: string)
    requires k <= |s| && t == s[k..] && AllWhitespace(s[..k]) && (t == [] || !IsWhitespace(t[0]))
    requires |r| <= |t| && r == t[..|r|] && AllWhitespace(t[|r|..])
    ensures r == [] <==> AllWhitespace(s)
    ensures r == s[k..k + |r|] && AllWhitespace(s[k + |r|..])
  {
    assert t[|r|..] == s[k + |r|..];
    if r == [] {
      assert t == [] by {
        assert t[|r|..] == t;
      }
      forall i | 0 <= i < |s| ensures IsWhitespace(s[i]) {
        assert s[..k][i] == s[i];
      }
    }
  }

  // ---------------------------------------------------------------------
  // Parent/child selection (toggleParentId, toggleChildId)

  /** `prev.filter((x) => x !== id)`. */
  function Remove(ids: seq<NodeId>, id: NodeId): (r: seq<NodeId>)
    ensures id !in r
    ensures forall x :: x != id ==> (x in r <==> x in ids)
    ensures NoDuplicates(ids) ==> NoDuplicates(r)
    ensures id !in ids ==> r == ids
  {
    if ids == [] then []
    else if ids[0] == id then Remove(ids[1..], id)
    else
      assert NoDuplicates(ids) ==> ids[0] !in ids[1..] && NoDuplicates(ids[1..]);
      [ids[0]] + Remove(ids[1..], id)
  }

  /** `filter` keeps every other id exactly as often as it occurred. */
  lemma {:induction false} RemoveKeepsOthers(ids: seq<NodeId>, id: NodeId)
    ensures multiset(Remove(ids, id)) == multiset(ids)[id := 0]
  {
    if ids != [] {
      assert ids == [ids[0]] + ids[1..];
      RemoveCons(ids[0], ids[1..], id);
      RemoveKeepsOthers(ids[1..], id);
    }
  }

  /** `filter` on a list with a given first element. */
  lemma RemoveCons(x: NodeId, s: seq<NodeId>, id: NodeId)
    ensures Remove([x] + s, id) == (if x == id then [] else [x]) + Remove(s, id)
  {
    assert ([x] + s)[0] == x && ([x] + s)[1..] == s;
  }

  /** `filter` works piecewise: the kept ids stay in their original order. */
  lemma {:induction false} RemoveAppend(a: seq<NodeId>, b: seq<NodeId>, id: NodeId)
    ensures Remove(a + b, id) == Remove(a, id) + Remove(b, id)
  {
    if a == [] {
      assert a + b == b;
    } else {
      var ab := a + b;
      assert ab[0] == a[0];
      assert ab[1..] == a[1..] + b;
      RemoveAppend(a[1..], b, id);
      if a[0] == id {
        calc {
          Remove(ab, id);
          Remove(ab[1..], id);
          Remove(a[1..], id) + Remove(b, id);
          Remove(a, id) + Remove(b, id);
        }
      } else {
        calc {
          Remove(ab, id);
          [a[0]] + Remove(ab[1..], id);
          [a[0]] + (Remove(a[1..], id) + Remove(b, id));
          ([a[0]] + Remove(a[1..], id)) + Remove(b, id);
          Remove(a, id) + Remove(b, id);
        }
      }
    }
  }

  /** A checkbox click: removes `id` when selected, otherwise appends it. */
  function Toggle(ids: seq<NodeId>, id: NodeId): (r: seq<NodeId>)
    ensures id in r <==> id !in ids
    ensures forall x :: x != id ==> (x in r <==> x in ids)
    ensures NoDuplicates(ids) ==> NoDuplicates(r)
  {
    if id in ids then Remove(ids, id) else ids + [id]
  }

  /** Selecting an id and then deselecting it restores the selection. */
  lemma ToggleTwice(ids: seq<NodeId>, id: NodeId)
    requires id !in ids
    ensures Toggle(Toggle(ids, id), id) == ids
  {
    RemoveAppend(ids, [id], id);
    RemoveCons(id, [], id);
    assert [id] + [] == [id] && ids + [] == ids;
  }

  /** Ticking an unselected id appends it at the end of the selection. */
  lemma ToggleOn(ids: seq<NodeId>, id: NodeId)
    requires id !in ids
    ensures Toggle(ids, id) == ids + [id]
  {
  }

  /** Unticking the id at position `i` removes it there and keeps the rest in order. */
  lemma ToggleOff(ids: seq<NodeId>, i: nat)
    requires NoDuplicates(ids) && i < |ids|
    ensures Toggle(ids, ids[i]) == ids[..i] + ids[i + 1..]
  {
    var id := ids[i];
    assert ids == ids[..i] + ([id] + ids[i + 1..]);
    RemoveAppend(ids[..i], [id] + ids[i + 1..], id);
    RemoveAppend([id], ids[i + 1..], id);
    assert forall j :: 0 <= j < |ids| && j != i ==> ids[j] != id;
    assert id !in ids[..i] && id !in ids[i + 1..];
  }

  // ---------------------------------------------------------------------
  // createNode

  /** How many times `x` occurs in `s`. */
  function Count(s: seq<NodeId>, x: NodeId): nat
  {
    if s == [] then 0 else Count(s[..|s| - 1], x) + (if s[|s| - 1] == x then 1 else 0)
  }

  /** `n` copies of `x`. */
  function Repeat(x: NodeId, n: nat): seq<NodeId>
  {
    if n == 0 then [] else Repeat(x, n - 1) + [x]
  }

  /** With a duplicate-free selection every id occurs at most once. */
  lemma {:induction false} CountNoDuplicates(s: seq<NodeId>, x: NodeId)
    requires NoDuplicates(s)
    ensures Count(s, x) == if x in s then 1 else 0
  {
    if s != [] {
      var init := s[..|s| - 1];
      CountNoDuplicates(init, x);
      assert x in s <==> x in init || x == s[|s| - 1] by {
        assert s == init + [s[|s| - 1]];
      }
      if x in init {
        var i :| 0 <= i < |init| && init[i] == x;
        assert s[i] == x;
      }
    }
  }

  /**
   * The invariant of the `parentIds.forEach` loop of `createNode`: the
   * first `|nodes|` entries of `updated` are `nodes`, each having gained
   * `freshId` once for every occurrence of its id in `linked`.
   */
  ghost predicate LinkedTo(nodes: seq<Node>, updated: seq<Node>, freshId: NodeId, linked: seq<NodeId>)
  {
    && |nodes| <= |updated|
    && forall i :: 0 <= i < |nodes| ==>
         updated[i] == nodes[i].(childrenIds := nodes[i].childrenIds + Repeat(freshId, Count(linked, nodes[i].id)))
  }

  /** A node that had gained `c` copies of the new id and is hit once more has `c + 1`. */
  lemma LinkNode(n: Node, before: Node, after: Node, freshId: NodeId, c: nat, hit: bool, c': nat)
    requires before == n.(childrenIds := n.childrenIds + Repeat(freshId, c))
    requires after == if hit then before.(childrenIds := before.childrenIds + [freshId]) else before
    requires c' == c + if hit then 1 else 0
    ensures after == n.(childrenIds := n.childrenIds + Repeat(freshId, c'))
  {
    if hit {
      assert n.childrenIds + Repeat(freshId, c) + [freshId] == n.childrenIds + (Repeat(freshId, c) + [freshId]);
    }
  }

  /** Selecting one more parent adds one to the count of its id and nothing to the others. */
  lemma CountSnoc(s: seq<NodeId>, k: nat, x: NodeId)
    requires k < |s|
    ensures Count(s[..k + 1], x) == Count(s[..k], x) + if s[k] == x then 1 else 0
  {
    assert s[..k + 1][..k] == s[..k];
  }

  /**
   * In a list whose first `|nodes|` ids are those of `nodes`, with unique
   * ids, `findIndex` finds the id of `nodes[i]` at `i`.
   */
  lemma FindIndexAt(nodes: seq<Node>, before: seq<Node>, id: NodeId, i: nat)
    requires UniqueIds(nodes) && i < |nodes| <= |before| && nodes[i].id == id
    requires forall j :: 0 <= j < |nodes| ==> before[j].id == nodes[j].id
    ensures FindIndex(before, id) == i
  {
    assert before[i] in before;
    var j := FindIndex(before, id);
    assert j <= i && nodes[j].id == before[j].id == id;
  }

  /** The effect of one turn of the `forEach` on the existing node at index `i`. */
  lemma LinkStepAt(nodes: seq<Node>, freshId: NodeId, parentIds: seq<NodeId>, k: nat,
                   before: seq<Node>, parentIndex: int, updated: seq<Node>, i: nat)
    requires UniqueIds(nodes) && k < |parentIds| && i < |nodes| && |nodes| <= |before|
    requires forall j :: 0 <= j < |nodes| ==> before[j].id == nodes[j].id
    requires before[i] == nodes[i].(childrenIds := nodes[i].childrenIds + Repeat(freshId, Count(parentIds[..k], nodes[i].id)))
    requires parentIndex == FindIndex(before, parentIds[k])
    requires updated == if parentIndex == -1 then before
      else before[parentIndex := before[parentIndex].(childrenIds := before[parentIndex].childrenIds + [freshId])]
    ensures updated[i] == nodes[i].(childrenIds := nodes[i].childrenIds + Repeat(freshId, Count(parentIds[..k + 1], nodes[i].id)))
  {
    var hit := parentIds[k] == nodes[i].id;
    CountSnoc(parentIds, k, nodes[i].id);
    assert parentIndex == i ==> before[i].id == parentIds[k];
    if hit {
      FindIndexAt(nodes, before, parentIds[k], i);
      assert updated[i] == before[i].(childrenIds := before[i].childrenIds + [freshId]);
    } else {
      assert updated[i] == before[i];
    }
    LinkNode(nodes[i], before[i], updated[i], freshId, Count(parentIds[..k], nodes[i].id), hit, Count(parentIds[..k + 1], nodes[i].id));
  }

  /** One turn of the `forEach` over `parentIds` links one more parent. */
  lemma LinkStep(nodes: seq<Node>, freshId: NodeId, parentIds: seq<NodeId>, k: nat,
                 before: seq<Node>, parentIndex: int, updated: seq<Node>)
    requires UniqueIds(nodes) && freshId !in parentIds && k < |parentIds|
    requires |before| == |nodes| + 1 && before[|nodes|].id == freshId
    requires LinkedTo(nodes, before, freshId, parentIds[..k])
    requires parentIndex == FindIndex(before, parentIds[k])
    requires updated == if parentIndex == -1 then before
      else before[parentIndex := before[parentIndex].(childrenIds := before[parentIndex].childrenIds + [freshId])]
    ensures LinkedTo(nodes, updated, freshId, parentIds[..k + 1])
  {
    forall i | 0 <= i < |nodes|
      ensures updated[i] == nodes[i].(childrenIds := nodes[i].childrenIds + Repeat(freshId, Count(parentIds[..k + 1], nodes[i].id)))
    {
      LinkStepAt(nodes, freshId, parentIds, k, before, parentIndex, updated, i);
    }
  }

  /** With no repeated parent, each parent gains the new id exactly once. */
  lemma LinkedOnce(nodes: seq<Node>, updated: seq<Node>, freshId: NodeId, parentIds: seq<NodeId>)
    requires NoDuplicates(parentIds) && LinkedTo(nodes, updated, freshId, parentIds)
    ensures forall i :: 0 <= i < |nodes| ==>
      updated[i].childrenIds == nodes[i].childrenIds + (if nodes[i].id in parentIds then [freshId] else [])
  {
    forall i | 0 <= i < |nodes|
      ensures updated[i].childrenIds == nodes[i].childrenIds + (if nodes[i].id in parentIds then [freshId] else [])
    {
      assert updated[i] == nodes[i].(childrenIds := nodes[i].childrenIds + Repeat(freshId, Count(parentIds, nodes[i].id)));
      CountNoDuplicates(parentIds, nodes[i].id);
      assert Repeat(freshId, 1) == [freshId];
      assert Repeat(freshId, Count(parentIds, nodes[i].id)) == if nodes[i].id in parentIds then [freshId] else [];
    }
  }

  /** A list whose ids are those of `nodes` followed by a fresh one keeps ids unique. */
  lemma AppendedIds(nodes: seq<Node>, newNode: Node, updated: seq<Node>)
    requires UniqueIds(nodes) && newNode.id !in Ids(nodes)
    requires |updated| == |nodes| + 1 && updated[|nodes|].id == newNode.id
    requires forall i :: 0 <= i < |nodes| ==> updated[i].id == nodes[i].id
    ensures UniqueIds(updated) && Ids(updated) <= Ids(nodes) + {newNode.id}
  {
    assert forall i :: 0 <= i < |nodes| ==> nodes[i] in nodes;
  }

  /**
   * The updater handed to `setNodes` (`prev => ...`): the new node goes last,
   * and every existing node named in `parentIds` gains the new id at the end
   * of its children, once per occurrence of its id in `parentIds`.
   */
  method AddNode(prev: seq<Node>, newNode: Node, parentIds: seq<NodeId>) returns (updatedNodes: seq<Node>)
    requires UniqueIds(prev) && newNode.id !in Ids(prev) && newNode.id !in parentIds
    ensures |updatedNodes| == |prev| + 1 && updatedNodes[|prev|] == newNode
    ensures forall i :: 0 <= i < |prev| ==>
      updatedNodes[i] == prev[i].(childrenIds := prev[i].childrenIds + Repeat(newNode.id, Count(parentIds, prev[i].id)))
    ensures NoDuplicates(parentIds) ==>
      forall i :: 0 <= i < |prev| ==>
        updatedNodes[i].childrenIds == prev[i].childrenIds + (if prev[i].id in parentIds then [newNode.id] else [])
    ensures UniqueIds(updatedNodes) && Ids(updatedNodes) <= Ids(prev) + {newNode.id}
  {
    updatedNodes := prev + [newNode];
    for k := 0 to |parentIds|
      invariant |updatedNodes| == |prev| + 1 && updatedNodes[|prev|] == newNode
      invariant LinkedTo(prev, updatedNodes, newNode.id, parentIds[..k])
    {
      var parentId := parentIds[k];
      var parentIndex := FindIndex(updatedNodes, parentId);
      ghost var before := updatedNodes;
      if parentIndex != -1 {
        updatedNodes := updatedNodes[parentIndex := updatedNodes[parentIndex].(childrenIds := updatedNodes[parentIndex].childrenIds + [newNode.id])];
      }
      LinkStep(prev, newNode.id, parentIds, k, before, parentIndex, updatedNodes);
    }
    assert parentIds[..|parentIds|] == parentIds;
    if NoDuplicates(parentIds) {
      LinkedOnce(prev, updatedNodes, newNode.id, parentIds);
    }
    AppendedIds(prev, newNode, updatedNodes);
  }

  /**
   * `createNode`: a blank label leaves the list alone; otherwise a node
   * with the trimmed label and the selected children is built and the
   * updater adds it. `freshId` stands for the UUID the source draws.
   */
  method CreateNode(nodes: seq<Node>, newValue: string, parentIds: seq<NodeId>,
                    childIds: seq<NodeId>, freshId: NodeId)
    returns (updated: seq<Node>)
    requires UniqueIds(nodes)
    requires freshId !in Ids(nodes) && freshId !in parentIds
    ensures AllWhitespace(newValue) ==> updated == nodes
    ensures !AllWhitespace(newValue) ==>
      && |updated| == |nodes| + 1
      && updated[|nodes|] == Node(freshId, Trim(newValue), childIds)
      && forall i :: 0 <= i < |nodes| ==>
           updated[i] == nodes[i].(childrenIds := nodes[i].childrenIds + Repeat(freshId, Count(parentIds, nodes[i].id)))
    ensures !AllWhitespace(newValue) && NoDuplicates(parentIds) ==>
      forall i :: 0 <= i < |nodes| ==>
        updated[i].childrenIds == nodes[i].childrenIds + (if nodes[i].id in parentIds then [freshId] else [])
    ensures UniqueIds(updated) && Ids(updated) <= Ids(nodes) + {freshId}
  {
    var value := Trim(newValue);
    if value == [] {
      return nodes;
    }
    var newNode := Node(freshId, value, childIds);
    updated := AddNode(nodes, newNode, parentIds);
  }
}
