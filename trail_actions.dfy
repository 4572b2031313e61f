/**
 * The sidebar's state transitions on the trail tree: drag-and-drop moves, moving a
 * trail to the top level, closing a trail with its children promoted, bulk deletion of
 * the selection, toggling selection and pinning a tab. Each is the body of a state
 * updater: it receives the previous `TrailsState` and returns the next one, and
 * returns the previous state unchanged when it refuses the request.
 */
module TrailActions {
  import opened Wrappers
  import opened Seqs
  import opened TrailTypes

  // ---------------------------------------------------------------------------
  // Drag-and-drop move.

  datatype DropPosition = Inside | Before | After

  /** The parent the dragged trail would get: the target itself, or the target's parent. */
  function NewParent(s: TrailsState, targetId: string, position: DropPosition): Option<string>
    requires targetId in s.nodes
  {
    if position == Inside then Some(targetId) else s.nodes[targetId].parentId
  }

  /**
   * The move is refused: a node is missing, the trail is dropped on itself, or the new
   * parent is the dragged trail or one of its descendants.
   */
  ghost predicate MoveRefused(s: TrailsState, draggedId: string, targetId: string, position: DropPosition) {
    draggedId !in s.nodes || targetId !in s.nodes || draggedId == targetId ||
    NewParent(s, targetId, position) == Some(draggedId) ||
    Meets(s.nodes, Start(s.nodes, NewParent(s, targetId, position)), draggedId)
  }

  /** The record with `id` taken out of its (present, truthy) parent's children. */
  function DetachFromParent(nodes: map<string, TrailNode>, id: string): (r: map<string, TrailNode>)
    requires id in nodes
    ensures r.Keys == nodes.Keys
    ensures forall x :: x in nodes ==> r[x].id == nodes[x].id && r[x].parentId == nodes[x].parentId
    ensures forall x :: x in nodes ==>
      r[x].children == if Start(nodes, nodes[id].parentId) == Some(x) then Remove(nodes[x].children, id)
                       else nodes[x].children
  {
    var oldParentId := nodes[id].parentId;
    if Truthy(oldParentId) && oldParentId.value in nodes then
      var parent := nodes[oldParentId.value];
      nodes[oldParentId.value := parent.(children := Remove(parent.children, id))]
    else
      nodes
  }

  /** Where `splice` inserts a trail dropped before or after `targetId` in `list`. */
  function InsertIndex(list: seq<string>, targetId: string, position: DropPosition): int {
    var targetIdx := IndexOf(list, targetId);
    if position == Before then targetIdx else targetIdx + 1
  }

  /**
   * Step 2 of a move, on the record and root list from which the dragged trail was
   * already removed: append it to the target's children (`Inside`, which also expands
   * the target), or splice it next to the target in the children of the target's parent,
   * or in the root list when that parent is falsy or absent; then set its parent link.
   */
  function Attach(nodes: map<string, TrailNode>, roots: seq<string>, draggedId: string, dragged: TrailNode,
                  targetId: string, position: DropPosition, newParentId: Option<string>)
    : (r: (map<string, TrailNode>, seq<string>))
    requires targetId in nodes
    ensures r.0.Keys == nodes.Keys + {draggedId}
  {
    if position == Inside then
      var target := nodes[targetId];
      var target' := target.(children := target.children + [draggedId], isExpanded := true);
      (nodes[targetId := target'][draggedId := dragged.(parentId := Some(targetId))], roots)
    else if Truthy(newParentId) && newParentId.value in nodes then
      var parent := nodes[newParentId.value];
      var children := Splice(parent.children, InsertIndex(parent.children, targetId, position), 0, [draggedId]);
      (nodes[newParentId.value := parent.(children := children)][draggedId := dragged.(parentId := newParentId)],
       roots)
    else
      (nodes[draggedId := dragged.(parentId := None)],
       Splice(roots, InsertIndex(roots, targetId, position), 0, [draggedId]))
  }

  /**
   * The state after a move that passed validation: the dragged trail is taken out of its
   * old parent's children and out of the root list, then attached at its new place.
   */
  function Relocate(s: TrailsState, draggedId: string, targetId: string, position: DropPosition): (r: TrailsState)
    requires draggedId in s.nodes && targetId in s.nodes
    ensures r.activeNodeId == s.activeNodeId && r.closedTrails == s.closedTrails
    ensures r.selectedNodeIds == s.selectedNodeIds && r.pinnedTabs == s.pinnedTabs
    ensures r.nodes.Keys == s.nodes.Keys
  {
    var nodes := DetachFromParent(s.nodes, draggedId);
    var roots := Remove(s.rootNodeIds, draggedId);
    var (nodes', roots') :=
      Attach(nodes, roots, draggedId, s.nodes[draggedId], targetId, position, NewParent(s, targetId, position));
    s.(nodes := nodes', rootNodeIds := roots')
  }

  /** The state after dragging `draggedId` onto `targetId` at `position`. */
  ghost function Move(s: TrailsState, draggedId: string, targetId: string, position: DropPosition): (r: TrailsState)
    ensures MoveRefused(s, draggedId, targetId, position) ==> r == s
  {
    if MoveRefused(s, draggedId, targetId, position) then s
    else Relocate(s, draggedId, targetId, position)
  }

  /**
   * The cycle check of a move: walks the parent chain from `check` and reports whether it
   * reaches a node whose id is `draggedId`.
   */
  method ChainReaches(nodes: map<string, TrailNode>, check: Option<string>, draggedId: string)
    returns (found: bool)
    requires ChainsEnd(nodes)
    ensures found == Meets(nodes, check, draggedId)
  {
    var current := check;
    ghost var steps := WalkEnds(nodes, current);
    while current.Some? && current.value in nodes
      invariant EndsWithin(nodes, current, steps)
      invariant Meets(nodes, current, draggedId) == Meets(nodes, check, draggedId)
      decreases steps
    {
      var node := nodes[current.value];
      if node.id == draggedId {
        assert MeetsWithin(nodes, current, draggedId, 0);
        return true;
      }
      MeetsStep(nodes, current.value, draggedId);
      current := Next(nodes, current.value);
      steps := steps - 1;
    }
    assert forall k: nat :: !MeetsWithin(nodes, current, draggedId, k);
    found := false;
  }

  /**
   * `handleMoveTrail`'s updater. It requires acyclic parent links: on a cyclic record the
   * cycle check never ends.
   */
  method MoveTrail(s: TrailsState, draggedId: string, targetId: string, position: DropPosition)
    returns (r: TrailsState)
    requires ChainsEnd(s.nodes)
    ensures r == Move(s, draggedId, targetId, position)
  {
    if draggedId !in s.nodes || targetId !in s.nodes || draggedId == targetId {
      return s;
    }
    var target := s.nodes[targetId];
    var newParentId := if position == Inside then Some(targetId) else target.parentId;
    if newParentId == Some(draggedId) {
      return s;
    }
    if Truthy(newParentId) {
      var check := if newParentId.value in s.nodes then newParentId else None;
      var cyclic := ChainReaches(s.nodes, check, draggedId);
      if cyclic {
        return s;
      }
    }

    r := Relocate(s, draggedId, targetId, position);
  }
  /**
   * `nodes1` is `nodes` with `d` taken out of every children list, no id or parent link
   * changed, and `d`'s own children free of `d` and of duplicates.
   */
  ghost predicate DetachedFrom(nodes: map<string, TrailNode>, nodes1: map<string, TrailNode>, d: string) {
    nodes1.Keys == nodes.Keys && d in nodes && d !in nodes[d].children && Distinct(nodes[d].children) &&
    (forall x :: x in nodes ==> nodes1[x].id == nodes[x].id && nodes1[x].parentId == nodes[x].parentId) &&
    (forall x :: x in nodes ==> Distinct(nodes1[x].children)) &&
    (forall x, c :: x in nodes ==> (c in nodes1[x].children <==> c in nodes[x].children && c != d))
  }

  /** In a forest, detaching a node takes it out of the one children list that held it. */
  lemma DetachFacts(nodes: map<string, TrailNode>, roots: seq<string>, d: string)
    requires Forest(nodes, roots) && d in nodes
    ensures DetachedFrom(nodes, DetachFromParent(nodes, d), d)
  {
    var k := WalkEnds(nodes, Some(d));
    NoSelfParentWithin(nodes, d, k);
    var nodes1 := DetachFromParent(nodes, d);
    forall x | x in nodes
      ensures Distinct(nodes1[x].children)
      ensures forall c :: c in nodes1[x].children <==> c in nodes[x].children && c != d
    {
      if Start(nodes, nodes[d].parentId) == Some(x) {
        RemoveDistinct(nodes[x].children, d);
      } else {
        assert d !in nodes[x].children;
      }
    }
  }

  /** Listing the detached node `d` under the stored node `p`, whose entry becomes `parent`, re-links it. */
  lemma RelinkUnder(nodes: map<string, TrailNode>, nodes1: map<string, TrailNode>, roots: seq<string>,
                    d: string, p: string, parent: TrailNode, nodes2: map<string, TrailNode>, roots2: seq<string>)
    requires DetachedFrom(nodes, nodes1, d) && Distinct(roots) && p in nodes && p != d
    requires parent.id == nodes[p].id && parent.parentId == nodes[p].parentId && Distinct(parent.children)
    requires forall c :: c in parent.children <==> c in nodes1[p].children || c == d
    requires nodes2 == nodes1[p := parent][d := nodes[d].(parentId := Some(p))]
    requires roots2 == Remove(roots, d)
    ensures Relinked(nodes, roots, nodes2, roots2, d, Some(p))
  {
    assert RelinkedLinks(nodes, nodes2, d, Some(p));
    RelinkUnderChildren(nodes, nodes1, d, p, parent);
    RemoveDistinct(roots, d);
    assert RelinkedRoots(roots, roots2, d, Some(p));
  }

  lemma RelinkUnderChildren(nodes: map<string, TrailNode>, nodes1: map<string, TrailNode>,
                            d: string, p: string, parent: TrailNode)
    requires DetachedFrom(nodes, nodes1, d) && p in nodes && p != d && Distinct(parent.children)
    requires forall c :: c in parent.children <==> c in nodes1[p].children || c == d
    ensures RelinkedChildren(nodes, nodes1[p := parent][d := nodes[d].(parentId := Some(p))], d, Some(p))
  {
    var nodes2 := nodes1[p := parent][d := nodes[d].(parentId := Some(p))];
    forall x | x in nodes
      ensures Distinct(nodes2[x].children)
      ensures forall c :: c in nodes2[x].children <==> (c in nodes[x].children && c != d) || (p == x && c == d)
    {
      if x == d {
        assert nodes2[x].children == nodes[d].children;
      } else if x == p {
        assert nodes2[x] == parent;
      } else {
        assert nodes2[x] == nodes1[x];
      }
    }
  }

  /** Listing the detached node `d` in the root list `roots2` re-links it. */
  lemma RelinkAtRoot(nodes: map<string, TrailNode>, nodes1: map<string, TrailNode>, roots: seq<string>,
                     d: string, roots2: seq<string>)
    requires DetachedFrom(nodes, nodes1, d)
    requires Distinct(roots2) && forall c :: c in roots2 <==> (c in roots && c != d) || c == d
    ensures Relinked(nodes, roots, nodes1[d := nodes[d].(parentId := None)], roots2, d, None)
  {
  }

  lemma AttachInsideRelinks(nodes: map<string, TrailNode>, nodes1: map<string, TrailNode>, roots: seq<string>,
                            d: string, t: string)
    requires DetachedFrom(nodes, nodes1, d) && Distinct(roots) && t in nodes && t != d
    ensures var r := Attach(nodes1, Remove(roots, d), d, nodes[d], t, Inside, Some(t));
      Relinked(nodes, roots, r.0, r.1, d, Some(t))
  {
    var r := Attach(nodes1, Remove(roots, d), d, nodes[d], t, Inside, Some(t));
    var target := nodes1[t];
    AppendDistinct(target.children, d);
    RelinkUnder(nodes, nodes1, roots, d, t,
                target.(children := target.children + [d], isExpanded := true), r.0, r.1);
  }

  lemma AttachBesideRelinks(nodes: map<string, TrailNode>, nodes1: map<string, TrailNode>, roots: seq<string>,
                            d: string, t: string, position: DropPosition, p: string)
    requires DetachedFrom(nodes, nodes1, d) && Distinct(roots) && t in nodes && position != Inside
    requires p in nodes && p != "" && p != d
    ensures var r := Attach(nodes1, Remove(roots, d), d, nodes[d], t, position, Some(p));
      Relinked(nodes, roots, r.0, r.1, d, Some(p))
  {
    var r := Attach(nodes1, Remove(roots, d), d, nodes[d], t, position, Some(p));
    var parent := nodes1[p];
    var at := InsertIndex(parent.children, t, position);
    InsertDistinct(parent.children, at, d);
    RelinkUnder(nodes, nodes1, roots, d, p, parent.(children := Splice(parent.children, at, 0, [d])), r.0, r.1);
  }

  lemma AttachAtRootRelinks(nodes: map<string, TrailNode>, nodes1: map<string, TrailNode>, roots: seq<string>,
                            d: string, t: string, position: DropPosition)
    requires DetachedFrom(nodes, nodes1, d) && Distinct(roots) && t in nodes && position != Inside
    ensures var r := Attach(nodes1, Remove(roots, d), d, nodes[d], t, position, None);
      Relinked(nodes, roots, r.0, r.1, d, None)
  {
    var roots1 := Remove(roots, d);
    RemoveDistinct(roots, d);
    var at := InsertIndex(roots1, t, position);
    InsertDistinct(roots1, at, d);
    RelinkAtRoot(nodes, nodes1, roots, d, Splice(roots1, at, 0, [d]));
  }

  /**
   * A trail cannot be dropped, in any position, on itself or on a trail of its own
   * subtree: such a move is refused and leaves the state as it was.
   */
  lemma MoveIntoSubtreeRefused(s: TrailsState, draggedId: string, targetId: string, position: DropPosition)
    requires KeysMatch(s.nodes) && draggedId in s.nodes && targetId in s.nodes
    requires Meets(s.nodes, Some(targetId), draggedId)
    ensures MoveRefused(s, draggedId, targetId, position)
    ensures Move(s, draggedId, targetId, position) == s
  {
    if draggedId != targetId && position != Inside {
      MeetsStep(s.nodes, targetId, draggedId);
    }
  }

  /** A move that passes validation re-links the dragged trail under its new parent. */
  lemma MoveRelinks(s: TrailsState, draggedId: string, targetId: string, position: DropPosition)
    requires Forest(s.nodes, s.rootNodeIds)
    requires !MoveRefused(s, draggedId, targetId, position)
    ensures var r := Move(s, draggedId, targetId, position);
      Relinked(s.nodes, s.rootNodeIds, r.nodes, r.rootNodeIds, draggedId, NewParent(s, targetId, position))
  {
    DetachFacts(s.nodes, s.rootNodeIds, draggedId);
    var nodes1 := DetachFromParent(s.nodes, draggedId);
    var dest := NewParent(s, targetId, position);
    if position == Inside {
      AttachInsideRelinks(s.nodes, nodes1, s.rootNodeIds, draggedId, targetId);
    } else if dest.Some? {
      AttachBesideRelinks(s.nodes, nodes1, s.rootNodeIds, draggedId, targetId, position, dest.value);
    } else {
      AttachAtRootRelinks(s.nodes, nodes1, s.rootNodeIds, draggedId, targetId, position);
    }
  }

  /** A move keeps the trail tree a well-formed forest: in particular it never creates a cycle. */
  lemma MovePreservesForest(s: TrailsState, draggedId: string, targetId: string, position: DropPosition)
    requires Forest(s.nodes, s.rootNodeIds)
    ensures var r := Move(s, draggedId, targetId, position);
      Forest(r.nodes, r.rootNodeIds)
  {
    if !MoveRefused(s, draggedId, targetId, position) {
      var r := Move(s, draggedId, targetId, position);
      MoveRelinks(s, draggedId, targetId, position);
      RelinkPreservesForest(s.nodes, s.rootNodeIds, r.nodes, r.rootNodeIds, draggedId,
                            NewParent(s, targetId, position));
    }
  }

  /** In a forest, step 1 of a move removes the dragged trail from every children list. */
  lemma DetachRemoves(nodes: map<string, TrailNode>, roots: seq<string>, d: string, x: string)
    requires Forest(nodes, roots) && d in nodes && x in nodes
    ensures DetachFromParent(nodes, d)[x].children == Remove(nodes[x].children, d)
  {
    if Start(nodes, nodes[d].parentId) != Some(x) {
      RemoveAbsent(nodes[x].children, d);
    }
  }

  /** `placed` is `list` with `d` inserted immediately before (or after) the element `t`. */
  predicate PlacedNextTo(list: seq<string>, placed: seq<string>, d: string, t: string, position: DropPosition) {
    exists i :: 0 <= i < |list| && list[i] == t && placed == InsertedBeside(list, i, d, position)
  }

  /** `list` with `d` inserted just before (`Before`) or just after its element at `i`. */
  function InsertedBeside(list: seq<string>, i: nat, d: string, position: DropPosition): seq<string>
    requires i < |list|
  {
    if position == Before then list[..i] + [d] + list[i..] else list[..i + 1] + [d] + list[i + 1..]
  }

  /** Splicing at the index `InsertIndex` computes puts `d` next to a present `t`. */
  lemma InsertIndexPlaces(list: seq<string>, d: string, t: string, position: DropPosition)
    requires t in list && position != Inside
    ensures PlacedNextTo(list, Splice(list, InsertIndex(list, t, position), 0, [d]), d, t, position)
  {
    var i := IndexOf(list, t);
    if position == Before {
      SpliceInsert(list, i, d);
    } else {
      SpliceInsert(list, i + 1, d);
    }
    assert list[i] == t && Splice(list, InsertIndex(list, t, position), 0, [d]) == InsertedBeside(list, i, d, position);
  }

  /** Dropping `Inside` appends the trail to the target's children and expands the target. */
  lemma MoveInsidePlacement(s: TrailsState, draggedId: string, targetId: string)
    requires Forest(s.nodes, s.rootNodeIds) && !MoveRefused(s, draggedId, targetId, Inside)
    ensures var r := Move(s, draggedId, targetId, Inside);
      r.nodes[targetId].children == Remove(s.nodes[targetId].children, draggedId) + [draggedId] &&
      r.nodes[targetId].isExpanded &&
      r.nodes[draggedId].parentId == Some(targetId) &&
      r.rootNodeIds == Remove(s.rootNodeIds, draggedId)
  {
    DetachRemoves(s.nodes, s.rootNodeIds, draggedId, targetId);
  }

  /**
   * Dropping `Before` or `After` puts the trail immediately before or after the target
   * among the target's siblings, whose parent it adopts.
   */
  lemma MoveBesidePlacement(s: TrailsState, draggedId: string, targetId: string, position: DropPosition)
    requires Forest(s.nodes, s.rootNodeIds) && !MoveRefused(s, draggedId, targetId, position)
    requires position != Inside
    ensures var r := Move(s, draggedId, targetId, position);
      match s.nodes[targetId].parentId
      case Some(p) =>
        PlacedNextTo(Remove(s.nodes[p].children, draggedId), r.nodes[p].children, draggedId, targetId, position) &&
        r.nodes[draggedId].parentId == Some(p) &&
        r.rootNodeIds == Remove(s.rootNodeIds, draggedId)
      case None =>
        PlacedNextTo(Remove(s.rootNodeIds, draggedId), r.rootNodeIds, draggedId, targetId, position) &&
        r.nodes[draggedId].parentId == None
  {
    match s.nodes[targetId].parentId
    case Some(p) =>
      DetachRemoves(s.nodes, s.rootNodeIds, draggedId, p);
      InsertIndexPlaces(Remove(s.nodes[p].children, draggedId), draggedId, targetId, position);
    case None =>
      InsertIndexPlaces(Remove(s.rootNodeIds, draggedId), draggedId, targetId, position);
  }
  // ---------------------------------------------------------------------------
  // Move to the top level.

  /**
   * `handleMoveToRoot`: nothing happens to a missing trail or to one that is already a
   * parentless root; otherwise the trail leaves its (present, truthy) parent's children,
   * is appended to the root list unless already there, and loses its parent.
   */
  function MoveToRoot(s: TrailsState, id: string): (r: TrailsState)
    ensures id !in s.nodes || (s.nodes[id].parentId == None && id in s.rootNodeIds) ==> r == s
    ensures r.nodes.Keys == s.nodes.Keys
    ensures r.activeNodeId == s.activeNodeId && r.closedTrails == s.closedTrails
    ensures r.selectedNodeIds == s.selectedNodeIds && r.pinnedTabs == s.pinnedTabs
    ensures id in s.nodes && r != s ==>
      r.nodes[id] == s.nodes[id].(parentId := None) && id in r.rootNodeIds &&
      r.rootNodeIds == if id in s.rootNodeIds then s.rootNodeIds else s.rootNodeIds + [id]
  {
    if id !in s.nodes then s
    else if s.nodes[id].parentId == None && id in s.rootNodeIds then s
    else
      var nodes1 := DetachFromParent(s.nodes, id);
      var roots := if id in s.rootNodeIds then s.rootNodeIds else s.rootNodeIds + [id];
      s.(nodes := nodes1[id := s.nodes[id].(parentId := None)], rootNodeIds := roots)
  }

  /** In a forest, moving a trail to the top level re-links it as a root. */
  lemma MoveToRootRelinks(s: TrailsState, id: string)
    requires Forest(s.nodes, s.rootNodeIds) && id in s.nodes && s.nodes[id].parentId.Some?
    ensures var r := MoveToRoot(s, id);
      Relinked(s.nodes, s.rootNodeIds, r.nodes, r.rootNodeIds, id, None) &&
      r.rootNodeIds == s.rootNodeIds + [id]
  {
    DetachFacts(s.nodes, s.rootNodeIds, id);
    assert id !in s.rootNodeIds;
    DetachedToRootRelinks(s, id);
  }

  lemma DetachedToRootRelinks(s: TrailsState, id: string)
    requires id in s.nodes && s.nodes[id].parentId.Some? && id !in s.rootNodeIds && Distinct(s.rootNodeIds)
    requires DetachedFrom(s.nodes, DetachFromParent(s.nodes, id), id)
    ensures var r := MoveToRoot(s, id);
      Relinked(s.nodes, s.rootNodeIds, r.nodes, r.rootNodeIds, id, None) &&
      r.rootNodeIds == s.rootNodeIds + [id]
  {
    AppendDistinct(s.rootNodeIds, id);
    RelinkAtRoot(s.nodes, DetachFromParent(s.nodes, id), s.rootNodeIds, id, s.rootNodeIds + [id]);
  }

  /** Moving a trail to the top level keeps the trail tree a well-formed forest. */
  lemma MoveToRootPreservesForest(s: TrailsState, id: string)
    requires Forest(s.nodes, s.rootNodeIds)
    ensures var r := MoveToRoot(s, id);
      Forest(r.nodes, r.rootNodeIds)
  {
    if id in s.nodes && s.nodes[id].parentId.Some? {
      var r := MoveToRoot(s, id);
      MoveToRootRelinks(s, id);
      RelinkPreservesForest(s.nodes, s.rootNodeIds, r.nodes, r.rootNodeIds, id, None);
    }
  }
  // ---------------------------------------------------------------------------
  // Closing a trail: its children take its place.

  /** How many closed trails the archive keeps. */
  const ArchiveLimit := 50

  /** The records after `forEach` sets the parent of each listed, present child to `p`, in order. */
  function Reparent(nodes: map<string, TrailNode>, cs: seq<string>, p: Option<string>): (r: map<string, TrailNode>)
    ensures r.Keys == nodes.Keys
    decreases |cs|
  {
    if cs == [] then nodes
    else
      var m := Reparent(nodes, cs[..|cs| - 1], p);
      var c := cs[|cs| - 1];
      if c in m then m[c := m[c].(parentId := p)] else m
  }

  /** After the `forEach`, exactly the records listed in `cs` have the parent `p`; nothing else changed. */
  lemma {:induction false} ReparentSets(nodes: map<string, TrailNode>, cs: seq<string>, p: Option<string>)
    ensures var r := Reparent(nodes, cs, p);
      forall x :: x in nodes ==> r[x] == if x in cs then nodes[x].(parentId := p) else nodes[x]
    decreases |cs|
  {
    if cs != [] {
      ReparentSets(nodes, cs[..|cs| - 1], p);
      assert cs == cs[..|cs| - 1] + [cs[|cs| - 1]];
    }
  }

  /**
   * The first steps of closing `id`: its children replace it in its (present, truthy)
   * parent's children and take that parent, or else replace it in the root list and
   * lose their parent.
   */
  function Promote(nodes: map<string, TrailNode>, roots: seq<string>, id: string): (r: (map<string, TrailNode>, seq<string>))
    requires id in nodes
    ensures r.0.Keys == nodes.Keys
  {
    var node := nodes[id];
    if Truthy(node.parentId) && node.parentId.value in nodes then
      var parent := nodes[node.parentId.value];
      var siblings := Splice(parent.children, IndexOf(parent.children, id), 1, node.children);
      (Reparent(nodes[node.parentId.value := parent.(children := siblings)], node.children, node.parentId), roots)
    else
      (Reparent(nodes, node.children, None), Splice(roots, IndexOf(roots, id), 1, node.children))
  }

  /** The archive entry for the closed trail `id`: its node alone, detached from the tree. */
  function Archived(id: string, node: TrailNode, entryId: string, now: int): (e: ClosedTrailEntry)
    ensures e.id == entryId && e.closedAt == now
    ensures e.rootNode.id == node.id && e.rootNode.url == node.url && e.rootNode.title == node.title
    ensures e.rootNode.parentId == None && e.rootNode.children == []
    ensures e.allNodes.Keys == {id} && e.allNodes[id] == e.rootNode
  {
    var detached := node.(parentId := None, children := []);
    ClosedTrailEntry(entryId, now, detached, map[id := detached])
  }

  /** `[entry, ...closed].slice(0, 50)`: the newest entry first, the oldest beyond 50 dropped. */
  function PushArchive(entry: ClosedTrailEntry, closed: seq<ClosedTrailEntry>): (r: seq<ClosedTrailEntry>)
    ensures |r| == if |closed| < ArchiveLimit then |closed| + 1 else ArchiveLimit
    ensures r[0] == entry && r[1..] == closed[..|r| - 1]
  {
    var archive := [entry] + closed;
    assert archive[1..] == closed;
    if |archive| <= ArchiveLimit then archive
    else
      assert archive[..ArchiveLimit][1..] == closed[..ArchiveLimit - 1];
      archive[..ArchiveLimit]
  }

  /**
   * `handleCloseTrail`: a missing or locked trail is not closed. Otherwise its children
   * are promoted into its place, it is removed, its archive entry (with the fresh id
   * `entryId` and the time `now`) is prepended to the archive, which keeps at most 50
   * entries, and when it was active its first child, else its parent, else the first root
   * becomes active.
   */
  function Close(s: TrailsState, id: string, entryId: string, now: int): (r: TrailsState)
    ensures id !in s.nodes || s.nodes[id].isLocked ==> r == s
    ensures id in s.nodes && !s.nodes[id].isLocked ==>
      r.nodes.Keys == s.nodes.Keys - {id} && id !in r.rootNodeIds &&
      |r.closedTrails| == (if |s.closedTrails| < ArchiveLimit then |s.closedTrails| + 1 else ArchiveLimit) &&
      r.closedTrails[0] == Archived(id, s.nodes[id], entryId, now) &&
      r.closedTrails[1..] == s.closedTrails[..|r.closedTrails| - 1]
    ensures s.activeNodeId != Some(id) ==> r.activeNodeId == s.activeNodeId
    ensures r.selectedNodeIds == s.selectedNodeIds && r.pinnedTabs == s.pinnedTabs
  {
    if id !in s.nodes || s.nodes[id].isLocked then s
    else
      var node := s.nodes[id];
      var (nodes1, roots1) := Promote(s.nodes, s.rootNodeIds, id);
      var roots := Remove(roots1, id);
      var active := if s.activeNodeId == Some(id)
        then Or(Head(node.children), Or(node.parentId, Or(Head(roots), None)))
        else s.activeNodeId;
      s.(nodes := nodes1 - {id}, rootNodeIds := roots, activeNodeId := active,
         closedTrails := PushArchive(Archived(id, node, entryId, now), s.closedTrails))
  }
  /** The facts about `id` and its neighbours that closing it relies on, all implied by a forest. */
  ghost predicate Closable(nodes: map<string, TrailNode>, roots: seq<string>, id: string) {
    id in nodes && Distinct(roots) && id !in nodes[id].children &&
    (forall x :: x in nodes ==> Distinct(nodes[x].children)) &&
    (forall x :: x in nodes ==> (x in nodes[id].children <==> nodes[x].parentId == Some(id))) &&
    (forall x :: x in nodes ==> (id in nodes[x].children <==> nodes[id].parentId == Some(x))) &&
    match nodes[id].parentId
    case None => id in roots && forall c :: c in nodes[id].children ==> c !in roots
    case Some(p) =>
      p in nodes && p != id && p != "" && id !in roots &&
      forall c :: c in nodes[id].children ==> c !in nodes[p].children
  }

  lemma ForestClosable(nodes: map<string, TrailNode>, roots: seq<string>, id: string)
    requires Forest(nodes, roots) && id in nodes
    ensures Closable(nodes, roots, id)
  {
    NotOwnParent(nodes, roots, id);
  }

  /** Under a parent, closing promotes the children into the parent's list. */
  lemma PromoteUnderParent(nodes: map<string, TrailNode>, roots: seq<string>, id: string)
    requires Closable(nodes, roots, id) && nodes[id].parentId.Some?
    ensures var r := Promote(nodes, roots, id);
      Promoted(nodes, roots, r.0 - {id}, Remove(r.1, id), id)
  {
    PromoteUnderParentShape(nodes, roots, id);
    RemoveAbsent(roots, id);
    PromotedUnderParent(nodes, roots, id, Promote(nodes, roots, id).0 - {id});
  }

  lemma PromoteUnderParentShape(nodes: map<string, TrailNode>, roots: seq<string>, id: string)
    requires id in nodes && Truthy(nodes[id].parentId) && nodes[id].parentId.value in nodes
    ensures var p := nodes[id].parentId.value;
      var r := Promote(nodes, roots, id);
      r.1 == roots && r.0.Keys == nodes.Keys &&
      forall x :: x in nodes ==>
        r.0[x].id == nodes[x].id &&
        r.0[x].parentId == (if x in nodes[id].children then Some(p) else nodes[x].parentId) &&
        r.0[x].children == if x == p then Splice(nodes[p].children, IndexOf(nodes[p].children, id), 1, nodes[id].children)
                           else nodes[x].children
  {
    var p := nodes[id].parentId.value;
    var cs := nodes[id].children;
    var nodes1 := nodes[p := nodes[p].(children := Splice(nodes[p].children, IndexOf(nodes[p].children, id), 1, cs))];
    assert Promote(nodes, roots, id) == (Reparent(nodes1, cs, Some(p)), roots);
    ReparentSets(nodes1, cs, Some(p));
  }

  lemma PromotedUnderParent(nodes: map<string, TrailNode>, roots: seq<string>, id: string,
                            nodes2: map<string, TrailNode>)
    requires Closable(nodes, roots, id) && nodes[id].parentId.Some?
    requires nodes2.Keys == nodes.Keys - {id}
    requires var p := nodes[id].parentId.value;
      forall x :: x in nodes2 ==>
        nodes2[x].id == nodes[x].id &&
        nodes2[x].parentId == (if x in nodes[id].children then Some(p) else nodes[x].parentId) &&
        nodes2[x].children == if x == p then Splice(nodes[p].children, IndexOf(nodes[p].children, id), 1, nodes[id].children)
                              else nodes[x].children
    ensures Promoted(nodes, roots, nodes2, roots, id)
  {
    var p := nodes[id].parentId.value;
    forall x | x in nodes2
      ensures Distinct(nodes2[x].children)
      ensures forall c :: c in nodes2[x].children <==>
        (c in nodes[x].children && c != id) || (nodes[id].parentId == Some(x) && c in nodes[id].children)
    {
      if x == p {
        SpliceReplaceDistinct(nodes[p].children, IndexOf(nodes[p].children, id), nodes[id].children);
      } else {
        assert id !in nodes[x].children;
      }
    }
    assert PromotedLinks(nodes, nodes2, id);
  }

  /** At the top level, closing promotes the children into the root list. */
  lemma PromoteAtRoot(nodes: map<string, TrailNode>, roots: seq<string>, id: string)
    requires Closable(nodes, roots, id) && nodes[id].parentId.None?
    ensures var r := Promote(nodes, roots, id);
      Promoted(nodes, roots, r.0 - {id}, Remove(r.1, id), id)
  {
    var cs := nodes[id].children;
    var roots1 := Splice(roots, IndexOf(roots, id), 1, cs);
    SpliceReplaceDistinct(roots, IndexOf(roots, id), cs);
    assert id !in roots1;
    RemoveAbsent(roots1, id);
    assert Promote(nodes, roots, id) == (Reparent(nodes, cs, None), roots1);
    ReparentSets(nodes, cs, None);
    PromotedAtRoot(nodes, roots, id, Reparent(nodes, cs, None) - {id}, roots1);
  }

  lemma PromotedAtRoot(nodes: map<string, TrailNode>, roots: seq<string>, id: string,
                       nodes2: map<string, TrailNode>, roots2: seq<string>)
    requires Closable(nodes, roots, id) && nodes[id].parentId.None?
    requires nodes2.Keys == nodes.Keys - {id}
    requires forall x :: x in nodes2 ==>
      nodes2[x].id == nodes[x].id && nodes2[x].children == nodes[x].children &&
      nodes2[x].parentId == if x in nodes[id].children then None else nodes[x].parentId
    requires Distinct(roots2)
    requires forall c :: c in roots2 <==> (c in roots && c != id) || c in nodes[id].children
    ensures Promoted(nodes, roots, nodes2, roots2, id)
  {
    assert PromotedLinks(nodes, nodes2, id);
    assert PromotedChildren(nodes, nodes2, id);
  }

  /** In a forest, closing a trail removes it and promotes its children into its place. */
  lemma ClosePromotes(s: TrailsState, id: string, entryId: string, now: int)
    requires Forest(s.nodes, s.rootNodeIds) && id in s.nodes && !s.nodes[id].isLocked
    ensures var r := Close(s, id, entryId, now);
      Promoted(s.nodes, s.rootNodeIds, r.nodes, r.rootNodeIds, id)
  {
    ForestClosable(s.nodes, s.rootNodeIds, id);
    if s.nodes[id].parentId.Some? {
      PromoteUnderParent(s.nodes, s.rootNodeIds, id);
    } else {
      PromoteAtRoot(s.nodes, s.rootNodeIds, id);
    }
  }

  /** Closing a trail keeps the trail tree a well-formed forest. */
  lemma ClosePreservesForest(s: TrailsState, id: string, entryId: string, now: int)
    requires Forest(s.nodes, s.rootNodeIds)
    ensures var r := Close(s, id, entryId, now);
      Forest(r.nodes, r.rootNodeIds)
  {
    if id in s.nodes && !s.nodes[id].isLocked {
      var r := Close(s, id, entryId, now);
      ClosePromotes(s, id, entryId, now);
      PromotedPreservesForest(s.nodes, s.rootNodeIds, r.nodes, r.rootNodeIds, id);
    }
  }
  /** `childrenIds.forEach(…)`: each listed child still in `nodes` gets the parent `p`. */
  method ReparentChildren(nodes: map<string, TrailNode>, childrenIds: seq<string>, p: Option<string>)
    returns (r: map<string, TrailNode>)
    ensures r == Reparent(nodes, childrenIds, p)
  {
    r := nodes;
    var i := 0;
    while i < |childrenIds|
      invariant 0 <= i <= |childrenIds|
      invariant r == Reparent(nodes, childrenIds[..i], p)
    {
      var childId := childrenIds[i];
      assert childrenIds[..i + 1][..i] == childrenIds[..i];
      if childId in r {
        r := r[childId := r[childId].(parentId := p)];
      }
      i := i + 1;
    }
    assert childrenIds[..i] == childrenIds;
  }

  /** `handleCloseTrail`'s updater as written: copies of the record and root list edited step by step. */
  method CloseTrail(s: TrailsState, id: string, entryId: string, now: int) returns (r: TrailsState)
    ensures r == Close(s, id, entryId, now)
  {
    if id !in s.nodes {
      return s;
    }
    var node := s.nodes[id];
    if node.isLocked {
      return s;
    }
    var newNodes := s.nodes;
    var newRootNodeIds := s.rootNodeIds;
    var childrenIds := node.children;
    var parentId := node.parentId;
    var adopter: Option<string> := None;
    if Truthy(parentId) && parentId.value in newNodes {
      var parent := newNodes[parentId.value];
      var nodeIndex := IndexOf(parent.children, id);
      newNodes := newNodes[parentId.value := parent.(children := Splice(parent.children, nodeIndex, 1, childrenIds))];
      adopter := parentId;
    } else {
      var nodeIndex := IndexOf(newRootNodeIds, id);
      newRootNodeIds := Splice(newRootNodeIds, nodeIndex, 1, childrenIds);
    }
    newNodes := ReparentChildren(newNodes, childrenIds, adopter);
    newNodes := newNodes - {id};
    newRootNodeIds := Remove(newRootNodeIds, id);
    var newActiveNodeId := s.activeNodeId;
    if s.activeNodeId == Some(id) {
      newActiveNodeId := Or(Head(childrenIds), Or(parentId, Or(Head(newRootNodeIds), None)));
    }
    r := s.(nodes := newNodes, rootNodeIds := newRootNodeIds, activeNodeId := newActiveNodeId,
            closedTrails := PushArchive(Archived(id, node, entryId, now), s.closedTrails));
  }

  /** `list[..i] + items + list[i + 1..]`: the element at `i` replaced by `items`. */
  function ReplacedAt(list: seq<string>, i: nat, items: seq<string>): seq<string>
    requires i < |list|
  {
    list[..i] + items + list[i + 1..]
  }

  /** `placed` is `list` with its element `id` replaced, where it stood, by `items`. */
  predicate ReplacedBy(list: seq<string>, placed: seq<string>, id: string, items: seq<string>) {
    exists i :: 0 <= i < |list| && list[i] == id && placed == ReplacedAt(list, i, items)
  }

  /**
   * In a forest, the closed trail's children take its place, in order, in its parent's
   * children (or the root list), and take its parent as theirs.
   */
  lemma ClosePlacement(s: TrailsState, id: string, entryId: string, now: int)
    requires Forest(s.nodes, s.rootNodeIds) && id in s.nodes && !s.nodes[id].isLocked
    ensures var r := Close(s, id, entryId, now);
      var node := s.nodes[id];
      (forall c :: c in node.children ==> c in r.nodes && r.nodes[c].parentId == node.parentId) &&
      match node.parentId
      case Some(p) =>
        ReplacedBy(s.nodes[p].children, r.nodes[p].children, id, node.children) &&
        r.rootNodeIds == s.rootNodeIds
      case None =>
        ReplacedBy(s.rootNodeIds, r.rootNodeIds, id, node.children)
  {
    ForestClosable(s.nodes, s.rootNodeIds, id);
    ClosePromotes(s, id, entryId, now);
    var r := Close(s, id, entryId, now);
    PromotedAdopt(s.nodes, s.rootNodeIds, r.nodes, r.rootNodeIds, id);
    if s.nodes[id].parentId.Some? {
      CloseUnderParentPlaces(s, id, entryId, now);
    } else {
      assert Distinct(s.nodes[id].children);
      CloseAtRootPlaces(s, id, entryId, now);
    }
  }

  lemma CloseUnderParentPlaces(s: TrailsState, id: string, entryId: string, now: int)
    requires Closable(s.nodes, s.rootNodeIds, id) && s.nodes[id].parentId.Some? && !s.nodes[id].isLocked
    ensures var r := Close(s, id, entryId, now);
      var p := s.nodes[id].parentId.value;
      ReplacedBy(s.nodes[p].children, r.nodes[p].children, id, s.nodes[id].children) &&
      r.rootNodeIds == s.rootNodeIds
  {
    var p := s.nodes[id].parentId.value;
    var list := s.nodes[p].children;
    var i := IndexOf(list, id);
    PromoteUnderParentShape(s.nodes, s.rootNodeIds, id);
    SpliceReplace(list, i, s.nodes[id].children);
    RemoveAbsent(s.rootNodeIds, id);
    assert list[i] == id && Close(s, id, entryId, now).nodes[p].children == ReplacedAt(list, i, s.nodes[id].children);
  }

  lemma CloseAtRootPlaces(s: TrailsState, id: string, entryId: string, now: int)
    requires id in s.nodes && s.nodes[id].parentId.None? && !s.nodes[id].isLocked
    requires id in s.rootNodeIds && Distinct(s.rootNodeIds)
    requires Distinct(s.nodes[id].children) && id !in s.nodes[id].children
    requires forall c :: c in s.nodes[id].children ==> c !in s.rootNodeIds
    ensures ReplacedBy(s.rootNodeIds, Close(s, id, entryId, now).rootNodeIds, id, s.nodes[id].children)
  {
    var cs := s.nodes[id].children;
    assert Close(s, id, entryId, now).rootNodeIds == Remove(Splice(s.rootNodeIds, IndexOf(s.rootNodeIds, id), 1, cs), id);
    ReplaceRemoves(s.rootNodeIds, id, cs);
  }

  /** Splicing distinct new `items` in place of `id`, then filtering `id` out, replaces `id` where it stood. */
  lemma ReplaceRemoves(list: seq<string>, id: string, items: seq<string>)
    requires id in list && Distinct(list) && Distinct(items) && id !in items
    requires forall c :: c in items ==> c !in list
    ensures ReplacedBy(list, Remove(Splice(list, IndexOf(list, id), 1, items), id), id, items)
  {
    var i := IndexOf(list, id);
    SpliceReplaceDistinct(list, i, items);
    SpliceReplace(list, i, items);
    RemoveAbsent(Splice(list, i, 1, items), id);
    assert list[i] == id;
  }

  /**
   * In a forest, closing the active trail activates its first child, else its parent,
   * else the first remaining root, else nothing; the trail activated is a present one.
   */
  lemma CloseActive(s: TrailsState, id: string, entryId: string, now: int)
    requires Forest(s.nodes, s.rootNodeIds) && id in s.nodes && !s.nodes[id].isLocked
    requires s.activeNodeId == Some(id)
    ensures var r := Close(s, id, entryId, now);
      var node := s.nodes[id];
      r.activeNodeId == (if node.children != [] then Some(node.children[0])
                         else if node.parentId.Some? then node.parentId
                         else if r.rootNodeIds != [] then Some(r.rootNodeIds[0])
                         else None) &&
      (r.activeNodeId.Some? ==> r.activeNodeId.value in r.nodes)
  {
    var r := Close(s, id, entryId, now);
    var node := s.nodes[id];
    assert r.activeNodeId == Or(Head(node.children), Or(node.parentId, Or(Head(r.rootNodeIds), None)));
    ClosePreservesForest(s, id, entryId, now);
    ClosePlacement(s, id, entryId, now);
    NotOwnParent(s.nodes, s.rootNodeIds, id);
    assert node.children != [] ==> node.children[0] in s.nodes && node.children[0] in r.nodes;
    assert r.rootNodeIds != [] ==> r.rootNodeIds[0] in r.nodes;
    FirstTruthy(node.children, node.parentId, r.rootNodeIds);
  }

  /** `a[0] || b || c[0] || null` when every value present is a non-empty string. */
  lemma FirstTruthy(a: seq<string>, b: Option<string>, c: seq<string>)
    requires a != [] ==> a[0] != ""
    requires b.Some? ==> b.value != ""
    requires c != [] ==> c[0] != ""
    ensures Or(Head(a), Or(b, Or(Head(c), None))) ==
      if a != [] then Some(a[0]) else if b.Some? then b else if c != [] then Some(c[0]) else None
  {
  }
  // ---------------------------------------------------------------------------
  // Bulk deletion of the selection.

  /** The selected ids not naming a locked node, without repeats, in selection order (`new Set(…)`). */
  function Deletable(s: TrailsState): (ids: seq<string>)
    ensures forall x :: x in ids <==> x in s.selectedNodeIds && (x !in s.nodes || !s.nodes[x].isLocked)
    ensures forall i, j :: 0 <= i < j < |ids| ==> ids[i] != ids[j]
  {
    Dedup(Filter(s.selectedNodeIds, id => id !in s.nodes || !s.nodes[id].isLocked))
  }

  /** One step of the `forEach`: unlist a present `id` from its (present, truthy) parent, else from the root list, and drop it. */
  function DeleteOne(nodes: map<string, TrailNode>, roots: seq<string>, id: string): (r: (map<string, TrailNode>, seq<string>))
    ensures r.0.Keys == nodes.Keys - {id}
  {
    if id !in nodes then (nodes, roots)
    else
      var parentId := nodes[id].parentId;
      if Truthy(parentId) && parentId.value in nodes then
        var parent := nodes[parentId.value];
        (nodes[parentId.value := parent.(children := Remove(parent.children, id))] - {id}, roots)
      else
        (nodes - {id}, Remove(roots, id))
  }

  /** The `forEach` over `ids`, in order. */
  function DeleteAll(nodes: map<string, TrailNode>, roots: seq<string>, ids: seq<string>): (r: (map<string, TrailNode>, seq<string>))
    ensures r.0.Keys <= nodes.Keys
    decreases |ids|
  {
    if ids == [] then (nodes, roots)
    else
      var r := DeleteAll(nodes, roots, ids[..|ids| - 1]);
      DeleteOne(r.0, r.1, ids[|ids| - 1])
  }

  /** `m` is `nodes` without the ids in `ids`, with every id and parent link unchanged. */
  ghost predicate DeletedFrom(nodes: map<string, TrailNode>, m: map<string, TrailNode>, ids: seq<string>) {
    m.Keys == nodes.Keys - (set x | x in ids) &&
    forall x :: x in m ==> m[x].id == nodes[x].id && m[x].parentId == nodes[x].parentId
  }

  /** The lists of `m` and `rs` are those of `nodes` and `roots` without the ids in `ids`. */
  ghost predicate UnlistedFrom(nodes: map<string, TrailNode>, roots: seq<string>,
                               m: map<string, TrailNode>, rs: seq<string>, ids: seq<string>) {
    m.Keys <= nodes.Keys &&
    (forall x, c :: x in m ==> (c in m[x].children <==> c in nodes[x].children && c !in ids)) &&
    (forall c :: c in rs <==> c in roots && c !in ids)
  }

  lemma DeleteOneKeys(nodes: map<string, TrailNode>, m: map<string, TrailNode>, rs: seq<string>,
                      ids: seq<string>, d: string)
    requires DeletedFrom(nodes, m, ids)
    ensures DeletedFrom(nodes, DeleteOne(m, rs, d).0, ids + [d])
  {
    assert (set x | x in ids + [d]) == (set x | x in ids) + {d};
  }

  /** Deleting drops exactly the listed ids and changes no node's id or parent link. */
  lemma {:induction false} DeleteAllKeys(nodes: map<string, TrailNode>, roots: seq<string>, ids: seq<string>)
    ensures DeletedFrom(nodes, DeleteAll(nodes, roots, ids).0, ids)
    decreases |ids|
  {
    if ids != [] {
      var prefix := ids[..|ids| - 1];
      DeleteAllKeys(nodes, roots, prefix);
      var m := DeleteAll(nodes, roots, prefix);
      DeleteOneKeys(nodes, m.0, m.1, prefix, ids[|ids| - 1]);
      assert ids == prefix + [ids[|ids| - 1]];
    }
  }

  /**
   * The step that deletes `d` takes it out of the only list that can hold it: the
   * children of its parent, or the root list when it has no parent.
   */
  lemma DeleteOneUnlists(nodes: map<string, TrailNode>, roots: seq<string>,
                         m: map<string, TrailNode>, rs: seq<string>, ids: seq<string>, d: string)
    requires forall x :: x in nodes ==> x != ""
    requires forall x :: x in nodes && d in nodes[x].children ==> d in nodes && nodes[d].parentId == Some(x)
    requires d in roots ==> d in nodes && nodes[d].parentId == None
    requires DeletedFrom(nodes, m, ids) && UnlistedFrom(nodes, roots, m, rs, ids)
    ensures var r := DeleteOne(m, rs, d);
      UnlistedFrom(nodes, roots, r.0, r.1, ids + [d])
  {
    var r := DeleteOne(m, rs, d);
    if d in m {
      var up := Start(m, m[d].parentId);
      forall x, c | x in r.0
        ensures c in r.0[x].children <==> c in nodes[x].children && c !in ids + [d]
      {
        assert c in ids + [d] <==> c in ids || c == d;
        if up == Some(x) {
          assert r.0[x].children == Remove(m[x].children, d);
        } else {
          assert r.0[x] == m[x];
          assert x in m && x in nodes && x != "";
          assert m[d].parentId != Some(x);
          assert d !in nodes[x].children;
        }
      }
      assert up.Some? ==> r.1 == rs;
      assert up.None? ==> d !in roots || m[d].parentId == None;
    } else {
      forall x, c | x in m && c == d ensures c in m[x].children <==> c in nodes[x].children && c !in ids + [d] {
        assert d in ids || d !in nodes;
      }
    }
  }

  /**
   * In a forest, deleting takes each deleted id out of the one list that held it: the
   * remaining lists are the old ones without the deleted ids.
   */
  lemma {:induction false} DeleteAllUnlists(nodes: map<string, TrailNode>, roots: seq<string>, ids: seq<string>)
    requires KeysMatch(nodes) && ParentsPresent(nodes) && RootsOk(nodes, roots) && ChildrenOk(nodes)
    ensures var r := DeleteAll(nodes, roots, ids);
      UnlistedFrom(nodes, roots, r.0, r.1, ids)
    decreases |ids|
  {
    if ids != [] {
      var prefix := ids[..|ids| - 1];
      DeleteAllUnlists(nodes, roots, prefix);
      DeleteAllKeys(nodes, roots, prefix);
      var m := DeleteAll(nodes, roots, prefix);
      var d := ids[|ids| - 1];
      assert forall x :: x in nodes && d in nodes[x].children ==> d in nodes && nodes[d].parentId == Some(x);
      DeleteOneUnlists(nodes, roots, m.0, m.1, prefix, d);
      assert ids == prefix + [ids[|ids| - 1]];
    }
  }

  /**
   * `handleBulkDelete`: nothing happens when no selected id is deletable. Otherwise every
   * deletable id is deleted in selection order, the selection is cleared, and when the
   * active trail was deleted the first remaining root (or nothing) becomes active.
   */
  function BulkDelete(s: TrailsState): (r: TrailsState)
    ensures Deletable(s) == [] ==> r == s
    ensures Deletable(s) != [] ==> r.selectedNodeIds == []
    ensures s.activeNodeId.Some? && s.activeNodeId.value !in Deletable(s) ==> r.activeNodeId == s.activeNodeId
    ensures r.closedTrails == s.closedTrails && r.pinnedTabs == s.pinnedTabs
  {
    var ids := Deletable(s);
    if ids == [] then s
    else
      var (nodes, roots) := DeleteAll(s.nodes, s.rootNodeIds, ids);
      var active := if s.activeNodeId.GetOr("") in ids then Or(Head(roots), None) else s.activeNodeId;
      s.(nodes := nodes, rootNodeIds := roots, selectedNodeIds := [], activeNodeId := active)
  }

  /** `idsToDelete.forEach(…)` on copies of the record and the root list. */
  method DeleteEach(nodes: map<string, TrailNode>, roots: seq<string>, idsToDelete: seq<string>)
    returns (newNodes: map<string, TrailNode>, newRootNodeIds: seq<string>)
    ensures (newNodes, newRootNodeIds) == DeleteAll(nodes, roots, idsToDelete)
  {
    newNodes := nodes;
    newRootNodeIds := roots;
    var i := 0;
    while i < |idsToDelete|
      invariant 0 <= i <= |idsToDelete|
      invariant (newNodes, newRootNodeIds) == DeleteAll(nodes, roots, idsToDelete[..i])
    {
      var id := idsToDelete[i];
      assert idsToDelete[..i + 1][..i] == idsToDelete[..i];
      if id in newNodes {
        var node := newNodes[id];
        if Truthy(node.parentId) && node.parentId.value in newNodes {
          var parent := newNodes[node.parentId.value];
          newNodes := newNodes[node.parentId.value := parent.(children := Remove(parent.children, id))];
        } else {
          newRootNodeIds := Remove(newRootNodeIds, id);
        }
        newNodes := newNodes - {id};
      }
      i := i + 1;
    }
    assert idsToDelete[..i] == idsToDelete;
  }

  /** `handleBulkDelete`'s updater as written. */
  method BulkDeleteTrails(s: TrailsState) returns (r: TrailsState)
    ensures r == BulkDelete(s)
  {
    var idsToDelete := Deletable(s);
    if |idsToDelete| == 0 {
      return s;
    }
    var newNodes, newRootNodeIds := DeleteEach(s.nodes, s.rootNodeIds, idsToDelete);
    var newActiveNodeId := s.activeNodeId;
    if s.activeNodeId.GetOr("") in idsToDelete {
      newActiveNodeId := Or(Head(newRootNodeIds), None);
    }
    r := s.(nodes := newNodes, rootNodeIds := newRootNodeIds, selectedNodeIds := [], activeNodeId := newActiveNodeId);
  }

  /** Exactly the deletable ids are removed; in particular locked trails survive, unchanged in id and parent. */
  lemma BulkDeleteKeys(s: TrailsState)
    ensures var r := BulkDelete(s);
      r.nodes.Keys == s.nodes.Keys - (set x | x in Deletable(s)) &&
      (forall x :: x in s.nodes && s.nodes[x].isLocked ==> x in r.nodes) &&
      forall x :: x in r.nodes ==> r.nodes[x].id == s.nodes[x].id && r.nodes[x].parentId == s.nodes[x].parentId
  {
    DeleteAllKeys(s.nodes, s.rootNodeIds, Deletable(s));
  }

  /**
   * In a forest, no remaining list names a deleted trail: every children list and the
   * root list keep exactly their entries that were not deleted.
   */
  lemma BulkDeleteUnlists(s: TrailsState)
    requires Forest(s.nodes, s.rootNodeIds)
    ensures var r := BulkDelete(s);
      (forall x, c :: x in r.nodes ==> (c in r.nodes[x].children <==> c in s.nodes[x].children && c !in Deletable(s))) &&
      (forall c :: c in r.rootNodeIds <==> c in s.rootNodeIds && c !in Deletable(s))
  {
    DeleteAllUnlists(s.nodes, s.rootNodeIds, Deletable(s));
  }

  /**
   * Bulk deletion does not keep the forest: a child left behind by a deleted trail still
   * names it as its parent.
   */
  lemma BulkDeleteOrphans(s: TrailsState, d: string, c: string)
    requires Forest(s.nodes, s.rootNodeIds)
    requires d in s.nodes && d in Deletable(s) && c in s.nodes[d].children && c !in Deletable(s)
    ensures var r := BulkDelete(s);
      c in r.nodes && r.nodes[c].parentId == Some(d) && d !in r.nodes && !Forest(r.nodes, r.rootNodeIds)
  {
    BulkDeleteKeys(s);
  }

  /** In a forest, deleting the active trail activates the first remaining root, a present trail, or nothing. */
  lemma BulkDeleteActive(s: TrailsState)
    requires Forest(s.nodes, s.rootNodeIds)
    requires s.activeNodeId.Some? && s.activeNodeId.value in Deletable(s)
    ensures var r := BulkDelete(s);
      r.activeNodeId == (if r.rootNodeIds != [] then Some(r.rootNodeIds[0]) else None) &&
      (r.activeNodeId.Some? ==> r.activeNodeId.value in r.nodes)
  {
    var r := BulkDelete(s);
    BulkDeleteKeys(s);
    BulkDeleteUnlists(s);
    assert r.rootNodeIds != [] ==> r.rootNodeIds[0] in s.rootNodeIds && r.rootNodeIds[0] in r.nodes;
  }

  // ---------------------------------------------------------------------------
  // Selection and pinned tabs.

  /** `handleToggleSelect`: a selected id is deselected (every copy), any other is appended. */
  function ToggleSelect(s: TrailsState, id: string): (r: TrailsState)
    ensures id in r.selectedNodeIds <==> id !in s.selectedNodeIds
    ensures forall y :: y != id ==> (y in r.selectedNodeIds <==> y in s.selectedNodeIds)
    ensures id !in s.selectedNodeIds ==> r.selectedNodeIds == s.selectedNodeIds + [id]
    ensures r == s.(selectedNodeIds := r.selectedNodeIds)
  {
    var selected := if id in s.selectedNodeIds then Remove(s.selectedNodeIds, id) else s.selectedNodeIds + [id];
    s.(selectedNodeIds := selected)
  }

  /** Selecting and then deselecting a trail restores the selection. */
  lemma ToggleSelectTwice(s: TrailsState, id: string)
    requires id !in s.selectedNodeIds
    ensures ToggleSelect(ToggleSelect(s, id), id) == s
  {
    RemoveAppended(s.selectedNodeIds, id);
    var t := ToggleSelect(s, id);
    assert t == s.(selectedNodeIds := s.selectedNodeIds + [id]);
    assert ToggleSelect(t, id) == t.(selectedNodeIds := Remove(s.selectedNodeIds + [id], id));
  }

  /** Some pinned tab shows `url`. */
  predicate Pinned(tabs: seq<PinnedTab>, url: string) {
    exists i :: 0 <= i < |tabs| && tabs[i].url == url
  }

  /** No two pinned tabs show the same url. */
  predicate UrlsDistinct(tabs: seq<PinnedTab>) {
    forall i, j :: 0 <= i < j < |tabs| ==> tabs[i].url != tabs[j].url
  }

  /**
   * `handlePinTab`: a url that is already pinned changes nothing; otherwise a tab with
   * the fresh id `freshId` is appended.
   */
  function PinTab(s: TrailsState, url: string, title: string, favicon: Option<string>, freshId: string): (r: TrailsState)
    ensures Pinned(s.pinnedTabs, url) ==> r == s
    ensures !Pinned(s.pinnedTabs, url) ==>
      r == s.(pinnedTabs := s.pinnedTabs + [PinnedTab(freshId, url, title, favicon)])
  {
    if exists i :: 0 <= i < |s.pinnedTabs| && s.pinnedTabs[i].url == url then s
    else s.(pinnedTabs := s.pinnedTabs + [PinnedTab(freshId, url, title, favicon)])
  }

  /** After pinning, the url is pinned; pinning keeps urls distinct, and pinning twice is pinning once. */
  lemma PinTabPins(s: TrailsState, url: string, title: string, favicon: Option<string>, freshId: string,
                   title2: string, favicon2: Option<string>, freshId2: string)
    ensures var r := PinTab(s, url, title, favicon, freshId);
      Pinned(r.pinnedTabs, url) &&
      (UrlsDistinct(s.pinnedTabs) ==> UrlsDistinct(r.pinnedTabs)) &&
      PinTab(r, url, title2, favicon2, freshId2) == r
  {
    var r := PinTab(s, url, title, favicon, freshId);
    if !Pinned(s.pinnedTabs, url) {
      assert r.pinnedTabs[|s.pinnedTabs|].url == url;
    }
  }
}
