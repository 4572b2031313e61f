/**
 * The trail tree of the browser sidebar: nodes kept in a record keyed by id, each node
 * naming its parent and listing its children, plus the ordered list of top-level
 * trails. This module holds the data model and the theory of parent chains that the
 * state transitions of `TrailActions` are proved against.
 */
module TrailTypes {
  import opened Wrappers
  import opened Seqs

  datatype NodeType = Link | Folder | Area

  /**
   * One trail. Optional text fields are `Option`s; the optional flags
   * (`isExpanded`, `isLocked`, `isArea`, `isPlayingAudio`) are `false` when undefined,
   * which is how every reader of them treats `undefined`.
   */
  datatype TrailNode = TrailNode(
    id: string,
    url: string,
    title: string,
    customName: Option<string>,
    emoji: Option<string>,
    favicon: Option<string>,
    parentId: Option<string>,
    children: seq<string>,
    timestamp: int,
    isExpanded: bool,
    isLocked: bool,
    isArea: bool,
    isPlayingAudio: bool,
    nodeType: NodeType)

  /** An entry of the recently-closed archive. */
  datatype ClosedTrailEntry = ClosedTrailEntry(
    id: string,
    closedAt: int,
    rootNode: TrailNode,
    allNodes: map<string, TrailNode>)

  datatype PinnedTab = PinnedTab(id: string, url: string, title: string, favicon: Option<string>)

  /** The application state that the sidebar operations transform. */
  datatype TrailsState = TrailsState(
    nodes: map<string, TrailNode>,
    activeNodeId: Option<string>,
    activePinnedTabId: Option<string>,
    rootNodeIds: seq<string>,
    closedTrails: seq<ClosedTrailEntry>,
    selectedNodeIds: seq<string>,
    pinnedTabs: seq<PinnedTab>)

  /** JavaScript truthiness of a `string | null`: present and not the empty string. */
  predicate Truthy(p: Option<string>) {
    p.Some? && p.value != ""
  }

  /** `a || b` on `string | null` values. */
  function Or(a: Option<string>, b: Option<string>): (r: Option<string>)
    ensures Truthy(a) ==> r == a
    ensures !Truthy(a) ==> r == b
  {
    if Truthy(a) then a else b
  }

  /** `s[0]`, which is `undefined` on an empty array. */
  function Head(s: seq<string>): (r: Option<string>)
    ensures r.Some? <==> |s| > 0
    ensures r.Some? ==> r.value == s[0]
  {
    if |s| > 0 then Some(s[0]) else None
  }

  // ---------------------------------------------------------------------------
  // Parent chains. A walk is a key, or `None` once it has left the record.

  /** Where a walk from the parent link `p` begins: the node it names, if it is truthy and present. */
  function Start(nodes: map<string, TrailNode>, p: Option<string>): (r: Option<string>)
    ensures r.Some? ==> r.value in nodes
  {
    if Truthy(p) && p.value in nodes then p else None
  }

  /** One step up the tree from the node at `key`. */
  function Next(nodes: map<string, TrailNode>, key: string): (r: Option<string>)
    requires key in nodes
    ensures r.Some? ==> r.value in nodes
  {
    Start(nodes, nodes[key].parentId)
  }

  /** The walk from `cur` leaves the record within `k` steps. */
  predicate EndsWithin(nodes: map<string, TrailNode>, cur: Option<string>, k: nat)
    decreases k
  {
    match cur
    case None => true
    case Some(key) => key !in nodes || (k > 0 && EndsWithin(nodes, Next(nodes, key), k - 1))
  }

  /** The walk from `cur` reaches, within `k` steps, a node whose `id` is `target`. */
  predicate MeetsWithin(nodes: map<string, TrailNode>, cur: Option<string>, target: string, k: nat)
    decreases k
  {
    match cur
    case None => false
    case Some(key) =>
      key in nodes &&
      (nodes[key].id == target || (k > 0 && MeetsWithin(nodes, Next(nodes, key), target, k - 1)))
  }

  /** The walk from `cur` reaches a node whose `id` is `target`. */
  ghost predicate Meets(nodes: map<string, TrailNode>, cur: Option<string>, target: string) {
    exists k: nat :: MeetsWithin(nodes, cur, target, k)
  }

  /** Every parent chain ends: the parent links are acyclic. */
  ghost predicate ChainsEnd(nodes: map<string, TrailNode>) {
    forall key :: key in nodes ==> exists k: nat :: EndsWithin(nodes, Some(key), k)
  }

  lemma {:induction false} EndsWithinMono(nodes: map<string, TrailNode>, cur: Option<string>, k: nat, k': nat)
    requires EndsWithin(nodes, cur, k) && k <= k'
    ensures EndsWithin(nodes, cur, k')
    decreases k
  {
    if cur.Some? && cur.value in nodes {
      EndsWithinMono(nodes, Next(nodes, cur.value), k - 1, k' - 1);
    }
  }

  /** Every walk in an acyclic record ends. */
  lemma WalkEnds(nodes: map<string, TrailNode>, cur: Option<string>) returns (k: nat)
    requires ChainsEnd(nodes)
    ensures EndsWithin(nodes, cur, k)
  {
    if cur.Some? && cur.value in nodes {
      k :| EndsWithin(nodes, cur, k);
    } else {
      k := 0;
    }
  }

  /** Past a node that is not the target, a walk meets the target iff the rest of it does. */
  lemma MeetsStep(nodes: map<string, TrailNode>, key: string, target: string)
    requires key in nodes && nodes[key].id != target
    ensures Meets(nodes, Some(key), target) <==> Meets(nodes, Next(nodes, key), target)
  {
    if Meets(nodes, Some(key), target) {
      var k: nat :| MeetsWithin(nodes, Some(key), target, k);
      assert MeetsWithin(nodes, Next(nodes, key), target, k - 1);
    }
    if Meets(nodes, Next(nodes, key), target) {
      var k: nat :| MeetsWithin(nodes, Next(nodes, key), target, k);
      assert MeetsWithin(nodes, Some(key), target, k + 1);
    }
  }

  /** A node is never its own parent when chains end. */
  lemma {:induction false} NoSelfParentWithin(nodes: map<string, TrailNode>, key: string, k: nat)
    requires key in nodes && EndsWithin(nodes, Some(key), k)
    ensures Next(nodes, key) != Some(key)
  {
    if Next(nodes, key) == Some(key) {
      NoSelfParentWithin(nodes, key, k - 1);
    }
  }

  // ---------------------------------------------------------------------------
  // The well-formed forest.

  /** Each node is stored under its own id, and no id is the empty string. */
  predicate KeysMatch(nodes: map<string, TrailNode>) {
    forall k :: k in nodes ==> k != "" && nodes[k].id == k
  }

  /** Every parent link names a stored node. */
  predicate ParentsPresent(nodes: map<string, TrailNode>) {
    forall k :: k in nodes && nodes[k].parentId.Some? ==> nodes[k].parentId.value in nodes
  }

  /** The root list holds distinct stored nodes without a parent. */
  predicate RootsOk(nodes: map<string, TrailNode>, roots: seq<string>) {
    Distinct(roots) &&
    forall r :: r in roots ==> r in nodes && nodes[r].parentId == None
  }

  /** Each children list holds distinct stored nodes that name that node as their parent. */
  predicate ChildrenOk(nodes: map<string, TrailNode>) {
    forall k :: k in nodes ==>
      Distinct(nodes[k].children) &&
      forall c :: c in nodes[k].children ==> c in nodes && nodes[c].parentId == Some(k)
  }

  /** Each node is listed by its parent, or in the root list when it has none. */
  predicate Listed(nodes: map<string, TrailNode>, roots: seq<string>)
    requires ParentsPresent(nodes)
  {
    forall k :: k in nodes ==>
      match nodes[k].parentId
      case None => k in roots
      case Some(p) => k in nodes[p].children
  }

  /**
   * The invariant of the trail tree: every node is listed exactly once (in its parent's
   * children or in the root list) and parent links are acyclic.
   */
  ghost predicate Forest(nodes: map<string, TrailNode>, roots: seq<string>) {
    KeysMatch(nodes) && ParentsPresent(nodes) && RootsOk(nodes, roots) &&
    ChildrenOk(nodes) && Listed(nodes, roots) && ChainsEnd(nodes)
  }

  /** In a forest, a node appears once in total across the root list and all children lists. */
  lemma ListedOnce(nodes: map<string, TrailNode>, roots: seq<string>, k: string)
    requires Forest(nodes, roots) && k in nodes
    ensures nodes[k].parentId == None ==>
      multiset(roots)[k] == 1 && forall p :: p in nodes ==> k !in nodes[p].children
    ensures nodes[k].parentId.Some? ==>
      k !in roots &&
      forall p :: p in nodes ==> multiset(nodes[p].children)[k] == if p == nodes[k].parentId.value then 1 else 0
  {
  }
  // ---------------------------------------------------------------------------
  // Re-linking one node: the shape shared by every operation that moves a node.

  /** Same keys and ids, and only `d`'s parent link changes, to `dest`. */
  ghost predicate RelinkedLinks(nodes: map<string, TrailNode>, nodes2: map<string, TrailNode>,
                                d: string, dest: Option<string>)
  {
    nodes2.Keys == nodes.Keys && d in nodes &&
    nodes2[d].parentId == dest &&
    (forall x :: x in nodes ==> nodes2[x].id == nodes[x].id) &&
    (forall x :: x in nodes && x != d ==> nodes2[x].parentId == nodes[x].parentId)
  }

  /** `d` leaves every children list and joins the list of `dest` only; no duplicates. */
  ghost predicate RelinkedChildren(nodes: map<string, TrailNode>, nodes2: map<string, TrailNode>,
                                   d: string, dest: Option<string>)
    requires nodes2.Keys == nodes.Keys
  {
    (forall x :: x in nodes ==> Distinct(nodes2[x].children)) &&
    (forall x, c :: x in nodes ==>
      (c in nodes2[x].children <==> (c in nodes[x].children && c != d) || (dest == Some(x) && c == d)))
  }

  /** `d` leaves the root list, and joins it when `dest` is `None`; no duplicates. */
  ghost predicate RelinkedRoots(roots: seq<string>, roots2: seq<string>, d: string, dest: Option<string>) {
    Distinct(roots2) &&
    (forall c :: c in roots2 <==> (c in roots && c != d) || (dest == None && c == d))
  }

  /**
   * `nodes2`/`roots2` are `nodes`/`roots` with node `d` taken out of every list and
   * re-listed under `dest` (the root list when `dest` is `None`), its parent link set
   * to `dest`; no other node's id or parent link changes.
   */
  ghost predicate Relinked(nodes: map<string, TrailNode>, roots: seq<string>,
                           nodes2: map<string, TrailNode>, roots2: seq<string>,
                           d: string, dest: Option<string>)
  {
    RelinkedLinks(nodes, nodes2, d, dest) && RelinkedChildren(nodes, nodes2, d, dest) &&
    RelinkedRoots(roots, roots2, d, dest)
  }

  /** A walk that never meets `d` is the same walk once only `d`'s parent link has changed. */
  lemma {:induction false} AvoidingWalk(nodes: map<string, TrailNode>, nodes2: map<string, TrailNode>,
                                        d: string, cur: Option<string>, j: nat)
    requires KeysMatch(nodes) && nodes2.Keys == nodes.Keys
    requires forall x :: x in nodes && x != d ==> nodes2[x].parentId == nodes[x].parentId
    requires EndsWithin(nodes, cur, j) && !Meets(nodes, cur, d)
    ensures EndsWithin(nodes2, cur, j)
    decreases j
  {
    if cur.Some? && cur.value in nodes {
      var x := cur.value;
      assert !MeetsWithin(nodes, cur, d, 0);
      assert Next(nodes2, x) == Next(nodes, x);
      forall k: nat ensures !MeetsWithin(nodes, Next(nodes, x), d, k) {
        assert !MeetsWithin(nodes, cur, d, k + 1);
      }
      AvoidingWalk(nodes, nodes2, d, Next(nodes, x), j - 1);
    }
  }

  /** After `d` is re-linked to a parent whose chain ends, every chain that ended still ends. */
  lemma {:induction false} RelinkedWalk(nodes: map<string, TrailNode>, nodes2: map<string, TrailNode>,
                                        d: string, m: nat, cur: Option<string>, j: nat)
    requires nodes2.Keys == nodes.Keys
    requires forall x :: x in nodes && x != d ==> nodes2[x].parentId == nodes[x].parentId
    requires EndsWithin(nodes2, Some(d), m)
    requires EndsWithin(nodes, cur, j)
    ensures EndsWithin(nodes2, cur, j + m)
    decreases j
  {
    if cur == Some(d) {
      EndsWithinMono(nodes2, cur, m, j + m);
    } else if cur.Some? && cur.value in nodes {
      var x := cur.value;
      assert Next(nodes2, x) == Next(nodes, x);
      RelinkedWalk(nodes, nodes2, d, m, Next(nodes, x), j - 1);
    }
  }

  /** Re-linking a node under a parent that is not its descendant keeps parent links acyclic. */
  lemma RelinkChainsEnd(nodes: map<string, TrailNode>, nodes2: map<string, TrailNode>,
                        d: string, dest: Option<string>)
    requires KeysMatch(nodes) && ChainsEnd(nodes) && nodes2.Keys == nodes.Keys && d in nodes
    requires forall x :: x in nodes && x != d ==> nodes2[x].parentId == nodes[x].parentId
    requires nodes2[d].parentId == dest
    requires dest.Some? ==> dest.value in nodes && !Meets(nodes, dest, d)
    ensures ChainsEnd(nodes2)
  {
    var j0 := WalkEnds(nodes, dest);
    if dest.Some? {
      AvoidingWalk(nodes, nodes2, d, dest, j0);
    }
    assert Next(nodes2, d) == dest;
    assert EndsWithin(nodes2, Some(d), j0 + 1);
    forall key | key in nodes2 ensures exists k: nat :: EndsWithin(nodes2, Some(key), k) {
      var j := WalkEnds(nodes, Some(key));
      RelinkedWalk(nodes, nodes2, d, j0 + 1, Some(key), j);
    }
  }

  lemma RelinkRootsOk(nodes: map<string, TrailNode>, roots: seq<string>,
                      nodes2: map<string, TrailNode>, roots2: seq<string>,
                      d: string, dest: Option<string>)
    requires RootsOk(nodes, roots) && Relinked(nodes, roots, nodes2, roots2, d, dest)
    ensures RootsOk(nodes2, roots2)
  {
  }

  lemma RelinkChildrenOk(nodes: map<string, TrailNode>, roots: seq<string>,
                         nodes2: map<string, TrailNode>, roots2: seq<string>,
                         d: string, dest: Option<string>)
    requires ChildrenOk(nodes) && Relinked(nodes, roots, nodes2, roots2, d, dest)
    ensures ChildrenOk(nodes2)
  {
    forall k, c | k in nodes2 && c in nodes2[k].children
      ensures c in nodes2 && nodes2[c].parentId == Some(k)
    {
      if c != d {
        assert c in nodes[k].children;
      }
    }
  }

  lemma RelinkListed(nodes: map<string, TrailNode>, roots: seq<string>,
                     nodes2: map<string, TrailNode>, roots2: seq<string>,
                     d: string, dest: Option<string>)
    requires ParentsPresent(nodes) && Listed(nodes, roots)
    requires Relinked(nodes, roots, nodes2, roots2, d, dest)
    requires dest.Some? ==> dest.value in nodes
    ensures ParentsPresent(nodes2) && Listed(nodes2, roots2)
  {
    assert ParentsPresent(nodes2);
    forall k | k in nodes2
      ensures match nodes2[k].parentId
              case None => k in roots2
              case Some(p) => k in nodes2[p].children
    {
      if k != d {
        assert nodes2[k].parentId == nodes[k].parentId;
      }
    }
  }

  /** Re-linking a node under a parent that is not its descendant keeps the forest well formed. */
  lemma RelinkPreservesForest(nodes: map<string, TrailNode>, roots: seq<string>,
                              nodes2: map<string, TrailNode>, roots2: seq<string>,
                              d: string, dest: Option<string>)
    requires Forest(nodes, roots)
    requires Relinked(nodes, roots, nodes2, roots2, d, dest)
    requires dest.Some? ==> dest.value in nodes && !Meets(nodes, dest, d)
    ensures Forest(nodes2, roots2)
  {
    RelinkChainsEnd(nodes, nodes2, d, dest);
    RelinkRootsOk(nodes, roots, nodes2, roots2, d, dest);
    RelinkChildrenOk(nodes, roots, nodes2, roots2, d, dest);
    RelinkListed(nodes, roots, nodes2, roots2, d, dest);
  }
  // ---------------------------------------------------------------------------
  // Removing one node and promoting its children: the shape of closing a trail.

  /** `nodes2` lacks `id`, and each of its parent links either stays or skips over `id`. */
  ghost predicate Bypasses(nodes: map<string, TrailNode>, nodes2: map<string, TrailNode>, id: string) {
    id in nodes && id !in nodes2 && nodes2.Keys <= nodes.Keys &&
    forall x :: x in nodes2 ==>
      Next(nodes2, x) == if Next(nodes, x) == Some(id) then Next(nodes, id) else Next(nodes, x)
  }

  /** Skipping over a node only shortens walks. */
  lemma {:induction false} BypassWalk(nodes: map<string, TrailNode>, nodes2: map<string, TrailNode>, id: string,
                                      cur: Option<string>, k: nat)
    requires Bypasses(nodes, nodes2, id) && EndsWithin(nodes, cur, k)
    ensures EndsWithin(nodes2, cur, k)
    decreases k
  {
    if cur.Some? && cur.value in nodes2 {
      var x := cur.value;
      if Next(nodes, x) == Some(id) {
        BypassWalk(nodes, nodes2, id, Next(nodes, id), k - 2);
        EndsWithinMono(nodes2, Next(nodes, id), k - 2, k - 1);
      } else {
        BypassWalk(nodes, nodes2, id, Next(nodes, x), k - 1);
      }
    }
  }

  /** `id` is gone, and the nodes it parented now name its own parent instead. */
  ghost predicate PromotedLinks(nodes: map<string, TrailNode>, nodes2: map<string, TrailNode>, id: string) {
    id in nodes && nodes2.Keys == nodes.Keys - {id} &&
    forall x :: x in nodes2 ==>
      nodes2[x].id == nodes[x].id &&
      nodes2[x].parentId == if nodes[x].parentId == Some(id) then nodes[id].parentId else nodes[x].parentId
  }

  /** Children lists lose `id`, and the list of `id`'s parent gains `id`'s children. */
  ghost predicate PromotedChildren(nodes: map<string, TrailNode>, nodes2: map<string, TrailNode>, id: string) {
    id in nodes && nodes2.Keys == nodes.Keys - {id} &&
    forall x :: x in nodes2 ==>
      Distinct(nodes2[x].children) &&
      forall c :: c in nodes2[x].children <==>
        (c in nodes[x].children && c != id) || (nodes[id].parentId == Some(x) && c in nodes[id].children)
  }

  /** The root list loses `id`, and gains `id`'s children when `id` had no parent. */
  ghost predicate PromotedRoots(nodes: map<string, TrailNode>, roots: seq<string>, roots2: seq<string>, id: string) {
    id in nodes && Distinct(roots2) &&
    forall c :: c in roots2 <==> (c in roots && c != id) || (nodes[id].parentId == None && c in nodes[id].children)
  }

  ghost predicate Promoted(nodes: map<string, TrailNode>, roots: seq<string>,
                           nodes2: map<string, TrailNode>, roots2: seq<string>, id: string)
  {
    PromotedLinks(nodes, nodes2, id) && PromotedChildren(nodes, nodes2, id) && PromotedRoots(nodes, roots, roots2, id)
  }

  /** The promoted children are kept and adopted by the removed node's parent. */
  lemma PromotedAdopt(nodes: map<string, TrailNode>, roots: seq<string>,
                      nodes2: map<string, TrailNode>, roots2: seq<string>, id: string)
    requires ChildrenOk(nodes) && PromotedLinks(nodes, nodes2, id) && id !in nodes[id].children
    ensures forall c :: c in nodes[id].children ==> c in nodes2 && nodes2[c].parentId == nodes[id].parentId
  {
  }

  /** In a forest, a node is not its own parent. */
  lemma NotOwnParent(nodes: map<string, TrailNode>, roots: seq<string>, id: string)
    requires Forest(nodes, roots) && id in nodes
    ensures nodes[id].parentId != Some(id)
  {
    var k := WalkEnds(nodes, Some(id));
    NoSelfParentWithin(nodes, id, k);
  }

  /** Removing a node and promoting its children keeps parent links acyclic. */
  lemma PromotedChainsEnd(nodes: map<string, TrailNode>, nodes2: map<string, TrailNode>, id: string)
    requires KeysMatch(nodes) && ParentsPresent(nodes) && ChainsEnd(nodes)
    requires PromotedLinks(nodes, nodes2, id) && nodes[id].parentId != Some(id)
    ensures ChainsEnd(nodes2)
  {
    forall x | x in nodes2
      ensures Next(nodes2, x) == if Next(nodes, x) == Some(id) then Next(nodes, id) else Next(nodes, x)
    {
    }
    assert Bypasses(nodes, nodes2, id);
    forall key | key in nodes2 ensures exists k: nat :: EndsWithin(nodes2, Some(key), k) {
      var k := WalkEnds(nodes, Some(key));
      BypassWalk(nodes, nodes2, id, Some(key), k);
    }
  }

  lemma PromotedRootsOk(nodes: map<string, TrailNode>, roots: seq<string>,
                        nodes2: map<string, TrailNode>, roots2: seq<string>, id: string)
    requires RootsOk(nodes, roots) && ChildrenOk(nodes)
    requires Promoted(nodes, roots, nodes2, roots2, id) && nodes[id].parentId != Some(id)
    ensures RootsOk(nodes2, roots2)
  {
  }

  lemma PromotedChildrenOk(nodes: map<string, TrailNode>, roots: seq<string>,
                           nodes2: map<string, TrailNode>, roots2: seq<string>, id: string)
    requires ChildrenOk(nodes)
    requires Promoted(nodes, roots, nodes2, roots2, id) && nodes[id].parentId != Some(id)
    ensures ChildrenOk(nodes2)
  {
  }

  lemma PromotedListed(nodes: map<string, TrailNode>, roots: seq<string>,
                       nodes2: map<string, TrailNode>, roots2: seq<string>, id: string)
    requires ParentsPresent(nodes) && Listed(nodes, roots)
    requires Promoted(nodes, roots, nodes2, roots2, id) && nodes[id].parentId != Some(id)
    ensures ParentsPresent(nodes2) && Listed(nodes2, roots2)
  {
    assert ParentsPresent(nodes2);
    forall k | k in nodes2
      ensures match nodes2[k].parentId
              case None => k in roots2
              case Some(p) => k in nodes2[p].children
    {
    }
  }

  /** Removing a node and promoting its children in its place keeps the forest well formed. */
  lemma PromotedPreservesForest(nodes: map<string, TrailNode>, roots: seq<string>,
                                nodes2: map<string, TrailNode>, roots2: seq<string>, id: string)
    requires Forest(nodes, roots) && Promoted(nodes, roots, nodes2, roots2, id)
    ensures Forest(nodes2, roots2)
  {
    NotOwnParent(nodes, roots, id);
    PromotedChainsEnd(nodes, nodes2, id);
    PromotedRootsOk(nodes, roots, nodes2, roots2, id);
    PromotedChildrenOk(nodes, roots, nodes2, roots2, id);
    PromotedListed(nodes, roots, nodes2, roots2, id);
  }
}
