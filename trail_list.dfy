/**
 * The virtualised sidebar list: the trail tree flattened in pre-order into rows (the
 * children of a collapsed trail are hidden), and the window of rows that is rendered for
 * a scroll position, with rows of 28 pixels and 5 rows of overscan on each side.
 */
module TrailList {
  import opened TrailTypes

  /** Pixels per row. */
  const ItemHeight := 28

  /** Rows rendered beyond each edge of the viewport. */
  const Overscan := 5

  datatype FlattenedItem = FlattenedItem(id: string, node: TrailNode, depth: nat, isVisible: bool)

  /**
   * Every chain of expanded trails reachable from `ids` is shorter than `h`: the bound
   * under which the recursive flattening terminates.
   */
  predicate Bounded(nodes: map<string, TrailNode>, ids: seq<string>, h: nat)
    decreases h
  {
    forall i :: 0 <= i < |ids| && ids[i] in nodes && nodes[ids[i]].isExpanded ==>
      h > 0 && Bounded(nodes, nodes[ids[i]].children, h - 1)
  }

  /** Rows with their depths form an indented outline starting at `depth`: each row is at most one level deeper than the row above. */
  predicate Outline(items: seq<FlattenedItem>, depth: nat) {
    (items != [] ==> items[0].depth == depth) &&
    (forall i :: 0 <= i < |items| ==> items[i].depth >= depth) &&
    (forall i :: 0 < i < |items| ==> items[i].depth <= items[i - 1].depth + 1)
  }

  /** Each row shows a stored trail under its own key. */
  predicate Shown(nodes: map<string, TrailNode>, items: seq<FlattenedItem>) {
    forall i :: 0 <= i < |items| ==> items[i].id in nodes && items[i].node == nodes[items[i].id] && items[i].isVisible
  }

  /** `flattenTree(nodes, ids, depth)`: the rows of the listed trails in order, ids absent from `nodes` skipped. */
  function Flatten(nodes: map<string, TrailNode>, ids: seq<string>, depth: nat, h: nat): (r: seq<FlattenedItem>)
    requires Bounded(nodes, ids, h)
    ensures Shown(nodes, r)
    ensures forall i :: 0 <= i < |r| ==> r[i].depth >= depth
    decreases h, |ids|
  {
    if ids == [] then []
    else Flatten(nodes, ids[..|ids| - 1], depth, h) + Entry(nodes, ids[|ids| - 1], depth, h)
  }

  /** The rows one listed id contributes: its own, then (when it is expanded) its children's. */
  function Entry(nodes: map<string, TrailNode>, id: string, depth: nat, h: nat): (r: seq<FlattenedItem>)
    requires id in nodes && nodes[id].isExpanded ==> h > 0 && Bounded(nodes, nodes[id].children, h - 1)
    ensures Shown(nodes, r)
    ensures forall i :: 0 <= i < |r| ==> r[i].depth >= depth
    ensures id in nodes <==> r != []
    ensures r != [] ==> r[0] == FlattenedItem(id, nodes[id], depth, true)
    decreases h, 0
  {
    if id !in nodes then []
    else
      var node := nodes[id];
      var children := if node.isExpanded && |node.children| > 0 then Flatten(nodes, node.children, depth + 1, h - 1) else [];
      [FlattenedItem(id, node, depth, true)] + children
  }

  lemma BoundedSplit(nodes: map<string, TrailNode>, a: seq<string>, b: seq<string>, h: nat)
    requires Bounded(nodes, a + b, h)
    ensures Bounded(nodes, a, h) && Bounded(nodes, b, h)
  {
    assert forall i :: 0 <= i < |a| ==> a[i] == (a + b)[i];
    assert forall i :: 0 <= i < |b| ==> b[i] == (a + b)[|a| + i];
  }

  /** The rows of consecutive lists are the rows of the first followed by the rows of the second. */
  lemma {:induction false} FlattenConcat(nodes: map<string, TrailNode>, a: seq<string>, b: seq<string>, depth: nat, h: nat)
    requires Bounded(nodes, a + b, h)
    ensures Bounded(nodes, a, h) && Bounded(nodes, b, h)
    ensures Flatten(nodes, a + b, depth, h) == Flatten(nodes, a, depth, h) + Flatten(nodes, b, depth, h)
    decreases |b|
  {
    BoundedSplit(nodes, a, b, h);
    if b == [] {
      assert a + b == a;
    } else {
      var b' := b[..|b| - 1];
      assert (a + b)[..|a + b| - 1] == a + b';
      FlattenConcat(nodes, a, b', depth, h);
    }
  }

  /** Pre-order: a listed trail's row comes first, then its children's rows (when expanded), then the rows of the trails after it. */
  lemma FlattenCons(nodes: map<string, TrailNode>, id: string, rest: seq<string>, depth: nat, h: nat)
    requires Bounded(nodes, [id] + rest, h)
    ensures Bounded(nodes, rest, h)
    ensures id in nodes && nodes[id].isExpanded ==> h > 0 && Bounded(nodes, nodes[id].children, h - 1)
    ensures Flatten(nodes, [id] + rest, depth, h) == Entry(nodes, id, depth, h) + Flatten(nodes, rest, depth, h)
  {
    FlattenConcat(nodes, [id], rest, depth, h);
    assert ([id] + rest)[0] == id;
    assert [id][..0] == [];
  }

  /** The rows form an outline: the first at the starting depth, and no row more than one level below the row above it. */
  lemma {:induction false} FlattenOutline(nodes: map<string, TrailNode>, ids: seq<string>, depth: nat, h: nat)
    requires Bounded(nodes, ids, h)
    ensures Outline(Flatten(nodes, ids, depth, h), depth)
    decreases h, |ids|
  {
    if ids != [] {
      var id := ids[|ids| - 1];
      FlattenOutline(nodes, ids[..|ids| - 1], depth, h);
      EntryOutline(nodes, id, depth, h);
      OutlineConcat(Flatten(nodes, ids[..|ids| - 1], depth, h), Entry(nodes, id, depth, h), depth);
    }
  }

  lemma {:induction false} EntryOutline(nodes: map<string, TrailNode>, id: string, depth: nat, h: nat)
    requires id in nodes && nodes[id].isExpanded ==> h > 0 && Bounded(nodes, nodes[id].children, h - 1)
    ensures Outline(Entry(nodes, id, depth, h), depth)
    decreases h, 0
  {
    if id in nodes && nodes[id].isExpanded && |nodes[id].children| > 0 {
      FlattenOutline(nodes, nodes[id].children, depth + 1, h - 1);
    }
  }

  /** Outlines at the same depth concatenate to an outline. */
  lemma OutlineConcat(a: seq<FlattenedItem>, b: seq<FlattenedItem>, depth: nat)
    requires Outline(a, depth) && Outline(b, depth)
    ensures Outline(a + b, depth)
  {
    if a != [] && b != [] {
      assert (a + b)[|a|] == b[0];
    }
  }

  /** With every trail collapsed, the rows are exactly the stored listed trails, at the starting depth. */
  lemma {:induction false} FlattenCollapsed(nodes: map<string, TrailNode>, ids: seq<string>, depth: nat, h: nat)
    requires forall k :: k in nodes ==> !nodes[k].isExpanded
    ensures Bounded(nodes, ids, h)
    ensures var r := Flatten(nodes, ids, depth, h);
      |r| <= |ids| && forall i :: 0 <= i < |r| ==> r[i].depth == depth && r[i].id in ids
    decreases |ids|
  {
    if ids != [] {
      FlattenCollapsed(nodes, ids[..|ids| - 1], depth, h);
    }
  }

  /** Every stored listed trail has a row at the starting depth. */
  lemma {:induction false} FlattenListsRoots(nodes: map<string, TrailNode>, ids: seq<string>, depth: nat, h: nat, k: nat)
    requires Bounded(nodes, ids, h) && k < |ids| && ids[k] in nodes
    ensures FlattenedItem(ids[k], nodes[ids[k]], depth, true) in Flatten(nodes, ids, depth, h)
    decreases |ids|
  {
    var prefix := Flatten(nodes, ids[..|ids| - 1], depth, h);
    if k == |ids| - 1 {
      assert Flatten(nodes, ids, depth, h)[|prefix|] == FlattenedItem(ids[k], nodes[ids[k]], depth, true);
    } else {
      FlattenListsRoots(nodes, ids[..|ids| - 1], depth, h, k);
    }
  }

  /** `flattenTree` as written: a loop pushing each stored trail's row and, when it is expanded, its children's rows. */
  method FlattenTree(nodes: map<string, TrailNode>, rootNodeIds: seq<string>, depth: nat, ghost h: nat)
    returns (result: seq<FlattenedItem>)
    requires Bounded(nodes, rootNodeIds, h)
    ensures result == Flatten(nodes, rootNodeIds, depth, h)
    decreases h
  {
    result := [];
    var i := 0;
    while i < |rootNodeIds|
      invariant 0 <= i <= |rootNodeIds|
      invariant result == Flatten(nodes, rootNodeIds[..i], depth, h)
    {
      var id := rootNodeIds[i];
      assert rootNodeIds[..i + 1][..i] == rootNodeIds[..i];
      if id in nodes {
        var node := nodes[id];
        result := result + [FlattenedItem(id, node, depth, true)];
        if node.isExpanded && |node.children| > 0 {
          var childItems := FlattenTree(nodes, node.children, depth + 1, h - 1);
          result := result + childItems;
        }
      }
      i := i + 1;
    }
    assert rootNodeIds[..i] == rootNodeIds;
  }

  // ---------------------------------------------------------------------------
  // The rendered window.

  /** `Math.ceil(x / ItemHeight)`. */
  function CeilRows(x: int): (r: int)
    ensures (r - 1) * ItemHeight < x <= r * ItemHeight
  {
    -((-x) / ItemHeight)
  }

  /** `Math.max(0, Math.floor(scrollTop / ItemHeight) - Overscan)`. */
  function StartIndex(scrollTop: int): (r: nat)
    ensures r > 0 ==> (r + Overscan) * ItemHeight <= scrollTop < (r + Overscan + 1) * ItemHeight
    ensures r == 0 ==> scrollTop < (Overscan + 1) * ItemHeight
  {
    var first := scrollTop / ItemHeight - Overscan;
    if first < 0 then 0 else first
  }

  /** `Math.min(count, Math.ceil((scrollTop + containerHeight) / ItemHeight) + Overscan)`. */
  function EndIndex(count: nat, scrollTop: int, containerHeight: int): (r: int)
    ensures r <= count
  {
    var last := CeilRows(scrollTop + containerHeight) + Overscan;
    if count < last then count else last
  }

  /** `flatItems.slice(startIndex, endIndex)`. */
  function VisibleItems(items: seq<FlattenedItem>, scrollTop: int, containerHeight: int): (r: seq<FlattenedItem>)
    ensures var start := StartIndex(scrollTop);
      |r| == (if start < EndIndex(|items|, scrollTop, containerHeight) then EndIndex(|items|, scrollTop, containerHeight) - start else 0) &&
      forall k :: 0 <= k < |r| ==> r[k] == items[start + k]
  {
    var start := StartIndex(scrollTop);
    var end := EndIndex(|items|, scrollTop, containerHeight);
    if start < end then items[start..end] else []
  }

  /** The spacer's height: one row per item. */
  function TotalHeight(count: nat): (r: nat)
    ensures r % ItemHeight == 0 && r / ItemHeight == count
  {
    count * ItemHeight
  }

  /** The `top` of the `k`-th rendered row: its place in the whole list. */
  function TopOffset(scrollTop: int, k: nat): (r: nat)
    ensures r % ItemHeight == 0 && r / ItemHeight == StartIndex(scrollTop) + k
    ensures scrollTop >= 0 ==> r <= scrollTop + k * ItemHeight
  {
    (StartIndex(scrollTop) + k) * ItemHeight
  }

  /** Every row that overlaps the viewport is rendered, and rendered where it belongs. */
  lemma WindowCoversViewport(items: seq<FlattenedItem>, scrollTop: int, containerHeight: int, i: nat)
    requires i < |items|
    requires i * ItemHeight < scrollTop + containerHeight && scrollTop < (i + 1) * ItemHeight
    ensures var start := StartIndex(scrollTop);
      start <= i < EndIndex(|items|, scrollTop, containerHeight) &&
      VisibleItems(items, scrollTop, containerHeight)[i - start] == items[i] &&
      TopOffset(scrollTop, i - start) == i * ItemHeight
  {
    var q := scrollTop / ItemHeight;
    assert q * ItemHeight <= scrollTop;
    assert q <= i;
    var c := CeilRows(scrollTop + containerHeight);
    assert i < c;
  }

  /** Rendered rows lie inside the spacer, one below the other. */
  lemma RowsInsideSpacer(items: seq<FlattenedItem>, scrollTop: int, containerHeight: int, k: nat)
    requires k < |VisibleItems(items, scrollTop, containerHeight)|
    ensures TopOffset(scrollTop, k) + ItemHeight <= TotalHeight(|items|)
    ensures k > 0 ==> TopOffset(scrollTop, k) == TopOffset(scrollTop, k - 1) + ItemHeight
  {
    assert StartIndex(scrollTop) + k + 1 <= |items|;
  }
}
