/**
 * Server-side layout helpers: an index from id to node, built by walking the
 * model tree through node children only, and the application of a resize
 * action to the nodes of that index.
 */
module LayoutUtil {
  import opened Wrappers

  /** A node of the server model; its size is the only thing that changes. Sizes are opaque values. */
  class SNode {
    const id: Option<string>
    var width: Option<real>
    var height: Option<real>

    constructor(id: Option<string>, width: Option<real>, height: Option<real>)
      ensures this.id == id && this.width == width && this.height == height
    {
      this.id := id;
      this.width := width;
      this.height := height;
    }
  }

  /** An element's child list, which may be null. */
  datatype Children = NullChildren | ChildList(items: seq<Tree>)

  /** The model tree: node elements refer to their SNode object; any other element is only a container. */
  datatype Tree = NodeElement(node: SNode, children: Children) | OtherElement(id: Option<string>, children: Children)

  function Kids(t: Tree): seq<Tree>
  {
    if t.children.ChildList? then t.children.items else []
  }

  /**
   * The map addNodes leaves behind when started on `m`: the node children of
   * `t`, in order, are put under their id (unless it is null) and then walked
   * in turn; a later node with the same id replaces an earlier one.
   */
  function Collect(t: Tree, m: map<string, SNode>): map<string, SNode>
    decreases t, |Kids(t)| + 1
  {
    CollectFrom(t, 0, m)
  }

  function CollectFrom(t: Tree, i: nat, m: map<string, SNode>): map<string, SNode>
    requires i <= |Kids(t)|
    decreases t, |Kids(t)| - i
  {
    if i == |Kids(t)| then m else CollectFrom(t, i + 1, Visit(Kids(t)[i], m))
  }

  /** One child as addNodes treats it: only a node is put and descended into. */
  function Visit(c: Tree, m: map<string, SNode>): map<string, SNode>
    decreases c, |Kids(c)| + 2
  {
    if c.NodeElement? then Collect(c, if c.node.id.Some? then m[c.node.id.value := c.node] else m) else m
  }

  /** The nodes reachable from `t` through chains of node children; `t` itself is not included. */
  function Reachable(t: Tree): set<SNode>
    decreases t, |Kids(t)| + 1
  {
    ReachableFrom(t, 0)
  }

  function ReachableFrom(t: Tree, i: nat): set<SNode>
    requires i <= |Kids(t)|
    decreases t, |Kids(t)| - i
  {
    if i == |Kids(t)| then {}
    else
      var c := Kids(t)[i];
      (if c.NodeElement? then {c.node} + Reachable(c) else {}) + ReachableFrom(t, i + 1)
  }

  /** The non-null ids of the nodes in Reachable(t). */
  function ReachableIds(t: Tree): set<string>
    decreases t, |Kids(t)| + 1
  {
    ReachableIdsFrom(t, 0)
  }

  function ReachableIdsFrom(t: Tree, i: nat): set<string>
    requires i <= |Kids(t)|
    decreases t, |Kids(t)| - i
  {
    if i == |Kids(t)| then {}
    else
      var c := Kids(t)[i];
      (if c.NodeElement? then (if c.node.id.Some? then {c.node.id.value} else {}) + ReachableIds(c) else {})
        + ReachableIdsFrom(t, i + 1)
  }

  /** Every key names a node whose id is that key. */
  ghost predicate KeysMatch(m: map<string, SNode>)
  {
    forall k :: k in m ==> m[k].id == Some(k)
  }

  /** The Java HashMap that addNodes fills. */
  class NodeMap {
    var contents: map<string, SNode>

    constructor()
      ensures contents == map[]
    {
      contents := map[];
    }
  }

  /** addNodes: a loop over the children that puts each node child and recurses into it. */
  method AddNodes(element: Tree, result: NodeMap)
    modifies result
    ensures result.contents == Collect(element, old(result.contents))
    decreases element
  {
    var kids := Kids(element);
    var i := 0;
    while i < |kids|
      invariant 0 <= i <= |kids|
      invariant CollectFrom(element, i, result.contents) == Collect(element, old(result.contents))
    {
      var child := kids[i];
      if child.NodeElement? {
        if child.node.id.Some? {
          result.contents := result.contents[child.node.id.value := child.node];
        }
        AddNodes(child, result);
      }
      i := i + 1;
    }
  }

  /** createId2NodeMap: a fresh map filled by walking the whole graph. */
  method CreateId2NodeMap(graph: Tree) returns (result: NodeMap)
    ensures fresh(result) && result.contents == Collect(graph, map[])
  {
    result := new NodeMap();
    AddNodes(graph, result);
  }

  /** The keys are exactly the keys already present and the non-null ids of the reachable nodes. */
  lemma {:induction false} CollectKeys(t: Tree, m: map<string, SNode>)
    ensures Collect(t, m).Keys == m.Keys + ReachableIds(t)
    decreases t, |Kids(t)| + 1
  {
    CollectFromKeys(t, 0, m);
  }

  lemma {:induction false} CollectFromKeys(t: Tree, i: nat, m: map<string, SNode>)
    requires i <= |Kids(t)|
    ensures CollectFrom(t, i, m).Keys == m.Keys + ReachableIdsFrom(t, i)
    decreases t, |Kids(t)| - i
  {
    if i < |Kids(t)| {
      var c := Kids(t)[i];
      if c.NodeElement? {
        CollectKeys(c, if c.node.id.Some? then m[c.node.id.value := c.node] else m);
      }
      CollectFromKeys(t, i + 1, Visit(c, m));
    }
  }

  /** Every value is an old value or a node reached through node children, so never the root itself. */
  lemma {:induction false} CollectValues(t: Tree, m: map<string, SNode>)
    ensures forall k :: k in Collect(t, m) ==> (k in m && Collect(t, m)[k] == m[k]) || Collect(t, m)[k] in Reachable(t)
    decreases t, |Kids(t)| + 1
  {
    CollectFromValues(t, 0, m);
  }

  lemma {:induction false} CollectFromValues(t: Tree, i: nat, m: map<string, SNode>)
    requires i <= |Kids(t)|
    ensures forall k :: k in CollectFrom(t, i, m) ==>
      (k in m && CollectFrom(t, i, m)[k] == m[k]) || CollectFrom(t, i, m)[k] in ReachableFrom(t, i)
    decreases t, |Kids(t)| - i
  {
    if i < |Kids(t)| {
      var c := Kids(t)[i];
      var m' := Visit(c, m);
      if c.NodeElement? {
        var put := if c.node.id.Some? then m[c.node.id.value := c.node] else m;
        assert forall k :: k in put ==> (k in m && put[k] == m[k]) || put[k] == c.node;
        CollectValues(c, put);
        assert ReachableFrom(t, i) == {c.node} + Reachable(c) + ReachableFrom(t, i + 1);
        assert forall k :: k in m' ==> (k in m && m'[k] == m[k]) || m'[k] in ReachableFrom(t, i);
      } else {
        assert ReachableFrom(t, i) == ReachableFrom(t, i + 1);
      }
      CollectFromValues(t, i + 1, m');
    }
  }

  /** Each key keeps naming a node with that id. */
  lemma {:induction false} CollectKeysMatch(t: Tree, m: map<string, SNode>)
    requires KeysMatch(m)
    ensures KeysMatch(Collect(t, m))
    decreases t, |Kids(t)| + 1
  {
    CollectFromKeysMatch(t, 0, m);
  }

  lemma {:induction false} CollectFromKeysMatch(t: Tree, i: nat, m: map<string, SNode>)
    requires i <= |Kids(t)|
    requires KeysMatch(m)
    ensures KeysMatch(CollectFrom(t, i, m))
    decreases t, |Kids(t)| - i
  {
    if i < |Kids(t)| {
      var c := Kids(t)[i];
      if c.NodeElement? {
        CollectKeysMatch(c, if c.node.id.Some? then m[c.node.id.value := c.node] else m);
      }
      CollectFromKeysMatch(t, i + 1, Visit(c, m));
    }
  }

  /** The id map of a graph: its keys, its values and the key/id agreement. */
  lemma Id2NodeMapFacts(graph: Tree)
    ensures Collect(graph, map[]).Keys == ReachableIds(graph)
    ensures forall k :: k in Collect(graph, map[]) ==> Collect(graph, map[])[k] in Reachable(graph)
    ensures forall k :: k in Collect(graph, map[]) ==> Collect(graph, map[])[k].id == Some(k)
  {
    CollectKeys(graph, map[]);
    CollectValues(graph, map[]);
    CollectKeysMatch(graph, map[]);
  }

  /** A node with a null id is not put, but the nodes below it are. */
  lemma NullIdNodeStillWalked(a: SNode, b: SNode)
    requires a.id == None && b.id == Some("b")
    ensures Collect(OtherElement(Some("graph"), ChildList([NodeElement(a, ChildList([NodeElement(b, NullChildren)]))])), map[]) == map["b" := b]
  {
    var leaf := NodeElement(b, NullChildren);
    var inner := NodeElement(a, ChildList([leaf]));
    var root := OtherElement(Some("graph"), ChildList([inner]));
    assert Collect(leaf, map["b" := b]) == map["b" := b];
    assert Visit(leaf, map[]) == map["b" := b];
    assert CollectFrom(inner, 1, map["b" := b]) == map["b" := b];
    assert Collect(inner, map[]) == map["b" := b];
    assert Visit(inner, map[]) == map["b" := b];
    assert CollectFrom(root, 1, map["b" := b]) == map["b" := b];
  }

  /** A node below a child that is not a node is never reached. */
  lemma NodeBelowOtherSkipped(b: SNode)
    requires b.id == Some("b")
    ensures Collect(OtherElement(Some("graph"), ChildList([OtherElement(Some("label"), ChildList([NodeElement(b, NullChildren)]))])), map[]) == map[]
  {
    var root := OtherElement(Some("graph"), ChildList([OtherElement(Some("label"), ChildList([NodeElement(b, NullChildren)]))]));
    assert Visit(Kids(root)[0], map[]) == map[];
    assert CollectFrom(root, 1, map[]) == map[];
  }

  datatype Dimension = Dimension(width: Option<real>, height: Option<real>)
  datatype ElementResize = ElementResize(elementId: Option<string>, newSize: Dimension)
  datatype ResizeAction = ResizeAction(resizes: seq<ElementResize>)

  datatype Axis = WidthAxis | HeightAxis

  function SizeOn(d: Dimension, axis: Axis): Option<real>
  {
    if axis == WidthAxis then d.width else d.height
  }

  /** Whether a resize reaches `n` through the id map and carries a value on `axis`. */
  predicate Sets(nodeMap: map<string, SNode>, r: ElementResize, n: SNode, axis: Axis)
  {
    r.elementId.Some? && r.elementId.value in nodeMap && nodeMap[r.elementId.value] == n && SizeOn(r.newSize, axis).Some?
  }

  /** The value of `n`'s size on `axis` after the resizes, in list order, starting from `v`. */
  function SizeAfter(nodeMap: map<string, SNode>, rs: seq<ElementResize>, n: SNode, axis: Axis, v: Option<real>): Option<real>
  {
    if rs == [] then v
    else
      var last := rs[|rs| - 1];
      if Sets(nodeMap, last, n, axis) then SizeOn(last.newSize, axis)
      else SizeAfter(nodeMap, rs[..|rs| - 1], n, axis, v)
  }

  /**
   * applyResizeAction: each resize whose id is in the id map overwrites the
   * width and the height of that node, each only when given.
   */
  method ApplyResizeAction(graph: Tree, action: ResizeAction)
    modifies Reachable(graph)
    ensures forall n :: n in Reachable(graph) && old(allocated(n)) ==>
      && n.width == SizeAfter(Collect(graph, map[]), action.resizes, n, WidthAxis, old(n.width))
      && n.height == SizeAfter(Collect(graph, map[]), action.resizes, n, HeightAxis, old(n.height))
  {
    var nodeMap := CreateId2NodeMap(graph);
    Id2NodeMapFacts(graph);
    var nm := nodeMap.contents;
    var rs := action.resizes;
    var i := 0;
    while i < |rs|
      invariant 0 <= i <= |rs|
      invariant forall n :: n in Reachable(graph) && old(allocated(n)) ==>
        && n.width == SizeAfter(nm, rs[..i], n, WidthAxis, old(n.width))
        && n.height == SizeAfter(nm, rs[..i], n, HeightAxis, old(n.height))
    {
      assert rs[..i + 1][..i] == rs[..i];
      var r := rs[i];
      if r.elementId.Some? && r.elementId.value in nm {
        var node := nm[r.elementId.value];
        if r.newSize.width.Some? {
          node.width := r.newSize.width;
        }
        if r.newSize.height.Some? {
          node.height := r.newSize.height;
        }
      }
      i := i + 1;
    }
    assert rs[..i] == rs;
  }

  /** The last resize that reaches a node with a value on an axis decides that axis. */
  lemma {:induction false} LaterResizeWins(nodeMap: map<string, SNode>, rs: seq<ElementResize>, n: SNode, axis: Axis, v: Option<real>, j: nat)
    requires j < |rs| && Sets(nodeMap, rs[j], n, axis)
    requires forall k :: j < k < |rs| ==> !Sets(nodeMap, rs[k], n, axis)
    ensures SizeAfter(nodeMap, rs, n, axis, v) == SizeOn(rs[j].newSize, axis)
    decreases |rs|
  {
    if j < |rs| - 1 {
      var init := rs[..|rs| - 1];
      assert forall k :: j < k < |init| ==> init[k] == rs[k];
      LaterResizeWins(nodeMap, init, n, axis, v, j);
    }
  }

  /**
   * A size no resize reaches is unchanged: this covers nodes no resize names,
   * resizes whose id is missing from the map, and a null value on that axis
   * whatever the other axis carries.
   */
  lemma {:induction false} UntouchedSizeKept(nodeMap: map<string, SNode>, rs: seq<ElementResize>, n: SNode, axis: Axis, v: Option<real>)
    requires forall k :: 0 <= k < |rs| ==> !Sets(nodeMap, rs[k], n, axis)
    ensures SizeAfter(nodeMap, rs, n, axis, v) == v
    decreases |rs|
  {
    if rs != [] {
      var init := rs[..|rs| - 1];
      assert forall k :: 0 <= k < |init| ==> init[k] == rs[k];
      UntouchedSizeKept(nodeMap, init, n, axis, v);
    }
  }

  /** A resize naming an id the map does not hold reaches no node. */
  lemma UnknownIdIgnored(nodeMap: map<string, SNode>, r: ElementResize, n: SNode, axis: Axis)
    requires r.elementId.None? || r.elementId.value !in nodeMap
    ensures !Sets(nodeMap, r, n, axis)
  {
  }
}
