/**
  The game's UI memory as the inspector sees it: nodes, components and addons
  keyed by their address.  Address 0 is the null pointer.

  The inspector never owns this memory; during one call it is treated as a fixed
  snapshot whose pointer structure is closed (every non-null pointer leads to a
  record) and acyclic (child, previous-sibling, component-root and component
  node-list pointers go strictly down a rank; parent pointers go strictly down a
  second rank).
*/
module Heap {

  /** An address in the game's memory; 0 is null. */
  type Addr = nat

  const Null: Addr := 0

  datatype Option<T> = None | Some(value: T)

  /** The `Visible` bit of `NodeFlags`. */
  const VisibleFlag: bv32 := 0x10

  /** `NodeType` codes of the node variants the inspector distinguishes. */
  const ResType: int := 1
  const ImageType: int := 2
  const TextType: int := 3
  const NineGridType: int := 4
  const CounterType: int := 5
  const CollisionType: int := 8
  const ClippingMaskType: int := 10

  /** `ComponentType` codes the inspector treats specially. */
  const TextInputComponent: int := 7
  const ListComponent: int := 9
  const TreeListComponent: int := 12

  /**
    One `AtkResNode` with the fields of its subtypes that the inspector reads or
    writes.  `rotation` is kept in degrees; the conversion to radians is not
    modelled.  `width` and `height` are `ushort`, the offsets `short`,
    `fontSize` and the colour channels bytes.
  */
  datatype Node = Node(
    typeCode: int,
    nodeId: int,
    child: Addr,
    prevSibling: Addr,
    parent: Addr,
    nodeFlags: bv32,
    drawFlags: bv32,
    x: real,
    y: real,
    width: int,
    height: int,
    scaleX: real,
    scaleY: real,
    originX: real,
    originY: real,
    rotation: real,
    color: bv32,
    multiplyRed: int,
    multiplyGreen: int,
    multiplyBlue: int,
    addRed: int,
    addGreen: int,
    addBlue: int,
    component: Addr,
    partId: int,
    topOffset: int,
    rightOffset: int,
    bottomOffset: int,
    leftOffset: int,
    fontSize: int,
    alignment: int)

  /** An `AtkComponentBase` with its `UldManager`: a nested root and a flat node list. */
  datatype Comp = Comp(
    componentType: int,
    rootNode: Addr,
    nodeList: seq<Addr>,
    selectedItemIndex: int,
    componentData: Addr)

  datatype Heap = Heap(nodes: map<Addr, Node>, comps: map<Addr, Comp>)

  /** An `AtkUnitBase`: a named top-level container with its root node and flat node list. */
  datatype Addon = Addon(name: string, isVisible: bool, rootNode: Addr, x: int, y: int, nodeList: seq<Addr>)

  /** One unit manager: its `Count` and its fixed-size `Entries` array of addon pointers. */
  datatype UnitList = UnitList(count: nat, entries: seq<Addr>)

  /** The whole UI: node memory, the addons, and the unit-list array (None when its base address is null). */
  datatype Ui = Ui(heap: Heap, addons: map<Addr, Addon>, unitLists: Option<seq<UnitList>>)

  /** Hit test and address search treat a node as a component node from type 1000 on. */
  predicate IsComponentNode(n: Node) {
    n.typeCode >= 1000
  }

  predicate HasVisibleFlag(flags: bv32) {
    flags & VisibleFlag != 0
  }

  /** `a` is null or leads to a node. */
  ghost predicate Ptr(h: Heap, a: Addr) {
    a == Null || a in h.nodes
  }

  ghost predicate PointsInto(h: Heap, n: Node) {
    && Ptr(h, n.child)
    && Ptr(h, n.prevSibling)
    && Ptr(h, n.parent)
    && (IsComponentNode(n) && n.component != Null ==> n.component in h.comps)
  }

  ghost predicate CompPointsInto(h: Heap, c: Comp) {
    Ptr(h, c.rootNode) && forall i | 0 <= i < |c.nodeList| :: c.nodeList[i] in h.nodes
  }

  /** Every non-null pointer stored in the heap leads to a record. */
  ghost predicate Closed(h: Heap) {
    && Null !in h.nodes
    && Null !in h.comps
    && (forall a | a in h.nodes :: PointsInto(h, h.nodes[a]))
    && (forall c | c in h.comps :: CompPointsInto(h, h.comps[c]))
  }

  /** `b` is null or ranked strictly below `a`. */
  ghost predicate Below(r: map<Addr, nat>, b: Addr, a: Addr) {
    b == Null || (a in r && b in r && r[b] < r[a])
  }

  ghost predicate InnerBelow(h: Heap, r: map<Addr, nat>, a: Addr)
    requires a in h.nodes
  {
    var n := h.nodes[a];
    IsComponentNode(n) && n.component in h.comps ==>
      && Below(r, h.comps[n.component].rootNode, a)
      && forall i | 0 <= i < |h.comps[n.component].nodeList| ::
           h.comps[n.component].nodeList[i] != Null && Below(r, h.comps[n.component].nodeList[i], a)
  }

  /** `r` ranks every node above everything it points down to. */
  ghost predicate Ranked(h: Heap, r: map<Addr, nat>) {
    forall a | a in h.nodes ::
      && a in r
      && Below(r, h.nodes[a].child, a)
      && Below(r, h.nodes[a].prevSibling, a)
      && InnerBelow(h, r, a)
  }

  /** `d` ranks every node above its parent. */
  ghost predicate Rooted(h: Heap, d: map<Addr, nat>) {
    forall a | a in h.nodes :: a in d && Below(d, h.nodes[a].parent, a)
  }

  /** The snapshot the inspector can walk: closed and acyclic in both directions. */
  ghost predicate Valid(h: Heap) {
    && Closed(h)
    && (exists r :: Ranked(h, r))
    && (exists d :: Rooted(h, d))
  }

  ghost function Rank(h: Heap): (r: map<Addr, nat>)
    requires Valid(h)
    ensures Ranked(h, r)
  {
    var r :| Ranked(h, r); r
  }

  ghost function Depth(h: Heap): (d: map<Addr, nat>)
    requires Valid(h)
    ensures Rooted(h, d)
  {
    var d :| Rooted(h, d); d
  }

  /** Termination measure for walks that go down: 0 for null, rank + 1 for a node. */
  ghost function Height(h: Heap, a: Addr): nat
    requires Valid(h)
  {
    if a in h.nodes then Rank(h)[a] + 1 else 0
  }

  /** Termination measure for walks that go up the parent chain. */
  ghost function Level(h: Heap, a: Addr): nat
    requires Valid(h)
  {
    if a in h.nodes then Depth(h)[a] + 1 else 0
  }

  /** The component root of node `a`, or null when `a` is not a component node or has no component. */
  function InnerRoot(h: Heap, a: Addr): (r: Addr)
    requires Valid(h) && a in h.nodes
    ensures Ptr(h, r) && (r != Null ==> Height(h, r) < Height(h, a))
  {
    var n := h.nodes[a];
    if IsComponentNode(n) && n.component != Null then h.comps[n.component].rootNode else Null
  }

  /**
    The nodes met when following `PrevSiblingNode` from `first` until null: the
    children of a node in the order the inspector lists them.
  */
  function SiblingChain(h: Heap, first: Addr): (s: seq<Addr>)
    requires Valid(h) && Ptr(h, first)
    ensures forall x | x in s :: x in h.nodes && Height(h, x) <= Height(h, first)
    decreases Height(h, first)
  {
    if first == Null then [] else [first] + SiblingChain(h, h.nodes[first].prevSibling)
  }

  /** `[a, parent of a, ..., root]`, following `ParentNode` until null. */
  function ParentChain(h: Heap, a: Addr): (s: seq<Addr>)
    requires Valid(h) && a in h.nodes
    ensures |s| > 0 && s[0] == a
    ensures forall i | 0 <= i < |s| :: s[i] in h.nodes
    ensures forall i | 0 <= i < |s| - 1 :: s[i + 1] == h.nodes[s[i]].parent
    ensures h.nodes[s[|s| - 1]].parent == Null
    decreases Level(h, a)
  {
    var p := h.nodes[a].parent;
    if p == Null then [a] else [a] + ParentChain(h, p)
  }

  /** The game memory the editor writes into. */
  class GameMemory {
    var heap: Heap
  }
}
