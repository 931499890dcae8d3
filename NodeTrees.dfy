/**
  The node views of the inspector's tree browser: one view per node address,
  cached per addon, of a variant chosen by the node's type code.  A view counts
  and lists a node's children along the `PrevSiblingNode` chain, decides
  whether it is highlighted or forced open from the selector's search path,
  toggles the node's `Visible` flag, and owns an optional popout window.

  Drawing itself is not modelled: a method returns the sequence of views it
  prints, in order, and the decisions that change what is drawn.
*/
module NodeTrees {
  import opened Heap
  import Format
  import ComponentTree
  import Selector
  import HitTest

  /** The view variants `GetOrCreate` chooses between. */
  datatype ViewKind =
    | ResView
    | TextView
    | ImageView
    | NineGridView
    | ClippingMaskView
    | CounterView
    | CollisionView
    | ComponentView

  /**
    The variant for a type code: a component view strictly above 1000, then
    the variant named after the node type, and a plain view for anything else.
  */
  function Classify(typeCode: int): (k: ViewKind)
    ensures k.ComponentView? <==> typeCode > 1000
  {
    if typeCode > 1000 then ComponentView
    else if typeCode == TextType then TextView
    else if typeCode == ImageType then ImageView
    else if typeCode == NineGridType then NineGridView
    else if typeCode == ClippingMaskType then ClippingMaskView
    else if typeCode == CounterType then CounterView
    else if typeCode == CollisionType then CollisionView
    else ResView
  }

  /** The node type a specialised variant is named after; none for plain and component views. */
  function VariantType(k: ViewKind): Option<int> {
    match k
    case TextView => Some(TextType)
    case ImageView => Some(ImageType)
    case NineGridView => Some(NineGridType)
    case ClippingMaskView => Some(ClippingMaskType)
    case CounterView => Some(CounterType)
    case CollisionView => Some(CollisionType)
    case _ => None
  }

  /**
    Up to 1000, a type code gets the variant named after it when there is one,
    and the plain view exactly when no variant is named after it.
  */
  lemma ClassifyByName(typeCode: int)
    requires typeCode <= 1000
    ensures VariantType(Classify(typeCode)) == Some(typeCode) || Classify(typeCode) == ResView
    ensures Classify(typeCode) == ResView <==> forall k: ViewKind :: VariantType(k) != Some(typeCode)
  {
    if Classify(typeCode) != ResView {
      assert VariantType(Classify(typeCode)) == Some(typeCode);
    }
  }

  /**
    The view factory and the hit test and address search agree on which
    nodes are components everywhere except at type code 1000, which they
    treat as a component but the factory shows as a plain node.
  */
  lemma ComponentThresholds(n: Node)
    ensures Classify(n.typeCode).ComponentView? <==> IsComponentNode(n) && n.typeCode != 1000
    ensures n.typeCode == 1000 ==> IsComponentNode(n) && Classify(n.typeCode) == ResView
  {
  }

  /** A view for `a` can be built: it is a node, and a component view finds its component. */
  ghost predicate Creatable(h: Heap, a: Addr) {
    a in h.nodes && (h.nodes[a].typeCode > 1000 ==> h.nodes[a].component in h.comps)
  }

  /** A heap in which every node can get a view: walkable, and no component view has a null component. */
  ghost predicate Viewable(h: Heap) {
    Valid(h) && forall a | a in h.nodes :: Creatable(h, a)
  }

  /** The children of `a`: its `ChildNode`, then that node's `PrevSiblingNode` chain. */
  ghost function DirectChildren(h: Heap, a: Addr): seq<Addr>
    requires Valid(h) && a in h.nodes
  {
    SiblingChain(h, h.nodes[a].child)
  }

  /** `{NodeType}`: the enum name, or the number for a value the enum does not name. */
  function NodeTypeName(nodeType: int): string {
    if nodeType == ResType then "Res"
    else if nodeType == ImageType then "Image"
    else if nodeType == TextType then "Text"
    else if nodeType == NineGridType then "NineGrid"
    else if nodeType == CounterType then "Counter"
    else if nodeType == CollisionType then "Collision"
    else if nodeType == ClippingMaskType then "ClippingMask"
    else Format.IntText(nodeType)
  }

  /** The fixed start of a heading: the node type. */
  function HeaderHead(nodeType: int): string {
    NodeTypeName(nodeType) + " Node"
  }

  /** The fixed end of a heading: the address in hexadecimal. */
  function HeaderTail(node: Addr): string {
    " (" + Format.Hex(node) + ")"
  }

  /** The heading of a node view: type, the child-count suffix, and the address. */
  function HeaderText(nodeType: int, childCount: int, node: Addr): string {
    HeaderHead(nodeType) + Format.CountSuffix(childCount) + HeaderTail(node)
  }

  /**
    The heading is the type name, the suffix and the address; the suffix is
    there exactly when the node has children and reads back as their number.
  */
  lemma HeaderCarriesCount(nodeType: int, childCount: int, node: Addr)
    ensures var head, tail, s := HeaderHead(nodeType), HeaderTail(node), HeaderText(nodeType, childCount, node);
      && |head| + |tail| <= |s|
      && s[..|head|] == head
      && s[|s| - |tail|..] == tail
      && (|s| > |head| + |tail| <==> childCount > 0)
      && Format.SuffixCount(s[|head|..|s| - |tail|]) == if childCount > 0 then childCount else 0
  {
    Format.SuffixBetween(HeaderHead(nodeType), childCount, HeaderTail(node));
  }

  /** What `Print` decides for a node: whether it takes the highlighted path, and whether its tree is forced open. */
  datatype Decision = Decision(highlighted: bool, forcedOpen: bool)

  /**
    A node is highlighted when it is the target of the search path; a
    highlighted node is printed forced open, any other one when the caller
    forces it or the node lies on the search path.
  */
  function Decide(searchResults: seq<Addr>, node: Addr, forceOpen: bool): (d: Decision)
    ensures d.highlighted <==> |searchResults| > 0 && searchResults[0] == node
    ensures d.forcedOpen <==> forceOpen || node in searchResults
  {
    if |searchResults| > 0 && searchResults[0] == node then Decision(true, true)
    else Decision(false, forceOpen || node in searchResults)
  }

  /**
    After a click records `[node, parent, ..., root]`, exactly the clicked
    node is highlighted and exactly the nodes on its parent chain open by
    themselves.
  */
  lemma ClickedPathOpens(h: Heap, clicked: Addr, a: Addr)
    requires Valid(h) && clicked in h.nodes
    ensures Decide(ParentChain(h, clicked), a, false).highlighted <==> a == clicked
    ensures Decide(ParentChain(h, clicked), a, false).forcedOpen <==>
      a == clicked || (a in h.nodes && a in ParentChain(h, clicked))
  {
  }

  /** One printed entry: the index shown in front of it, if any, and the node. */
  datatype Printed = Printed(index: Option<nat>, node: Addr)

  /** The nodes printed without an index, in order. */
  function Unindexed(nodes: seq<Addr>): (r: seq<Printed>)
    ensures |r| == |nodes| && forall i | 0 <= i < |r| :: r[i] == Printed(None, nodes[i])
  {
    if nodes == [] then [] else [Printed(None, nodes[0])] + Unindexed(nodes[1..])
  }

  /** The first `count` entries of a node list, each printed with its position. */
  function Numbered(list: seq<Addr>, count: nat): (r: seq<Printed>)
    requires count <= |list|
    ensures |r| == count && forall j | 0 <= j < count :: r[j] == Printed(Some(j), list[j])
  {
    if count == 0 then [] else Numbered(list, count - 1) + [Printed(Some(count - 1), list[count - 1])]
  }

  /** The cache kept every view it had and now holds one for each of `nodes`. */
  ghost predicate Covers(m: map<Addr, NodeView>, m0: map<Addr, NodeView>, nodes: seq<Addr>) {
    && (forall a | a in m0 :: a in m && m[a] == m0[a])
    && (forall i | 0 <= i < |nodes| :: nodes[i] in m)
  }

  /** The search target is one of `nodes`, so printing them scrolls to it. */
  predicate Meets(searchResults: seq<Addr>, nodes: seq<Addr>) {
    |searchResults| > 0 && searchResults[0] in nodes
  }

  /** Printing changed at most the selector's `Scrolled` flag. */
  twostate predicate OnlyScrolled(sel: Selector.ElementSelector)
    reads sel
  {
    && sel.searchResults == old(sel.searchResults)
    && sel.index == old(sel.index)
    && sel.active == old(sel.active)
    && sel.countdown == old(sel.countdown)
    && sel.selectedAddonName == old(sel.selectedAddonName)
  }

  /**
    The tree nodes the user left open, which the inspector cannot see from the
    heap: a node view's own tree, and a component view's "Node List" tree.
  */
  datatype OpenState = OpenState(treeOpen: Addr -> bool, listOpen: Addr -> bool)

  /** A node's tree is open: forced by the caller, on the search path, or opened by the user. */
  predicate Opens(searchResults: seq<Addr>, st: OpenState, a: Addr, forceOpen: bool) {
    forceOpen || a in searchResults || st.treeOpen(a)
  }

  /** Every node `Print` shows for `a`, in order: `a` itself, then, when its tree is open, what its children show. */
  ghost function Shown(h: Heap, sr: seq<Addr>, st: OpenState, a: Addr, forceOpen: bool): seq<Addr>
    requires Viewable(h) && a in h.nodes
    decreases Height(h, a), 2, 0
  {
    [a] + if Opens(sr, st, a, forceOpen) then ChildrenShown(h, sr, st, a) else []
  }

  /** What `PrintChildNodes` shows: the sibling chain, then a component view's opened node list. */
  ghost function ChildrenShown(h: Heap, sr: seq<Addr>, st: OpenState, a: Addr): seq<Addr>
    requires Viewable(h) && a in h.nodes
    decreases Height(h, a), 1, 0
  {
    ChainShown(h, sr, st, h.nodes[a].child) +
    if Classify(h.nodes[a].typeCode).ComponentView? && st.listOpen(a) then
      var list := HitTest.CompList(h, a);
      ListShown(h, sr, st, list, |list|, Height(h, a))
    else []
  }

  /** What the sibling chain from `first` shows, each node printed unforced. */
  ghost function ChainShown(h: Heap, sr: seq<Addr>, st: OpenState, first: Addr): seq<Addr>
    requires Viewable(h) && Ptr(h, first)
    decreases Height(h, first), 3, 0
  {
    if first == Null then []
    else Shown(h, sr, st, first, false) + ChainShown(h, sr, st, h.nodes[first].prevSibling)
  }

  /** What the first `n` entries of a node list show; `top` bounds their heights. */
  ghost function ListShown(h: Heap, sr: seq<Addr>, st: OpenState, list: seq<Addr>, n: nat, top: nat): seq<Addr>
    requires Viewable(h) && n <= |list|
    requires forall j | 0 <= j < n :: list[j] in h.nodes && Height(h, list[j]) < top
    decreases top, 0, n
  {
    if n == 0 then [] else ListShown(h, sr, st, list, n - 1, top) + Shown(h, sr, st, list[n - 1], false)
  }

  /** The `Visible` bit flipped: cleared when set, set when clear. */
  function ToggleVisible(flags: bv32): (r: bv32)
    ensures HasVisibleFlag(r) <==> !HasVisibleFlag(flags)
    ensures r & !VisibleFlag == flags & !VisibleFlag
  {
    if HasVisibleFlag(flags) then flags & !VisibleFlag else flags | VisibleFlag
  }

  /** Pressing the visibility button twice restores the flags. */
  lemma ToggleTwice(flags: bv32)
    ensures ToggleVisible(ToggleVisible(flags)) == flags
  {
  }

  /** A node's popout window. */
  class PopoutWindow {
    const name: string
    var isOpen: bool

    /** A new popout opens at once. */
    constructor (name: string)
      ensures this.name == name && isOpen
    {
      this.name := name;
      isOpen := true;
    }
  }

  /** The window system the popouts are registered with: the set of its windows. */
  class WindowSystem {
    var windows: set<PopoutWindow>
  }

  /** The views of one addon, keyed by node address. */
  class AddonTree {
    const addonName: string
    var nodeTrees: map<Addr, NodeView>

    /** Every cached view is filed under its own node and belongs to this tree. */
    ghost predicate Registered()
      reads this
    {
      forall a | a in nodeTrees :: nodeTrees[a].node == a && nodeTrees[a].tree == this
    }

    /** The cache is registered and each view is of the variant its node's type code selects. */
    ghost predicate Fits(h: Heap)
      reads this
    {
      && Registered()
      && forall a | a in nodeTrees :: a in h.nodes && nodeTrees[a].kind == Classify(h.nodes[a].typeCode)
    }
  }

  /** The view of one node. */
  class NodeView {
    const node: Addr
    const tree: AddonTree
    const kind: ViewKind
    /** `NodeType` as the heading shows it: the type code, 0 for a component view. */
    const nodeType: int
    var window: PopoutWindow?
    var editorOpen: bool

    /** Building a view registers it in its addon's cache; a key already there is an error. */
    constructor (h: Heap, node: Addr, tree: AddonTree, kind: ViewKind)
      requires node in h.nodes && node !in tree.nodeTrees
      modifies tree
      ensures this.node == node && this.tree == tree && this.kind == kind
      ensures nodeType == if kind.ComponentView? then 0 else h.nodes[node].typeCode
      ensures window == null && !editorOpen
      ensures tree.nodeTrees == old(tree.nodeTrees)[node := this]
    {
      this.node := node;
      this.tree := tree;
      this.kind := kind;
      nodeType := if kind.ComponentView? then 0 else h.nodes[node].typeCode;
      window := null;
      editorOpen := false;
      new;
      tree.nodeTrees := tree.nodeTrees[node := this];
    }

    /** The number of children, counted along the sibling chain. */
    method GetDirectChildCount(h: Heap) returns (count: int)
      requires Valid(h) && node in h.nodes
      ensures count == |DirectChildren(h, node)|
    {
      count := 0;
      var child := h.nodes[node].child;
      if child != Null {
        count := count + 1;
        var prev := child;
        while h.nodes[prev].prevSibling != Null
          invariant prev in h.nodes
          invariant count + |SiblingChain(h, h.nodes[prev].prevSibling)| == |SiblingChain(h, child)|
          decreases Height(h, prev)
        {
          prev := h.nodes[prev].prevSibling;
          count := count + 1;
        }
      }
    }

    /** `GetHeaderText`: the heading, with the child count this view counts. */
    method GetHeaderText(h: Heap) returns (s: string)
      requires Valid(h) && node in h.nodes
      ensures s == HeaderText(nodeType, |DirectChildren(h, node)|, node)
    {
      var count := GetDirectChildCount(h);
      s := HeaderHead(nodeType) + Format.CountSuffix(count) + HeaderTail(node);
    }

    /** The addresses whose field names the heading looks up: the node, and for a component view its component too. */
    function FieldNamePointers(h: Heap): (ps: seq<Addr>)
      requires node in h.nodes
      ensures |ps| > 0 && ps[0] == node
      ensures kind.ComponentView? ==> ps == [node, h.nodes[node].component]
      ensures !kind.ComponentView? ==> ps == [node]
    {
      if kind.ComponentView? then [node, h.nodes[node].component] else [node]
    }

    /** This view is the one its addon's cache holds for its node. */
    ghost predicate Cached()
      reads tree
    {
      node in tree.nodeTrees && tree.nodeTrees[node] == this
    }

    /**
      `Print`: the search target is printed highlighted and forced open, and
      the first time it is printed the inspector scrolls to it.  Either way
      the node's tree follows, and an open tree prints the node's children,
      each through its own view, all the way down.
    */
    method Print(h: Heap, sel: Selector.ElementSelector, st: OpenState, index: Option<nat>, forceOpen: bool)
      returns (d: Decision)
      requires Viewable(h) && tree.Fits(h) && Cached()
      modifies tree, sel
      ensures tree.Fits(h)
      ensures d == Decide(old(sel.searchResults), node, forceOpen)
      ensures Covers(tree.nodeTrees, old(tree.nodeTrees), Shown(h, old(sel.searchResults), st, node, forceOpen))
      ensures sel.scrolled ==
        (old(sel.scrolled) || Meets(old(sel.searchResults), Shown(h, old(sel.searchResults), st, node, forceOpen)))
      ensures OnlyScrolled(sel)
      decreases Height(h, node), 4, 0
    {
      ghost var m0 := tree.nodeTrees;
      var searchResults := sel.searchResults;
      var isOpen;
      if |searchResults| > 0 && searchResults[0] == node {
        if !sel.scrolled {
          sel.scrolled := true;
        }
        d := Decision(true, true);
        isOpen := PrintTree(h, sel, st, true);
      } else {
        d := Decision(false, forceOpen || node in searchResults);
        isOpen := PrintTree(h, sel, st, forceOpen);
      }
      ghost var below := if isOpen then ChildrenShown(h, searchResults, st, node) else [];
      assert Shown(h, searchResults, st, node, forceOpen) == [node] + below;
      CoversConcat(tree.nodeTrees, m0, m0, [node], below);
      MeetsConcat(searchResults, [node], below);
    }

    /**
      `PrintTree`: the tree is forced open when asked or when the node lies on
      the search path, and is otherwise as the user left it; an open tree
      prints the node's children.
    */
    method PrintTree(h: Heap, sel: Selector.ElementSelector, st: OpenState, forceOpen: bool) returns (treeOpen: bool)
      requires Viewable(h) && tree.Fits(h) && Cached()
      modifies tree, sel
      ensures tree.Fits(h)
      ensures treeOpen == Opens(old(sel.searchResults), st, node, forceOpen)
      ensures var below := if treeOpen then ChildrenShown(h, old(sel.searchResults), st, node) else [];
        && Covers(tree.nodeTrees, old(tree.nodeTrees), below)
        && sel.scrolled == (old(sel.scrolled) || Meets(old(sel.searchResults), below))
      ensures OnlyScrolled(sel)
      decreases Height(h, node), 3, 0
    {
      treeOpen := forceOpen || node in sel.searchResults || st.treeOpen(node);
      if treeOpen {
        var _ := PrintChildNodes(h, sel, st);
      }
    }

    /**
      `PrintChildNodes`: the children along the sibling chain, each without an
      index; a component view then adds its nested node list under a tree
      node of its own.
    */
    method PrintChildNodes(h: Heap, sel: Selector.ElementSelector, st: OpenState) returns (printed: seq<Printed>)
      requires Viewable(h) && tree.Fits(h) && Cached()
      modifies tree, sel
      ensures tree.Fits(h)
      ensures printed == Unindexed(DirectChildren(h, node)) +
        if Classify(h.nodes[node].typeCode).ComponentView? then NestedList(HitTest.CompList(h, node), st.listOpen(node)) else []
      ensures Covers(tree.nodeTrees, old(tree.nodeTrees), ChildrenShown(h, old(sel.searchResults), st, node))
      ensures sel.scrolled ==
        (old(sel.scrolled) || Meets(old(sel.searchResults), ChildrenShown(h, old(sel.searchResults), st, node)))
      ensures OnlyScrolled(sel)
      decreases Height(h, node), 2, 0
    {
      ghost var sr := sel.searchResults;
      ghost var m0 := tree.nodeTrees;
      printed := PrintSiblings(h, tree, sel, st, h.nodes[node].child);
      if kind.ComponentView? {
        ghost var m1 := tree.nodeTrees;
        var list := HitTest.CompList(h, node);
        var nested := PrintNodeListAsTree(h, list, |list|, tree, sel, st, st.listOpen(node), Height(h, node));
        ghost var chain := ChainShown(h, sr, st, h.nodes[node].child);
        ghost var inner := if |list| > 0 && st.listOpen(node) then ListShown(h, sr, st, list, |list|, Height(h, node)) else [];
        assert ChildrenShown(h, sr, st, node) == chain + inner;
        CoversConcat(tree.nodeTrees, m1, m0, chain, inner);
        MeetsConcat(sr, chain, inner);
        printed := printed + nested;
      } else {
        assert ChildrenShown(h, sr, st, node) == ChainShown(h, sr, st, h.nodes[node].child) + [];
      }
    }

    /**
      `TogglePopout`: the first press creates an open window and registers
      it; every later press only opens or closes that window.
    */
    method TogglePopout(h: Heap, system: WindowSystem)
      requires Valid(h) && node in h.nodes
      modifies this, system, window
      ensures editorOpen == old(editorOpen)
      ensures old(window) != null ==>
        window == old(window) && window.isOpen == !old(window.isOpen) && system.windows == old(system.windows)
      ensures old(window) == null ==>
        && window != null && fresh(window) && window.isOpen
        && window.name == tree.addonName + ": " + HeaderText(nodeType, |DirectChildren(h, node)|, node)
           + "###nodePopout" + Format.IntText(node)
        && system.windows == old(system.windows) + {window}
    {
      if window != null {
        window.isOpen := !window.isOpen;
      } else {
        var header := GetHeaderText(h);
        var w := new PopoutWindow(tree.addonName + ": " + header + "###nodePopout" + Format.IntText(node));
        window := w;
        system.windows := system.windows + {w};
      }
    }

    /** `Dispose`: the window is unregistered only if it was created and is still registered. */
    method Dispose(system: WindowSystem)
      modifies system
      ensures window != null && window in old(system.windows) ==> system.windows == old(system.windows) - {window}
      ensures window == null || window !in old(system.windows) ==> system.windows == old(system.windows)
    {
      if window != null && window in system.windows {
        system.windows := system.windows - {window};
      }
    }

    /** The visibility button: flips the node's `Visible` flag and changes nothing else in memory. */
    method ToggleVisibility(mem: GameMemory)
      requires node in mem.heap.nodes
      modifies mem
      ensures mem.heap == old(mem.heap).(nodes := old(mem.heap.nodes)[node :=
        old(mem.heap.nodes[node]).(nodeFlags := ToggleVisible(old(mem.heap.nodes[node].nodeFlags)))])
    {
      var h := mem.heap;
      var n := h.nodes[node];
      mem.heap := h.(nodes := h.nodes[node := n.(nodeFlags := ToggleVisible(n.nodeFlags))]);
    }
  }

  /** The nested list as a component view prints it: numbered, and only when non-empty and opened. */
  function NestedList(list: seq<Addr>, treeOpened: bool): seq<Printed> {
    if |list| > 0 && treeOpened then Numbered(list, |list|) else []
  }

  /**
    `GetOrCreate`: the cached view of an address when there is one; otherwise
    a new view of the variant its type code selects, which its constructor
    files under the address.
  */
  method GetOrCreate(h: Heap, node: Addr, tree: AddonTree) returns (v: NodeView)
    requires tree.Registered()
    requires node in tree.nodeTrees || Creatable(h, node)
    modifies tree
    ensures tree.Registered() && v.node == node && v.tree == tree
    ensures node in old(tree.nodeTrees) ==> v == old(tree.nodeTrees)[node] && tree.nodeTrees == old(tree.nodeTrees)
    ensures node !in old(tree.nodeTrees) ==>
      && fresh(v) && v.node == node && v.tree == tree && v.kind == Classify(h.nodes[node].typeCode)
      && tree.nodeTrees == old(tree.nodeTrees)[node := v]
    ensures node in tree.nodeTrees && tree.nodeTrees[node] == v
    ensures old(tree.Fits(h)) ==> tree.Fits(h) && v.kind == Classify(h.nodes[node].typeCode)
  {
    if node in tree.nodeTrees {
      v := tree.nodeTrees[node];
    } else {
      v := new NodeView(h, node, tree, Classify(h.nodes[node].typeCode));
    }
  }

  /** Asking twice for the view of the same address gives the same view. */
  method CacheIdentity(h: Heap, node: Addr, tree: AddonTree) returns (first: NodeView, second: NodeView)
    requires tree.Registered()
    requires node in tree.nodeTrees || Creatable(h, node)
    modifies tree
    ensures first == second
  {
    first := GetOrCreate(h, node, tree);
    second := GetOrCreate(h, node, tree);
  }

  /** `GetOrCreate(node).Print(index)`: one entry of a listing, with everything below it. */
  method PrintOne(h: Heap, tree: AddonTree, sel: Selector.ElementSelector, st: OpenState, node: Addr, index: Option<nat>)
    returns (entry: Printed)
    requires Viewable(h) && tree.Fits(h) && node in h.nodes
    modifies tree, sel
    ensures tree.Fits(h)
    ensures entry == Printed(index, node)
    ensures Covers(tree.nodeTrees, old(tree.nodeTrees), Shown(h, old(sel.searchResults), st, node, false))
    ensures sel.scrolled ==
      (old(sel.scrolled) || Meets(old(sel.searchResults), Shown(h, old(sel.searchResults), st, node, false)))
    ensures OnlyScrolled(sel)
    decreases Height(h, node), 5, 0
  {
    ghost var m0 := tree.nodeTrees;
    var v := GetOrCreate(h, node, tree);
    ghost var m1 := tree.nodeTrees;
    var _ := v.Print(h, sel, st, index, false);
    CoversConcat(tree.nodeTrees, m1, m0, [], Shown(h, sel.searchResults, st, node, false));
    entry := Printed(index, node);
  }

  /** Joining two cache extensions: the cache covers both lists, and still holds what it held first. */
  lemma CoversConcat(m: map<Addr, NodeView>, m1: map<Addr, NodeView>, m0: map<Addr, NodeView>, a: seq<Addr>, b: seq<Addr>)
    requires Covers(m1, m0, a) && Covers(m, m1, b)
    ensures Covers(m, m0, a + b)
  {
  }

  lemma MeetsConcat(searchResults: seq<Addr>, a: seq<Addr>, b: seq<Addr>)
    ensures Meets(searchResults, a + b) <==> Meets(searchResults, a) || Meets(searchResults, b)
  {
  }

  lemma UnindexedSnoc(nodes: seq<Addr>, a: Addr)
    ensures Unindexed(nodes + [a]) == Unindexed(nodes) + [Printed(None, a)]
  {
    var l, r := Unindexed(nodes + [a]), Unindexed(nodes) + [Printed(None, a)];
    assert forall i | 0 <= i < |l| :: l[i] == r[i];
  }

  lemma Regroup(xs: seq<Addr>, ys: seq<Addr>, zs: seq<Addr>)
    ensures xs + (ys + zs) == (xs + ys) + zs
  {
  }

  /** The base `PrintChildNodes` loop: each node of the sibling chain from `first`, in order, with what it shows. */
  method PrintSiblings(h: Heap, tree: AddonTree, sel: Selector.ElementSelector, st: OpenState, first: Addr)
    returns (printed: seq<Printed>)
    requires Viewable(h) && tree.Fits(h) && Ptr(h, first)
    modifies tree, sel
    ensures tree.Fits(h)
    ensures printed == Unindexed(SiblingChain(h, first))
    ensures Covers(tree.nodeTrees, old(tree.nodeTrees), ChainShown(h, old(sel.searchResults), st, first))
    ensures sel.scrolled ==
      (old(sel.scrolled) || Meets(old(sel.searchResults), ChainShown(h, old(sel.searchResults), st, first)))
    ensures OnlyScrolled(sel)
    decreases Height(h, first), 6, 0
  {
    ghost var sr := sel.searchResults;
    printed := [];
    ghost var done: seq<Addr> := [];
    ghost var shown: seq<Addr> := [];
    var prevNode := first;
    while prevNode != Null
      invariant Ptr(h, prevNode) && Height(h, prevNode) <= Height(h, first)
      invariant SiblingChain(h, first) == done + SiblingChain(h, prevNode)
      invariant ChainShown(h, sr, st, first) == shown + ChainShown(h, sr, st, prevNode)
      invariant printed == Unindexed(done)
      invariant tree.Fits(h)
      invariant Covers(tree.nodeTrees, old(tree.nodeTrees), shown)
      invariant sel.scrolled == (old(sel.scrolled) || Meets(sr, shown))
      invariant OnlyScrolled(sel)
      decreases Height(h, prevNode)
    {
      ghost var cache := tree.nodeTrees;
      var next := h.nodes[prevNode].prevSibling;
      ghost var one := Shown(h, sr, st, prevNode, false);
      var entry := PrintOne(h, tree, sel, st, prevNode, None);
      MeetsConcat(sr, shown, one);
      CoversConcat(tree.nodeTrees, cache, old(tree.nodeTrees), shown, one);
      UnindexedSnoc(done, prevNode);
      Regroup(done, [prevNode], SiblingChain(h, next));
      Regroup(shown, one, ChainShown(h, sr, st, next));
      printed := printed + [entry];
      done := done + [prevNode];
      shown := shown + one;
      prevNode := next;
    }
  }

  lemma ListShownSnoc(h: Heap, sr: seq<Addr>, st: OpenState, list: seq<Addr>, j: nat, top: nat)
    requires Viewable(h) && j < |list|
    requires forall i | 0 <= i <= j :: list[i] in h.nodes && Height(h, list[i]) < top
    ensures ListShown(h, sr, st, list, j + 1, top) == ListShown(h, sr, st, list, j, top) + Shown(h, sr, st, list[j], false)
  {
  }

  /** `PrintNodeList`: entries 0 to count - 1 of a node list, each printed with its index and what it shows. */
  method PrintNodeList(h: Heap, list: seq<Addr>, count: int, tree: AddonTree, sel: Selector.ElementSelector,
                       st: OpenState, ghost top: nat)
    returns (printed: seq<Printed>)
    requires Viewable(h) && tree.Fits(h) && count <= |list|
    requires forall j | 0 <= j < count :: list[j] in h.nodes && Height(h, list[j]) < top
    modifies tree, sel
    ensures tree.Fits(h)
    ensures count <= 0 ==> printed == []
    ensures count > 0 ==> printed == Numbered(list, count)
    ensures var n := if count > 0 then count else 0;
      && Covers(tree.nodeTrees, old(tree.nodeTrees), ListShown(h, old(sel.searchResults), st, list, n, top))
      && sel.scrolled ==
         (old(sel.scrolled) || Meets(old(sel.searchResults), ListShown(h, old(sel.searchResults), st, list, n, top)))
    ensures OnlyScrolled(sel)
    decreases top, 0, 0
  {
    ghost var sr := sel.searchResults;
    printed := [];
    var j := 0;
    while j < count
      invariant 0 <= j <= if count > 0 then count else 0
      invariant printed == Numbered(list, j)
      invariant tree.Fits(h)
      invariant Covers(tree.nodeTrees, old(tree.nodeTrees), ListShown(h, sr, st, list, j, top))
      invariant sel.scrolled == (old(sel.scrolled) || Meets(sr, ListShown(h, sr, st, list, j, top)))
      invariant OnlyScrolled(sel)
    {
      ghost var cache := tree.nodeTrees;
      var entry := PrintOne(h, tree, sel, st, list[j], Some(j));
      MeetsConcat(sr, ListShown(h, sr, st, list, j, top), Shown(h, sr, st, list[j], false));
      CoversConcat(tree.nodeTrees, cache, old(tree.nodeTrees), ListShown(h, sr, st, list, j, top),
                   Shown(h, sr, st, list[j], false));
      ListShownSnoc(h, sr, st, list, j, top);
      printed := printed + [entry];
      j := j + 1;
    }
  }

  /** `PrintNodeListAsTree`: nothing for a count of zero or less, and the list only when its tree node is opened. */
  method PrintNodeListAsTree(h: Heap, list: seq<Addr>, count: int, tree: AddonTree, sel: Selector.ElementSelector,
                             st: OpenState, treeOpened: bool, ghost top: nat)
    returns (printed: seq<Printed>)
    requires Viewable(h) && tree.Fits(h) && count <= |list|
    requires forall j | 0 <= j < count :: list[j] in h.nodes && Height(h, list[j]) < top
    modifies tree, sel
    ensures tree.Fits(h)
    ensures count <= 0 || !treeOpened ==> printed == [] && tree.nodeTrees == old(tree.nodeTrees) && sel.scrolled == old(sel.scrolled)
    ensures count > 0 && treeOpened ==>
      && printed == Numbered(list, count)
      && Covers(tree.nodeTrees, old(tree.nodeTrees), ListShown(h, old(sel.searchResults), st, list, count, top))
      && sel.scrolled ==
         (old(sel.scrolled) || Meets(old(sel.searchResults), ListShown(h, old(sel.searchResults), st, list, count, top)))
    ensures OnlyScrolled(sel)
    decreases top, 1, 0
  {
    printed := [];
    if count <= 0 {
      return;
    }
    if treeOpened {
      printed := PrintNodeList(h, list, count, tree, sel, st, top);
    }
  }

  /** Whatever a node of the sibling chain shows, the chain shows too. */
  lemma {:induction false} ChainIncludes(h: Heap, sr: seq<Addr>, st: OpenState, first: Addr, x: Addr)
    requires Viewable(h) && Ptr(h, first) && x in SiblingChain(h, first)
    ensures forall y | y in Shown(h, sr, st, x, false) :: y in ChainShown(h, sr, st, first)
    decreases Height(h, first)
  {
    if x != first {
      ChainIncludes(h, sr, st, h.nodes[first].prevSibling, x);
    }
  }

  /** An open node shows everything each of its children shows. */
  lemma OpenShowsChildren(h: Heap, sr: seq<Addr>, st: OpenState, a: Addr, forceOpen: bool, x: Addr)
    requires Viewable(h) && a in h.nodes && Opens(sr, st, a, forceOpen) && x in DirectChildren(h, a)
    ensures forall y | y in Shown(h, sr, st, x, false) :: y in Shown(h, sr, st, a, forceOpen)
  {
    ChainIncludes(h, sr, st, h.nodes[a].child, x);
  }

  /**
    A search path `[target, parent, ..., ancestor]` whose every step goes from
    a node to one of its children: printing any node of the path shows the
    target, because every node on the path opens by itself.
  */
  lemma {:induction false} PathReachesTarget(h: Heap, sr: seq<Addr>, st: OpenState, k: nat)
    requires Viewable(h) && k < |sr|
    requires forall i | 0 <= i < |sr| :: sr[i] in h.nodes
    requires forall i | 0 <= i < |sr| - 1 :: sr[i] in DirectChildren(h, sr[i + 1])
    ensures Meets(sr, Shown(h, sr, st, sr[k], false))
    decreases k
  {
    if k > 0 {
      PathReachesTarget(h, sr, st, k - 1);
      OpenShowsChildren(h, sr, st, sr[k], false, sr[k - 1]);
    }
  }
}
