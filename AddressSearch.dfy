/**
  The recursive address search of the element selector: a depth-first walk of a
  node's subtree that returns the path from the matching node up to the node
  the search started from.
*/
module AddressSearch {
  import opened Heap

  /** Node `a` answers a search for `target`: by its own address, or by its component's address. */
  predicate IsMatch(h: Heap, a: Addr, target: Addr)
    requires a in h.nodes
  {
    var n := h.nodes[a];
    a == target || (IsComponentNode(n) && n.component != Null && n.component == target)
  }

  /** `owner` holds `x` directly: `x` is on the sibling chain of its first child or of its component's root. */
  predicate Holds(h: Heap, owner: Addr, x: Addr)
    requires Valid(h) && owner in h.nodes
  {
    x in SiblingChain(h, h.nodes[owner].child) || x in SiblingChain(h, InnerRoot(h, owner))
  }

  /**
    A search result for `target` started at `start`: it begins with the match,
    every later entry holds the one before it, and it ends on the sibling chain
    the search started on.
  */
  predicate IsPathFrom(h: Heap, start: Addr, target: Addr, p: seq<Addr>)
    requires Valid(h) && Ptr(h, start)
  {
    && |p| > 0
    && (forall i | 0 <= i < |p| :: p[i] in h.nodes)
    && IsMatch(h, p[0], target)
    && (forall i | 0 <= i < |p| - 1 :: Holds(h, p[i + 1], p[i]))
    && p[|p| - 1] in SiblingChain(h, start)
  }

  /**
    `FindByAddress(node, address, out path)`: checks the node itself, then its
    component pointer, then the component's inner root, then its first child,
    then its previous sibling.  A hit below the node appends the node to the
    path; a hit through the sibling returns the sibling's path unchanged.
  */
  function FindPath(h: Heap, a: Addr, target: Addr): (p: Option<seq<Addr>>)
    requires Valid(h) && Ptr(h, a)
    ensures a == Null ==> p == None
    ensures a != Null && IsMatch(h, a, target) ==> p == Some([a])
    ensures p.Some? ==> IsPathFrom(h, a, target, p.value)
    decreases Height(h, a)
  {
    if a == Null then None
    else if a == target then Some([a])
    else
      var n := h.nodes[a];
      var inner :=
        if IsComponentNode(n) && n.component != Null then
          if n.component == target then Some([a])
          else
            match FindPath(h, InnerRoot(h, a), target)
            case Some(q) => ExtendPath(h, InnerRoot(h, a), a, target, q); Some(q + [a])
            case None => None
        else None;
      if inner.Some? then inner
      else
        match FindPath(h, n.child, target)
        case Some(q) => ExtendPath(h, n.child, a, target, q); Some(q + [a])
        case None =>
          var r := FindPath(h, n.prevSibling, target);
          if r.Some? then SiblingPath(h, a, target, r.value); r else r
  }

  /** A path found below `a` (from its first child or its inner root) extends to a path from `a`. */
  lemma ExtendPath(h: Heap, c: Addr, a: Addr, target: Addr, q: seq<Addr>)
    requires Valid(h) && a in h.nodes
    requires c == h.nodes[a].child || c == InnerRoot(h, a)
    requires Ptr(h, c) && IsPathFrom(h, c, target, q)
    ensures IsPathFrom(h, a, target, q + [a])
  {
    var p := q + [a];
    forall i | 0 <= i < |p| - 1
      ensures Holds(h, p[i + 1], p[i])
    {
      if i == |p| - 2 {
        assert p[i] == q[|q| - 1] && p[i + 1] == a;
      } else {
        assert p[i] == q[i] && p[i + 1] == q[i + 1];
      }
    }
  }

  /** A path found from the previous sibling of `a` is also a path from `a`. */
  lemma SiblingPath(h: Heap, a: Addr, target: Addr, q: seq<Addr>)
    requires Valid(h) && a in h.nodes
    requires IsPathFrom(h, h.nodes[a].prevSibling, target, q)
    ensures IsPathFrom(h, a, target, q)
  {
    assert SiblingChain(h, a) == [a] + SiblingChain(h, h.nodes[a].prevSibling);
  }

  /** Every address a search started at `a` can find: nodes and component pointers, never null. */
  ghost function Scope(h: Heap, a: Addr): set<Addr>
    requires Valid(h) && Ptr(h, a)
    decreases Height(h, a)
  {
    if a == Null then {} else OwnScope(h, a) + Scope(h, h.nodes[a].prevSibling)
  }

  /** What a search finds at `a` without moving to the sibling: the node, its component and everything below. */
  ghost function OwnScope(h: Heap, a: Addr): set<Addr>
    requires Valid(h) && a in h.nodes
    decreases Height(h, a), 0
  {
    var n := h.nodes[a];
    {a}
    + (if IsComponentNode(n) && n.component != Null then {n.component} + Scope(h, InnerRoot(h, a)) else {})
    + Scope(h, n.child)
  }

  lemma {:induction false} NullNotInScope(h: Heap, a: Addr)
    requires Valid(h) && Ptr(h, a)
    ensures Null !in Scope(h, a)
    decreases Height(h, a)
  {
    if a != Null {
      var n := h.nodes[a];
      if IsComponentNode(n) && n.component != Null {
        NullNotInScope(h, InnerRoot(h, a));
      }
      NullNotInScope(h, n.child);
      NullNotInScope(h, n.prevSibling);
    }
  }

  /** The search succeeds exactly when the target is somewhere in the subtree and sibling chain it walks. */
  lemma {:induction false} FindPathComplete(h: Heap, a: Addr, target: Addr)
    requires Valid(h) && Ptr(h, a)
    ensures FindPath(h, a, target).Some? <==> target in Scope(h, a)
    decreases Height(h, a)
  {
    if a != Null && a != target {
      var n := h.nodes[a];
      if IsComponentNode(n) && n.component != Null {
        FindPathComplete(h, InnerRoot(h, a), target);
      }
      FindPathComplete(h, n.child, target);
      FindPathComplete(h, n.prevSibling, target);
    }
  }

  /** A node is never on the sibling chain that starts after it. */
  lemma NotOnLaterChain(h: Heap, a: Addr)
    requires Valid(h) && a in h.nodes
    ensures a !in SiblingChain(h, h.nodes[a].prevSibling)
  {
  }

  /**
    Search order: the path ends at the start node exactly when the target lies in
    the start node's own part (itself, its component, the inner tree, its
    children); only otherwise is the previous sibling searched.
  */
  lemma {:induction false} SearchOrder(h: Heap, a: Addr, target: Addr)
    requires Valid(h) && a in h.nodes
    requires FindPath(h, a, target).Some?
    ensures var p := FindPath(h, a, target).value;
      p[|p| - 1] == a <==> target in OwnScope(h, a)
  {
    var n := h.nodes[a];
    var p := FindPath(h, a, target).value;
    if a != target {
      if IsComponentNode(n) && n.component != Null {
        FindPathComplete(h, InnerRoot(h, a), target);
      }
      FindPathComplete(h, n.child, target);
      NotOnLaterChain(h, a);
    }
  }
}
