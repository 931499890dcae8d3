/**
  The element selector's point hit test: which addons contain the mouse, and
  which of their nodes do, nested component lists included.
*/
module HitTest {
  import opened Heap
  import Casts

  /** A position in screen space, relative to the main viewport. */
  datatype Point = Point(x: real, y: real)

  /** One hit addon with the nodes under the point and its root's area. */
  datatype AddonResult = AddonResult(addon: Addr, nodes: seq<Addr>, area: real)

  /**
    `inBounds` stands for `new NodeBounds(node).ContainsPoint(position)`.  The hit
    test descends into a hit component node's component without a null check, so
    such nodes must have one.
  */
  ghost predicate HitSafe(h: Heap, inBounds: Addr -> bool) {
    forall a | a in h.nodes && IsComponentNode(h.nodes[a]) && inBounds(a) :: h.nodes[a].component != Null
  }

  ghost predicate AllNodes(h: Heap, l: seq<Addr>) {
    forall i | 0 <= i < |l| :: l[i] in h.nodes
  }

  /** The node list of the component of component node `a`. */
  function CompList(h: Heap, a: Addr): (l: seq<Addr>)
    requires Valid(h) && a in h.nodes
    requires IsComponentNode(h.nodes[a]) && h.nodes[a].component != Null
    ensures AllNodes(h, l)
    ensures forall i | 0 <= i < |l| :: Height(h, l[i]) < Height(h, a)
  {
    h.comps[h.nodes[a].component].nodeList
  }

  function Max(a: int, b: int): int {
    if a < b then b else a
  }

  /** The largest height in `l`: the termination measure for the nested walk. */
  ghost function Bound(h: Heap, l: seq<Addr>): nat
    requires Valid(h) && AllNodes(h, l)
  {
    if l == [] then 0 else Max(Bound(h, l[..|l| - 1]), Height(h, l[|l| - 1]))
  }

  lemma {:induction false} BoundAbove(h: Heap, l: seq<Addr>, i: nat)
    requires Valid(h) && AllNodes(h, l) && i < |l|
    ensures Height(h, l[i]) <= Bound(h, l)
  {
    if i < |l| - 1 {
      BoundAbove(h, l[..|l| - 1], i);
    }
  }

  lemma {:induction false} BoundBelow(h: Heap, l: seq<Addr>, b: nat)
    requires Valid(h) && AllNodes(h, l)
    requires forall i | 0 <= i < |l| :: Height(h, l[i]) <= b
    ensures Bound(h, l) <= b
  {
    if l != [] {
      BoundBelow(h, l[..|l| - 1], b);
    }
  }

  /**
    `GetNodeAtPosition(uldManager, position, false)` as a value: each node of the
    list in order, keeping those whose bounds contain the point; a kept component
    node is preceded by the results of its own node list.
  */
  function NodesAt(h: Heap, l: seq<Addr>, inBounds: Addr -> bool): (r: seq<Addr>)
    requires Valid(h) && HitSafe(h, inBounds) && AllNodes(h, l)
    ensures forall i | 0 <= i < |r| :: r[i] in h.nodes && inBounds(r[i])
    decreases Bound(h, l), |l|
  {
    if l == [] then [] else NodesAt(h, l[..|l| - 1], inBounds) + NodeHits(h, l[|l| - 1], inBounds)
  }

  /** What one node of the list contributes. */
  function NodeHits(h: Heap, n: Addr, inBounds: Addr -> bool): (r: seq<Addr>)
    requires Valid(h) && HitSafe(h, inBounds) && n in h.nodes
    ensures forall i | 0 <= i < |r| :: r[i] in h.nodes && inBounds(r[i])
    ensures |r| > 0 <==> inBounds(n)
    ensures |r| > 0 ==> r[|r| - 1] == n
    decreases Height(h, n), 0
  {
    if !inBounds(n) then []
    else if IsComponentNode(h.nodes[n]) then
      BoundBelow(h, CompList(h, n), Height(h, n) - 1);
      NodesAt(h, CompList(h, n), inBounds) + [n]
    else [n]
  }

  function Reverse<T>(s: seq<T>): (r: seq<T>)
    ensures |r| == |s|
    ensures forall i | 0 <= i < |s| :: r[i] == s[|s| - 1 - i]
  {
    if s == [] then [] else Reverse(s[1..]) + [s[0]]
  }

  /**
    `GetNodeAtPosition`: a loop over the node list that recurses, unreversed, into
    every hit component's node list; only the outermost call reverses.
  */
  method GetNodeAtPosition(h: Heap, l: seq<Addr>, inBounds: Addr -> bool, reverse: bool) returns (r: seq<Addr>)
    requires Valid(h) && HitSafe(h, inBounds) && AllNodes(h, l)
    ensures r == if reverse then Reverse(NodesAt(h, l, inBounds)) else NodesAt(h, l, inBounds)
    decreases Bound(h, l), 1
  {
    var nodeResults: seq<Addr> := [];
    var i := 0;
    while i < |l|
      invariant 0 <= i <= |l|
      invariant nodeResults == NodesAt(h, l[..i], inBounds)
    {
      NodesAtStep(h, l, i, inBounds);
      BoundAbove(h, l, i);
      var hits := HitsOf(h, l[i], inBounds);
      nodeResults := nodeResults + hits;
      i := i + 1;
    }
    assert l[..|l|] == l;
    if reverse {
      nodeResults := Reverse(nodeResults);
    }
    r := nodeResults;
  }

  /** One iteration of `GetNodeAtPosition`: a hit component's nested results, then the hit node itself. */
  method HitsOf(h: Heap, node: Addr, inBounds: Addr -> bool) returns (r: seq<Addr>)
    requires Valid(h) && HitSafe(h, inBounds) && node in h.nodes
    ensures r == NodeHits(h, node, inBounds)
    decreases Height(h, node), 0
  {
    r := [];
    if inBounds(node) {
      if IsComponentNode(h.nodes[node]) {
        var inner := CompList(h, node);
        BoundBelow(h, inner, Height(h, node) - 1);
        r := GetNodeAtPosition(h, inner, inBounds, false);
      }
      r := r + [node];
    }
  }

  lemma AllNodesConcat(h: Heap, a: seq<Addr>, b: seq<Addr>)
    requires AllNodes(h, a) && AllNodes(h, b)
    ensures AllNodes(h, a + b)
  {
    forall i | 0 <= i < |a + b| ensures (a + b)[i] in h.nodes {
      if i >= |a| { assert (a + b)[i] == b[i - |a|]; }
    }
  }

  lemma NodesAtStep(h: Heap, l: seq<Addr>, i: nat, inBounds: Addr -> bool)
    requires Valid(h) && HitSafe(h, inBounds) && AllNodes(h, l) && i < |l|
    ensures NodesAt(h, l[..i + 1], inBounds) == NodesAt(h, l[..i], inBounds) + NodeHits(h, l[i], inBounds)
  {
    assert l[..i + 1][..i] == l[..i];
  }

  lemma Assoc<T>(x: seq<T>, y: seq<T>, z: seq<T>)
    ensures (x + y) + z == x + (y + z)
  {
  }

  lemma SnocSplit<T>(a: seq<T>, b: seq<T>)
    requires b != []
    ensures (a + b)[..|a + b| - 1] == a + b[..|b| - 1]
    ensures (a + b)[|a + b| - 1] == b[|b| - 1]
  {
  }

  lemma {:induction false} NodesAtConcat(h: Heap, a: seq<Addr>, b: seq<Addr>, inBounds: Addr -> bool)
    requires Valid(h) && HitSafe(h, inBounds) && AllNodes(h, a) && AllNodes(h, b)
    ensures NodesAt(h, a + b, inBounds) == NodesAt(h, a, inBounds) + NodesAt(h, b, inBounds)
    decreases |b|
  {
    if b == [] {
      assert a + b == a;
    } else {
      var b', x := b[..|b| - 1], b[|b| - 1];
      AllNodesConcat(h, a, b');
      AllNodesConcat(h, a, b);
      SnocSplit(a, b);
      NodesAtConcat(h, a, b', inBounds);
      assert NodesAt(h, a + b, inBounds) == NodesAt(h, a + b', inBounds) + NodeHits(h, x, inBounds);
      assert NodesAt(h, b, inBounds) == NodesAt(h, b', inBounds) + NodeHits(h, x, inBounds);
      Assoc(NodesAt(h, a, inBounds), NodesAt(h, b', inBounds), NodeHits(h, x, inBounds));
    }
  }

  /** The result splits around any entry of the list into what comes before, the entry's own hits, and the rest. */
  lemma NodesAtSplit(h: Heap, l: seq<Addr>, i: nat, inBounds: Addr -> bool)
    requires Valid(h) && HitSafe(h, inBounds) && AllNodes(h, l) && i < |l|
    ensures NodesAt(h, l, inBounds)
         == NodesAt(h, l[..i], inBounds) + NodeHits(h, l[i], inBounds) + NodesAt(h, l[i + 1..], inBounds)
  {
    assert l[..i + 1] + l[i + 1..] == l;
    NodesAtConcat(h, l[..i + 1], l[i + 1..], inBounds);
    NodesAtStep(h, l, i, inBounds);
  }

  /**
    A hit component node sits in the result directly after the results of its
    own node list, between what the earlier and the later list entries give.
  */
  lemma NestedBeforeComponent(h: Heap, l: seq<Addr>, i: nat, inBounds: Addr -> bool)
    requires Valid(h) && HitSafe(h, inBounds) && AllNodes(h, l) && i < |l|
    requires inBounds(l[i]) && IsComponentNode(h.nodes[l[i]])
    ensures NodesAt(h, l, inBounds)
         == NodesAt(h, l[..i], inBounds) + (NodesAt(h, CompList(h, l[i]), inBounds) + [l[i]])
            + NodesAt(h, l[i + 1..], inBounds)
  {
    NodesAtSplit(h, l, i, inBounds);
  }

  /** An entry of the list itself is in the result exactly when its bounds contain the point. */
  lemma TopLevelExact(h: Heap, l: seq<Addr>, i: nat, inBounds: Addr -> bool)
    requires Valid(h) && HitSafe(h, inBounds) && AllNodes(h, l) && i < |l|
    ensures l[i] in NodesAt(h, l, inBounds) <==> inBounds(l[i])
  {
    if inBounds(l[i]) {
      NodesAtSplit(h, l, i, inBounds);
      LastOfMiddle(NodesAt(h, l[..i], inBounds), NodeHits(h, l[i], inBounds), NodesAt(h, l[i + 1..], inBounds));
    }
  }

  lemma LastOfMiddle<T>(a: seq<T>, b: seq<T>, c: seq<T>)
    requires b != []
    ensures b[|b| - 1] in a + b + c
  {
    assert (a + b + c)[|a| + |b| - 1] == b[|b| - 1];
  }

  // ---------------------------------------------------------------------------
  // Addons

  /** The entries `0 .. min(Count, Entries.Length) - 1` of a unit list. */
  function Live(u: UnitList): (s: seq<Addr>)
    ensures |s| <= u.count && |s| <= |u.entries|
    ensures |s| == u.count || |s| == |u.entries|
    ensures forall i | 0 <= i < |s| :: s[i] == u.entries[i]
  {
    u.entries[..if u.count < |u.entries| then u.count else |u.entries|]
  }

  /** Every entry is null or an addon. */
  ghost predicate Candidates(ui: Ui, cands: seq<Addr>) {
    forall i | 0 <= i < |cands| :: cands[i] == Null || cands[i] in ui.addons
  }

  /** Addons have non-null addresses and well-formed node lists; live entries are null or addons. */
  ghost predicate ValidUi(ui: Ui) {
    && Valid(ui.heap)
    && (forall a | a in ui.addons ::
          a != Null && Ptr(ui.heap, ui.addons[a].rootNode) && AllNodes(ui.heap, ui.addons[a].nodeList))
    && (ui.unitLists.Some? ==>
          forall k | 0 <= k < |ui.unitLists.value| :: Candidates(ui, Live(ui.unitLists.value[k])))
  }

  /**
    `AddonResult.Area`: root width times height (a C# `int` product, so it wraps
    at 32 bits) times `ScaleY` times `ScaleX`; 0 without a root node.
  */
  function Area(ui: Ui, a: Addon): (r: real)
    requires Ptr(ui.heap, a.rootNode)
    ensures a.rootNode == Null ==> r == 0.0
    ensures a.rootNode != Null
            && -0x8000_0000 <= ui.heap.nodes[a.rootNode].width * ui.heap.nodes[a.rootNode].height < 0x8000_0000
            ==> r == (ui.heap.nodes[a.rootNode].width * ui.heap.nodes[a.rootNode].height) as real
                     * ui.heap.nodes[a.rootNode].scaleY * ui.heap.nodes[a.rootNode].scaleX
  {
    if a.rootNode == Null then 0.0
    else
      var r := ui.heap.nodes[a.rootNode];
      Casts.ToInt32(r.width * r.height) as real * r.scaleY * r.scaleX
  }

  /** The unscaled root box `[X, X + Width] x [Y, Y + Height]` contains the point, edges included. */
  predicate InBox(ui: Ui, a: Addon, pos: Point)
    requires a.rootNode in ui.heap.nodes
  {
    var r := ui.heap.nodes[a.rootNode];
    && !(a.x as real > pos.x || a.y as real > pos.y)
    && !((a.x + r.width) as real < pos.x)
    && !((a.y + r.height) as real < pos.y)
  }

  /** The entry `e` passes every filter of the scan except the "already listed" one. */
  predicate Eligible(ui: Ui, e: Addr, pos: Point)
    requires ValidUi(ui)
  {
    && e != Null
    && e in ui.addons
    && ui.addons[e].rootNode != Null
    && ui.addons[e].isVisible
    && HasVisibleFlag(ui.heap.nodes[ui.addons[e].rootNode].nodeFlags)
    && InBox(ui, ui.addons[e], pos)
  }

  /** `addonResults.Contains`: results are equal when their addon pointers are. */
  predicate Listed(rs: seq<AddonResult>, e: Addr) {
    exists i | 0 <= i < |rs| :: rs[i].addon == e
  }

  /** The result the scan records for an eligible addon. */
  function ResultFor(ui: Ui, e: Addr, inBounds: Addr -> bool): AddonResult
    requires ValidUi(ui) && HitSafe(ui.heap, inBounds) && e in ui.addons
  {
    var a := ui.addons[e];
    AddonResult(e, Reverse(NodesAt(ui.heap, a.nodeList, inBounds)), Area(ui, a))
  }

  /** One iteration of the scan over a candidate entry. */
  function Step(ui: Ui, pos: Point, inBounds: Addr -> bool, acc: seq<AddonResult>, e: Addr): seq<AddonResult>
    requires ValidUi(ui) && HitSafe(ui.heap, inBounds)
  {
    if !Eligible(ui, e, pos) || Listed(acc, e) then acc
    else acc + [ResultFor(ui, e, inBounds)]
  }

  /** The scan loop of `GetAtkUnitBaseAtPosition` over a sequence of candidate entries, before sorting. */
  function Scan(ui: Ui, pos: Point, inBounds: Addr -> bool, cands: seq<Addr>): seq<AddonResult>
    requires ValidUi(ui) && HitSafe(ui.heap, inBounds)
  {
    if cands == [] then []
    else Step(ui, pos, inBounds, Scan(ui, pos, inBounds, cands[..|cands| - 1]), cands[|cands| - 1])
  }

  /**
    `rs` reports exactly the eligible addons among `cands`: each entry is one of
    them, with its node hits and area, and each of them has an entry.
  */
  ghost predicate Reported(ui: Ui, pos: Point, inBounds: Addr -> bool, cands: seq<Addr>, rs: seq<AddonResult>)
    requires ValidUi(ui) && HitSafe(ui.heap, inBounds)
  {
    && (forall i | 0 <= i < |rs| ::
          rs[i].addon in cands && Eligible(ui, rs[i].addon, pos) && rs[i] == ResultFor(ui, rs[i].addon, inBounds))
    && (forall e | e in cands && Eligible(ui, e, pos) :: Listed(rs, e))
  }

  /** `Reported`, with no addon listed twice. */
  ghost predicate ScanOk(ui: Ui, pos: Point, inBounds: Addr -> bool, cands: seq<Addr>, rs: seq<AddonResult>)
    requires ValidUi(ui) && HitSafe(ui.heap, inBounds)
  {
    && Reported(ui, pos, inBounds, cands, rs)
    && (forall i, j | 0 <= i < j < |rs| :: rs[i].addon != rs[j].addon)
  }

  /** One step of the scan keeps `ScanOk`. */
  lemma StepOk(ui: Ui, pos: Point, inBounds: Addr -> bool, init: seq<Addr>, e: Addr, rs0: seq<AddonResult>)
    requires ValidUi(ui) && HitSafe(ui.heap, inBounds)
    requires ScanOk(ui, pos, inBounds, init, rs0)
    ensures ScanOk(ui, pos, inBounds, init + [e], Step(ui, pos, inBounds, rs0, e))
  {
    var cands, rs := init + [e], Step(ui, pos, inBounds, rs0, e);
    forall x | x in init ensures x in cands { }
    forall x | x in cands ensures x in init || x == e { }
    if rs != rs0 {
      assert rs == rs0 + [ResultFor(ui, e, inBounds)];
      AppendOk(ui, pos, inBounds, init, e, rs0);
    }
  }

  lemma AppendOk(ui: Ui, pos: Point, inBounds: Addr -> bool, init: seq<Addr>, e: Addr, rs0: seq<AddonResult>)
    requires ValidUi(ui) && HitSafe(ui.heap, inBounds)
    requires ScanOk(ui, pos, inBounds, init, rs0)
    requires Eligible(ui, e, pos) && !Listed(rs0, e)
    ensures ScanOk(ui, pos, inBounds, init + [e], rs0 + [ResultFor(ui, e, inBounds)])
  {
    AppendGenuine(ui, pos, inBounds, init, e, rs0);
    AppendDistinct(rs0, ResultFor(ui, e, inBounds));
    AppendListed(ui, pos, inBounds, init, e, rs0);
  }

  lemma AppendGenuine(ui: Ui, pos: Point, inBounds: Addr -> bool, init: seq<Addr>, e: Addr, rs0: seq<AddonResult>)
    requires ValidUi(ui) && HitSafe(ui.heap, inBounds)
    requires Reported(ui, pos, inBounds, init, rs0)
    requires Eligible(ui, e, pos)
    ensures var cands, rs := init + [e], rs0 + [ResultFor(ui, e, inBounds)];
      forall i | 0 <= i < |rs| ::
        rs[i].addon in cands && Eligible(ui, rs[i].addon, pos) && rs[i] == ResultFor(ui, rs[i].addon, inBounds)
  {
    var cands, rs, n := init + [e], rs0 + [ResultFor(ui, e, inBounds)], |rs0|;
    forall i | 0 <= i < |rs|
      ensures rs[i].addon in cands && Eligible(ui, rs[i].addon, pos) && rs[i] == ResultFor(ui, rs[i].addon, inBounds)
    {
      if i < n { assert rs[i] == rs0[i]; } else { assert rs[i].addon == e; }
    }
  }

  lemma AppendDistinct(rs0: seq<AddonResult>, x: AddonResult)
    requires forall i, j | 0 <= i < j < |rs0| :: rs0[i].addon != rs0[j].addon
    requires !Listed(rs0, x.addon)
    ensures var rs := rs0 + [x]; forall i, j | 0 <= i < j < |rs| :: rs[i].addon != rs[j].addon
  {
    var rs, n := rs0 + [x], |rs0|;
    forall i, j | 0 <= i < j < |rs| ensures rs[i].addon != rs[j].addon {
      assert rs[i] == rs0[i];
      if j < n { assert rs[j] == rs0[j]; } else { assert rs[j] == x; }
    }
  }

  lemma AppendListed(ui: Ui, pos: Point, inBounds: Addr -> bool, init: seq<Addr>, e: Addr, rs0: seq<AddonResult>)
    requires ValidUi(ui) && HitSafe(ui.heap, inBounds)
    requires forall x | x in init && Eligible(ui, x, pos) :: Listed(rs0, x)
    requires e in ui.addons
    ensures var cands, rs := init + [e], rs0 + [ResultFor(ui, e, inBounds)];
      forall x | x in cands && Eligible(ui, x, pos) :: Listed(rs, x)
  {
    var cands, rs, n := init + [e], rs0 + [ResultFor(ui, e, inBounds)], |rs0|;
    forall x | x in cands && Eligible(ui, x, pos) ensures Listed(rs, x) {
      if x == e {
        assert rs[n].addon == e;
      } else {
        assert x in init;
        var i :| 0 <= i < n && rs0[i].addon == x;
        assert rs[i] == rs0[i];
      }
    }
  }

  lemma {:induction false} ScanResults(ui: Ui, pos: Point, inBounds: Addr -> bool, cands: seq<Addr>)
    requires ValidUi(ui) && HitSafe(ui.heap, inBounds)
    ensures ScanOk(ui, pos, inBounds, cands, Scan(ui, pos, inBounds, cands))
  {
    if cands != [] {
      var init, e := cands[..|cands| - 1], cands[|cands| - 1];
      ScanResults(ui, pos, inBounds, init);
      StepOk(ui, pos, inBounds, init, e, Scan(ui, pos, inBounds, init));
      assert cands == init + [e];
    }
  }

  /** The unit lists selected by `options`, in that order, flattened to their live entries. */
  function Gathered(lists: seq<UnitList>, options: seq<nat>): seq<Addr>
    requires forall i | 0 <= i < |options| :: options[i] < |lists|
  {
    if options == [] then []
    else Gathered(lists, options[..|options| - 1]) + Live(lists[options[|options| - 1]])
  }

  // ---------------------------------------------------------------------------
  // Stable sort by area (`OrderBy(w => w.Area)`)

  predicate SortedByArea(s: seq<AddonResult>) {
    forall i, j | 0 <= i < j < |s| :: s[i].area <= s[j].area
  }

  /** The elements of `s` whose area is `k`, in order. */
  function WithArea(s: seq<AddonResult>, k: real): seq<AddonResult> {
    if s == [] then [] else (if s[0].area == k then [s[0]] else []) + WithArea(s[1..], k)
  }

  lemma SortedCons(a: AddonResult, t: seq<AddonResult>)
    requires SortedByArea(t) && (t != [] ==> a.area <= t[0].area)
    ensures SortedByArea([a] + t)
  {
  }

  lemma SortedTail(s: seq<AddonResult>)
    requires SortedByArea(s) && s != []
    ensures SortedByArea(s[1..]) && forall i | 0 <= i < |s| - 1 :: s[0].area <= s[1..][i].area
  {
  }

  /** Inserts `x` after every element whose area does not exceed its own. */
  function Insert(x: AddonResult, s: seq<AddonResult>): (r: seq<AddonResult>)
    requires SortedByArea(s)
    ensures SortedByArea(r)
    ensures multiset(r) == multiset(s) + multiset{x}
    ensures |r| > 0 && (r[0] == x || (s != [] && r[0] == s[0]))
  {
    if s == [] then [x]
    else if s[0].area <= x.area then
      SortedTail(s);
      var t := Insert(x, s[1..]);
      assert s == [s[0]] + s[1..];
      SortedCons(s[0], t);
      [s[0]] + t
    else
      SortedCons(x, s);
      [x] + s
  }

  function SortByArea(s: seq<AddonResult>): (r: seq<AddonResult>)
    ensures SortedByArea(r)
    ensures multiset(r) == multiset(s)
  {
    if s == [] then []
    else
      assert s == s[..|s| - 1] + [s[|s| - 1]];
      Insert(s[|s| - 1], SortByArea(s[..|s| - 1]))
  }

  lemma {:induction false} WithAreaConcat(a: seq<AddonResult>, b: seq<AddonResult>, k: real)
    ensures WithArea(a + b, k) == WithArea(a, k) + WithArea(b, k)
  {
    if a == [] {
      assert a + b == b;
    } else {
      assert (a + b)[0] == a[0];
      assert (a + b)[1..] == a[1..] + b;
      WithAreaConcat(a[1..], b, k);
      Assoc(if a[0].area == k then [a[0]] else [], WithArea(a[1..], k), WithArea(b, k));
    }
  }

  lemma {:induction false} WithAreaAbove(s: seq<AddonResult>, k: real)
    requires forall i | 0 <= i < |s| :: s[i].area > k
    ensures WithArea(s, k) == []
  {
    if s != [] {
      WithAreaAbove(s[1..], k);
    }
  }

  lemma {:induction false} InsertStable(x: AddonResult, s: seq<AddonResult>, k: real)
    requires SortedByArea(s)
    ensures WithArea(Insert(x, s), k) == WithArea(s, k) + (if x.area == k then [x] else [])
  {
    if s == [] {
      assert WithArea([x], k) == (if x.area == k then [x] else []) + WithArea([], k);
    } else if s[0].area <= x.area {
      var t := Insert(x, s[1..]);
      InsertStable(x, s[1..], k);
      assert Insert(x, s) == [s[0]] + t;
      assert ([s[0]] + t)[0] == s[0] && ([s[0]] + t)[1..] == t;
      Assoc(if s[0].area == k then [s[0]] else [], WithArea(s[1..], k), if x.area == k then [x] else []);
    } else {
      assert Insert(x, s) == [x] + s;
      assert ([x] + s)[0] == x && ([x] + s)[1..] == s;
      if x.area == k {
        WithAreaAbove(s, k);
      }
    }
  }

  lemma WithAreaSingle(x: AddonResult, k: real)
    ensures WithArea([x], k) == if x.area == k then [x] else []
  {
    assert [x][1..] == [];
  }

  lemma SortByAreaSnoc(s: seq<AddonResult>)
    requires s != []
    ensures SortByArea(s) == Insert(s[|s| - 1], SortByArea(s[..|s| - 1]))
  {
  }

  /** The sort is stable: the elements of any one area keep their relative order. */
  lemma {:induction false} SortStable(s: seq<AddonResult>, k: real)
    ensures WithArea(SortByArea(s), k) == WithArea(s, k)
  {
    if s != [] {
      var init, x := s[..|s| - 1], s[|s| - 1];
      var sorted := SortByArea(init);
      SortByAreaSnoc(s);
      SortStable(init, k);
      InsertStable(x, sorted, k);
      assert s == init + [x];
      WithAreaConcat(init, [x], k);
      WithAreaSingle(x, k);
    }
  }

  /** `GetAtkUnitBaseAtPosition` as a value: the scan over the listed unit lists, then the stable sort by area. */
  function AddonsAt(ui: Ui, pos: Point, inBounds: Addr -> bool, options: seq<nat>): seq<AddonResult>
    requires ValidUi(ui) && HitSafe(ui.heap, inBounds)
    requires ui.unitLists.Some? ==> forall i | 0 <= i < |options| :: options[i] < |ui.unitLists.value|
  {
    if ui.unitLists.None? then []
    else SortByArea(Scan(ui, pos, inBounds, Gathered(ui.unitLists.value, options)))
  }

  /**
    The result reports exactly the visible, hit addons of the scanned lists, each
    with its node hits and area, in ascending order of area.
  */
  lemma AddonsAtResults(ui: Ui, pos: Point, inBounds: Addr -> bool, options: seq<nat>)
    requires ValidUi(ui) && HitSafe(ui.heap, inBounds)
    requires ui.unitLists.Some? ==> forall i | 0 <= i < |options| :: options[i] < |ui.unitLists.value|
    ensures SortedByArea(AddonsAt(ui, pos, inBounds, options))
    ensures ui.unitLists.None? ==> AddonsAt(ui, pos, inBounds, options) == []
    ensures ui.unitLists.Some? ==>
      Reported(ui, pos, inBounds, Gathered(ui.unitLists.value, options), AddonsAt(ui, pos, inBounds, options))
  {
    if ui.unitLists.Some? {
      var cands := Gathered(ui.unitLists.value, options);
      ScanResults(ui, pos, inBounds, cands);
      SortKeepsReported(ui, pos, inBounds, cands, Scan(ui, pos, inBounds, cands));
    }
  }

  /** Sorting neither adds nor drops a reported addon. */
  lemma SortKeepsReported(ui: Ui, pos: Point, inBounds: Addr -> bool, cands: seq<Addr>, scanned: seq<AddonResult>)
    requires ValidUi(ui) && HitSafe(ui.heap, inBounds)
    requires Reported(ui, pos, inBounds, cands, scanned)
    ensures Reported(ui, pos, inBounds, cands, SortByArea(scanned))
  {
    var rs := SortByArea(scanned);
    SameMembers(scanned, rs);
    PermutedGenuine(ui, pos, inBounds, cands, scanned, rs);
    PermutedListed(ui, pos, inBounds, cands, scanned, rs);
  }

  lemma PermutedGenuine(ui: Ui, pos: Point, inBounds: Addr -> bool, cands: seq<Addr>, a: seq<AddonResult>, b: seq<AddonResult>)
    requires ValidUi(ui) && HitSafe(ui.heap, inBounds)
    requires forall i | 0 <= i < |a| ::
      a[i].addon in cands && Eligible(ui, a[i].addon, pos) && a[i] == ResultFor(ui, a[i].addon, inBounds)
    requires forall x :: x in b ==> x in a
    ensures forall i | 0 <= i < |b| ::
      b[i].addon in cands && Eligible(ui, b[i].addon, pos) && b[i] == ResultFor(ui, b[i].addon, inBounds)
  {
    forall i | 0 <= i < |b|
      ensures b[i].addon in cands && Eligible(ui, b[i].addon, pos) && b[i] == ResultFor(ui, b[i].addon, inBounds)
    {
      assert b[i] in a;
    }
  }

  lemma PermutedListed(ui: Ui, pos: Point, inBounds: Addr -> bool, cands: seq<Addr>, a: seq<AddonResult>, b: seq<AddonResult>)
    requires ValidUi(ui)
    requires forall e | e in cands && Eligible(ui, e, pos) :: Listed(a, e)
    requires forall x :: x in a ==> x in b
    ensures forall e | e in cands && Eligible(ui, e, pos) :: Listed(b, e)
  {
    forall e | e in cands && Eligible(ui, e, pos) ensures Listed(b, e) {
      var j :| 0 <= j < |a| && a[j].addon == e;
      assert a[j] in b;
    }
  }

  /** A permutation has the same members. */
  lemma SameMembers(a: seq<AddonResult>, b: seq<AddonResult>)
    requires multiset(a) == multiset(b)
    ensures forall x :: x in a <==> x in b
  {
    forall x ensures x in a <==> x in b {
      assert x in a <==> x in multiset(a);
    }
  }

  lemma ResultNodes(ui: Ui, e: Addr, inBounds: Addr -> bool)
    requires ValidUi(ui) && HitSafe(ui.heap, inBounds) && e in ui.addons
    ensures AllNodes(ui.heap, ResultFor(ui, e, inBounds).nodes)
  {
    ReverseAllNodes(ui.heap, NodesAt(ui.heap, ui.addons[e].nodeList, inBounds));
  }

  lemma ReverseAllNodes(h: Heap, s: seq<Addr>)
    requires AllNodes(h, s)
    ensures AllNodes(h, Reverse(s))
  {
    var r := Reverse(s);
    forall j | 0 <= j < |r| ensures r[j] in h.nodes {
      assert r[j] == s[|s| - 1 - j];
    }
  }

  /** Every reported addon is an addon of the UI, and every node it reports is a node. */
  lemma AddonsAtNodes(ui: Ui, pos: Point, inBounds: Addr -> bool, options: seq<nat>)
    requires ValidUi(ui) && HitSafe(ui.heap, inBounds)
    requires ui.unitLists.Some? ==> forall i | 0 <= i < |options| :: options[i] < |ui.unitLists.value|
    ensures var rs := AddonsAt(ui, pos, inBounds, options);
      forall i | 0 <= i < |rs| :: rs[i].addon in ui.addons && AllNodes(ui.heap, rs[i].nodes)
  {
    AddonsAtResults(ui, pos, inBounds, options);
    var rs := AddonsAt(ui, pos, inBounds, options);
    if ui.unitLists.Some? {
      assert Reported(ui, pos, inBounds, Gathered(ui.unitLists.value, options), rs);
      forall i | 0 <= i < |rs| ensures rs[i].addon in ui.addons && AllNodes(ui.heap, rs[i].nodes) {
        ResultNodes(ui, rs[i].addon, inBounds);
      }
    }
  }

  /** A point outside every addon's box hits nothing. */
  lemma MissEverywhere(ui: Ui, pos: Point, inBounds: Addr -> bool, options: seq<nat>)
    requires ValidUi(ui) && HitSafe(ui.heap, inBounds)
    requires ui.unitLists.Some? ==> forall i | 0 <= i < |options| :: options[i] < |ui.unitLists.value|
    requires forall a | a in ui.addons && ui.addons[a].rootNode != Null :: !InBox(ui, ui.addons[a], pos)
    ensures AddonsAt(ui, pos, inBounds, options) == []
  {
    AddonsAtResults(ui, pos, inBounds, options);
    if ui.unitLists.Some? {
      assert Reported(ui, pos, inBounds, Gathered(ui.unitLists.value, options), AddonsAt(ui, pos, inBounds, options));
    }
  }

  lemma SliceSnoc<T>(a: seq<T>, b: seq<T>, i: nat)
    requires i < |b|
    ensures a + b[..i + 1] == (a + b[..i]) + [b[i]]
  {
    assert b[..i + 1] == b[..i] + [b[i]];
  }

  lemma ScanSnoc(ui: Ui, pos: Point, inBounds: Addr -> bool, seen: seq<Addr>, e: Addr)
    requires ValidUi(ui) && HitSafe(ui.heap, inBounds)
    ensures Scan(ui, pos, inBounds, seen + [e]) == Step(ui, pos, inBounds, Scan(ui, pos, inBounds, seen), e)
  {
    assert (seen + [e])[..|seen|] == seen;
  }

  lemma GatheredSnoc(lists: seq<UnitList>, options: seq<nat>, k: nat)
    requires k < |options| && forall i | 0 <= i < |options| :: options[i] < |lists|
    ensures Gathered(lists, options[..k + 1]) == Gathered(lists, options[..k]) + Live(lists[options[k]])
  {
    assert options[..k + 1][..k] == options[..k];
  }

  /**
    The body of the inner loop of `GetAtkUnitBaseAtPosition` for one entry:
    null, rootless, invisible, already listed and missed addons are skipped,
    any other is checked against the point and appended.
  */
  method Visit(ui: Ui, pos: Point, inBounds: Addr -> bool, acc: seq<AddonResult>, addon: Addr)
    returns (r: seq<AddonResult>)
    requires ValidUi(ui) && HitSafe(ui.heap, inBounds) && (addon == Null || addon in ui.addons)
    ensures r == Step(ui, pos, inBounds, acc, addon)
  {
    r := acc;
    if addon == Null || ui.addons[addon].rootNode == Null {
    } else if !ui.addons[addon].isVisible || !HasVisibleFlag(ui.heap.nodes[ui.addons[addon].rootNode].nodeFlags) {
    } else if Listed(acc, addon) {
    } else if !InBox(ui, ui.addons[addon], pos) {
    } else {
      var nodes := GetNodeAtPosition(ui.heap, ui.addons[addon].nodeList, inBounds, true);
      r := acc + [AddonResult(addon, nodes, Area(ui, ui.addons[addon]))];
    }
  }

  /**
    `GetAtkUnitBaseAtPosition`: nested loops over the listed unit lists and their
    live entries, skipping null, rootless, invisible, already listed and missed
    addons, then the stable sort by area.
  */
  method GetAtkUnitBaseAtPosition(ui: Ui, pos: Point, inBounds: Addr -> bool, options: seq<nat>)
    returns (r: seq<AddonResult>)
    requires ValidUi(ui) && HitSafe(ui.heap, inBounds)
    requires ui.unitLists.Some? ==> forall i | 0 <= i < |options| :: options[i] < |ui.unitLists.value|
    ensures r == AddonsAt(ui, pos, inBounds, options)
  {
    if ui.unitLists.None? {
      return [];
    }
    var lists := ui.unitLists.value;
    var addonResults: seq<AddonResult> := [];
    var k := 0;
    while k < |options|
      invariant 0 <= k <= |options|
      invariant addonResults == Scan(ui, pos, inBounds, Gathered(lists, options[..k]))
    {
      var live := Live(lists[options[k]]);
      assert Candidates(ui, live);
      var i := 0;
      assert Gathered(lists, options[..k]) + live[..0] == Gathered(lists, options[..k]);
      while i < |live|
        invariant 0 <= i <= |live|
        invariant addonResults == Scan(ui, pos, inBounds, Gathered(lists, options[..k]) + live[..i])
      {
        var seen := Gathered(lists, options[..k]) + live[..i];
        var addon := live[i];
        SliceSnoc(Gathered(lists, options[..k]), live, i);
        ScanSnoc(ui, pos, inBounds, seen, addon);
        addonResults := Visit(ui, pos, inBounds, addonResults, addon);
        i := i + 1;
      }
      assert live[..|live|] == live;
      GatheredSnoc(lists, options, k);
      k := k + 1;
    }
    assert options[..|options|] == options;
    r := SortByArea(addonResults);
  }
}
