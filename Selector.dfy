/**
  The element selector's state: the selection index among the nodes under the
  mouse, the highlighted search path with its countdown, and the addon the
  inspector should show.
*/
module Selector {
  import opened Heap
  import HitTest
  import AddressSearch
  import Casts

  /** Number of unit lists the address search walks. */
  const UnitListCount: nat := 18

  /** Frames the highlight of a new search result lasts. */
  const HighlightFrames: real := 100.0

  /** One frame of the highlight countdown. */
  function Tick(c: real): (r: real)
    ensures c <= 0.0 ==> r == c
    ensures 0.0 < c ==> 0.0 <= r < c
    ensures 1.0 <= c ==> r == c - 1.0
  {
    if c > 0.0 then (if c - 1.0 < 0.0 then 0.0 else c - 1.0) else c
  }

  /** The countdown after `n` frames. */
  function Ticks(c: real, n: nat): real
    decreases n
  {
    if n == 0 then c else Ticks(Tick(c), n - 1)
  }

  /** A countdown that starts at `c` frames never goes negative and is over after `c` frames. */
  lemma {:induction false} CountdownExpires(c: real, n: nat)
    requires 0.0 <= c <= n as real
    ensures Ticks(c, n) == 0.0
    decreases n
  {
    if n > 0 {
      CountdownExpires(Tick(c), n - 1);
    }
  }

  lemma {:induction false} CountdownStaysNonNegative(c: real, n: nat)
    requires 0.0 <= c
    ensures 0.0 <= Ticks(c, n) <= c
    decreases n
  {
    if n > 0 {
      CountdownStaysNonNegative(Tick(c), n - 1);
    }
  }

  /** The nodes the selector lists, in display order, each with the addon it was found in. */
  function Flatten(rs: seq<HitTest.AddonResult>): (r: seq<(Addr, Addr)>)
    ensures rs == [] ==> r == []
    ensures rs != [] ==> |r| == |rs[0].nodes| + |Flatten(rs[1..])|
  {
    if rs == [] then [] else Tag(rs[0].addon, rs[0].nodes) + Flatten(rs[1..])
  }

  /** The nodes of one addon, each paired with the addon. */
  function Tag(e: Addr, nodes: seq<Addr>): (r: seq<(Addr, Addr)>)
    ensures |r| == |nodes| && forall k | 0 <= k < |r| :: r[k] == (e, nodes[k])
  {
    if nodes == [] then [] else [(e, nodes[0])] + Tag(e, nodes[1..])
  }

  /** Every result names an addon of the UI and lists nodes of its heap. */
  ghost predicate FromUi(ui: Ui, rs: seq<HitTest.AddonResult>) {
    forall i | 0 <= i < |rs| :: rs[i].addon in ui.addons && HitTest.AllNodes(ui.heap, rs[i].nodes)
  }

  /** Every listed pair is an addon of the UI with a node of its heap. */
  lemma {:induction false} FlattenFromUi(ui: Ui, rs: seq<HitTest.AddonResult>)
    requires FromUi(ui, rs)
    ensures forall m | 0 <= m < |Flatten(rs)| :: Flatten(rs)[m].0 in ui.addons && Flatten(rs)[m].1 in ui.heap.nodes
  {
    if rs != [] {
      FlattenFromUi(ui, rs[1..]);
      var head := |rs[0].nodes|;
      var r := Flatten(rs);
      forall m | 0 <= m < |r| ensures r[m].0 in ui.addons && r[m].1 in ui.heap.nodes {
        if m >= head {
          assert r[m] == Flatten(rs[1..])[m - head];
        } else {
          assert r[m] == Tag(rs[0].addon, rs[0].nodes)[m];
        }
      }
    }
  }

  /** The `(addon, node)` rows the overlay lists under the mouse, in display order. */
  function Listed(ui: Ui, pos: HitTest.Point, inBounds: Addr -> bool, options: seq<nat>): (r: seq<(Addr, Addr)>)
    requires HitTest.ValidUi(ui) && HitTest.HitSafe(ui.heap, inBounds)
    requires ui.unitLists.Some? ==> forall i | 0 <= i < |options| :: options[i] < |ui.unitLists.value|
    ensures forall m | 0 <= m < |r| :: r[m].0 in ui.addons && r[m].1 in ui.heap.nodes
  {
    var rs := HitTest.AddonsAt(ui, pos, inBounds, options);
    HitTest.AddonsAtNodes(ui, pos, inBounds, options);
    assert FromUi(ui, rs);
    FlattenFromUi(ui, rs);
    Flatten(rs)
  }

  /** No live entry of the first `UnitListCount` unit lists is null: the address search dereferences them all. */
  ghost predicate SearchableUi(ui: Ui) {
    && HitTest.ValidUi(ui)
    && (ui.unitLists.Some? ==>
          && |ui.unitLists.value| == UnitListCount
          && forall k | 0 <= k < UnitListCount :: Null !in HitTest.Live(ui.unitLists.value[k]))
  }

  /** The addon-level `FindByAddress`: the path from the addon's root, when it has one and the address is below it. */
  function AddonPath(ui: Ui, e: Addr, address: Addr): (p: Option<seq<Addr>>)
    requires HitTest.ValidUi(ui) && e in ui.addons
    ensures ui.addons[e].rootNode == Null ==> p == None
  {
    var root := ui.addons[e].rootNode;
    if root == Null then None else AddressSearch.FindPath(ui.heap, root, address)
  }

  /** A path found in an addon leads from the address up to the addon's root chain. */
  lemma AddonPathIsPath(ui: Ui, e: Addr, address: Addr)
    requires HitTest.ValidUi(ui) && e in ui.addons
    ensures AddonPath(ui, e, address).Some? ==>
      AddressSearch.IsPathFrom(ui.heap, ui.addons[e].rootNode, address, AddonPath(ui, e, address).value)
  {
  }

  /** Entry `e` answers a search for `address`: it is the address, or the address is found below its root. */
  predicate Answers(ui: Ui, e: Addr, address: Addr)
    requires HitTest.ValidUi(ui) && e in ui.addons
  {
    e == address || AddonPath(ui, e, address).Some?
  }

  ghost predicate AllAddons(ui: Ui, cands: seq<Addr>) {
    forall i | 0 <= i < |cands| :: cands[i] in ui.addons
  }

  /** The first candidate that answers the search. */
  function FirstAnswer(ui: Ui, cands: seq<Addr>, address: Addr): (r: Option<nat>)
    requires HitTest.ValidUi(ui) && AllAddons(ui, cands)
    ensures r.Some? ==> r.value < |cands| && Answers(ui, cands[r.value], address)
    ensures r.Some? ==> forall i | 0 <= i < r.value :: !Answers(ui, cands[i], address)
    ensures r.None? ==> forall i | 0 <= i < |cands| :: !Answers(ui, cands[i], address)
  {
    if cands == [] then None
    else if Answers(ui, cands[0], address) then Some(0)
    else match FirstAnswer(ui, cands[1..], address)
      case None => None
      case Some(k) => Some(k + 1)
  }

  lemma {:induction false} FirstAnswerAt(ui: Ui, cands: seq<Addr>, address: Addr, k: nat)
    requires HitTest.ValidUi(ui) && AllAddons(ui, cands) && k < |cands|
    requires Answers(ui, cands[k], address)
    requires forall i | 0 <= i < k :: !Answers(ui, cands[i], address)
    ensures FirstAnswer(ui, cands, address) == Some(k)
  {
    if k > 0 {
      FirstAnswerAt(ui, cands[1..], address, k - 1);
    }
  }

  lemma {:induction false} NoAnswer(ui: Ui, cands: seq<Addr>, address: Addr)
    requires HitTest.ValidUi(ui) && AllAddons(ui, cands)
    requires forall i | 0 <= i < |cands| :: !Answers(ui, cands[i], address)
    ensures FirstAnswer(ui, cands, address) == None
  {
    if cands != [] {
      NoAnswer(ui, cands[1..], address);
    }
  }

  /** The live entries of unit lists `0 .. n - 1`, in the order the search visits them. */
  function SearchPrefix(lists: seq<UnitList>, n: nat): (cands: seq<Addr>)
    requires n <= |lists|
  {
    if n == 0 then [] else SearchPrefix(lists, n - 1) + HitTest.Live(lists[n - 1])
  }

  lemma {:induction false} PrefixAddons(ui: Ui, n: nat)
    requires SearchableUi(ui) && ui.unitLists.Some? && n <= UnitListCount
    ensures AllAddons(ui, SearchPrefix(ui.unitLists.value, n))
  {
    if n > 0 {
      PrefixAddons(ui, n - 1);
      LiveAddons(ui, n - 1);
      AllAddonsConcat(ui, SearchPrefix(ui.unitLists.value, n - 1), HitTest.Live(ui.unitLists.value[n - 1]));
    }
  }

  /** The live entries of a searched unit list are addons. */
  lemma LiveAddons(ui: Ui, k: nat)
    requires SearchableUi(ui) && ui.unitLists.Some? && k < UnitListCount
    ensures AllAddons(ui, HitTest.Live(ui.unitLists.value[k]))
  {
    var live := HitTest.Live(ui.unitLists.value[k]);
    assert HitTest.Candidates(ui, live);
    forall i | 0 <= i < |live| ensures live[i] in ui.addons {
      assert live[i] in live;
    }
  }

  lemma AllAddonsConcat(ui: Ui, a: seq<Addr>, b: seq<Addr>)
    requires AllAddons(ui, a) && AllAddons(ui, b)
    ensures AllAddons(ui, a + b)
  {
    forall i | 0 <= i < |a + b| ensures (a + b)[i] in ui.addons {
      if i >= |a| {
        assert (a + b)[i] == b[i - |a|];
      }
    }
  }

  /** Every live entry of the unit lists searched, in search order. */
  function SearchOrder(ui: Ui): (cands: seq<Addr>)
    requires SearchableUi(ui)
    ensures AllAddons(ui, cands)
  {
    if ui.unitLists.None? then []
    else
      PrefixAddons(ui, UnitListCount);
      SearchPrefix(ui.unitLists.value, |ui.unitLists.value|)
  }

  /** The addon `PerformSearch` stops at, if any. */
  function SearchHit(ui: Ui, address: Addr): (r: Option<Addr>)
    requires SearchableUi(ui)
    ensures r.Some? ==> r.value in ui.addons && r.value in SearchOrder(ui) && Answers(ui, r.value, address)
    ensures r.None? ==> forall e | e in SearchOrder(ui) :: !Answers(ui, e, address)
  {
    match FirstAnswer(ui, SearchOrder(ui), address)
    case None => None
    case Some(k) => Some(SearchOrder(ui)[k])
  }

  lemma HitAt(ui: Ui, address: Addr, k: nat, e: Addr)
    requires SearchableUi(ui) && k < |SearchOrder(ui)| && SearchOrder(ui)[k] == e
    requires Answers(ui, e, address)
    requires forall i | 0 <= i < k :: !Answers(ui, SearchOrder(ui)[i], address)
    ensures SearchHit(ui, address) == Some(e)
  {
    FirstAnswerAt(ui, SearchOrder(ui), address, k);
  }

  lemma NoHit(ui: Ui, address: Addr)
    requires SearchableUi(ui)
    requires forall i | 0 <= i < |SearchOrder(ui)| :: !Answers(ui, SearchOrder(ui)[i], address)
    ensures SearchHit(ui, address) == None
  {
    NoAnswer(ui, SearchOrder(ui), address);
  }

  /** The selection after a wheel move of `wheel` notches over `count` listed nodes. */
  function Scrolled(index: int, wheel: real, count: nat): (r: int)
    ensures count == 0 ==> r == index
    ensures count > 0 ==> 0 <= r < count && (index - Casts.Truncate(wheel) - r) % count == 0
  {
    if count == 0 then index
    else
      var i := index - Casts.Truncate(wheel);
      Casts.ModUnique(i - i % count, count, i / count, 0);
      i % count
  }

  /**
    The selector's wrap of a scrolled index: `count` is added while the index is
    negative, then subtracted while it is at least `count`.
  */
  method Wrap(i: int, count: nat) returns (r: int)
    requires count > 0
    ensures 0 <= r < count
    ensures r == i % count
  {
    r := i;
    ghost var target := r % count;
    while r < 0
      invariant r % count == target
      decreases -r
    {
      Casts.ModStep(r, count);
      r := r + count;
    }
    while r >= count
      invariant 0 <= r && r % count == target
      decreases r
    {
      Casts.ModStep(r, count);
      r := r - count;
    }
    Casts.ModUnique(r, count, 0, r);
  }

  class ElementSelector {
    /** Position of the selected node among the nodes under the mouse. */
    var index: int
    /** Whether the selector overlay is shown. */
    var active: bool
    /** The highlighted path, target first. */
    var searchResults: seq<Addr>
    /** Frames left of the highlight. */
    var countdown: real
    /** Whether the inspector has already scrolled to the highlighted node. */
    var scrolled: bool
    /** The addon the inspector shows. */
    var selectedAddonName: Option<string>

    ghost predicate Valid()
      reads this
    {
      0 <= index && 0.0 <= countdown
    }

    constructor ()
      ensures Valid()
      ensures index == 0 && !active && searchResults == [] && countdown == 0.0 && !scrolled
      ensures selectedAddonName == None
    {
      index := 0;
      active := false;
      searchResults := [];
      countdown := 0.0;
      scrolled := false;
      selectedAddonName := None;
    }

    method Dispose()
      modifies this
      ensures !active
      ensures index == old(index) && searchResults == old(searchResults) && countdown == old(countdown)
      ensures scrolled == old(scrolled) && selectedAddonName == old(selectedAddonName)
    {
      active := false;
    }

    /** The highlight state a successful search or click leaves behind. */
    ghost predicate Highlights(path: seq<Addr>)
      reads this
    {
      searchResults == path && countdown == HighlightFrames && !scrolled
    }

    /** The highlight is the given one. */
    ghost predicate Keeps(path: seq<Addr>, frames: real, done: bool)
      reads this
    {
      searchResults == path && countdown == frames && scrolled == done
    }

    /**
      What a search for `address` that stops at addon `e` leaves behind: the
      addon is selected, and unless `e` is the address itself the path to the
      address below it is highlighted; otherwise the highlight is the given one.
    */
    ghost predicate Found(ui: Ui, e: Addr, address: Addr, path: seq<Addr>, frames: real, done: bool)
      requires HitTest.ValidUi(ui) && e in ui.addons && Answers(ui, e, address)
      reads this
    {
      && selectedAddonName == Some(ui.addons[e].name)
      && (e == address ==> Keeps(path, frames, done))
      && (e != address ==> Highlights(AddonPath(ui, e, address).value))
    }

    /**
      The sidebar: the selector button toggles the overlay, the countdown ticks,
      and a parsed address (None when the input does not parse) is searched for.
    */
    method DrawInterface(ui: Ui, toggle: bool, address: Option<Addr>)
      requires Valid() && SearchableUi(ui)
      modifies this
      ensures Valid()
      ensures active == (old(active) != toggle) && index == old(index)
      ensures address.None? ==>
        && Keeps(old(searchResults), Tick(old(countdown)), old(scrolled))
        && selectedAddonName == old(selectedAddonName)
      ensures address.Some? && SearchHit(ui, address.value).None? ==>
        && Keeps(old(searchResults), Tick(old(countdown)), old(scrolled))
        && selectedAddonName == old(selectedAddonName)
      ensures address.Some? && SearchHit(ui, address.value).Some? ==>
        Found(ui, SearchHit(ui, address.value).value, address.value, old(searchResults), Tick(old(countdown)), old(scrolled))
    {
      if toggle {
        active := !active;
      }
      countdown := Tick(countdown);
      if address.Some? {
        PerformSearch(ui, address.value);
      }
    }

    /**
      The addon-level `FindByAddress`: fails without a root node or when the
      address is not below it; on success highlights the path.
    */
    method FindInAddon(ui: Ui, e: Addr, address: Addr) returns (found: bool)
      requires Valid() && HitTest.ValidUi(ui) && e in ui.addons
      modifies this
      ensures Valid()
      ensures found <==> AddonPath(ui, e, address).Some?
      ensures found ==> Highlights(AddonPath(ui, e, address).value)
      ensures !found ==> searchResults == old(searchResults) && countdown == old(countdown) && scrolled == old(scrolled)
      ensures index == old(index) && active == old(active) && selectedAddonName == old(selectedAddonName)
    {
      var path := AddonPath(ui, e, address);
      if path.None? {
        return false;
      }
      scrolled := false;
      searchResults := path.value;
      countdown := HighlightFrames;
      return true;
    }

    /**
      One entry of the search: an addon that is the address, or holds it, is
      selected; a hit below its root also highlights the path.
    */
    method Probe(ui: Ui, e: Addr, address: Addr) returns (hit: bool)
      requires Valid() && HitTest.ValidUi(ui) && e in ui.addons
      modifies this
      ensures Valid()
      ensures hit <==> Answers(ui, e, address)
      ensures index == old(index) && active == old(active)
      ensures !hit ==> Keeps(old(searchResults), old(countdown), old(scrolled)) && selectedAddonName == old(selectedAddonName)
      ensures hit ==> Found(ui, e, address, old(searchResults), old(countdown), old(scrolled))
    {
      hit := e == address;
      if !hit {
        hit := FindInAddon(ui, e, address);
      }
      if hit {
        selectedAddonName := Some(ui.addons[e].name);
      }
    }

    /**
      The inner loop of `PerformSearch` over the live entries of one unit list,
      which sit in the search order `order` right after its first `done` entries.
      On a hit, `at` is the position of the addon that answered.
    */
    method SearchList(ui: Ui, address: Addr, live: seq<Addr>, ghost order: seq<Addr>, ghost done: nat)
      returns (hit: bool, ghost at: nat)
      requires Valid() && HitTest.ValidUi(ui) && AllAddons(ui, order)
      requires done + |live| <= |order| && forall j | 0 <= j < |live| :: order[done + j] == live[j]
      requires forall m | 0 <= m < done :: !Answers(ui, order[m], address)
      modifies this
      ensures Valid()
      ensures index == old(index) && active == old(active)
      ensures !hit ==>
        && Keeps(old(searchResults), old(countdown), old(scrolled)) && selectedAddonName == old(selectedAddonName)
        && forall m | 0 <= m < done + |live| :: !Answers(ui, order[m], address)
      ensures hit ==>
        && done <= at < done + |live| && Answers(ui, order[at], address)
        && (forall m | 0 <= m < at :: !Answers(ui, order[m], address))
        && Found(ui, order[at], address, old(searchResults), old(countdown), old(scrolled))
    {
      var j := 0;
      while j < |live|
        invariant 0 <= j <= |live|
        invariant forall m | 0 <= m < done + j :: !Answers(ui, order[m], address)
        invariant Valid() && Keeps(old(searchResults), old(countdown), old(scrolled))
        invariant selectedAddonName == old(selectedAddonName) && index == old(index) && active == old(active)
      {
        var addon := live[j];
        assert order[done + j] == addon;
        hit := Probe(ui, addon, address);
        if hit {
          at := done + j;
          return;
        }
        j := j + 1;
      }
      hit, at := false, 0;
    }

    /**
      `PerformSearch`: walks the live entries of unit lists 0 to 17 and stops at
      the first addon that is the address or holds it, selecting that addon.
    */
    method PerformSearch(ui: Ui, address: Addr)
      requires Valid() && SearchableUi(ui)
      modifies this
      ensures Valid()
      ensures index == old(index) && active == old(active)
      ensures SearchHit(ui, address).None? ==>
        Keeps(old(searchResults), old(countdown), old(scrolled)) && selectedAddonName == old(selectedAddonName)
      ensures SearchHit(ui, address).Some? ==>
        Found(ui, SearchHit(ui, address).value, address, old(searchResults), old(countdown), old(scrolled))
    {
      if ui.unitLists.None? {
        return;
      }
      var lists := ui.unitLists.value;
      ghost var order := SearchOrder(ui);
      ghost var done := 0;
      var i := 0;
      while i < UnitListCount
        invariant 0 <= i <= UnitListCount
        invariant done == |SearchPrefix(lists, i)| <= |order|
        invariant forall m | 0 <= m < done :: !Answers(ui, order[m], address)
        invariant Valid() && Keeps(old(searchResults), old(countdown), old(scrolled))
        invariant selectedAddonName == old(selectedAddonName) && index == old(index) && active == old(active)
      {
        ListInOrder(lists, i);
        var hit;
        ghost var at;
        hit, at := SearchList(ui, address, HitTest.Live(lists[i]), order, done);
        if hit {
          HitAt(ui, address, at, order[at]);
          return;
        }
        done := done + |HitTest.Live(lists[i])|;
        i := i + 1;
      }
      NoHit(ui, address);
    }

    /** A click on a listed node: closes the overlay, selects the addon and highlights the node's parent chain. */
    method Select(ui: Ui, addon: Addr, node: Addr)
      requires Valid() && HitTest.ValidUi(ui) && addon in ui.addons && node in ui.heap.nodes
      modifies this
      ensures Valid()
      ensures !active && selectedAddonName == Some(ui.addons[addon].name)
      ensures Highlights(ParentChain(ui.heap, node))
      ensures index == old(index)
    {
      active := false;
      selectedAddonName := Some(ui.addons[addon].name);
      searchResults := ParentChain(ui.heap, node);
      countdown := HighlightFrames;
      scrolled := false;
    }

    /** The wheel moves the selection, which is then wrapped into `0 .. count - 1`; with nothing listed it stays. */
    method ScrollSelection(count: nat, wheel: real)
      requires Valid()
      modifies this
      ensures Valid()
      ensures index == Scrolled(old(index), wheel, count)
      ensures active == old(active) && searchResults == old(searchResults) && countdown == old(countdown)
      ensures scrolled == old(scrolled) && selectedAddonName == old(selectedAddonName)
    {
      if count != 0 {
        index := Wrap(index - Casts.Truncate(wheel), count);
      }
    }

    /**
      One frame of the overlay.  Escape closes it.  Otherwise the nodes under the
      mouse are listed; a click selects the node at `index`, recording its parent
      chain and its addon; the wheel then moves `index`, wrapped into the list.
    */
    method DrawSelectorFrame(ui: Ui, pos: HitTest.Point, inBounds: Addr -> bool, options: seq<nat>,
                             escape: bool, click: bool, wheel: real)
      requires Valid() && HitTest.ValidUi(ui) && HitTest.HitSafe(ui.heap, inBounds)
      requires ui.unitLists.Some? ==> forall i | 0 <= i < |options| :: options[i] < |ui.unitLists.value|
      modifies this
      ensures Valid()
      ensures escape ==>
        && !active && index == old(index) && searchResults == old(searchResults)
        && countdown == old(countdown) && scrolled == old(scrolled) && selectedAddonName == old(selectedAddonName)
      ensures !escape ==>
        var listed := Listed(ui, pos, inBounds, options);
        && index == Scrolled(old(index), wheel, |listed|)
        && (click && old(index) < |listed| ==>
              && !active && selectedAddonName == Some(ui.addons[listed[old(index)].0].name)
              && Highlights(ParentChain(ui.heap, listed[old(index)].1)))
        && (!(click && old(index) < |listed|) ==>
              && active == old(active) && searchResults == old(searchResults) && countdown == old(countdown)
              && scrolled == old(scrolled) && selectedAddonName == old(selectedAddonName))
    {
      if escape {
        active := false;
        return;
      }
      var addonResults := HitTest.GetAtkUnitBaseAtPosition(ui, pos, inBounds, options);
      var listed := Flatten(addonResults);
      assert listed == Listed(ui, pos, inBounds, options);
      if click && index < |listed| {
        Select(ui, listed[index].0, listed[index].1);
      }
      ScrollSelection(|listed|, wheel);
    }
  }

  /** Unit list `i` sits in the search order right after the lists before it. */
  lemma ListInOrder(lists: seq<UnitList>, i: nat)
    requires i < |lists|
    ensures |SearchPrefix(lists, i)| + |HitTest.Live(lists[i])| <= |SearchPrefix(lists, |lists|)|
    ensures forall j | 0 <= j < |HitTest.Live(lists[i])| ::
      SearchPrefix(lists, |lists|)[|SearchPrefix(lists, i)| + j] == HitTest.Live(lists[i])[j]
  {
    var pre, live, all := SearchPrefix(lists, i), HitTest.Live(lists[i]), SearchPrefix(lists, |lists|);
    PrefixMono(lists, i + 1, |lists|);
    assert pre + live <= all;
    forall j | 0 <= j < |live| ensures all[|pre| + j] == live[j] {
      assert (pre + live)[|pre| + j] == live[j];
    }
  }

  /** A shorter prefix of the search order is a prefix of a longer one. */
  lemma {:induction false} PrefixMono(lists: seq<UnitList>, n: nat, m: nat)
    requires n <= m <= |lists|
    ensures SearchPrefix(lists, n) <= SearchPrefix(lists, m)
    decreases m
  {
    if n < m {
      PrefixMono(lists, n, m - 1);
    }
  }
}
