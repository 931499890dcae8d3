# UiDebug2 inspector core, modelled in Dafny

UiDebug2 is an in-game UI inspector. It browses the game's tree of UI nodes
(`AtkResNode`), lets the user pick an element under the mouse or search for an
address, and edits node fields in place. This project models the logic under
its drawing calls:

- **Element selector** (`AddressSearch`, `HitTest`, `Selector`).
  - `FindByAddress` is a depth-first search. It returns the path from the
    matching node up to the node the search started from, and it goes through
    component inner trees.
  - `PerformSearch` visits the first 18 unit lists in order.
  - The hit test keeps visible addons whose root box holds the mouse. It lists
    the nodes under the mouse, each hit component's nested hits right before
    the component, and reverses only the top level. It then sorts the addons
    stably by area.
  - The selection state is a class: the wrapped selection index, the
    highlighted parent chain, the 100-frame countdown and the selected addon.
- **Node views** (`NodeTrees`, `ComponentTree`).
  - The view factory picks a view variant from the type code (a component view
    above 1000) and keeps a per-addon cache keyed by node address.
  - Children are counted and printed along the `PrevSiblingNode` chain.
  - Other parts: the heading text, the highlight and force-open decision, the
    `Visible` toggle, the popout window and the `Inc.Selected` button of list
    components.
- **Editor** (`Editor`).
  - The rows each view offers and what each edit writes: the `ushort`,
    `short` and `byte` casts, the part-id clamp, the nine-grid offset clamps
    and the text alignment split.
  - `DrawFlags |= 0xD` after layout edits.
  - The loop that normalises the rotation read-out.
  - A write-back that keeps the heap walkable.
- **Textures** (`Textures`, `NineGrid`).
  - The `TextureData` constructor and hi-res detection.
  - Hi-res doubling of part rectangles, the outline order of `DrawFullTexture`
    and the parts table.
  - The nine-grid interior rectangles and the `NineGridOffsets` value type.
- **Timeline column** (`Timeline`): `KeyGroupColumn<T>`, an append-only column
  with a bounds-checked read.

Game memory is a value `Heap` (`Heap.dfy`). It maps addresses to node and
component records, and address 0 is null. A heap is `Valid` when every pointer
leads to a record and child, sibling, component and parent links go strictly
down a rank, so every walk terminates. Memory the inspector writes to is the
`GameMemory` class. `NodeBounds.ContainsPoint` has no source here, so it is a
parameter `inBounds`. Clicks, the mouse wheel, hover tests and Escape are
parameters too. Integer widths are written out (`Casts.dfy`):

- an integer cast to `ushort`, `short` or `byte` keeps the low bits;
- a float cast to `ushort` or `short` is stated only for values in range
  (`Editor.SizeValue`, `Editor.OffsetValue`), because C# leaves the result of
  an out-of-range float cast unspecified; the model's wrap there is a choice;
- `Width * Height` in `AddonResult.Area` is a C# `int` product and wraps at
  32 bits.

Floats are modelled as exact reals.

The numeric values of the game library's enums do not appear in the source.
The model uses these values of that library:

- `NodeType`: Res 1, Image 2, Text 3, NineGrid 4, Counter 5, Collision 8,
  ClippingMask 10;
- `ComponentType`: TextInput 7, List 9, TreeList 12;
- `TextureType`: Resource 1, KernelTexture 3;
- `NodeFlags.Visible`: 0x10.

`AlignmentType` is taken to be byte-sized.

Some rules differ between parts of the source, and the model keeps each one as
written:

- The hit test and the address search treat `Type >= 1000` as a component, but
  the view factory needs `> 1000` (`NodeTrees.ComponentThresholds`).
- `TextureData` falls back to part 0 for an out-of-range part id. The editor
  clamps to the last part instead.

## Model

Paths are relative to the repository root.

| member | source | states |
|---|---|---|
| Casts.ToUShort | UiDebug2Plugin/UiDebug2/Browsing/NodeTree.Editor.cs:71-72 | `(ushort)v`: in 0..65535, equal to v when v fits, and congruent to v modulo 2^16 |
| Casts.ToByte | UiDebug2Plugin/UiDebug2/Browsing/NodeTree.Editor.cs:319-322 | `(byte)v`: in 0..255, equal to v when v fits, and congruent to v modulo 256 |
| Casts.ToShort | UiDebug2Plugin/UiDebug2/Browsing/NodeTree.Editor.cs:167-169 | `(short)v`: in -32768..32767, equal to v when v fits, and congruent to v modulo 2^16 |
| Casts.ToInt32 | UiDebug2Plugin/UiDebug2/ElementSelector.cs:402 | unchecked `int` arithmetic: the result is in int range, equal to v when v fits, and congruent modulo 2^32 |
| Casts.Truncate | UiDebug2Plugin/UiDebug2/Browsing/NodeTree.NineGrid.Offsets.cs:26-29 | `(int)x` rounds toward zero: the result is within 1 of x, on the side of zero |
| Format.IntText | UiDebug2Plugin/UiDebug2/Browsing/NodeTree.Image.cs:176 | decimal rendering: non-empty, and for a non-negative value a numeral that parses back to it |
| Format.Hex | UiDebug2Plugin/UiDebug2/Browsing/NodeTree.Res.cs:121 | `:X` rendering of an address: a hex numeral that parses back to the address |
| Format.PadZeros | UiDebug2Plugin/UiDebug2/Browsing/NodeTree.Image.cs:176 | `PadLeft(width, '0')`: the length is max(len, width) and the original text is kept at the end |
| Format.ParseLeadingZeros | UiDebug2Plugin/UiDebug2/Browsing/NodeTree.Image.cs:176 | leading zeros do not change the value a numeral parses to |
| Format.SuffixCarriesCount | UiDebug2Plugin/UiDebug2/Browsing/NodeTree.Res.cs:121 | the ` [+n]` suffix is non-empty exactly when n > 0, and then reads back as n |
| Heap.SiblingChain | UiDebug2Plugin/UiDebug2/Browsing/NodeTree.Res.cs:133-141 | the `PrevSiblingNode` chain from a node until null: every entry is a node no higher than the first one |
| Heap.ParentChain | UiDebug2Plugin/UiDebug2/ElementSelector.cs:144-151 | `[node, parent, ..., root]`: it starts at the node, each entry is the parent of the one before, and it ends at a node without a parent |
| Heap.InnerRoot | UiDebug2Plugin/UiDebug2/ElementSelector.cs:308-320 | the inner root of a component node: null or a node strictly lower in the heap |
| AddressSearch.FindPath | UiDebug2Plugin/UiDebug2/ElementSelector.cs:294-341 | a null node gives no path; a node that is the address, or whose component is, gives `[node]`; any path found begins at the match, each later entry holds the one before it, and it ends on the start node's sibling chain |
| AddressSearch.FindPathComplete | UiDebug2Plugin/UiDebug2/ElementSelector.cs:294-341 | a path is found exactly when the address is in the search scope (node, component, inner tree, children, earlier siblings) |
| AddressSearch.SearchOrder | UiDebug2Plugin/UiDebug2/ElementSelector.cs:302-337 | the path ends at the start node exactly when the address is in the node's own part (itself, component, inner tree, children); only otherwise does the hit come through the previous sibling |
| AddressSearch.ExtendPath | UiDebug2Plugin/UiDebug2/ElementSelector.cs:320-331 | a hit in the inner tree or the children, with the node appended, is a path from the node |
| AddressSearch.SiblingPath | UiDebug2Plugin/UiDebug2/ElementSelector.cs:334-337 | the previous sibling's path, returned unchanged, is a path from the node |
| AddressSearch.NullNotInScope | UiDebug2Plugin/UiDebug2/ElementSelector.cs:296-300 | null is never in a search scope, so searching for address 0 finds nothing |
| HitTest.CompList | UiDebug2Plugin/UiDebug2/ElementSelector.cs:259-262 | a component's node list holds nodes strictly lower than the component node |
| HitTest.NodesAt | UiDebug2Plugin/UiDebug2/ElementSelector.cs:245-274 | every node reported is a node whose bounds contain the point |
| HitTest.NodeHits | UiDebug2Plugin/UiDebug2/ElementSelector.cs:250-265 | one entry contributes something exactly when its bounds contain the point, and then the entry comes last |
| HitTest.GetNodeAtPosition | UiDebug2Plugin/UiDebug2/ElementSelector.cs:245-274 | the loop returns `NodesAt`, reversed exactly when `reverse` is set; nested calls pass false |
| HitTest.HitsOf | UiDebug2Plugin/UiDebug2/ElementSelector.cs:250-265 | one iteration gives the entry's nested hits and then the entry |
| HitTest.NodesAtConcat | UiDebug2Plugin/UiDebug2/ElementSelector.cs:248-266 | the hits of a list are the hits of its parts, in order |
| HitTest.NestedBeforeComponent | UiDebug2Plugin/UiDebug2/ElementSelector.cs:259-265 | a hit component comes right after its own nested hits, between the hits of the entries before and after it |
| HitTest.TopLevelExact | UiDebug2Plugin/UiDebug2/ElementSelector.cs:254-265 | an entry of the list is reported exactly when its bounds contain the point |
| HitTest.Reverse | UiDebug2Plugin/UiDebug2/ElementSelector.cs:268-271 | `List.Reverse`: same length, element i is element n-1-i |
| HitTest.Live | UiDebug2Plugin/UiDebug2/ElementSelector.cs:199-203 | the entries `0 .. min(Count, Entries.Length) - 1` |
| HitTest.Area | UiDebug2Plugin/UiDebug2/ElementSelector.cs:397-403 | 0 without a root node; otherwise width times height (as a 32-bit int) times ScaleY times ScaleX |
| HitTest.StepOk | UiDebug2Plugin/UiDebug2/ElementSelector.cs:203-238 | one entry of the scan keeps the results exactly the eligible addons seen so far, each listed once |
| HitTest.AppendOk | UiDebug2Plugin/UiDebug2/ElementSelector.cs:215-238 | appending an eligible addon that is not yet listed keeps the scan invariant |
| HitTest.AppendGenuine | UiDebug2Plugin/UiDebug2/ElementSelector.cs:215-238 | after appending, every result is an eligible scanned addon with its own node hits and area |
| HitTest.AppendDistinct | UiDebug2Plugin/UiDebug2/ElementSelector.cs:215-220 | the `Contains` test (equality by addon pointer) keeps the addons distinct |
| HitTest.AppendListed | UiDebug2Plugin/UiDebug2/ElementSelector.cs:215-238 | after appending, every eligible scanned addon is listed |
| HitTest.ScanResults | UiDebug2Plugin/UiDebug2/ElementSelector.cs:195-240 | the scan lists exactly the eligible addons (non-null, rooted, visible, root box holding the point), each once, with its hits and area |
| HitTest.Insert | UiDebug2Plugin/UiDebug2/ElementSelector.cs:242 | insertion keeps the list sorted by area and adds exactly one element |
| HitTest.SortByArea | UiDebug2Plugin/UiDebug2/ElementSelector.cs:242 | `OrderBy(Area)`: sorted ascending and a permutation |
| HitTest.InsertStable | UiDebug2Plugin/UiDebug2/ElementSelector.cs:242 | insertion keeps the order among results of equal area |
| HitTest.SortStable | UiDebug2Plugin/UiDebug2/ElementSelector.cs:242 | the sort is stable: results of one area keep their scan order |
| HitTest.AddonsAtResults | UiDebug2Plugin/UiDebug2/ElementSelector.cs:186-243 | the result is sorted by area, empty without unit lists, and otherwise reports exactly the eligible addons of the listed unit lists |
| HitTest.SortKeepsReported | UiDebug2Plugin/UiDebug2/ElementSelector.cs:242 | sorting neither adds nor drops a reported addon |
| HitTest.AddonsAtNodes | UiDebug2Plugin/UiDebug2/ElementSelector.cs:186-243 | every reported addon is an addon and every reported node is a node |
| HitTest.MissEverywhere | UiDebug2Plugin/UiDebug2/ElementSelector.cs:222-235 | a point outside every root box hits nothing |
| HitTest.Visit | UiDebug2Plugin/UiDebug2/ElementSelector.cs:203-238 | the inner-loop body: null, rootless, invisible, already listed and missed addons are skipped, any other is appended |
| HitTest.GetAtkUnitBaseAtPosition | UiDebug2Plugin/UiDebug2/ElementSelector.cs:186-243 | the nested loops and the sort give `AddonsAt` |
| Selector.Tick | UiDebug2Plugin/UiDebug2/ElementSelector.cs:68-75 | a countdown of at least 1 drops by exactly 1; a positive one never drops below 0; an expired one stays put |
| Selector.CountdownExpires | UiDebug2Plugin/UiDebug2/ElementSelector.cs:68-75 | a countdown of c frames is 0 after c frames |
| Selector.CountdownStaysNonNegative | UiDebug2Plugin/UiDebug2/ElementSelector.cs:68-75 | a countdown never goes negative or up |
| Selector.Flatten | UiDebug2Plugin/UiDebug2/ElementSelector.cs:126-135 | one row per reported node: the row count is the sum of the addons' node counts |
| Selector.Tag | UiDebug2Plugin/UiDebug2/ElementSelector.cs:127-132 | each node of an addon is listed with that addon |
| Selector.FlattenFromUi | UiDebug2Plugin/UiDebug2/ElementSelector.cs:126-135 | every listed row pairs an addon with a node |
| Selector.Listed | UiDebug2Plugin/UiDebug2/ElementSelector.cs:115-135 | the overlay's rows under the mouse: every row pairs an addon of the UI with a node of its heap |
| Selector.AddonPath | UiDebug2Plugin/UiDebug2/ElementSelector.cs:276-292 | an addon without a root node gives no path |
| Selector.AddonPathIsPath | UiDebug2Plugin/UiDebug2/ElementSelector.cs:276-292 | a path found in an addon leads from the address to the root's sibling chain |
| Selector.FirstAnswer | UiDebug2Plugin/UiDebug2/ElementSelector.cs:379-386 | the first candidate that is the address or holds it: no earlier one does, and none does when there is none |
| Selector.FirstAnswerAt | UiDebug2Plugin/UiDebug2/ElementSelector.cs:379-386 | the first answering candidate is the one found |
| Selector.NoAnswer | UiDebug2Plugin/UiDebug2/ElementSelector.cs:379-386 | with no answering candidate nothing is found |
| Selector.SearchOrder | UiDebug2Plugin/UiDebug2/ElementSelector.cs:374-381 | every entry the search visits is an addon, since live entries are never null |
| Selector.PrefixMono | UiDebug2Plugin/UiDebug2/ElementSelector.cs:374-381 | the entries of fewer unit lists are a prefix of the entries of more |
| Selector.ListInOrder | UiDebug2Plugin/UiDebug2/ElementSelector.cs:374-381 | unit list i's live entries follow those of lists 0..i-1 in the search order |
| Selector.SearchHit | UiDebug2Plugin/UiDebug2/ElementSelector.cs:366-389 | the addon the search stops at is a visited addon that answers; with none, no visited addon answers |
| Selector.HitAt | UiDebug2Plugin/UiDebug2/ElementSelector.cs:379-386 | the search stops at the first answering addon |
| Selector.NoHit | UiDebug2Plugin/UiDebug2/ElementSelector.cs:366-389 | with no answering addon the search stops nowhere |
| Selector.Scrolled | UiDebug2Plugin/UiDebug2/ElementSelector.cs:167-179 | with rows listed, the index ends in 0..count-1, congruent to the old index minus the truncated wheel; with none it is unchanged |
| Selector.Wrap | UiDebug2Plugin/UiDebug2/ElementSelector.cs:170-178 | the two while loops give the index modulo the count |
| Selector.ElementSelector.constructor | UiDebug2Plugin/UiDebug2/ElementSelector.cs:35-48 | index 0, inactive, no highlight, countdown 0 |
| Selector.ElementSelector.Dispose | UiDebug2Plugin/UiDebug2/ElementSelector.cs:52-55 | deactivates and changes nothing else |
| Selector.ElementSelector.DrawInterface | UiDebug2Plugin/UiDebug2/ElementSelector.cs:57-96 | the button toggles the overlay, the countdown ticks and the index is kept; without an address or when nothing is found the highlight, `Scrolled` and the selected addon are kept; a found address is searched for with the effect of `PerformSearch` |
| Selector.ElementSelector.FindInAddon | UiDebug2Plugin/UiDebug2/ElementSelector.cs:276-292 | succeeds exactly when the addon's root leads to the address; on success the path is highlighted for 100 frames with `Scrolled` reset, on failure the highlight is untouched |
| Selector.ElementSelector.Probe | UiDebug2Plugin/UiDebug2/ElementSelector.cs:381-386 | one entry: a hit exactly when the addon is the address or holds it, and then the addon is selected |
| Selector.ElementSelector.SearchList | UiDebug2Plugin/UiDebug2/ElementSelector.cs:379-387 | the loop over one unit list stops at its first answering addon, and otherwise no entry of it answers and nothing changes |
| Selector.ElementSelector.PerformSearch | UiDebug2Plugin/UiDebug2/ElementSelector.cs:366-389 | the state after the search is that of stopping at `SearchHit`, or unchanged when there is none |
| Selector.ElementSelector.Select | UiDebug2Plugin/UiDebug2/ElementSelector.cs:138-156 | a click closes the overlay, selects the addon, and highlights `[node, parent, ..., root]` for 100 frames with `Scrolled` reset |
| Selector.ElementSelector.ScrollSelection | UiDebug2Plugin/UiDebug2/ElementSelector.cs:167-179 | the index becomes `Scrolled` of the old one and nothing else changes |
| Selector.ElementSelector.DrawSelectorFrame | UiDebug2Plugin/UiDebug2/ElementSelector.cs:98-184 | Escape only closes the overlay; otherwise a click on the selected row selects it, and the index is scrolled and wrapped over the rows listed |
| ComponentTree.TypeStringCarriesCount | UiDebug2Plugin/UiDebug2/Browsing/NodeTree.Component.cs:28-29 | the heading starts with the component type, and has the ` [+n]` suffix exactly when the nested list is non-empty; the suffix reads back as its length |
| ComponentTree.TypeFieldsFor | UiDebug2Plugin/UiDebug2/Browsing/NodeTree.Component.cs:235-272 | nothing for a null component; the input texts exactly for a text input; the `Inc.Selected` button exactly for lists and tree lists |
| ComponentTree.IncrementSelected | UiDebug2Plugin/UiDebug2/Browsing/NodeTree.Component.cs:266 | `SelectedItemIndex++`: one more unless at int max, always in int range, and no other field changes |
| ComponentTree.IncrementWraps | UiDebug2Plugin/UiDebug2/Browsing/NodeTree.Component.cs:266 | at int max the increment wraps to int min |
| ComponentTree.PrintFieldsForNodeType | UiDebug2Plugin/UiDebug2/Browsing/NodeTree.Component.cs:235-273 | pressing the button raises a list's selected index once; otherwise memory is unchanged |
| ComponentTree.ComponentDataDump | UiDebug2Plugin/UiDebug2/Browsing/NodeTree.Component.cs:139-145 | the data address is always printed, and the struct only when it is non-null |
| NodeTrees.Classify | UiDebug2Plugin/UiDebug2/Browsing/NodeTree.Res.cs:50-63 | a component view exactly for type codes above 1000 |
| NodeTrees.ClassifyByName | UiDebug2Plugin/UiDebug2/Browsing/NodeTree.Res.cs:54-63 | up to 1000, the variant named after the node type, and the plain view exactly when no variant is named after it |
| NodeTrees.ComponentThresholds | UiDebug2Plugin/UiDebug2/Browsing/NodeTree.Res.cs:52 | the factory's `> 1000` and the selector's `>= 1000` agree except at 1000, which the factory shows as a plain node |
| NodeTrees.HeaderCarriesCount | UiDebug2Plugin/UiDebug2/Browsing/NodeTree.Res.cs:118-122 | the heading is type, suffix and address; the ` [+n]` suffix is there exactly when n > 0 and reads back as n |
| NodeTrees.Decide | UiDebug2Plugin/UiDebug2/Browsing/NodeTree.Res.cs:91-101 | highlighted exactly when the node is the search target; forced open exactly when asked or when the node is on the search path |
| NodeTrees.ClickedPathOpens | UiDebug2Plugin/UiDebug2/ElementSelector.cs:144-155 | after a click only the clicked node is highlighted, and exactly the nodes of its parent chain open by themselves |
| NodeTrees.Unindexed | UiDebug2Plugin/UiDebug2/Browsing/NodeTree.Res.cs:138 | the children are printed in order without an index |
| NodeTrees.Numbered | UiDebug2Plugin/UiDebug2/Browsing/NodeTree.Res.cs:67-70 | entry j is printed with index j, for j in 0..count-1 |
| NodeTrees.ToggleVisible | UiDebug2Plugin/UiDebug2/Browsing/NodeTree.Res.cs:255-262 | the `Visible` bit is flipped and every other bit is kept |
| NodeTrees.ToggleTwice | UiDebug2Plugin/UiDebug2/Browsing/NodeTree.Res.cs:252-263 | pressing the button twice restores the flags |
| NodeTrees.PopoutWindow.constructor | UiDebug2Plugin/UiDebug2/Browsing/NodeTree.Res.cs:295 | a new popout has the given name and is open |
| NodeTrees.NodeView.constructor | UiDebug2Plugin/UiDebug2/Browsing/NodeTree.Res.cs:27-33 | the view registers itself under its node address; a component view has `NodeType` 0 |
| NodeTrees.NodeView.GetDirectChildCount | UiDebug2Plugin/UiDebug2/Browsing/NodeTree.Res.cs:147-163 | the loop counts exactly the direct children: `ChildNode` and its `PrevSiblingNode` chain |
| NodeTrees.NodeView.GetHeaderText | UiDebug2Plugin/UiDebug2/Browsing/NodeTree.Res.cs:118-122 | the heading with the child count the view counts |
| NodeTrees.NodeView.FieldNamePointers | UiDebug2Plugin/UiDebug2/Browsing/NodeTree.Component.cs:56-60 | field names are looked up for the node, and for a component view for its component too |
| NodeTrees.NodeView.Print | UiDebug2Plugin/UiDebug2/Browsing/NodeTree.Res.cs:91-101 | the decision is `Decide` on the search path; every node `Shown` below it, at any depth, gets a cached view; `Scrolled` is set exactly when the search target is among them, and no other selector state changes |
| NodeTrees.NodeView.PrintTree | UiDebug2Plugin/UiDebug2/Browsing/NodeTree.Res.cs:180-244 | open exactly when asked, when the node is on the search path or when the user left it open; an open tree prints all its children's subtrees, caching and scrolling as `Print` does |
| NodeTrees.NodeView.PrintChildNodes | UiDebug2Plugin/UiDebug2/Browsing/NodeTree.Component.cs:48-53 | the sibling chain unindexed, then for a component view its numbered nested list when opened; every node shown below, at any depth, gets a cached view and `Scrolled` is set exactly when the target was shown |
| NodeTrees.NodeView.TogglePopout | UiDebug2Plugin/UiDebug2/Browsing/NodeTree.Res.cs:287-298 | the first press creates, names and registers an open window; later presses only flip `IsOpen` |
| NodeTrees.NodeView.Dispose | UiDebug2Plugin/UiDebug2/Browsing/NodeTree.Res.cs:41-48 | the window is removed only if it exists and is registered |
| NodeTrees.NodeView.ToggleVisibility | UiDebug2Plugin/UiDebug2/Browsing/NodeTree.Res.cs:252-263 | only the node's `NodeFlags` change in memory, to `ToggleVisible` of the old flags |
| NodeTrees.GetOrCreate | UiDebug2Plugin/UiDebug2/Browsing/NodeTree.Res.cs:50-63 | a cached view is returned as is; otherwise a new view of the `Classify` variant is built and registered; a cache whose views fit their nodes still does |
| NodeTrees.CacheIdentity | UiDebug2Plugin/UiDebug2/Browsing/NodeTree.Res.cs:50-51 | two calls for one address return the same instance |
| NodeTrees.PrintOne | UiDebug2Plugin/UiDebug2/Browsing/NodeTree.Res.cs:69 | `GetOrCreate(node).Print(index)`: one entry; the node and everything its open tree shows are cached, and `Scrolled` is set if the target is among them |
| NodeTrees.PrintSiblings | UiDebug2Plugin/UiDebug2/Browsing/NodeTree.Res.cs:133-141 | the loop prints exactly the sibling chain, in order, without indices, each with its whole open subtree |
| NodeTrees.PrintNodeList | UiDebug2Plugin/UiDebug2/Browsing/NodeTree.Res.cs:65-71 | entries 0..count-1 with their index, each with its whole open subtree, or nothing for count <= 0 |
| NodeTrees.PrintNodeListAsTree | UiDebug2Plugin/UiDebug2/Browsing/NodeTree.Res.cs:73-89 | nothing, and no change, when count <= 0 or the tree is closed; otherwise what `PrintNodeList` prints and shows |
| NodeTrees.ChainIncludes | UiDebug2Plugin/UiDebug2/Browsing/NodeTree.Res.cs:133-141 | everything a node of the sibling chain shows, the printed chain shows too |
| NodeTrees.OpenShowsChildren | UiDebug2Plugin/UiDebug2/Browsing/NodeTree.Res.cs:207-235 | an open node shows everything each of its direct children shows |
| NodeTrees.PathReachesTarget | UiDebug2Plugin/UiDebug2/Browsing/NodeTree.Res.cs:91-101 | when each step of the search path goes from a child to its parent, printing any node of the path shows the target, so `Scrolled` gets set |
| Editor.MarkDirty | UiDebug2Plugin/UiDebug2/Browsing/NodeTree.Editor.cs:59 | `DrawFlags \|= 0xD`: the dirty bits are set and all others kept |
| Editor.MarkDirtyTwice | UiDebug2Plugin/UiDebug2/Browsing/NodeTree.Editor.cs:59 | marking twice is marking once |
| Editor.SizeValue | UiDebug2Plugin/UiDebug2/Browsing/NodeTree.Editor.cs:71-72 | values below 1 become 0; from 0 to 65535, the integer part of the value; always a `ushort` |
| Editor.OffsetValue | UiDebug2Plugin/UiDebug2/Browsing/NodeTree.Editor.cs:257-258 | values below 1 become 0; from 0 to 32767, the integer part of the value; always a `short` |
| Editor.UShortOfInt32 | UiDebug2Plugin/UiDebug2/Browsing/NodeTree.Editor.cs:233-236 | the `(int)` wrap before the `(ushort)` cast does not change the result |
| Editor.ClampPartId | UiDebug2Plugin/UiDebug2/Browsing/NodeTree.Editor.cs:224-237 | negative ids become 0, ids past the end the last part, in-range ids are kept; with no parts the result is 65535 |
| Editor.SplitAlignment | UiDebug2Plugin/UiDebug2/Browsing/NodeTree.Editor.cs:356-357 | h = a % 3 and v = (a - h) / 3, with v * 3 + h == a |
| Editor.InputAlignment | UiDebug2Plugin/UiDebug2/Browsing/NodeTree.Editor.cs:354-369 | rewritten exactly when a selector was clicked; each part is the clicked option or the old part; below 9 when the old value was or v was clicked |
| Editor.ReselectKeepsAlignment | UiDebug2Plugin/UiDebug2/Browsing/NodeTree.Editor.cs:354-369 | clicking the options an alignment already has writes it back unchanged |
| Editor.Normalised | UiDebug2Plugin/UiDebug2/Browsing/NodeTree.Editor.cs:111-114 | at most 180, above -180 when the input was, whole turns from the input, and unchanged when already at most 180 |
| Editor.RotationReadout | UiDebug2Plugin/UiDebug2/Browsing/NodeTree.Editor.cs:111-114 | the loop on degrees + 360 gives at most 180, and more than -180 whenever degrees > -540 |
| Editor.RotationExamples | UiDebug2Plugin/UiDebug2/Browsing/NodeTree.Editor.cs:111-114 | 190 degrees reads as -170 and -190 as 170 |
| Editor.Rows | UiDebug2Plugin/UiDebug2/Browsing/NodeTree.Editor.cs:187-352 | every view starts with the base rows; part id exactly for image, nine-grid and clipping-mask views; offsets only for nine-grid views; alignment only for text views |
| Editor.Apply | UiDebug2Plugin/UiDebug2/Browsing/NodeTree.Editor.cs:55-183 | layout edits OR 0xD into `DrawFlags`, other edits leave it; no edit touches links, type or `NodeFlags`; an unclicked alignment changes nothing; font size wraps modulo 256 |
| Editor.ApplyTwice | UiDebug2Plugin/UiDebug2/Browsing/NodeTree.Editor.cs:55-183 | repeating an edit changes nothing more (for alignment, starting from one of the nine named values) |
| Editor.AlignmentTwice | UiDebug2Plugin/UiDebug2/Browsing/NodeTree.Editor.cs:354-369 | repeating an alignment click is idempotent |
| Editor.KeepsValid | UiDebug2Plugin/UiDebug2/Browsing/NodeTree.Editor.cs:32-184 | rewriting one node with its links unchanged keeps the heap walkable |
| Editor.WriteBack | UiDebug2Plugin/UiDebug2/Browsing/NodeTree.Editor.cs:32-184 | only the edited node changes, to `Apply` of its old value, and the heap stays walkable |
| Textures.MakeTextureData | UiDebug2Plugin/UiDebug2/Browsing/NodeTree.Image.cs:230-263 | a part id past the end falls back to 0; no asset leaves everything empty; a resource texture has texture and path, a kernel texture only a texture, others neither; hi-res exactly when the path contains `_hr1` |
| Textures.PartRect | UiDebug2Plugin/UiDebug2/Browsing/NodeTree.Image.cs:81-89 | begin = origin + uv and end = begin + wh, both scaled by 2 exactly when hi-res |
| Textures.HiResDoubles | UiDebug2Plugin/UiDebug2/Browsing/NodeTree.Image.cs:83-86 | seen from the origin, a hi-res part rectangle is the standard one doubled |
| Textures.DrawPartOutline | UiDebug2Plugin/UiDebug2/Browsing/NodeTree.Image.cs:79-103 | with `reqHover` and no hover nothing is drawn; otherwise the part rectangle first and the cursor restored last |
| Textures.DrawFullTexture | UiDebug2Plugin/UiDebug2/Browsing/NodeTree.Image.cs:134-152 | every other part is outlined on hover only, in increasing order, and the current part last and unconditionally |
| Textures.RowLabelReadsBack | UiDebug2Plugin/UiDebug2/Browsing/NodeTree.Image.cs:176 | each row label is as wide as the part count, starts with `#`, and reads back as the row |
| Textures.PartsTableRowAsWritten | UiDebug2Plugin/UiDebug2/Browsing/NodeTree.Image.cs:185-213 | the row as written: "Standard" is half the texture-pixel rectangle whatever the texture |
| Textures.StandardLineHalved | UiDebug2Plugin/UiDebug2/Browsing/NodeTree.Image.cs:201 | a standard texture's part at u = 10 shows "Standard" u = 5 |
| Textures.UvLineUsesWidth | UiDebug2Plugin/UiDebug2/Browsing/NodeTree.Image.cs:213 | on a 32 x 64 texture a part inside it at v = 48 shows UV v = 1.5 |
| Textures.PartsTableRow | UiDebug2Plugin/UiDebug2/Browsing/NodeTree.Image.cs:185-213 | "Standard" is the stored rectangle, "Hi-Res" twice that, UV the texture-pixel rectangle over the texture size per axis; the current part is marked |
| Textures.RowAgreesOnSquareHiRes | UiDebug2Plugin/UiDebug2/Browsing/NodeTree.Image.cs:185-213 | on a square hi-res texture the corrected row equals the row as written |
| Textures.UvInUnitSquare | UiDebug2Plugin/UiDebug2/Browsing/NodeTree.Image.cs:193 | a part inside the texture has every UV coordinate in [0, 1] |
| Textures.NextRowAsWritten | UiDebug2Plugin/UiDebug2/Browsing/NodeTree.Image.cs:167 | the `ushort` row counter after `i++` is in 0..65535 |
| Textures.RowCounterNeverExits | UiDebug2Plugin/UiDebug2/Browsing/NodeTree.Image.cs:167 | with more than 65535 parts the loop test never fails |
| Textures.PrintPartsTable | UiDebug2Plugin/UiDebug2/Browsing/NodeTree.Image.cs:154-217 | one row per part, in index order, each the corrected `PartsTableRow` |
| Textures.TextureSectionOf | UiDebug2Plugin/UiDebug2/Browsing/NodeTree.Image.cs:32-77 | nothing without a texture; with one, only the "Texture" tree node while it is collapsed; expanded, type, part id and count, the path exactly when there is one, and the parts table exactly for style 1 |
| Textures.DisplayStyle.constructor | UiDebug2Plugin/UiDebug2/Browsing/NodeTree.Editor.cs:210 | the style starts at 0 |
| Textures.DisplayStyle.Choose | UiDebug2Plugin/UiDebug2/Browsing/NodeTree.Image.cs:53-62 | "Parts List" selects 1, else "Full Image" selects 0, else the style is kept |
| NineGrid.MakeOffsets | UiDebug2Plugin/UiDebug2/Browsing/NodeTree.NineGrid.Offsets.cs:18-24 | arguments in the order top, right, bottom, left, each stored in its namesake field |
| NineGrid.FromNode | UiDebug2Plugin/UiDebug2/Browsing/NodeTree.NineGrid.Offsets.cs:31-34 | each offset comes from the node's namesake field |
| NineGrid.FromVector4 | UiDebug2Plugin/UiDebug2/Browsing/NodeTree.NineGrid.Offsets.cs:26-29 | (X, Y, Z, W) truncated become (top, right, bottom, left) |
| NineGrid.VectorRoundTrip | UiDebug2Plugin/UiDebug2/Browsing/NodeTree.NineGrid.Offsets.cs:36-38 | converting to `Vector4` (`NineGrid.ToVector4`, Top, Right, Bottom, Left as X, Y, Z, W) and back is the identity |
| NineGrid.ScaleByFactor | UiDebug2Plugin/UiDebug2/Browsing/NodeTree.NineGrid.Offsets.cs:40-42 | `a * n` (`NineGrid.ScaleRight`, defined as `n * a`): scaling by 1 is the identity and by 2 doubles every offset exactly |
| NineGrid.ScaleWhole | UiDebug2Plugin/UiDebug2/Browsing/NodeTree.NineGrid.Offsets.cs:40 | scaling by any whole number k multiplies each of the four offsets by k exactly, with nothing lost to the float conversion and truncation |
| NineGrid.PrintPairs | UiDebug2Plugin/UiDebug2/Browsing/NodeTree.NineGrid.Offsets.cs:44 | four pairs, named Top, Bottom, Left, Right in that order |
| NineGrid.PrintedValuesReadBack | UiDebug2Plugin/UiDebug2/Browsing/NodeTree.NineGrid.Offsets.cs:44 | each printed value reads back as the offset named beside it |
| NineGrid.Interiors | UiDebug2Plugin/UiDebug2/Browsing/NodeTree.NineGrid.cs:46-50 | the first rectangle keeps the part's Y range and is cut in by left and right; the second keeps X and is cut in by top and bottom |
| NineGrid.InteriorsShrink | UiDebug2Plugin/UiDebug2/Browsing/NodeTree.NineGrid.cs:45-50 | zero offsets give the part itself; a positive offset moves its side strictly inwards |
| NineGrid.DrawPartOutline | UiDebug2Plugin/UiDebug2/Browsing/NodeTree.NineGrid.cs:30-64 | the cursor is restored in every case; only it when `reqHover` and not hovering; otherwise the part rectangle and the two interiors of the scaled offsets first |
| NineGrid.HiResOffsetsDouble | UiDebug2Plugin/UiDebug2/Browsing/NodeTree.NineGrid.cs:45 | on a hi-res texture the interiors are cut in by twice the stored offsets |
| NineGrid.PrintFieldsForNodeType | UiDebug2Plugin/UiDebug2/Browsing/NodeTree.NineGrid.cs:70-80 | the offsets are printed exactly when the editor is closed; the texture section always follows |
| Timeline.CellAt | UiDebug2Plugin/UiDebug2/Browsing/TimelineTree.KeyGroupColumn.cs:49-59 | the placeholder exactly past the last value; otherwise that value through the column's printer |
| Timeline.AppendFillsNextRow | UiDebug2Plugin/UiDebug2/Browsing/TimelineTree.KeyGroupColumn.cs:46-59 | after `Add` the first empty row shows the new value and every other row is unchanged |
| Timeline.KeyGroupColumn.constructor | UiDebug2Plugin/UiDebug2/Browsing/TimelineTree.KeyGroupColumn.cs:27-33 | empty, width 50, the given name, and `PlainTextCell` unless a printer is given |
| Timeline.KeyGroupColumn.Count | UiDebug2Plugin/UiDebug2/Browsing/TimelineTree.KeyGroupColumn.cs:42 | the number of values |
| Timeline.KeyGroupColumn.Add | UiDebug2Plugin/UiDebug2/Browsing/TimelineTree.KeyGroupColumn.cs:46 | the value goes at the end; name and printer are unchanged |
| Timeline.KeyGroupColumn.PrintValueAt | UiDebug2Plugin/UiDebug2/Browsing/TimelineTree.KeyGroupColumn.cs:49-59 | `CellAt` of the values: the value through the printer exactly when `Count > i`, else `...` |

## Left out

- All ImGui drawing: tables, tooltips, colours, the highlight rectangle, `ShowStruct` and the `ShowStruct` switches of the component view. Drawing is modelled only as the entries printed, the outline operations issued and the decisions made.
- `NodeBounds`: its source is not part of this model, so `ContainsPoint` is a parameter and the hover highlight of the editor rows is left out.
- Parsing the address text (`nint.TryParse` as hex): `DrawInterface` takes the parsed address as an `Option`.
- `GetUnitListBaseAddr`, `AddonTree.GetOrCreate` and the popout windows' own drawing are not part of this model. The unit lists are an `Option` in the `Ui` value.
- `PrintNodeHeaderOnly` is left out. Besides its heading it looks up the addon's tree and the node's view with `GetOrCreate`, creating and caching them when missing; `NodeTrees.GetOrCreate` models that view lookup, but the heading call and the addon lookup are not modelled.
- Floating-point colour math is left out: the RGBA, multiply and add pickers and their conversions. The colour edits carry the integer each channel is cast from.
- The radian conversion of the rotation is left out; rotation is kept in degrees.
- Float precision is not modelled: reals are exact, so `(int)` of a float is truncation of the exact value.
- The text view's `SetText`, the font combo, the counter text, and the text and edge colour edits are left out. They take strings and game-library calls the model cannot see; `Editor.Rows` still lists their rows.
- `AddonTree.FieldNames`, `NodeTree.Text.cs`, the counter, collision and clipping-mask views' `ShowStruct` wrappers, events and timelines other than `KeyGroupColumn` are not part of this model.
- Concurrent change of game memory by the game is left out: each call sees a fixed heap.
- The 18 unit lists the search walks must have no null live entry: `FindByAddress(addon, …)` dereferences every entry, so this is a precondition (`SearchableUi`) rather than an error path.
- HitTest.HitSafe: a hit component node with a null `Component` is not modelled. The recursion dereferences `Component->UldManager` at `ElementSelector.cs:259-262`, which throws a `NullReferenceException` that nothing in this code catches, so the null component is excluded by this precondition rather than modelled as an error path.
- NodeTrees.Creatable: a component view of a node with a null `Component` is not modelled. The `ComponentNodeTree` constructor reads through the component pointer (`NodeTree.Component.cs:24-26`) and throws a `NullReferenceException`. By then the base constructor (`NodeTree.Res.cs:32`) has already cached the half-built view, and when the view is built while a parent prints its children, the parent tree's catch shows the exception inline. The null component is excluded by this precondition rather than modelled as that error path.
- NodeTrees.NodeView.Print: which trees the user left open is not visible in memory; it is the parameter `OpenState` (one flag per node address, one per component node list), and the image view's "Texture" tree node is the `treeOpen` parameter of `Textures.TextureSectionOf`. The cache is assumed to hold only views of the variant the node's current type code selects (`AddonTree.Fits`); a view cached from an earlier heap in which the node had another type is not modelled. The tree's open state is keyed by the node's address, so one address shares one open state wherever it is printed; the source's tree node is keyed by its ID-stack position (`###{address}nodeTree` at `NodeTree.Res.cs:195` under the current ID stack, the node list's `##{list}` at `NodeTree.Res.cs:81`), so a node printed both in a component's node list and under its parent can be open in one place and closed in the other, which the model cannot represent.
- NodeTrees.NodeView.PrintTree: the `try`/`catch` of `NodeTree.Res.cs:209-240` is not modelled. In the source, an exception thrown while an open tree is printed shows "Couldn't display node!" with the exception text in place of the rest of that tree: the node's remaining fields and children are skipped, so a search target below it is not shown and `Scrolled` is not set, while the node's siblings are still printed. The model has no failing reads: every open tree prints all of its children.
- A single `partId` field stands for the part id of image, nine-grid and clipping-mask nodes. The `PartId`/`PartsList` overrides of the nine-grid view are therefore the node's own fields.
- `TextureData` reads `PartCount` before its null check on `PartsList` and reads `Parts[partId]` even when the count is 0. So `Textures.MakeTextureData` requires a readable parts list, and that null guard is unreachable.
- `Textures.PrintPartsTable` requires a texture of positive width and height. The source's `u / tWidth` is a float division that prints Infinity or NaN for a zero-size texture; the model excludes that case because its real division needs a non-zero divisor.
- Editor.Apply: states the dirty marking, the untouched links, the font-size wrap and the part-id range. The value every other row writes is given by its definition through `SizeValue`, `OffsetValue`, `ClampPartId` and `InputAlignment`, whose own contracts state the clamps.
- Editor.ApplyTwice: idempotence of an alignment click is proved only from one of the nine named alignments; a byte past 8 can wrap to a different value.
- NineGrid.ScaleLeft: has no contract of its own. Its meaning is stated for every whole factor in `NineGrid.ScaleWhole` (and for 1 and 2 in `NineGrid.ScaleByFactor`); a fractional factor is only defined, by truncation of the exact product.
- HitTest.Area: gives the exact value only when width times height fits in an `int`; past that the product wraps.
- Timeline.KeyGroupColumn.PrintValueAt: requires i >= 0, because a negative i passes the `Count > i` test and then throws in the list indexer.
- Selector.ElementSelector.DrawInterface: `countdown`, `searchResults` and `scrolled` are stated as kept only for the no-address and not-found cases; a hit is stated through `Found`.

## Findings

| source | as written | input that shows it | evidently intended | confidence | as-written member | corrected member |
|---|---|---|---|---|---|---|
| UiDebug2Plugin/UiDebug2/Browsing/NodeTree.Image.cs:201 | the "Standard" line prints u/2, v/2, width/2, height/2 whether or not the texture is hi-res | a standard texture with a part at U = 10 shows "Standard: 5" | halve only the hi-res values, so "Standard" shows the stored rectangle | not executed | Textures.PartsTableRowAsWritten, Textures.StandardLineHalved | Textures.PartsTableRow |
| UiDebug2Plugin/UiDebug2/Browsing/NodeTree.Image.cs:213 | the UV line divides v by the texture width | a 32 x 64 texture with a part at V = 48 shows UV v = 1.5 | divide v by the height, as the image call at line 193 does | not executed | Textures.UvLineUsesWidth | Textures.UvInUnitSquare |
| UiDebug2Plugin/UiDebug2/Browsing/NodeTree.Image.cs:167 | the row counter is a `ushort` compared with the `uint` `PartCount` | `PartCount` = 65536: the counter wraps from 65535 to 0 and the loop never ends | a counter as wide as the count | not executed | Textures.RowCounterNeverExits | Textures.PrintPartsTable |
