/**
  What the view of a component node adds to a plain node view: its heading
  (`TypeString`), the type-specific fields it shows, the `Inc.Selected` button
  of list components and the gating of the component-data dump.
*/
module ComponentTree {
  import opened Heap
  import Casts
  import Format

  /** Names of the `ComponentType` values 0..25, in order. */
  const ComponentTypeNames: seq<string> := [
    "Base", "Button", "Window", "CheckBox", "RadioButton", "GaugeBar", "Slider",
    "TextInput", "NumericInput", "List", "DropDownList", "Tab", "TreeList",
    "ScrollBar", "ListItemRenderer", "Icon", "IconText", "DragDrop",
    "GuildLeveCard", "TextNineGrid", "JournalCanvas", "Multipurpose", "Map",
    "Preview", "HoldButton", "Portrait"]

  /** `{componentType}`: the enum name, or the number for a value the enum does not name. */
  function ComponentTypeName(componentType: int): string {
    if 0 <= componentType < |ComponentTypeNames| then ComponentTypeNames[componentType]
    else Format.IntText(componentType)
  }

  /** The fixed part of a component heading, before the count suffix. */
  function TypeStringHead(componentType: int): string {
    ComponentTypeName(componentType) + " Component Node"
  }

  /** `TypeString`: the component's type, then ` [+n]` for a nested node list of n > 0 entries. */
  function TypeString(componentType: int, nodeListCount: int): string {
    TypeStringHead(componentType) + Format.CountSuffix(nodeListCount)
  }

  /**
    The heading starts with the component type; whatever follows is present
    exactly when the nested list is non-empty, and reads back as its length.
  */
  lemma TypeStringCarriesCount(componentType: int, nodeListCount: int)
    ensures var head, s := TypeStringHead(componentType), TypeString(componentType, nodeListCount);
      && |head| <= |s| && s[..|head|] == head
      && (|s| > |head| <==> nodeListCount > 0)
      && Format.SuffixCount(s[|head|..]) == if nodeListCount > 0 then nodeListCount else 0
  {
    var head, s := TypeStringHead(componentType), TypeString(componentType, nodeListCount);
    assert s[|head|..] == Format.CountSuffix(nodeListCount);
    Format.SuffixCarriesCount(nodeListCount);
  }

  /** The type-specific section of a component view. */
  datatype TypeFields = NoTypeFields | InputTexts | IncSelectedButton

  /**
    `PrintFieldsForNodeType`: nothing for a null component; the seven input
    strings for a text input; the `Inc.Selected` button for lists and tree
    lists; nothing for any other type.
  */
  function TypeFieldsFor(component: Addr, componentType: int): (f: TypeFields)
    ensures component == Null ==> f == NoTypeFields
    ensures f == InputTexts <==> component != Null && componentType == TextInputComponent
    ensures f == IncSelectedButton <==>
      component != Null && (componentType == ListComponent || componentType == TreeListComponent)
  {
    if component == Null then NoTypeFields
    else if componentType == TextInputComponent then InputTexts
    else if componentType == ListComponent || componentType == TreeListComponent then IncSelectedButton
    else NoTypeFields
  }

  /** `SelectedItemIndex++` on a list component: 32-bit signed arithmetic. */
  function IncrementSelected(c: Comp): (r: Comp)
    ensures -0x8000_0000 <= c.selectedItemIndex < 0x7FFF_FFFF ==> r.selectedItemIndex == c.selectedItemIndex + 1
    ensures -0x8000_0000 <= r.selectedItemIndex <= 0x7FFF_FFFF
    ensures r.(selectedItemIndex := c.selectedItemIndex) == c
  {
    c.(selectedItemIndex := Casts.ToInt32(c.selectedItemIndex + 1))
  }

  /** At the top of the `int` range the increment wraps to the bottom. */
  lemma IncrementWraps(c: Comp)
    requires c.selectedItemIndex == 0x7FFF_FFFF
    ensures IncrementSelected(c).selectedItemIndex == -0x8000_0000
  {
  }

  /**
    `PrintFieldsForNodeType` of a component view with the `Inc.Selected`
    button pressed or not: only a list or tree list gains one selected index;
    every other component and all other memory stay as they were.
  */
  method PrintFieldsForNodeType(mem: GameMemory, component: Addr, componentType: int, pressed: bool)
    requires component != Null ==> component in mem.heap.comps
    modifies mem
    ensures TypeFieldsFor(component, componentType) == IncSelectedButton && pressed ==>
      mem.heap == old(mem.heap).(comps := old(mem.heap.comps)[component := IncrementSelected(old(mem.heap.comps[component]))])
    ensures TypeFieldsFor(component, componentType) != IncSelectedButton || !pressed ==>
      mem.heap == old(mem.heap)
  {
    if component == Null {
      return;
    }
    if (componentType == ListComponent || componentType == TreeListComponent) && pressed {
      var h := mem.heap;
      mem.heap := h.(comps := h.comps[component := IncrementSelected(h.comps[component])]);
    }
  }

  /** What `PrintComponentDataObject` shows: the data address, and the data struct only when non-null. */
  datatype DataDump = DataDump(address: Addr, structShown: bool)

  function ComponentDataDump(c: Comp): (d: DataDump)
    ensures d.address == c.componentData
    ensures d.structShown <==> c.componentData != Null
  {
    DataDump(c.componentData, c.componentData != Null)
  }
}
