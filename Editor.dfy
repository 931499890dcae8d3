/**
  The node editor (`DrawEditorRows` and its overrides): which rows each kind of
  node view offers, how an edited value is converted before it is written into
  the node, which edits mark the node's `DrawFlags` dirty, and the rotation
  read-out that normalises an angle into the range the drag control shows.

  An edit is the value one control hands back in a frame in which the user
  changed it; the colour pickers' float conversions are done by the caller and
  arrive here as the integer each channel is cast from.
*/
module Editor {
  import opened Heap
  import Casts
  import NodeTrees

  /** The bits `DrawEditorRows` ORs into `DrawFlags` after a layout edit. */
  const DirtyBits: bv32 := 0xD

  /** One of the three options of an alignment selector. */
  type Choice = i: int | 0 <= i < 3

  /** `DrawFlags |= 0xD`: the dirty bits are set and every other bit is kept. */
  function MarkDirty(flags: bv32): (r: bv32)
    ensures r & DirtyBits == DirtyBits
    ensures r & !DirtyBits == flags & !DirtyBits
  {
    flags | DirtyBits
  }

  // ---------------------------------------------------------------------------
  // Value conversions on write-back
  // ---------------------------------------------------------------------------

  /** `(ushort)Math.Max(v, 0)` for a width or height: negative drags become 0. */
  function SizeValue(v: real): (r: int)
    ensures 0 <= r < Casts.UShortRange
    ensures v < 1.0 ==> r == 0
    ensures 0.0 <= v < 65536.0 ==> r as real <= v < r as real + 1.0
  {
    Casts.ToUShort(Casts.Truncate(if v > 0.0 then v else 0.0))
  }

  /** `(short)Math.Max(0, v)` for a nine-grid offset: negative drags become 0. */
  function OffsetValue(v: real): (r: int)
    ensures -0x8000 <= r < 0x8000
    ensures v < 1.0 ==> r == 0
    ensures 0.0 <= v < 32768.0 ==> 0 <= r && r as real <= v < r as real + 1.0
  {
    Casts.ToShort(Casts.Truncate(if v > 0.0 then v else 0.0))
  }

  /** Wrapping a value by 2^32 does not change its low 16 bits. */
  lemma UShortOfInt32(x: int)
    ensures Casts.ToUShort(Casts.ToInt32(x)) == Casts.ToUShort(x)
  {
    var y := Casts.ToInt32(x);
    var q, r := x / Casts.UShortRange, x % Casts.UShortRange;
    if y != x {
      var k := (y - x) / Casts.Int32Range;
      assert y == x + k * Casts.Int32Range;
      assert y == (q + k * 0x1_0000) * Casts.UShortRange + r;
      Casts.ModUnique(y, Casts.UShortRange, q + k * 0x1_0000, r);
    }
  }

  /**
    The part-id input of image, nine-grid and clipping-mask views: a negative
    id becomes 0, an id at or past the part count becomes the last part, and
    the result is cast to `ushort`.  With no parts the last part is
    `(int)(0u - 1) == -1`, which the cast turns into 65535.
  */
  function ClampPartId(partId: int, partCount: Casts.UInt32): (r: int)
    ensures 0 <= r < Casts.UShortRange
    ensures 0 <= partId < partCount && partId < Casts.UShortRange ==> r == partId
    ensures partCount > 0 && partId < 0 ==> r == 0
    ensures partCount > 0 && partId >= partCount ==> r == Casts.ToUShort(partCount - 1)
    ensures 0 < partCount <= Casts.UShortRange ==> r < partCount
    ensures partCount == 0 ==> r == 0xFFFF
  {
    var p := if partId < 0 then 0 else partId;
    var p' := if p >= partCount then Casts.ToInt32(partCount - 1) else p;
    UShortOfInt32(partCount - 1);
    Casts.ToUShort(p')
  }

  // ---------------------------------------------------------------------------
  // Text alignment
  // ---------------------------------------------------------------------------

  /**
    `InputAlignment`'s reading of an `AlignmentType` (a byte): the horizontal
    part `a % 3` and the vertical part `(a - h) / 3`, which together give `a`
    back.  On non-negative operands C#'s `%` agrees with Dafny's.
  */
  function SplitAlignment(a: int): (hv: (int, int))
    requires 0 <= a < 0x100
    ensures 0 <= hv.0 < 3 && 0 <= hv.1 < 86
    ensures hv.1 * 3 + hv.0 == a
  {
    var h := a % 3;
    (h, (a - h) / 3)
  }

  /**
    `InputAlignment`: each selector reports the option the user clicked, if
    any.  The alignment is rewritten, as `v * 3 + h`, exactly when one of them
    was clicked; a selector that was not clicked keeps its part of the old
    value.
  */
  function InputAlignment(a: int, hClick: Option<Choice>, vClick: Option<Choice>): (r: Option<int>)
    requires 0 <= a < 0x100
    ensures r.None? <==> hClick.None? && vClick.None?
    ensures r.Some? ==> 0 <= r.value
    ensures r.Some? ==> r.value % 3 == (if hClick.Some? then hClick.value else a % 3)
    ensures r.Some? ==> r.value / 3 == (if vClick.Some? then vClick.value else a / 3)
    ensures r.Some? && (vClick.Some? || a < 9) ==> r.value < 9
  {
    var hv := SplitAlignment(a);
    var h := if hClick.Some? then hClick.value else hv.0;
    var v := if vClick.Some? then vClick.value else hv.1;
    if hClick.Some? || vClick.Some? then Some(v * 3 + h) else None
  }

  /** Clicking the options the alignment already has writes the same alignment back. */
  lemma {:induction false} ReselectKeepsAlignment(a: int)
    requires 0 <= a < 9
    ensures InputAlignment(a, Some(a % 3), Some(a / 3)) == Some(a)
  {
    var hv := SplitAlignment(a);
    assert hv.1 == a / 3;
  }

  // ---------------------------------------------------------------------------
  // Rotation read-out
  // ---------------------------------------------------------------------------

  /** How many times the read-out loop subtracts a full turn from `a`. */
  function Turns(a: real): nat
    decreases (a - 180.0).Floor
  {
    if a > 180.0 then 1 + Turns(a - 360.0) else 0
  }

  /**
    The angle the rotation control shows for `a = degrees + 360`: whole turns
    are taken off while the angle exceeds 180.  The result never exceeds 180,
    differs from `a` by whole turns, and lies in (-180, 180] whenever `a` was
    above -180; an angle already at most 180 is left alone.
  */
  function Normalised(a: real): (r: real)
    ensures r <= 180.0
    ensures a > -180.0 ==> -180.0 < r
    ensures a <= 180.0 ==> r == a
    ensures r + 360.0 * Turns(a) as real == a
    decreases (a - 180.0).Floor
  {
    if a > 180.0 then Normalised(a - 360.0) else a
  }

  /**
    The `while (angle > 180) angle -= 360;` loop of `DrawEditorRows`, applied
    to the node's rotation (in degrees) plus 360.
  */
  method RotationReadout(degrees: real) returns (angle: real)
    ensures angle == Normalised(degrees + 360.0)
    ensures angle <= 180.0
    ensures degrees > -540.0 ==> -180.0 < angle
  {
    angle := degrees + 360.0;
    while angle > 180.0
      invariant Normalised(angle) == Normalised(degrees + 360.0)
      decreases (angle - 180.0).Floor
    {
      angle := angle - 360.0;
    }
  }

  /** 190 degrees reads as -170, and -190 degrees as 170. */
  lemma RotationExamples()
    ensures Normalised(190.0 + 360.0) == -170.0
    ensures Normalised(-190.0 + 360.0) == 170.0
  {
    assert Normalised(550.0) == Normalised(190.0) == Normalised(-170.0);
  }

  // ---------------------------------------------------------------------------
  // Editor rows and the edits they make
  // ---------------------------------------------------------------------------

  /** The rows of the editor table, one per control. */
  datatype Row =
    | PositionRow | SizeRow | ScaleRow | OriginRow | RotationRow
    | RgbaRow | MultiplyRow | AddRow
    | CounterRow
    | PartIdRow
    | OffsetsLRRow | OffsetsTBRow
    | TextRow | FontRow | FontSizeRow | AlignmentRow | TextColorRow | EdgeColorRow

  /** The rows every node view starts with (`ResNodeTree.DrawEditorRows`). */
  const BaseRows: seq<Row> :=
    [PositionRow, SizeRow, ScaleRow, OriginRow, RotationRow, RgbaRow, MultiplyRow, AddRow]

  /**
    The rows of a view: the base rows, then those of each override in the
    class chain (image, then nine-grid; the clipping-mask view inherits the
    image rows; counter and text views add their own).
  */
  function Rows(kind: NodeTrees.ViewKind): (rows: seq<Row>)
    ensures |rows| >= |BaseRows| && rows[..|BaseRows|] == BaseRows
    ensures PartIdRow in rows <==> kind in {NodeTrees.ImageView, NodeTrees.NineGridView, NodeTrees.ClippingMaskView}
    ensures OffsetsLRRow in rows <==> kind == NodeTrees.NineGridView
    ensures AlignmentRow in rows <==> kind == NodeTrees.TextView
  {
    match kind
    case ImageView | ClippingMaskView => BaseRows + [PartIdRow]
    case NineGridView => BaseRows + [PartIdRow, OffsetsLRRow, OffsetsTBRow]
    case CounterView => BaseRows + [CounterRow]
    case TextView => BaseRows + [TextRow, FontRow, FontSizeRow, AlignmentRow, TextColorRow, EdgeColorRow]
    case _ => BaseRows
  }

  /** What one control hands back when the user changed it. */
  datatype Edit =
    | SetPosition(x: real, y: real)
    | SetSize(width: real, height: real)
    | SetScale(scaleX: real, scaleY: real)
    | SetOrigin(originX: real, originY: real)
    | SetRotation(degrees: real)
    | SetRgba(rgba: bv32)
    | SetMultiply(red: int, green: int, blue: int)
    | SetAdd(red: int, green: int, blue: int)
    | SetPartId(partId: int, partCount: Casts.UInt32)
    | SetOffsetsLR(left: real, right: real)
    | SetOffsetsTB(top: real, bottom: real)
    | SetFontSize(fontSize: int)
    | SetAlignment(hClick: Option<Choice>, vClick: Option<Choice>)

  /** The row whose control produces the edit. */
  function RowOf(e: Edit): Row {
    match e
    case SetPosition(_, _) => PositionRow
    case SetSize(_, _) => SizeRow
    case SetScale(_, _) => ScaleRow
    case SetOrigin(_, _) => OriginRow
    case SetRotation(_) => RotationRow
    case SetRgba(_) => RgbaRow
    case SetMultiply(_, _, _) => MultiplyRow
    case SetAdd(_, _, _) => AddRow
    case SetPartId(_, _) => PartIdRow
    case SetOffsetsLR(_, _) => OffsetsLRRow
    case SetOffsetsTB(_, _) => OffsetsTBRow
    case SetFontSize(_) => FontSizeRow
    case SetAlignment(_, _) => AlignmentRow
  }

  /** Position, size, scale, origin and rotation: the edits that mark the node dirty. */
  predicate Layout(e: Edit) {
    e.SetPosition? || e.SetSize? || e.SetScale? || e.SetOrigin? || e.SetRotation?
  }

  /** The fields no editor row writes: the node's identity, type, links and flags. */
  predicate SameShape(n: Node, m: Node) {
    && m.typeCode == n.typeCode
    && m.nodeId == n.nodeId
    && m.child == n.child
    && m.prevSibling == n.prevSibling
    && m.parent == n.parent
    && m.nodeFlags == n.nodeFlags
    && m.component == n.component
  }

  /**
    The node after one edit.  Layout edits set their two fields (or the
    rotation) and mark the node dirty; colour, part, offset and text edits
    write their fields and leave `DrawFlags` alone; an alignment edit writes
    only when a selector was clicked.  No edit touches the node's links.
  */
  function Apply(n: Node, e: Edit): (r: Node)
    requires e.SetAlignment? ==> 0 <= n.alignment < 0x100
    ensures Layout(e) ==> r.drawFlags == MarkDirty(n.drawFlags)
    ensures !Layout(e) ==> r.drawFlags == n.drawFlags
    ensures SameShape(n, r)
    ensures e.SetAlignment? && e.hClick.None? && e.vClick.None? ==> r == n
    ensures e.SetFontSize? ==> 0 <= r.fontSize < 0x100 && (r.fontSize - e.fontSize) % 0x100 == 0
    ensures e.SetPartId? ==> 0 <= r.partId < Casts.UShortRange
  {
    match e
    case SetPosition(x, y) => n.(x := x, y := y, drawFlags := MarkDirty(n.drawFlags))
    case SetSize(w, h) => n.(width := SizeValue(w), height := SizeValue(h), drawFlags := MarkDirty(n.drawFlags))
    case SetScale(sx, sy) => n.(scaleX := sx, scaleY := sy, drawFlags := MarkDirty(n.drawFlags))
    case SetOrigin(ox, oy) => n.(originX := ox, originY := oy, drawFlags := MarkDirty(n.drawFlags))
    case SetRotation(d) => n.(rotation := d, drawFlags := MarkDirty(n.drawFlags))
    case SetRgba(c) => n.(color := c)
    case SetMultiply(r, g, b) =>
      n.(multiplyRed := Casts.ToByte(r), multiplyGreen := Casts.ToByte(g), multiplyBlue := Casts.ToByte(b))
    case SetAdd(r, g, b) =>
      n.(addRed := Casts.ToShort(r), addGreen := Casts.ToShort(g), addBlue := Casts.ToShort(b))
    case SetPartId(p, count) => n.(partId := ClampPartId(p, count))
    case SetOffsetsLR(l, r) => n.(leftOffset := OffsetValue(l), rightOffset := OffsetValue(r))
    case SetOffsetsTB(t, b) => n.(topOffset := OffsetValue(t), bottomOffset := OffsetValue(b))
    case SetFontSize(s) => n.(fontSize := Casts.ToByte(s))
    case SetAlignment(h, v) =>
      match InputAlignment(n.alignment, h, v)
      case None => n
      case Some(a) => n.(alignment := Casts.ToByte(a))
  }

  /**
    Making the same edit twice leaves the node as one edit did: every row
    writes absolute values and the dirty mark is an OR.  (For alignment this
    needs one of the nine named alignments; a byte past them can wrap.)
  */
  lemma {:induction false} ApplyTwice(n: Node, e: Edit)
    requires e.SetAlignment? ==> 0 <= n.alignment < 9
    ensures Apply(Apply(n, e), e) == Apply(n, e)
  {
    if Layout(e) {
      LayoutTwice(n, e);
    } else if e.SetAlignment? {
      AlignmentTwice(n, e.hClick, e.vClick);
    } else {
      FieldEditTwice(n, e);
    }
  }

  lemma LayoutTwice(n: Node, e: Edit)
    requires Layout(e)
    ensures Apply(Apply(n, e), e) == Apply(n, e)
  {
    var d := MarkDirty(n.drawFlags);
    MarkDirtyTwice(n.drawFlags);
    assert Apply(n, e).drawFlags == d;
  }

  /** Marking a node dirty a second time changes nothing. */
  lemma MarkDirtyTwice(flags: bv32)
    ensures MarkDirty(MarkDirty(flags)) == MarkDirty(flags)
  {
  }

  lemma FieldEditTwice(n: Node, e: Edit)
    requires !Layout(e) && !e.SetAlignment?
    ensures Apply(Apply(n, e), e) == Apply(n, e)
  {
  }

  lemma AlignmentTwice(n: Node, h: Option<Choice>, v: Option<Choice>)
    requires 0 <= n.alignment < 9
    ensures Apply(Apply(n, SetAlignment(h, v)), SetAlignment(h, v)) == Apply(n, SetAlignment(h, v))
  {
    var a := InputAlignment(n.alignment, h, v);
    if a.Some? {
      var m := Apply(n, SetAlignment(h, v));
      assert m.alignment == a.value < 9;
      assert InputAlignment(m.alignment, h, v) == a;
    }
  }

  /** Rewriting one node with the same links keeps every pointer closed. */
  lemma KeepsClosed(h: Heap, a: Addr, m: Node)
    requires Closed(h) && a in h.nodes && SameShape(h.nodes[a], m)
    ensures Closed(h.(nodes := h.nodes[a := m]))
  {
    var h' := h.(nodes := h.nodes[a := m]);
    forall b | b in h'.nodes ensures PointsInto(h', h'.nodes[b]) {
      assert PointsInto(h, h.nodes[b]);
    }
    forall c | c in h'.comps ensures CompPointsInto(h', h'.comps[c]) {
      assert CompPointsInto(h, h.comps[c]);
    }
  }

  /** Rewriting one node with the same links keeps a ranking of the heap. */
  lemma KeepsRanked(h: Heap, r: map<Addr, nat>, a: Addr, m: Node)
    requires Ranked(h, r) && a in h.nodes && SameShape(h.nodes[a], m)
    ensures Ranked(h.(nodes := h.nodes[a := m]), r)
  {
    var h' := h.(nodes := h.nodes[a := m]);
    forall b | b in h'.nodes
      ensures b in r && Below(r, h'.nodes[b].child, b) && Below(r, h'.nodes[b].prevSibling, b)
      ensures InnerBelow(h', r, b)
    {
      assert InnerBelow(h, r, b);
    }
  }

  /** Rewriting one node with the same links keeps the heap walkable. */
  lemma KeepsValid(h: Heap, a: Addr, m: Node)
    requires Valid(h) && a in h.nodes && SameShape(h.nodes[a], m)
    ensures Valid(h.(nodes := h.nodes[a := m]))
  {
    var h' := h.(nodes := h.nodes[a := m]);
    KeepsClosed(h, a, m);
    KeepsRanked(h, Rank(h), a, m);
    assert Rooted(h', Depth(h));
  }

  /**
    One edit written into game memory, from a row that the node's view shows:
    only the edited node changes, its new value is `Apply` of its old one, and
    the heap stays walkable.
  */
  method WriteBack(mem: GameMemory, a: Addr, e: Edit)
    requires Valid(mem.heap) && a in mem.heap.nodes
    requires RowOf(e) in Rows(NodeTrees.Classify(mem.heap.nodes[a].typeCode))
    requires e.SetAlignment? ==> 0 <= mem.heap.nodes[a].alignment < 0x100
    modifies mem
    ensures mem.heap == old(mem.heap).(nodes := old(mem.heap.nodes)[a := Apply(old(mem.heap.nodes[a]), e)])
    ensures Valid(mem.heap)
  {
    var h := mem.heap;
    var m := Apply(h.nodes[a], e);
    KeepsValid(h, a, m);
    mem.heap := h.(nodes := h.nodes[a := m]);
  }
}
