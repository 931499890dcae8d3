/**
  The texture section of image, nine-grid and clipping-mask views
  (`ImageNodeTree`): which texture a parts list leads to (`TextureData`), the
  hi-res scaling of part rectangles, the order in which `DrawFullTexture`
  outlines the parts, and the rows of the parts table.

  Drawing is modelled as the list of draw-list and cursor operations a call
  issues; whether the mouse hovers a rectangle is a parameter.
*/
module Textures {
  import opened Heap
  import Casts
  import Format

  /** `TextureType` values the inspector distinguishes. */
  const ResourceTexture: int := 1
  const KernelTexture: int := 3

  /** A 2-D position or extent on screen. */
  datatype Vec = Vec(x: real, y: real)

  function Plus(a: Vec, b: Vec): Vec {
    Vec(a.x + b.x, a.y + b.y)
  }

  function Times(a: Vec, f: real): Vec {
    Vec(a.x * f, a.y * f)
  }

  /** An axis-aligned rectangle from `begin` to `end`. */
  datatype Rect = Rect(begin: Vec, end: Vec)

  /** A texture file resource: its kernel texture and its file name. */
  datatype Resource = Resource(kernelTextureObject: Addr, fileName: string)

  /** A `AtkUldAsset`'s texture: its type, and where each type keeps the texture. */
  datatype Asset = Asset(textureType: int, resource: Resource, kernelTexture: Addr)

  /** One `AtkUldPart`: its rectangle in the texture (in standard-resolution units) and its asset. */
  datatype Part = Part(u: int, v: int, width: int, height: int, asset: Option<Asset>)

  /**
    An `AtkUldPartsList`: `PartCount` and the memory its `Parts` pointer leads
    to.  `TextureData` reads `Parts[0]` even when the count is 0, so that
    memory holds at least one part and at least `partCount` of them.
  */
  datatype PartsList = PartsList(partCount: Casts.UInt32, parts: seq<Part>)

  ghost predicate Readable(list: PartsList) {
    list.partCount <= |list.parts| && |list.parts| > 0
  }

  /** `haystack.Contains(needle)`, ordinal. */
  predicate Contains(haystack: string, needle: string)
    decreases |haystack|
  {
    if |haystack| < |needle| then false
    else if haystack[..|needle|] == needle then true
    else |haystack| > 0 && Contains(haystack[1..], needle)
  }

  /** The `TextureData` struct. */
  datatype TextureData = TextureData(
    partCount: Casts.UInt32,
    partId: Casts.UInt32,
    texture: Addr,
    texType: int,
    path: Option<string>,
    hiRes: bool)

  /**
    The `TextureData` constructor.  A part id past the end falls back to part
    0 (not to the last part).  A part without an asset leaves everything
    empty; a resource texture has both a texture and a file path, a kernel
    texture only a texture, any other type neither.  The texture is hi-res
    exactly when its path contains `_hr1`.
  */
  function MakeTextureData(list: PartsList, partId: Casts.UInt32): (t: TextureData)
    requires Readable(list)
    ensures t.partCount == list.partCount
    ensures t.partId == if partId >= list.partCount then 0 else partId
    ensures list.partCount > 0 ==> t.partId < list.partCount
    ensures list.parts[t.partId].asset.None? ==> t == TextureData(list.partCount, t.partId, Null, 0, None, false)
    ensures list.parts[t.partId].asset.Some? ==> var a := list.parts[t.partId].asset.value;
      && t.texType == a.textureType
      && t.texture == (if a.textureType == ResourceTexture then a.resource.kernelTextureObject
                       else if a.textureType == KernelTexture then a.kernelTexture
                       else Null)
      && t.path == (if a.textureType == ResourceTexture then Some(a.resource.fileName) else None)
    ensures t.hiRes <==> t.path.Some? && Contains(t.path.value, "_hr1")
    ensures t.hiRes ==> t.texType == ResourceTexture
  {
    var id := if partId >= list.partCount then 0 else partId;
    var asset := list.parts[id].asset;
    if asset.None? then TextureData(list.partCount, id, Null, 0, None, false)
    else
      var a := asset.value;
      var path := if a.textureType == ResourceTexture then Some(a.resource.fileName) else None;
      var texture :=
        if a.textureType == ResourceTexture then a.resource.kernelTextureObject
        else if a.textureType == KernelTexture then a.kernelTexture
        else Null;
      TextureData(list.partCount, id, texture, a.textureType, path, path.Some? && Contains(path.value, "_hr1"))
  }

  /** Hi-res textures hold every part at twice its stored size. */
  function HrFactor(hiRes: bool): real {
    if hiRes then 2.0 else 1.0
  }

  /**
    The screen rectangle of a part over the full image drawn at `origin`:
    `begin = origin + uv`, `end = begin + wh`, with `uv` and `wh` doubled for
    a hi-res texture.
  */
  function PartRect(origin: Vec, part: Part, hiRes: bool): (r: Rect)
    ensures r.begin.x - origin.x == part.u as real * HrFactor(hiRes)
    ensures r.begin.y - origin.y == part.v as real * HrFactor(hiRes)
    ensures r.end.x - r.begin.x == part.width as real * HrFactor(hiRes)
    ensures r.end.y - r.begin.y == part.height as real * HrFactor(hiRes)
  {
    var f := HrFactor(hiRes);
    var begin := Plus(origin, Times(Vec(part.u as real, part.v as real), f));
    Rect(begin, Plus(begin, Times(Vec(part.width as real, part.height as real), f)))
  }

  /** Seen from the image origin, a part of a hi-res texture is its standard rectangle doubled. */
  lemma HiResDoubles(origin: Vec, part: Part)
    ensures var s, h := PartRect(origin, part, false), PartRect(origin, part, true);
      && h.begin.x - origin.x == 2.0 * (s.begin.x - origin.x)
      && h.begin.y - origin.y == 2.0 * (s.begin.y - origin.y)
      && h.end.x - origin.x == 2.0 * (s.end.x - origin.x)
      && h.end.y - origin.y == 2.0 * (s.end.y - origin.y)
  {
  }

  /** What one outline call hands to the draw list and the cursor. */
  datatype DrawOp =
    | AddRect(rect: Rect)
    | SetCursor(at: Vec)
    | Text(text: string)

  /** The caption of a part outline: id, stored position and stored size. */
  function PartCaption(partId: nat, part: Part): string {
    "[#" + Format.IntText(partId) + "]\t" + Format.IntText(part.u) + ", " + Format.IntText(part.v)
      + "\t" + Format.IntText(part.width) + "x" + Format.IntText(part.height)
  }

  /**
    `ImageNodeTree.DrawPartOutline`: with `reqHover` set and the mouse outside
    the part, nothing at all; otherwise the part's rectangle, then its caption
    20 pixels above the part in window coordinates, with the cursor put back
    where it was.
  */
  function DrawPartOutline(partId: nat, part: Part, hiRes: bool, originPos: Vec, imagePos: Vec,
                           cursor: Vec, reqHover: bool, hovers: Rect -> bool): (ops: seq<DrawOp>)
    ensures ops == [] <==> reqHover && !hovers(PartRect(originPos, part, hiRes))
    ensures ops != [] ==> ops[0] == AddRect(PartRect(originPos, part, hiRes)) && ops[|ops| - 1] == SetCursor(cursor)
  {
    var rect := PartRect(originPos, part, hiRes);
    if reqHover && !hovers(rect) then []
    else
      var uv := Times(Vec(part.u as real, part.v as real), HrFactor(hiRes));
      [AddRect(rect), SetCursor(Plus(Plus(imagePos, uv), Vec(0.0, -20.0))),
       Text(PartCaption(partId, part)), SetCursor(cursor)]
  }

  /** One `DrawPartOutline` call of `DrawFullTexture`. */
  datatype OutlineCall = OutlineCall(partId: nat, reqHover: bool)

  /**
    `DrawFullTexture`: every part other than the current one is outlined only
    under the mouse, in index order; the current part is outlined last and
    unconditionally.
  */
  method DrawFullTexture(t: TextureData) returns (calls: seq<OutlineCall>)
    ensures |calls| > 0 && calls[|calls| - 1] == OutlineCall(t.partId, false)
    ensures forall k | 0 <= k < |calls| - 1 ::
      calls[k].reqHover && calls[k].partId != t.partId && calls[k].partId < t.partCount
    ensures forall k, l | 0 <= k < l < |calls| - 1 :: calls[k].partId < calls[l].partId
    ensures forall p: nat | p < t.partCount && p != t.partId :: OutlineCall(p, true) in calls
  {
    calls := [];
    var p := 0;
    while p < t.partCount
      invariant 0 <= p <= t.partCount
      invariant forall k | 0 <= k < |calls| ::
        calls[k].reqHover && calls[k].partId != t.partId && calls[k].partId < p
      invariant forall k, l | 0 <= k < l < |calls| :: calls[k].partId < calls[l].partId
      invariant forall q: nat | q < p && q != t.partId :: OutlineCall(q, true) in calls
    {
      if p != t.partId {
        calls := calls + [OutlineCall(p, true)];
      }
      p := p + 1;
    }
    calls := calls + [OutlineCall(t.partId, false)];
  }

  // ---------------------------------------------------------------------------
  // The parts table
  // ---------------------------------------------------------------------------

  /** The `#n` label of row `i`, zero-padded to the number of digits of the part count. */
  function RowLabel(i: nat, partCount: nat): string {
    "#" + Format.PadZeros(Format.IntText(i), |Format.IntText(partCount)|)
  }

  /** Every label of a table is as wide as the part count and reads back as its row. */
  lemma RowLabelReadsBack(i: nat, partCount: nat)
    requires i < partCount
    ensures var l := RowLabel(i, partCount);
      && |l| == 1 + |Format.IntText(partCount)| && l[0] == '#'
      && Format.IsNumeral(l[1..], 10) && Format.Parse(l[1..], 10) == i
  {
    var s, w := Format.IntText(i), |Format.IntText(partCount)|;
    Format.RenderLengthMono(i, partCount, 10);
    var l := RowLabel(i, partCount);
    assert l[1..] == Format.PadZeros(s, w);
    if |s| < w {
      Format.ParseLeadingZeros(w - |s|, s, 10);
    }
  }

  /** Four numbers of one coordinates line: u, v, then width and height (or u2, v2). */
  datatype Coords = Coords(a: real, b: real, c: real, d: real)

  /**
    One row of the parts table: the part index (shown as `RowLabel(index,
    PartCount)`, highlighted for the current part) and its three coordinate
    lines.
  */
  datatype PartRow = PartRow(index: nat, current: bool, standard: Coords, hiRes: Coords, uv: Coords)

  /** The part's rectangle as stored: position and size in standard-resolution pixels. */
  function Stored(part: Part): Coords {
    Coords(part.u as real, part.v as real, part.width as real, part.height as real)
  }

  function Doubled(c: Coords): Coords {
    Coords(2.0 * c.a, 2.0 * c.b, 2.0 * c.c, 2.0 * c.d)
  }

  function Halved(c: Coords): Coords {
    Coords(c.a / 2.0, c.b / 2.0, c.c / 2.0, c.d / 2.0)
  }

  /** The part's rectangle in texture pixels: doubled for a hi-res texture. */
  function TexturePixels(part: Part, hiRes: bool): Coords {
    if hiRes then Doubled(Stored(part)) else Stored(part)
  }

  /** Texture pixels to UV: each coordinate over the texture's extent along its own axis. */
  function Uv(px: Coords, tWidth: real, tHeight: real): Coords
    requires tWidth > 0.0 && tHeight > 0.0
  {
    Coords(px.a / tWidth, px.b / tHeight, (px.a + px.c) / tWidth, (px.b + px.d) / tHeight)
  }

  /** The UV line as written: the second coordinate is divided by the width. */
  function UvAsWritten(px: Coords, tWidth: real, tHeight: real): Coords
    requires tWidth > 0.0 && tHeight > 0.0
  {
    Coords(px.a / tWidth, px.b / tWidth, (px.a + px.c) / tWidth, (px.b + px.d) / tHeight)
  }

  /**
    One row of `PrintPartsTable` as written: the "Standard" line halves the
    texture-pixel rectangle whatever the texture, and the UV line divides the
    second coordinate by the texture's width.
  */
  function PartsTableRowAsWritten(i: nat, t: TextureData, part: Part, tWidth: int, tHeight: int): (r: PartRow)
    requires tWidth > 0 && tHeight > 0
    ensures r.hiRes == TexturePixels(part, t.hiRes)
    ensures r.standard == Halved(r.hiRes)
    ensures r.current <==> i == t.partId
  {
    var px := TexturePixels(part, t.hiRes);
    PartRow(i, i == t.partId, Halved(px), px, UvAsWritten(px, tWidth as real, tHeight as real))
  }

  /** A standard texture's part at u = 10 shows "Standard" u = 5. */
  lemma StandardLineHalved()
    ensures var part := Part(10, 0, 4, 4, None);
      var t := TextureData(1, 0, 1, ResourceTexture, Some("a.tex"), false);
      PartsTableRowAsWritten(0, t, part, 64, 64).standard.a == 5.0 != part.u as real
  {
  }

  /** With a texture taller than wide, the UV line puts a part that lies inside it past 1.0. */
  lemma UvLineUsesWidth()
    ensures var part := Part(0, 48, 16, 16, None);
      var t := TextureData(1, 0, 1, ResourceTexture, Some("a.tex"), false);
      PartsTableRowAsWritten(0, t, part, 32, 64).uv.b == 1.5
  {
  }

  /**
    One row of the parts table as its labels and the image call on the same
    row describe it: "Standard" is the stored rectangle, "Hi-Res" twice that,
    and UV the texture-pixel rectangle divided by the texture's size
    component-wise.
  */
  function PartsTableRow(i: nat, t: TextureData, part: Part, tWidth: int, tHeight: int): (r: PartRow)
    requires tWidth > 0 && tHeight > 0
    ensures r.current <==> i == t.partId
    ensures r.standard == Stored(part) && r.hiRes == Doubled(r.standard)
    ensures r.uv == Uv(TexturePixels(part, t.hiRes), tWidth as real, tHeight as real)
  {
    var px := TexturePixels(part, t.hiRes);
    PartRow(i, i == t.partId, Stored(part), Doubled(Stored(part)),
      Uv(px, tWidth as real, tHeight as real))
  }

  /** The corrected row agrees with the one as written wherever the texture is hi-res and square. */
  lemma RowAgreesOnSquareHiRes(i: nat, t: TextureData, part: Part, size: int)
    requires size > 0 && t.hiRes
    ensures PartsTableRow(i, t, part, size, size) == PartsTableRowAsWritten(i, t, part, size, size)
  {
    var c := Stored(part);
    assert Halved(Doubled(c)) == c;
  }

  /** A part that lies inside the texture has every UV coordinate in [0, 1]. */
  lemma UvInUnitSquare(px: Coords, tWidth: real, tHeight: real)
    requires tWidth > 0.0 && tHeight > 0.0
    requires 0.0 <= px.a && 0.0 <= px.b && 0.0 <= px.c && 0.0 <= px.d
    requires px.a + px.c <= tWidth && px.b + px.d <= tHeight
    ensures var uv := Uv(px, tWidth, tHeight);
      && 0.0 <= uv.a <= 1.0 && 0.0 <= uv.b <= 1.0 && 0.0 <= uv.c <= 1.0 && 0.0 <= uv.d <= 1.0
  {
    DivAtMostOne(px.a, tWidth);
    DivAtMostOne(px.b, tHeight);
    DivAtMostOne(px.a + px.c, tWidth);
    DivAtMostOne(px.b + px.d, tHeight);
  }

  lemma DivAtMostOne(x: real, y: real)
    requires 0.0 <= x <= y && y > 0.0
    ensures 0.0 <= x / y <= 1.0
  {
    assert x / y * y == x;
  }

  /**
    The row counter of `PrintPartsTable` as written: a `ushort` incremented
    with wrap-around.
  */
  function NextRowAsWritten(i: int): (r: int)
    ensures 0 <= r < Casts.UShortRange
  {
    Casts.ToUShort(i + 1)
  }

  /**
    With more than 65535 parts the `ushort` counter wraps before it reaches
    the count, so the loop test `i < PartCount` never fails.
  */
  lemma RowCounterNeverExits(partCount: Casts.UInt32, i: int)
    requires partCount > 0xFFFF && 0 <= i < Casts.UShortRange
    ensures NextRowAsWritten(i) < partCount
  {
  }

  /**
    `PrintPartsTable` with a counter as wide as the part count: one row per
    part, in index order, the current part's row highlighted.
  */
  method PrintPartsTable(t: TextureData, list: PartsList, tWidth: int, tHeight: int) returns (rows: seq<PartRow>)
    requires Readable(list) && t.partCount == list.partCount
    requires tWidth > 0 && tHeight > 0
    ensures |rows| == t.partCount
    ensures forall i | 0 <= i < |rows| :: rows[i] == PartsTableRow(i, t, list.parts[i], tWidth, tHeight)
  {
    rows := [];
    var i := 0;
    while i < t.partCount
      invariant 0 <= i <= t.partCount && |rows| == i
      invariant forall k | 0 <= k < i :: rows[k] == PartsTableRow(k, t, list.parts[k], tWidth, tHeight)
    {
      rows := rows + [PartsTableRow(i, t, list.parts[i], tWidth, tHeight)];
      i := i + 1;
    }
  }

  // ---------------------------------------------------------------------------
  // The texture section
  // ---------------------------------------------------------------------------

  /** How the texture is shown: the full image with outlines, or the parts table. */
  datatype TextureView = FullImage | PartsTableView

  /**
    What `DrawTextureAndParts` shows: nothing, only the collapsed "Texture" tree
    node, or, with that node expanded, the texture fields and a view.
  */
  datatype TextureSection = NoTexture | Collapsed | Shown(fields: seq<string>, view: TextureView)

  /**
    `DrawTextureAndParts`: nothing when the parts list leads to no texture;
    otherwise the "Texture" tree node, which `treeOpen` says the user has
    expanded.  Expanded, it holds the type, part id and part count, the path
    when there is one, and the parts table when display style 1 is selected,
    else the full image.
  */
  function TextureSectionOf(t: TextureData, style: int, treeOpen: bool): (s: TextureSection)
    ensures s.NoTexture? <==> t.texture == Null
    ensures s.Collapsed? <==> t.texture != Null && !treeOpen
    ensures s.Shown? <==> t.texture != Null && treeOpen
    ensures s.Shown? ==> |s.fields| >= 3 && s.fields[..3] == ["Texture Type", "Part ID", "Part Count"]
    ensures s.Shown? ==> ("Texture Path" in s.fields <==> t.path.Some?)
    ensures s.Shown? ==> (s.view == PartsTableView <==> style == 1)
  {
    if t.texture == Null then NoTexture
    else if !treeOpen then Collapsed
    else
      var fields := ["Texture Type", "Part ID", "Part Count"] + if t.path.Some? then ["Texture Path"] else [];
      Shown(fields, if style == 1 then PartsTableView else FullImage)
  }

  /** The `TexDisplayStyle` shared by all image views, set by its two radio buttons. */
  class DisplayStyle {
    var style: int

    constructor()
      ensures style == 0
    {
      style := 0;
    }

    /** "Full Image" selects style 0, then "Parts List" style 1; no click keeps the style. */
    method Choose(fullClicked: bool, partsClicked: bool)
      modifies this
      ensures style == if partsClicked then 1 else if fullClicked then 0 else old(style)
    {
      if fullClicked {
        style := 0;
      }
      if partsClicked {
        style := 1;
      }
    }
  }
}
