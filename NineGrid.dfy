/**
  The nine-grid view (`NineGridNodeTree`): its `NineGridOffsets` value, the
  outline it draws for a part (the part rectangle and the two interior
  rectangles the offsets cut out of it) and the fields it prints.
*/
module NineGrid {
  import opened Heap
  import Casts
  import Format
  import Textures

  /** `NineGridOffsets`, with its fields in declaration order. */
  datatype Offsets = Offsets(top: int, left: int, right: int, bottom: int)

  /** The four-argument constructor: its arguments come in the order top, right, bottom, left. */
  function MakeOffsets(top: int, right: int, bottom: int, left: int): (o: Offsets)
    ensures o.top == top && o.right == right && o.bottom == bottom && o.left == left
  {
    Offsets(top := top, left := left, right := right, bottom := bottom)
  }

  /** The offsets of a nine-grid node, each from its namesake field. */
  function FromNode(n: Node): (o: Offsets)
    ensures o.top == n.topOffset && o.right == n.rightOffset
    ensures o.bottom == n.bottomOffset && o.left == n.leftOffset
  {
    MakeOffsets(n.topOffset, n.rightOffset, n.bottomOffset, n.leftOffset)
  }

  datatype Vector4 = Vector4(x: real, y: real, z: real, w: real)

  /** The implicit conversion to `Vector4`: (Top, Right, Bottom, Left) as (X, Y, Z, W). */
  function ToVector4(o: Offsets): Vector4 {
    Vector4(o.top as real, o.right as real, o.bottom as real, o.left as real)
  }

  /** The conversion back: each component truncated toward zero, through the four-argument constructor. */
  function FromVector4(v: Vector4): (o: Offsets)
    ensures o.top == Casts.Truncate(v.x) && o.right == Casts.Truncate(v.y)
    ensures o.bottom == Casts.Truncate(v.z) && o.left == Casts.Truncate(v.w)
  {
    MakeOffsets(Casts.Truncate(v.x), Casts.Truncate(v.y), Casts.Truncate(v.z), Casts.Truncate(v.w))
  }

  /** Truncation gives back the integer a whole number came from. */
  lemma TruncateWhole(n: int)
    ensures Casts.Truncate(n as real) == n
  {
    var r := Casts.Truncate(n as real);
    if n >= 0 {
      assert r as real <= n as real < r as real + 1.0;
    } else {
      assert r as real - 1.0 < n as real <= r as real;
    }
  }

  /** Converting offsets to a `Vector4` and back gives the same offsets. */
  lemma VectorRoundTrip(o: Offsets)
    ensures FromVector4(ToVector4(o)) == o
  {
    TruncateWhole(o.top);
    TruncateWhole(o.right);
    TruncateWhole(o.bottom);
    TruncateWhole(o.left);
  }

  /** `n * a`: every offset multiplied by `n` as a float, then truncated. */
  function ScaleLeft(n: real, a: Offsets): Offsets {
    var v := ToVector4(a);
    FromVector4(Vector4(n * v.x, n * v.y, n * v.z, n * v.w))
  }

  /** `a * n`, defined as `n * a`. */
  function ScaleRight(a: Offsets, n: real): Offsets {
    ScaleLeft(n, a)
  }

  /** Scaling by 1 changes nothing and scaling by 2 doubles every offset exactly. */
  lemma ScaleByFactor(a: Offsets)
    ensures ScaleRight(a, 1.0) == a
    ensures ScaleRight(a, 2.0) == Offsets(2 * a.top, 2 * a.left, 2 * a.right, 2 * a.bottom)
  {
    TruncateWhole(a.top);
    TruncateWhole(a.left);
    TruncateWhole(a.right);
    TruncateWhole(a.bottom);
    TruncateWhole(2 * a.top);
    TruncateWhole(2 * a.left);
    TruncateWhole(2 * a.right);
    TruncateWhole(2 * a.bottom);
  }

  /** Scaling by a whole number multiplies every offset exactly. */
  lemma ScaleWhole(a: Offsets, k: int)
    ensures ScaleLeft(k as real, a) == Offsets(k * a.top, k * a.left, k * a.right, k * a.bottom)
  {
    assert (k as real) * (a.top as real) == (k * a.top) as real;
    assert (k as real) * (a.left as real) == (k * a.left) as real;
    assert (k as real) * (a.right as real) == (k * a.right) as real;
    assert (k as real) * (a.bottom as real) == (k * a.bottom) as real;
    TruncateWhole(k * a.top);
    TruncateWhole(k * a.left);
    TruncateWhole(k * a.right);
    TruncateWhole(k * a.bottom);
  }

  /** `Print`: the four offsets as name/value pairs, top, bottom, left, right. */
  function PrintPairs(o: Offsets): (pairs: seq<(string, string)>)
    ensures |pairs| == 4
    ensures pairs[0].0 == "Top" && pairs[1].0 == "Bottom" && pairs[2].0 == "Left" && pairs[3].0 == "Right"
  {
    [("Top", Format.IntText(o.top)), ("Bottom", Format.IntText(o.bottom)),
     ("Left", Format.IntText(o.left)), ("Right", Format.IntText(o.right))]
  }

  /** Each printed value reads back as the offset named beside it. */
  lemma PrintedValuesReadBack(o: Offsets)
    requires o.top >= 0 && o.bottom >= 0 && o.left >= 0 && o.right >= 0
    ensures var p := PrintPairs(o);
      && Format.IsNumeral(p[0].1, 10) && Format.Parse(p[0].1, 10) == o.top
      && Format.IsNumeral(p[1].1, 10) && Format.Parse(p[1].1, 10) == o.bottom
      && Format.IsNumeral(p[2].1, 10) && Format.Parse(p[2].1, 10) == o.left
      && Format.IsNumeral(p[3].1, 10) && Format.Parse(p[3].1, 10) == o.right
  {
  }

  /**
    The two interior rectangles of a part: the first keeps the part's vertical
    extent and is cut in by `left` at its start and `right` at its end; the
    second keeps the horizontal extent and is cut in by `top` and `bottom`.
  */
  function Interiors(part: Textures.Rect, o: Offsets): (r: (Textures.Rect, Textures.Rect))
    ensures r.0.begin.y == part.begin.y && r.0.end.y == part.end.y
    ensures r.1.begin.x == part.begin.x && r.1.end.x == part.end.x
    ensures r.0.begin.x == part.begin.x + o.left as real && r.0.end.x == part.end.x - o.right as real
    ensures r.1.begin.y == part.begin.y + o.top as real && r.1.end.y == part.end.y - o.bottom as real
  {
    var b, e := part.begin, part.end;
    (Textures.Rect(b.(x := b.x + o.left as real), e.(x := e.x - o.right as real)),
     Textures.Rect(b.(y := b.y + o.top as real), e.(y := e.y - o.bottom as real)))
  }

  /**
    Zero offsets make both interior rectangles the part itself; a positive
    offset moves the matching side strictly inwards.
  */
  lemma InteriorsShrink(part: Textures.Rect, o: Offsets)
    ensures var r := Interiors(part, o);
      && (o == Offsets(0, 0, 0, 0) ==> r.0 == part && r.1 == part)
      && (o.left > 0 ==> r.0.begin.x > part.begin.x)
      && (o.right > 0 ==> r.0.end.x < part.end.x)
      && (o.top > 0 ==> r.1.begin.y > part.begin.y)
      && (o.bottom > 0 ==> r.1.end.y < part.end.y)
  {
  }

  /**
    `NineGridNodeTree.DrawPartOutline`: the cursor is saved first.  With
    `reqHover` set and the mouse outside the part nothing is drawn; otherwise
    the part rectangle and the two interior rectangles (offsets scaled like
    the part) are drawn and the caption placed above the part.  Either way the
    last operation puts the cursor back.
  */
  function DrawPartOutline(partId: nat, part: Textures.Part, hiRes: bool, offsets: Offsets,
                           originPos: Textures.Vec, imagePos: Textures.Vec, cursor: Textures.Vec,
                           reqHover: bool, hovers: Textures.Rect -> bool): (ops: seq<Textures.DrawOp>)
    ensures |ops| > 0 && ops[|ops| - 1] == Textures.SetCursor(cursor)
    ensures |ops| == 1 <==> reqHover && !hovers(Textures.PartRect(originPos, part, hiRes))
    ensures |ops| > 1 ==> var rect := Textures.PartRect(originPos, part, hiRes);
      var inner := Interiors(rect, ScaleRight(offsets, Textures.HrFactor(hiRes)));
      |ops| >= 3 && ops[..3] == [Textures.AddRect(rect), Textures.AddRect(inner.0), Textures.AddRect(inner.1)]
  {
    var rect := Textures.PartRect(originPos, part, hiRes);
    if reqHover && !hovers(rect) then [Textures.SetCursor(cursor)]
    else
      var f := Textures.HrFactor(hiRes);
      var inner := Interiors(rect, ScaleRight(offsets, f));
      var uv := Textures.Times(Textures.Vec(part.u as real, part.v as real), f);
      [Textures.AddRect(rect), Textures.AddRect(inner.0), Textures.AddRect(inner.1),
       Textures.SetCursor(Textures.Plus(Textures.Plus(imagePos, uv), Textures.Vec(0.0, -20.0))),
       Textures.Text(Textures.PartCaption(partId, part)),
       Textures.SetCursor(cursor)]
  }

  /** On a hi-res texture the interior rectangles are cut in by twice the stored offsets. */
  lemma HiResOffsetsDouble(part: Textures.Rect, o: Offsets)
    ensures Interiors(part, ScaleRight(o, Textures.HrFactor(true)))
         == Interiors(part, Offsets(2 * o.top, 2 * o.left, 2 * o.right, 2 * o.bottom))
  {
    ScaleByFactor(o);
  }

  /** What the nine-grid view's `PrintFieldsForNodeType` shows. */
  datatype Fields = Fields(offsets: Option<seq<(string, string)>>, textureShown: bool)

  /**
    The offsets line is printed only while the node's editor is closed (the
    editor has its own offset controls); the texture section always follows.
    The offsets and the part id are the nine-grid node's own.
  */
  function PrintFieldsForNodeType(n: Node, editorOpen: bool): (f: Fields)
    ensures f.offsets.Some? <==> !editorOpen
    ensures f.offsets.Some? ==> f.offsets.value == PrintPairs(FromNode(n))
    ensures f.textureShown
  {
    Fields(if editorOpen then None else Some(PrintPairs(FromNode(n))), true)
  }
}
