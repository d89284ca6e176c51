/** The SVG back end (tech_tree_svg/src/lib.rs): the size arithmetic of technology
    boxes, and the document as the sequence of elements the renderer calls append. */
module Svg {
  import opened Wrappers

  /** A point of a link in the SVG back end, which takes signed coordinates. */
  type SvgPoint = (int, int)

  /** One step of a path's data. */
  datatype PathCommand = MoveTo(point: SvgPoint) | LineTo(point: SvgPoint)

  /** The elements of the document. */
  datatype Element =
    | ArrowHeadDefinitions
    | Box(x: nat, y: nat, width: nat, height: nat)
    | Label(text: string, x: nat, y: nat, fontSize: nat)
    | Arrow(data: seq<PathCommand>)

  /** The number of bytes of the UTF-8 encoding of a text (str::len). */
  function Utf8Length(text: string): (n: nat)
    ensures n >= |text|
    ensures (forall i :: 0 <= i < |text| ==> text[i] as int < 0x80) ==> n == |text|
  {
    if text == [] then 0
    else
      var c := text[|text| - 1] as int;
      Utf8Length(text[..|text| - 1]) + (if c < 0x80 then 1 else if c < 0x800 then 2 else if c < 0x10000 then 3 else 4)
  }

  /** get_text_width: half the font size per byte, plus the padding on both sides. */
  function TextWidth(fontSize: nat, textPadding: nat, text: string): (w: nat)
    ensures w >= |text| * (fontSize / 2) + 2 * textPadding
    ensures (forall i :: 0 <= i < |text| ==> text[i] as int < 0x80) ==>
      w == |text| * (fontSize / 2) + 2 * textPadding
  {
    Utf8Length(text) * (fontSize / 2) + 2 * textPadding
  }

  /** get_text_height: twice the font size. */
  function TextHeight(fontSize: nat): (h: nat)
    ensures h == 2 * fontSize
  {
    fontSize * 2
  }

  /** u32::saturating_sub. */
  function SaturatingSub(a: nat, b: nat): (r: nat)
    ensures a >= b ==> r + b == a
    ensures a < b ==> r == 0
  {
    if a >= b then a - b else 0
  }

  /** The path through the points: a move to the first, then a line to each later one. */
  function PathData(points: seq<SvgPoint>): (data: seq<PathCommand>)
    requires points != []
  {
    [MoveTo(points[0])] + seq(|points| - 1, i requires 0 <= i < |points| - 1 => LineTo(points[i + 1]))
  }

  /** The path visits the points in order, moving to the first and drawing to all others. */
  lemma PathVisitsPoints(points: seq<SvgPoint>)
    requires points != []
    ensures |PathData(points)| == |points|
    ensures forall i :: 0 <= i < |points| ==> PathData(points)[i].point == points[i]
    ensures PathData(points)[0].MoveTo?
    ensures forall i :: 1 <= i < |points| ==> PathData(points)[i].LineTo?
  {
  }

  /** What render_link appends: nothing for no points, otherwise one arrow. */
  function LinkElements(points: seq<SvgPoint>): seq<Element> {
    if points == [] then [] else [Arrow(PathData(points))]
  }

  /** What render_technology appends: the box, centred on x and reaching font_size above
      y (clamped at 0), then the label centred at x, a third of the font size below y. */
  function TechnologyElements(fontSize: nat, textPadding: nat, text: string, x: nat, y: nat): seq<Element>
    requires x >= TextWidth(fontSize, textPadding, text) / 2
  {
    var width := TextWidth(fontSize, textPadding, text);
    [ Box(x - width / 2, SaturatingSub(y, fontSize), width, TextHeight(fontSize)),
      Label(text, x, y + fontSize / 3, fontSize) ]
  }

  /** The box of a technology is centred on x, as wide as the text width and twice the
      font size high; the label is at x. */
  lemma TechnologyBoxCentred(fontSize: nat, textPadding: nat, text: string, x: nat, y: nat)
    requires x >= TextWidth(fontSize, textPadding, text) / 2
    ensures var e := TechnologyElements(fontSize, textPadding, text, x, y);
      |e| == 2 && e[0].Box? && e[1].Label? &&
      e[0].x + TextWidth(fontSize, textPadding, text) / 2 == x &&
      e[0].width == TextWidth(fontSize, textPadding, text) && e[0].height == 2 * fontSize &&
      e[1].x == x && e[1].text == text &&
      (y >= fontSize ==> e[0].y + fontSize == y) && (y < fontSize ==> e[0].y == 0)
  {
  }

  class SvgBuilder {
    const fontSize: nat
    const textPadding: nat
    /** The viewBox attribute of the document, once assigned. */
    var viewBox: Option<(nat, nat, nat, nat)>
    /** The children of the document, in order. */
    var elements: seq<Element>

    /** SvgBuilder::new: a document holding only the arrow head definitions. */
    constructor (fontSize: nat, textPadding: nat)
      ensures this.fontSize == fontSize && this.textPadding == textPadding
      ensures viewBox == None && elements == [ArrowHeadDefinitions]
    {
      this.fontSize := fontSize;
      this.textPadding := textPadding;
      viewBox := None;
      elements := [ArrowHeadDefinitions];
    }

    /** get_size_of_technology: the text width and the text height. */
    function GetSizeOfTechnology(text: string): (size: (nat, nat))
      ensures size.0 == Utf8Length(text) * (fontSize / 2) + 2 * textPadding
      ensures size.1 == 2 * fontSize
    {
      (TextWidth(fontSize, textPadding, text), TextHeight(fontSize))
    }

    /** init: the view box spans the origin to (width, height); no element is added. */
    method Init(width: nat, height: nat)
      modifies this
      ensures viewBox == Some((0, 0, width, height)) && elements == old(elements)
    {
      viewBox := Some((0, 0, width, height));
    }

    /** render_link: builds the path data point by point and appends one arrow, or
        nothing when there are no points. */
    method RenderLink(points: seq<SvgPoint>)
      modifies this
      ensures elements == old(elements) + LinkElements(points) && viewBox == old(viewBox)
    {
      if points != [] {
        var data := [MoveTo(points[0])];
        var i := 1;
        while i < |points|
          invariant 1 <= i <= |points|
          invariant data == PathData(points[..i])
        {
          data := data + [LineTo(points[i])];
          i := i + 1;
        }
        assert points[..i] == points;
        elements := elements + [Arrow(data)];
      }
    }

    /** render_technology: appends the box and then the label. The x of the box is an
        unsigned subtraction, so x must be at least half the text width. */
    method RenderTechnology(text: string, x: nat, y: nat)
      requires x >= TextWidth(fontSize, textPadding, text) / 2
      modifies this
      ensures elements == old(elements) + TechnologyElements(fontSize, textPadding, text, x, y)
      ensures viewBox == old(viewBox)
    {
      var textOffset := fontSize / 3;
      var width := TextWidth(fontSize, textPadding, text);
      var widthHalf := width / 2;
      var boxNode := Box(x - widthHalf, SaturatingSub(y, fontSize), width, TextHeight(fontSize));
      var textNode := Label(text, x, y + textOffset, fontSize);
      elements := elements + [boxNode];
      elements := elements + [textNode];
    }
  }

  /** test_get_size_of_technology: with font size 10 and padding 20, "test" is 60 by 20
      and "another" is 75 by 20. */
  lemma SizeExample()
    ensures TextWidth(10, 20, "test") == 60 && TextHeight(10) == 20
    ensures TextWidth(10, 20, "another") == 75
  {
  }

  /** test_export: the elements of the exported document, after the definitions. */
  method ExportExample() returns (builder: SvgBuilder)
    ensures builder.viewBox == Some((0, 0, 100, 150))
    ensures builder.elements == [
      ArrowHeadDefinitions,
      Box(25, 10, 50, 20), Label("Tech 1", 50, 23, 10),
      Box(25, 60, 50, 20), Label("Tech 2", 50, 73, 10),
      Arrow([MoveTo((50, 30)), LineTo((50, 60))])]
  {
    builder := new SvgBuilder(10, 10);
    builder.Init(100, 150);
    assert TextWidth(10, 10, "Tech 1") == 50;
    assert TextWidth(10, 10, "Tech 2") == 50;
    builder.RenderTechnology("Tech 1", 50, 20);
    builder.RenderTechnology("Tech 2", 50, 70);
    builder.RenderLink([(50, 30), (50, 60)]);
    assert PathData([(50, 30), (50, 60)]) == [MoveTo((50, 30)), LineTo((50, 60))];
  }
}
