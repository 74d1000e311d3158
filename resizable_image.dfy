/**
 * The HTML an image of the rich-text editor is written out as: a `figure`
 * carrying the class that floats it and a style made of its width and its
 * own style, around an `img` with the remaining attributes.
 */
module ResizableImage {
  import opened Base

  /** An element's attributes by name; a missing attribute is `null`. */
  type Attrs = map<string, string>

  const Width: string := "width"
  const Style: string := "style"

  /** An attribute that is present and not the empty string (JavaScript truthiness). */
  function Truthy(a: Attrs, k: string): Option<string>
  {
    if k in a && a[k] != "" then Some(a[k]) else None
  }

  /** The figure's class: `resizable-image`, floated left when the style says `float:left`, else right when it says `float:right`. */
  function FigureClass(style: Option<string>): string
  {
    "resizable-image"
    + if style.Some? && Contains(style.value, "float:left") then " float-left"
      else if style.Some? && Contains(style.value, "float:right") then " float-right"
      else ""
  }

  /** The figure's style: `width:W;` when a width is set, then the image's own style when it has one. */
  function FigureStyle(a: Attrs): string
  {
    (if Truthy(a, Width).Some? then "width:" + a[Width] + ";" else "")
    + (if Truthy(a, Style).Some? then a[Style] else "")
  }

  /** The rendered element: the figure's attributes and the inner image's. */
  datatype Rendered = Rendered(figure: Attrs, img: Attrs)

  /** `renderHTML`, with the figure's style built up one piece at a time. */
  method RenderHTML(attrs: Attrs) returns (r: Rendered)
    ensures r.figure == map[ "class" := FigureClass(if Style in attrs then Some(attrs[Style]) else None), Style := FigureStyle(attrs) ]
    ensures r.img == attrs - {Width, Style}
  {
    var style := if Style in attrs then Some(attrs[Style]) else None;
    var rest := attrs - {Width, Style};
    var figureStyle := "";
    if Truthy(attrs, Width).Some? {
      figureStyle := figureStyle + "width:" + attrs[Width] + ";";
      assert figureStyle == "width:" + attrs[Width] + ";";
    }
    ghost var widthPart := figureStyle;
    if Truthy(attrs, Style).Some? {
      figureStyle := figureStyle + attrs[Style];
    } else {
      assert figureStyle == widthPart + "";
    }
    r := Rendered(map[ "class" := FigureClass(style), Style := figureStyle ], rest);
  }

  /**
   * The class names at most one float, and `float:left` wins when the style
   * names both directions; without a style, or without either float, the
   * class is `resizable-image` alone.
   */
  lemma FigureClassFloats(style: Option<string>)
    ensures style.Some? && Contains(style.value, "float:left") ==> FigureClass(style) == "resizable-image float-left"
    ensures style.Some? && !Contains(style.value, "float:left") && Contains(style.value, "float:right") ==>
      FigureClass(style) == "resizable-image float-right"
    ensures style.None? || (!Contains(style.value, "float:left") && !Contains(style.value, "float:right")) ==>
      FigureClass(style) == "resizable-image"
  {
  }

  /** A `float:left` anywhere in the style is seen, however the style begins. */
  lemma FloatLeftAnywhere(before: string, after: string)
    ensures FigureClass(Some(before + "float:left" + after)) == "resizable-image float-left"
  {
    var s := before + "float:left" + after;
    assert OccursAt(s, "float:left", |before|) by {
      assert s[|before|..|before| + |"float:left"|] == "float:left";
    }
    ContainsIffOccurs(s, "float:left");
  }

  /**
   * With a width the style begins with `width:W;`, and with an own style it
   * ends with it; with neither it is empty.
   */
  lemma FigureStyleParts(a: Attrs)
    ensures Truthy(a, Width).Some? ==> "width:" + a[Width] + ";" <= FigureStyle(a)
    ensures Truthy(a, Style).Some? ==> FigureStyle(a)[|FigureStyle(a)| - |a[Style]|..] == a[Style]
    ensures Truthy(a, Width).None? && Truthy(a, Style).None? ==> FigureStyle(a) == ""
    ensures Truthy(a, Width).None? && Truthy(a, Style).Some? ==> FigureStyle(a) == a[Style]
  {
    var w := if Truthy(a, Width).Some? then "width:" + a[Width] + ";" else "";
    var s := if Truthy(a, Style).Some? then a[Style] else "";
    assert FigureStyle(a) == w + s;
    assert (w + s)[..|w|] == w;
    assert (w + s)[|w + s| - |s|..] == s;
  }

  /** The inner image keeps every attribute except the width and the style, which move to the figure. */
  lemma ImgAttrs(attrs: Attrs, r: Rendered, k: string)
    requires r.img == attrs - {Width, Style}
    ensures k in r.img <==> k in attrs && k != Width && k != Style
    ensures k in r.img ==> r.img[k] == attrs[k]
  {
  }
}
