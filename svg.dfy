/** The SVG elements the renderers emit, their exact markup, and counting over a document. */
module Svg {
  import opened Js

  /** An attribute value: a computed number, or text written literally in the markup. */
  datatype Val = Num(x: real) | Lit(text: string)

  datatype Attr = Attr(name: string, value: Val)

  datatype Point = Point(x: real, y: real)

  /** What a text element says: a whole number of degrees, written in decimal, or a
      caption written as it is. */
  datatype Content = Degrees(deg: int) | Caption(text: string)

  /** No transform attribute, or `transform="rotate(angle px py)"`: a rotation by angle
      degrees about the pivot (px, py). */
  datatype Transform = Identity | Rotate(angle: real, px: real, py: real)

  /** One markup fragment of a document, in the form the renderers write it. */
  datatype Elem =
    | SvgOpen(width: real, height: real)
    | Circle(cx: real, cy: real, r: Val, stroke: string, paint: Attr)
    | Line(x1: real, y1: real, x2: real, y2: real, stroke: string, rot: Transform)
    | Text(x: real, y: real, fontSize: real, hanging: bool, fill: string, rot: Transform,
           vertical: bool, content: Content)
    | Polygon(points: seq<Point>, stroke: string)
    | SvgClose

  function ValText(v: Val, num: real -> string): string
  {
    match v
    case Num(x) => num(x)
    case Lit(t) => t
  }

  function ContentText(c: Content): string
  {
    match c
    case Degrees(deg) => IntStr(deg)
    case Caption(t) => t
  }

  function TransformAttr(t: Transform, num: real -> string): string
  {
    match t
    case Identity => ""
    case Rotate(a, px, py) => " transform=\"rotate(" + num(a) + " " + num(px) + " " + num(py) + ")\""
  }

  /** `x1,y1 x2,y2 ...` */
  function PointsText(ps: seq<Point>, num: real -> string): string
  {
    if ps == [] then ""
    else num(ps[0].x) + "," + num(ps[0].y) + (if |ps| == 1 then "" else " " + PointsText(ps[1..], num))
  }

  /** The text a renderer appends to its result for one element; `num` is the host's
      conversion of a number to a string. Every fragment is one tag ending a line. */
  function Markup(e: Elem, num: real -> string): (s: string)
  {
    match e
    case SvgOpen(w, h) =>
      "<svg version=\"1.1\" id=\"Layer_1\" xmlns=\"http://www.w3.org/2000/svg\" xmlns:xlink=\"http://www.w3.org/1999/xlink\" "
      + "x=\"0px\" y=\"0px\" viewBox=\"0 0 " + num(w) + " " + num(h) + "\" "
      + "style=\"enable-background:new 0 0 " + num(w) + " " + num(h) + ";\" "
      + "xml:space=\"preserve\">\n"
    case Circle(cx, cy, r, stroke, paint) =>
      "<circle cx=\"" + num(cx) + "\" cy=\"" + num(cy) + "\" r=\"" + ValText(r, num)
      + "\" stroke=\"" + stroke + "\" " + paint.name + "=\"" + ValText(paint.value, num) + "\" />\n"
    case Line(x1, y1, x2, y2, stroke, rot) =>
      "<line x1=\"" + num(x1) + "\" y1=\"" + num(y1) + "\" x2=\"" + num(x2) + "\" y2=\"" + num(y2)
      + "\" stroke=\"" + stroke + "\"" + TransformAttr(rot, num)
      + (if rot.Identity? then " />\n" else "/>\n")
    case Text(x, y, size, hanging, fill, rot, vertical, content) =>
      "<text x=\"" + num(x) + "\" y=\"" + num(y) + "\" font-family=\"sans-serif\" font-size=\"" + num(size)
      + "\" text-anchor=\"middle\"" + (if hanging then " dominant-baseline=\"text-before-edge\"" else "")
      + " fill=\"" + fill + "\"" + TransformAttr(rot, num)
      + (if vertical then " writing-mode=\"tb\" glyph-orientation-vertical=\"90\">" else " >")
      + ContentText(content) + "</text>\n"
    case Polygon(points, stroke) =>
      "<polygon points=\"" + PointsText(points, num) + "\" style=\"stroke:" + stroke + ";fill:none;\" />\n"
    case SvgClose =>
      "</svg>\n"
  }

  /** The fragments f(e) of the elements of doc, concatenated in document order. */
  function Join(doc: seq<Elem>, f: Elem -> string): string
  {
    if doc == [] then "" else Join(doc[..|doc| - 1], f) + f(doc[|doc| - 1])
  }

  lemma {:induction false} JoinConcat(a: seq<Elem>, b: seq<Elem>, f: Elem -> string)
    ensures Join(a + b, f) == Join(a, f) + Join(b, f)
    decreases |b|
  {
    if b == [] {
      assert a + b == a;
    } else {
      var n := |b| - 1;
      assert (a + b)[..|a + b| - 1] == a + b[..n];
      JoinConcat(a, b[..n], f);
    }
  }

  /** Markup with a fixed conversion of numbers to strings. */
  function MarkupOf(num: real -> string): Elem -> string
  {
    (e: Elem) => Markup(e, num)
  }

  /** The string that a sequence of `result += ...` appends of the elements of doc produces. */
  function Render(doc: seq<Elem>, num: real -> string): string
  {
    Join(doc, MarkupOf(num))
  }

  /** Rendering distributes over concatenation of documents. */
  lemma RenderConcat(a: seq<Elem>, b: seq<Elem>, num: real -> string)
    ensures Render(a + b, num) == Render(a, num) + Render(b, num)
  {
    JoinConcat(a, b, MarkupOf(num));
  }

  /** The fragment of the first element, those of the middle ones, then that of the last. */
  lemma JoinFrame(doc: seq<Elem>, f: Elem -> string)
    requires |doc| >= 2
    ensures Join(doc, f) == f(doc[0]) + Join(doc[1..|doc| - 1], f) + f(doc[|doc| - 1])
  {
    var n := |doc|;
    var init, mid := doc[..n - 1], doc[1..n - 1];
    assert Join(doc, f) == Join(init, f) + f(doc[n - 1]);
    assert init == [doc[0]] + mid;
    JoinConcat([doc[0]], mid, f);
    assert Join([doc[0]], f) == f(doc[0]) by {
      assert [doc[0]][..0] == [];
    }
  }

  /** A document that ends with the closing tag renders to its first element's markup
      (the svg root's, in both roses), the markup of everything between, and "</svg>\n". */
  lemma RenderFrame(doc: seq<Elem>, num: real -> string)
    requires |doc| >= 2 && doc[|doc| - 1] == SvgClose
    ensures Render(doc, num) == Markup(doc[0], num) + Render(doc[1..|doc| - 1], num) + "</svg>\n"
  {
    JoinFrame(doc, MarkupOf(num));
    MarkupOfApply(num, doc[0]);
    MarkupOfApply(num, SvgClose);
    assert Render(doc[1..|doc| - 1], num) == Join(doc[1..|doc| - 1], MarkupOf(num));
    assert Render(doc, num) == Join(doc, MarkupOf(num));
  }

  lemma MarkupOfApply(num: real -> string, e: Elem)
    ensures MarkupOf(num)(e) == Markup(e, num)
  {
  }

  /** The elements of s that satisfy p, in document order. */
  function Filter(s: seq<Elem>, p: Elem -> bool): (r: seq<Elem>)
    ensures |r| <= |s|
  {
    if s == [] then [] else Filter(s[..|s| - 1], p) + (if p(s[|s| - 1]) then [s[|s| - 1]] else [])
  }

  /** How many elements of s satisfy p. */
  function Count(s: seq<Elem>, p: Elem -> bool): nat
  {
    |Filter(s, p)|
  }

  lemma {:induction false} FilterConcat(a: seq<Elem>, b: seq<Elem>, p: Elem -> bool)
    ensures Filter(a + b, p) == Filter(a, p) + Filter(b, p)
    decreases |b|
  {
    if b == [] {
      assert a + b == a;
    } else {
      var n := |b| - 1;
      assert (a + b)[..|a + b| - 1] == a + b[..n];
      FilterConcat(a, b[..n], p);
    }
  }

  lemma CountConcat(a: seq<Elem>, b: seq<Elem>, p: Elem -> bool)
    ensures Count(a + b, p) == Count(a, p) + Count(b, p)
  {
    FilterConcat(a, b, p);
  }

  /** Counting a narrower kind q among the elements of kind p is counting q. */
  lemma {:induction false} CountWithin(s: seq<Elem>, p: Elem -> bool, q: Elem -> bool)
    requires forall e :: q(e) ==> p(e)
    ensures Count(Filter(s, p), q) == Count(s, q)
    decreases |s|
  {
    if s != [] {
      var m := |s| - 1;
      var opt := if p(s[m]) then [s[m]] else [];
      assert Filter(s, p) == Filter(s[..m], p) + opt;
      CountWithin(s[..m], p, q);
      FilterConcat(Filter(s[..m], p), opt, q);
      FilterSingle(s[m], q);
      assert Count(opt, q) == if q(s[m]) then 1 else 0;
      assert Count(s, q) == Count(s[..m], q) + if q(s[m]) then 1 else 0;
    }
  }

  lemma FilterSingle(e: Elem, p: Elem -> bool)
    ensures Filter([e], p) == if p(e) then [e] else []
  {
    assert [e][..0] == [];
  }

  /** Filtering an element followed by at most one more. */
  lemma FilterStep(e: Elem, opt: seq<Elem>, p: Elem -> bool)
    requires |opt| <= 1
    ensures Filter([e] + opt, p) == (if p(e) then [e] else []) + (if |opt| == 1 && p(opt[0]) then opt else [])
  {
    FilterConcat([e], opt, p);
    FilterSingle(e, p);
    if |opt| == 1 {
      assert opt == [opt[0]];
      FilterSingle(opt[0], p);
    }
  }

  /** render writes a document by writing each element's markup after those before it. */
  ghost predicate AppendsMarkup(render: seq<Elem> -> string, markup: Elem -> string)
  {
    forall doc: seq<Elem>, e: Elem :: render(doc + [e]) == render(doc) + markup(e)
  }

  /** Joining the fragments is such a way of writing a document. */
  lemma JoinAppends(f: Elem -> string)
    ensures AppendsMarkup((doc: seq<Elem>) => Join(doc, f), f)
  {
    forall doc: seq<Elem>, e: Elem
      ensures Join(doc + [e], f) == Join(doc, f) + f(e)
    {
      assert (doc + [e])[..|doc|] == doc;
    }
  }

  /** `result += markup(e)`, with the elements emitted so far kept alongside: when the
      result so far is the rendering of doc, the new result renders doc + [e]. The
      renderers pass MarkupOf(num) as markup and Join with it as render. */
  method Append(result: string, ghost doc: seq<Elem>, e: Elem, markup: Elem -> string,
                ghost render: seq<Elem> -> string)
    returns (result': string, ghost doc': seq<Elem>)
    requires AppendsMarkup(render, markup)
    requires result == render(doc)
    ensures doc' == doc + [e]
    ensures result' == render(doc')
  {
    result' := result + markup(e);
    doc' := doc + [e];
  }

  /** One for true, zero for false. */
  function Tally(b: bool): nat { if b then 1 else 0 }

  /** Counting in a document of one to four elements, one element at a time. */
  lemma CountOne(a: Elem, p: Elem -> bool)
    ensures Count([a], p) == Tally(p(a))
  {
    FilterSingle(a, p);
  }

  lemma CountTwo(a: Elem, b: Elem, p: Elem -> bool)
    ensures Count([a, b], p) == Tally(p(a)) + Tally(p(b))
  {
    assert [a, b] == [a] + [b];
    CountConcat([a], [b], p);
    CountOne(a, p);
    CountOne(b, p);
  }

  lemma CountThree(a: Elem, b: Elem, c: Elem, p: Elem -> bool)
    ensures Count([a, b, c], p) == Tally(p(a)) + Tally(p(b)) + Tally(p(c))
  {
    assert [a, b, c] == [a, b] + [c];
    CountConcat([a, b], [c], p);
    CountTwo(a, b, p);
    CountOne(c, p);
  }

  lemma CountFour(a: Elem, b: Elem, c: Elem, e: Elem, p: Elem -> bool)
    ensures Count([a, b, c, e], p) == Tally(p(a)) + Tally(p(b)) + Tally(p(c)) + Tally(p(e))
  {
    assert [a, b, c, e] == [a, b] + [c, e];
    CountConcat([a, b], [c, e], p);
    CountTwo(a, b, p);
    CountTwo(c, e, p);
  }

  /** Three kinds no element belongs to two of at once together number at most |s|. */
  lemma {:induction false} CountDisjoint(s: seq<Elem>, p: Elem -> bool, q: Elem -> bool, r: Elem -> bool)
    requires forall e :: !(p(e) && q(e)) && !(p(e) && r(e)) && !(q(e) && r(e))
    ensures Count(s, p) + Count(s, q) + Count(s, r) <= |s|
    decreases |s|
  {
    if s != [] {
      var m := |s| - 1;
      CountDisjoint(s[..m], p, q, r);
      var e := s[m];
      assert !(p(e) && q(e)) && !(p(e) && r(e)) && !(q(e) && r(e));
    }
  }

  predicate IsSvgOpen(e: Elem) { e.SvgOpen? }
  predicate IsSvgClose(e: Elem) { e.SvgClose? }
  predicate IsCircle(e: Elem) { e.Circle? }
  predicate IsLine(e: Elem) { e.Line? }
  predicate IsText(e: Elem) { e.Text? }
  predicate IsPolygon(e: Elem) { e.Polygon? }

  /** Lines whose two end points lie at the heights y1 and y2 before rotation. */
  function LineSpan(y1: real, y2: real): Elem -> bool
  {
    (e: Elem) => e.Line? && e.y1 == y1 && e.y2 == y2
  }

  /** Text elements at height y, with or without the hanging baseline attribute. */
  function TextAt(y: real, hanging: bool): Elem -> bool
  {
    (e: Elem) => e.Text? && e.y == y && e.hanging == hanging
  }
}
