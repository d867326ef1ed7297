/** The basic compass rose: a square canvas holding two concentric black circles, a thick
    one at 64% of the half-width and a thin one at 55%. */
module Basic {
  import opened Svg
  import opened Input

  /** Stroke colour of both circles. */
  const Black := "black"

  /** The thick outer circle about the centre (r, r) of a canvas of half-width r. */
  function ThickCircle(r: real): Elem
  {
    Circle(r, r, Num(0.64 * r), Black, Attr("stroke-width", Num(0.05 * r)))
  }

  /** The thin inner circle, whose stroke width is the literal 1. */
  function ThinCircle(r: real): Elem
  {
    Circle(r, r, Num(0.55 * r), Black, Attr("stroke-width", Lit("1")))
  }

  /** Every element of the basic rose of height h, in the order the renderer emits them. */
  function Document(h: real): seq<Elem>
  {
    [SvgOpen(h, h), ThickCircle(h / 2.0), ThinCircle(h / 2.0), SvgClose]
  }

  /** Renders the basic rose for a height, appending each element's markup to the result
      string in turn; an invalid height throws before anything is emitted. */
  method Rose(height: HeightInput, num: real -> string) returns (r: Result<string>)
    ensures ValidateHeight(height).Err? ==> r == Err(ValidateHeight(height).error)
    ensures ValidateHeight(height).Ok? ==> r == Ok(Render(Document(height.value), num))
  {
    var checked := ValidateHeight(height);
    if checked.Err? {
      return Err(checked.error);
    }
    var h := checked.value;
    var markup := MarkupOf(num);
    ghost var render := (doc: seq<Elem>) => Join(doc, markup);
    JoinAppends(markup);
    var result := "";
    ghost var doc: seq<Elem> := [];
    result, doc := EmitRose(result, doc, h, markup, render);
    assert doc == Document(h);
    r := Ok(result);
  }

  /** The svg tag for a square canvas, the thick circle, the thin circle and the closing tag. */
  method EmitRose(result: string, ghost doc: seq<Elem>, h: real, markup: Elem -> string,
                  ghost render: seq<Elem> -> string)
    returns (result': string, ghost doc': seq<Elem>)
    requires AppendsMarkup(render, markup)
    requires result == render(doc)
    ensures doc' == doc + Document(h)
    ensures result' == render(doc')
  {
    var w := h;
    var radius := w / 2.0;
    var s := Black;
    result', doc' := Append(result, doc, SvgOpen(w, h), markup, render);
    result', doc' := Append(result', doc', Circle(radius, radius, Num(0.64 * radius), s,
                                                  Attr("stroke-width", Num(0.05 * radius))), markup, render);
    result', doc' := Append(result', doc', Circle(radius, radius, Num(0.55 * radius), s,
                                                  Attr("stroke-width", Lit("1"))), markup, render);
    result', doc' := Append(result', doc', SvgClose, markup, render);
  }

  /** The canvas is square, and the two circles share its centre, with the thin one inside
      the thick one; the thick circle's stroke, half of which lies outside its radius,
      stays clear of the canvas edge. */
  lemma BasicGeometry(h: real)
    requires h > 0.0
    ensures var doc := Document(h);
      && |doc| == 4 && doc[0] == SvgOpen(h, h) && doc[3] == SvgClose
      && doc[1].Circle? && doc[2].Circle?
      && doc[1].cx == doc[2].cx == h / 2.0 && doc[1].cy == doc[2].cy == h / 2.0
      && doc[1].r.Num? && doc[2].r.Num? && 0.0 < doc[2].r.x < doc[1].r.x
      && doc[1].paint.value.Num?
      && doc[1].r.x + doc[1].paint.value.x / 2.0 < h / 2.0
  {
  }

  /** On a 100-unit canvas the thick circle has radius 32 and stroke width 2.5, and the thin
      one radius 27.5, all about the centre (50, 50). */
  lemma HundredUnitCircles(h: real)
    requires h == 100.0
    ensures |Document(h)| == 4
    ensures Document(h)[1] == Circle(50.0, 50.0, Num(32.0), Black, Attr("stroke-width", Num(2.5)))
    ensures Document(h)[2] == Circle(50.0, 50.0, Num(27.5), Black, Attr("stroke-width", Lit("1")))
  {
  }

  /** The census: one svg root, two circles, one closing tag, and nothing else. */
  lemma BasicCensus(h: real, p: Elem -> bool)
    ensures Count(Document(h), p)
      == Tally(p(SvgOpen(h, h))) + Tally(p(ThickCircle(h / 2.0))) + Tally(p(ThinCircle(h / 2.0))) + Tally(p(SvgClose))
    ensures Count(Document(h), IsSvgOpen) == 1 && Count(Document(h), IsCircle) == 2
    ensures Count(Document(h), IsSvgClose) == 1 && Count(Document(h), IsLine) == 0
  {
    CountFour(SvgOpen(h, h), ThickCircle(h / 2.0), ThinCircle(h / 2.0), SvgClose, p);
    CountFour(SvgOpen(h, h), ThickCircle(h / 2.0), ThinCircle(h / 2.0), SvgClose, IsSvgOpen);
    CountFour(SvgOpen(h, h), ThickCircle(h / 2.0), ThinCircle(h / 2.0), SvgClose, IsCircle);
    CountFour(SvgOpen(h, h), ThickCircle(h / 2.0), ThinCircle(h / 2.0), SvgClose, IsSvgClose);
    CountFour(SvgOpen(h, h), ThickCircle(h / 2.0), ThinCircle(h / 2.0), SvgClose, IsLine);
  }
}
