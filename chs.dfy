/** The CHS compass rose: a true ring of 360 ticks with a label every ten degrees, a star
    at north, a magnetic ring turned by the declination with a label every thirty degrees,
    the declination annotation and the magnetic-north arrow. */
module Chs {
  import opened Js
  import opened Svg
  import opened Input
  import opened Declination
  import opened Sweeps

  /** Colour of every stroke and fill. */
  const Magenta := "#A3258D"

  /** The canvas is 0.915 times as wide as it is high. */
  function Width(h: real): real { 0.915 * h }
  function CenterX(h: real): real { Width(h) / 2.0 }
  function CenterY(h: real): real { 0.533 * h }
  /** Radius of the centre circle, where the cardinal magnetic ticks start. */
  function CenterRadius(h: real): real { 0.009 * Width(h) }
  /** Outer radius of the true ring. */
  function TrueRadius(h: real): real { 0.448 * Width(h) }
  /** Inner radius of the magnetic ring. */
  function MagRadius(h: real): real { 0.282 * Width(h) }

  /** The svg root, the centre dot and the centre circle. */
  function Header(h: real): seq<Elem>
  {
    var cx, cy := CenterX(h), CenterY(h);
    [ SvgOpen(Width(h), h),
      Circle(cx, cy, Lit("0.5"), Magenta, Attr("fill", Lit(Magenta))),
      Circle(cx, cy, Num(CenterRadius(h)), Magenta, Attr("fill", Lit("none"))) ]
  }

  /** Labels in the upper semicircle read outward as they are; the others are turned half a
      revolution and hang from their baseline, so that every label stays upright. */
  predicate Upright(deg: int)
  {
    deg <= 90 || deg >= 270
  }

  /** The true-ring tick at deg: from the inner radius of its tier (every 10, every 5,
      every degree) out to the ring's edge, rotated by deg about the centre. */
  function TrueTick(h: real, deg: int): Elem
  {
    var w, cx, cy := Width(h), CenterX(h), CenterY(h);
    var y1 := if deg % 10 == 0 then cy - 0.39 * w else if deg % 5 == 0 then cy - 0.415 * w else cy - 0.433 * w;
    Line(cx, y1, cx, cy - TrueRadius(h), Magenta, Rotate(deg as real, cx, cy))
  }

  /** The degree label of the true ring at deg. */
  function TrueLabel(h: real, deg: int): Elem
  {
    var w, cx, cy, rt := Width(h), CenterX(h), CenterY(h), TrueRadius(h);
    if Upright(deg) then
      Text(cx, cy - rt - 2.0, w * 0.015, false, Magenta, Rotate(deg as real, cx, cy), false, Degrees(deg))
    else
      Text(cx, cy + rt + 2.0, w * 0.015, true, Magenta, Rotate(deg as real - 180.0, cx, cy), false, Degrees(deg))
  }

  /** What one pass of the true-ring loop appends. */
  function TrueStep(h: real, deg: int): seq<Elem>
  {
    [TrueTick(h, deg)] + (if deg % 10 == 0 then [TrueLabel(h, deg)] else [])
  }

  function TrueSteps(h: real): int -> seq<Elem>
  {
    (deg: int) => TrueStep(h, deg)
  }

  /** What the passes for degrees 0 to n - 1 of the true-ring loop append. */
  function TrueRing(h: real, n: nat): seq<Elem>
  {
    Sweep(TrueSteps(h), n)
  }

  /** The star at north and its stem; they depend on the size of the canvas only. */
  function Star(h: real): seq<Elem>
  {
    var w, cx := Width(h), CenterX(h);
    [ Polygon([ Point(cx, h * 0.0273), Point(w * 0.507, h * 0.0464), Point(w * 0.528, h * 0.0464),
                Point(w * 0.512, h * 0.0601), Point(w * 0.517, h * 0.0792), Point(cx, h * 0.0683),
                Point(w * 0.483, h * 0.0792), Point(w * 0.489, h * 0.0601), Point(w * 0.472, h * 0.0464),
                Point(w * 0.493, h * 0.0464) ], Magenta),
      Line(cx, h * 0.0683, cx, h * 0.0902, Magenta, Identity) ]
  }

  /** The magnetic-ring tick at deg, rotated by deg + d: the four cardinal ticks run from
      the centre circle, the others from the ring's inner radius out by a tier length. */
  function MagTick(h: real, d: real, deg: int): Elem
  {
    var w, cx, cy, rm := Width(h), CenterX(h), CenterY(h), MagRadius(h);
    var v := Rotate(deg as real + d, cx, cy);
    if deg % 90 == 0 then Line(cx, cy - CenterRadius(h), cx, cy - rm - 0.015 * w, Magenta, v)
    else if deg % 10 == 0 then Line(cx, cy - rm, cx, cy - rm - 0.015 * w, Magenta, v)
    else if deg % 5 == 0 then Line(cx, cy - rm, cx, cy - rm - 0.012 * w, Magenta, v)
    else Line(cx, cy - rm, cx, cy - rm - 0.003 * w, Magenta, v)
  }

  /** The magnetic ring labels every thirty degrees except north. */
  predicate MagLabelled(deg: int)
  {
    deg % 30 == 0 && deg != 0
  }

  /** The magnetic label at deg prints deg itself; it is rotated by deg + d, and the choice
      of upright or turned layout is made on deg, not on the rotated angle. */
  function MagLabel(h: real, d: real, deg: int): Elem
  {
    var w, cx, cy, rm := Width(h), CenterX(h), CenterY(h), MagRadius(h);
    var v := deg as real + d;
    if Upright(deg) then
      Text(cx, cy - 1.0 - rm - 0.015 * w, w * 0.013, false, Magenta, Rotate(v, cx, cy), false, Degrees(deg))
    else
      Text(cx, cy + 1.0 + rm + 0.015 * w, w * 0.013, true, Magenta, Rotate(v - 180.0, cx, cy), false, Degrees(deg))
  }

  /** What one pass of the magnetic-ring loop appends. */
  function MagStep(h: real, d: real, deg: int): seq<Elem>
  {
    [MagTick(h, d, deg)] + (if MagLabelled(deg) then [MagLabel(h, d, deg)] else [])
  }

  function MagSteps(h: real, d: real): int -> seq<Elem>
  {
    (deg: int) => MagStep(h, d, deg)
  }

  /** What the passes for degrees 0 to n - 1 of the magnetic-ring loop append. */
  function MagRing(h: real, d: real, n: nat): seq<Elem>
  {
    Sweep(MagSteps(h, d), n)
  }

  /** The declination label followed by the annual change as " (minutes'direction)". */
  function AnnotationText(d: real, change: real, year: string): string
  {
    DeclinationText(d, year) + " (" + IntStr(ChangeMinutes(change)) + "'" + ChangeDirection(change) + ")"
  }

  /** The annotation showing text: written vertically and rotated by d for an eastward
      (positive) change, horizontally and rotated by d - 90 otherwise. */
  function Annotation(h: real, d: real, change: real, text: string): Elem
  {
    var w, cx, cy, rm := Width(h), CenterX(h), CenterY(h), MagRadius(h);
    if change > 0.0 then
      Text(cx + 0.005 * w, cy - rm / 2.0, w * 0.015, false, Magenta, Rotate(d, cx, cy), true, Caption(text))
    else
      Text(cx + rm / 2.0, cy - 0.005 * w, w * 0.015, false, Magenta, Rotate(d - 90.0, cx, cy), false, Caption(text))
  }

  /** The magnetic-north arrow: a shaft from the magnetic ring to 0.38 w above the centre
      and a two-segment head, all rotated by d. */
  function Arrow(h: real, d: real): seq<Elem>
  {
    var w, cx, cy, rm := Width(h), CenterX(h), CenterY(h), MagRadius(h);
    var r := Rotate(d, cx, cy);
    [ Line(cx, cy - rm, cx, cy - 0.38 * w, Magenta, r),
      Line(cx, cy - 0.38 * w, cx + 0.02 * w, cy - 0.34 * w, Magenta, r),
      Line(cx + 0.02 * w, cy - 0.34 * w, cx, cy - 0.32 * w, Magenta, r) ]
  }

  /** Every element of the rose, in the order the renderer emits them. */
  function Document(h: real, d: real, change: real, year: string): seq<Elem>
  {
    Header(h) + TrueRing(h, 360) + Star(h) + MagRing(h, d, 360)
    + [Annotation(h, d, change, AnnotationText(d, change, year))] + Arrow(h, d) + [SvgClose]
  }

  /** Renders the CHS rose for a height, a declination d and an annual change (degrees,
      east positive) and a reference year, appending each element's markup to the result
      string in turn; an invalid height throws before anything is emitted. */
  method Rose(height: HeightInput, d: real, change: real, year: string, num: real -> string)
    returns (r: Result<string>)
    ensures ValidateHeight(height).Err? ==> r == Err(ValidateHeight(height).error)
    ensures ValidateHeight(height).Ok? ==> r == Ok(Render(Document(height.value, d, change, year), num))
  {
    var checked := ValidateHeight(height);
    if checked.Err? {
      return Err(checked.error);
    }
    var h := checked.value;
    var markup := MarkupOf(num);
    ghost var render := (doc: seq<Elem>) => Join(doc, markup);
    JoinAppends(markup);
    var result := "";
    ghost var doc: seq<Elem> := [];
    result, doc := EmitHeader(result, doc, h, markup, render);
    assert doc == Header(h);
    result, doc := EmitTrueRose(result, doc, h, markup, render);
    result, doc := EmitStar(result, doc, h, markup, render);
    result, doc := EmitMagneticRose(result, doc, h, d, markup, render);
    var strDec := AnnotationLabel(d, change, year);
    result, doc := EmitAnnotation(result, doc, h, d, change, strDec, markup, render);
    result, doc := EmitArrow(result, doc, h, d, markup, render);
    result, doc := Append(result, doc, SvgClose, markup, render);
    assert doc == Document(h, d, change, year);
    r := Ok(result);
  }

  /** The svg tag, the centre point and the centre circle. */
  method EmitHeader(result: string, ghost doc: seq<Elem>, h: real, markup: Elem -> string,
                    ghost render: seq<Elem> -> string)
    returns (result': string, ghost doc': seq<Elem>)
    requires AppendsMarkup(render, markup)
    requires result == render(doc)
    ensures doc' == doc + Header(h)
    ensures result' == render(doc')
  {
    var w := 0.915 * h;
    var cx := w / 2.0;
    var cy := 0.533 * h;
    var s := Magenta;
    result', doc' := Append(result, doc, SvgOpen(w, h), markup, render);
    result', doc' := Append(result', doc', Circle(cx, cy, Lit("0.5"), s, Attr("fill", Lit(s))), markup, render);
    var rc := 0.009 * w;
    result', doc' := Append(result', doc', Circle(cx, cy, Num(rc), s, Attr("fill", Lit("none"))), markup, render);
  }

  /** The loop over the 360 degrees of the true rose. */
  method EmitTrueRose(result: string, ghost doc: seq<Elem>, h: real, markup: Elem -> string,
                      ghost render: seq<Elem> -> string)
    returns (result': string, ghost doc': seq<Elem>)
    requires AppendsMarkup(render, markup)
    requires result == render(doc)
    ensures doc' == doc + TrueRing(h, 360)
    ensures result' == render(doc')
  {
    result', doc' := result, doc;
    var deg := 0;
    while deg < 360
      invariant 0 <= deg <= 360
      invariant doc' == doc + TrueRing(h, deg)
      invariant result' == render(doc')
    {
      result', doc' := EmitTrueDegree(result', doc', h, deg, markup, render);
      deg := deg + 1;
    }
  }

  /** One pass of the true-rose loop: a tick of the degree's tier, then a label on
      multiples of ten, upright or turned by semicircle. */
  method EmitTrueDegree(result: string, ghost doc: seq<Elem>, h: real, deg: int, markup: Elem -> string,
                        ghost render: seq<Elem> -> string)
    returns (result': string, ghost doc': seq<Elem>)
    requires 0 <= deg < 360
    requires AppendsMarkup(render, markup)
    requires result == render(doc)
    ensures doc' == doc + TrueStep(h, deg)
    ensures result' == render(doc')
  {
    result', doc' := EmitTrueTick(result, doc, h, deg, markup, render);
    ghost var ticked := doc';
    result', doc' := EmitTrueLabel(result', doc', h, deg, markup, render);
    ghost var marks := if deg % 10 == 0 then [TrueLabel(h, deg)] else [];
    assert doc' == ticked + marks;
    assert doc + [TrueTick(h, deg)] + marks == doc + ([TrueTick(h, deg)] + marks);
  }

  /** The tick of one true degree: long, medium or short on multiples of ten, multiples of
      five, and the other degrees, all ending on the outer ring. */
  method EmitTrueTick(result: string, ghost doc: seq<Elem>, h: real, deg: int, markup: Elem -> string,
                      ghost render: seq<Elem> -> string)
    returns (result': string, ghost doc': seq<Elem>)
    requires AppendsMarkup(render, markup)
    requires result == render(doc)
    ensures doc' == doc + [TrueTick(h, deg)]
    ensures result' == render(doc')
  {
    var w := 0.915 * h;
    var cx := w / 2.0;
    var cy := 0.533 * h;
    var s := Magenta;
    var rt := 0.448 * w;
    var tick;
    if deg % 10 == 0 {
      tick := Line(cx, cy - 0.39 * w, cx, cy - rt, s, Rotate(deg as real, cx, cy));
    } else if deg % 5 == 0 {
      tick := Line(cx, cy - 0.415 * w, cx, cy - rt, s, Rotate(deg as real, cx, cy));
    } else {
      tick := Line(cx, cy - 0.433 * w, cx, cy - rt, s, Rotate(deg as real, cx, cy));
    }
    assert tick == TrueTick(h, deg);
    result', doc' := Append(result, doc, tick, markup, render);
  }

  /** The label of one true degree, on multiples of ten only: outside the ring on the
      northern half, and turned by a semicircle on the southern half. */
  method EmitTrueLabel(result: string, ghost doc: seq<Elem>, h: real, deg: int, markup: Elem -> string,
                       ghost render: seq<Elem> -> string)
    returns (result': string, ghost doc': seq<Elem>)
    requires 0 <= deg < 360
    requires AppendsMarkup(render, markup)
    requires result == render(doc)
    ensures doc' == doc + (if deg % 10 == 0 then [TrueLabel(h, deg)] else [])
    ensures result' == render(doc')
  {
    var w := 0.915 * h;
    var cx := w / 2.0;
    var cy := 0.533 * h;
    var s := Magenta;
    var rt := 0.448 * w;
    result', doc' := result, doc;
    if deg % 10 == 0 && (deg <= 90 || deg >= 270) {
      var mark := Text(cx, cy - rt - 2.0, w * 0.015, false, s, Rotate(deg as real, cx, cy), false, Degrees(deg));
      assert mark == TrueLabel(h, deg);
      result', doc' := Append(result', doc', mark, markup, render);
    } else if deg % 10 == 0 {
      var mark := Text(cx, cy + rt + 2.0, w * 0.015, true, s, Rotate(deg as real - 180.0, cx, cy), false, Degrees(deg));
      assert mark == TrueLabel(h, deg);
      result', doc' := Append(result', doc', mark, markup, render);
    }
  }

  /** The star polygon and its stem. */
  method EmitStar(result: string, ghost doc: seq<Elem>, h: real, markup: Elem -> string,
                  ghost render: seq<Elem> -> string)
    returns (result': string, ghost doc': seq<Elem>)
    requires AppendsMarkup(render, markup)
    requires result == render(doc)
    ensures doc' == doc + Star(h)
    ensures result' == render(doc')
  {
    var w := 0.915 * h;
    var cx := w / 2.0;
    var s := Magenta;
    result', doc' := Append(result, doc, Polygon(
      [ Point(cx, h * 0.0273), Point(w * 0.507, h * 0.0464), Point(w * 0.528, h * 0.0464),
        Point(w * 0.512, h * 0.0601), Point(w * 0.517, h * 0.0792), Point(cx, h * 0.0683),
        Point(w * 0.483, h * 0.0792), Point(w * 0.489, h * 0.0601), Point(w * 0.472, h * 0.0464),
        Point(w * 0.493, h * 0.0464) ], s), markup, render);
    result', doc' := Append(result', doc', Line(cx, h * 0.0683, cx, h * 0.0902, s, Identity), markup, render);
  }

  /** The loop over the 360 degrees of the magnetic rose, every element turned by the
      declination. */
  method EmitMagneticRose(result: string, ghost doc: seq<Elem>, h: real, d: real, markup: Elem -> string,
                          ghost render: seq<Elem> -> string)
    returns (result': string, ghost doc': seq<Elem>)
    requires AppendsMarkup(render, markup)
    requires result == render(doc)
    ensures doc' == doc + MagRing(h, d, 360)
    ensures result' == render(doc')
  {
    result', doc' := result, doc;
    var deg := 0;
    while deg < 360
      invariant 0 <= deg <= 360
      invariant doc' == doc + MagRing(h, d, deg)
      invariant result' == render(doc')
    {
      result', doc' := EmitMagneticDegree(result', doc', h, d, deg, markup, render);
      deg := deg + 1;
    }
  }

  /** One pass of the magnetic-rose loop: a tick of the degree's tier, then a label on
      nonzero multiples of thirty, upright or turned by semicircle. */
  method EmitMagneticDegree(result: string, ghost doc: seq<Elem>, h: real, d: real, deg: int,
                            markup: Elem -> string, ghost render: seq<Elem> -> string)
    returns (result': string, ghost doc': seq<Elem>)
    requires 0 <= deg < 360
    requires AppendsMarkup(render, markup)
    requires result == render(doc)
    ensures doc' == doc + MagStep(h, d, deg)
    ensures result' == render(doc')
  {
    result', doc' := EmitMagneticTick(result, doc, h, d, deg, markup, render);
    ghost var ticked := doc';
    result', doc' := EmitMagneticLabel(result', doc', h, d, deg, markup, render);
    ghost var marks := if MagLabelled(deg) then [MagLabel(h, d, deg)] else [];
    assert doc' == ticked + marks;
    assert doc + [MagTick(h, d, deg)] + marks == doc + ([MagTick(h, d, deg)] + marks);
  }

  /** The tick of one magnetic degree: from the centre circle on the cardinal points, and
      long, medium or short from the ring on multiples of ten, multiples of five, and the
      other degrees. */
  method EmitMagneticTick(result: string, ghost doc: seq<Elem>, h: real, d: real, deg: int,
                          markup: Elem -> string, ghost render: seq<Elem> -> string)
    returns (result': string, ghost doc': seq<Elem>)
    requires AppendsMarkup(render, markup)
    requires result == render(doc)
    ensures doc' == doc + [MagTick(h, d, deg)]
    ensures result' == render(doc')
  {
    var w := 0.915 * h;
    var cx := w / 2.0;
    var cy := 0.533 * h;
    var s := Magenta;
    var rc := 0.009 * w;
    var rm := 0.282 * w;
    var v := deg as real + d;
    var tick;
    if deg % 90 == 0 {
      tick := Line(cx, cy - rc, cx, cy - rm - 0.015 * w, s, Rotate(v, cx, cy));
    } else if deg % 10 == 0 {
      tick := Line(cx, cy - rm, cx, cy - rm - 0.015 * w, s, Rotate(v, cx, cy));
    } else if deg % 5 == 0 {
      tick := Line(cx, cy - rm, cx, cy - rm - 0.012 * w, s, Rotate(v, cx, cy));
    } else {
      tick := Line(cx, cy - rm, cx, cy - rm - 0.003 * w, s, Rotate(v, cx, cy));
    }
    assert tick == MagTick(h, d, deg);
    result', doc' := Append(result, doc, tick, markup, render);
  }

  /** The label of one magnetic degree, on nonzero multiples of thirty only: above the ring
      on the northern half, below it and turned by a semicircle on the southern half. */
  method EmitMagneticLabel(result: string, ghost doc: seq<Elem>, h: real, d: real, deg: int,
                           markup: Elem -> string, ghost render: seq<Elem> -> string)
    returns (result': string, ghost doc': seq<Elem>)
    requires 0 <= deg < 360
    requires AppendsMarkup(render, markup)
    requires result == render(doc)
    ensures doc' == doc + (if MagLabelled(deg) then [MagLabel(h, d, deg)] else [])
    ensures result' == render(doc')
  {
    var w := 0.915 * h;
    var cx := w / 2.0;
    var cy := 0.533 * h;
    var s := Magenta;
    var rm := 0.282 * w;
    var v := deg as real + d;
    result', doc' := result, doc;
    if deg % 30 == 0 && deg != 0 && (deg <= 90 || deg >= 270) {
      var mark := Text(cx, cy - 1.0 - rm - 0.015 * w, w * 0.013, false, s, Rotate(v, cx, cy), false, Degrees(deg));
      assert mark == MagLabel(h, d, deg);
      result', doc' := Append(result', doc', mark, markup, render);
    } else if deg % 30 == 0 && deg > 0 {
      var mark := Text(cx, cy + 1.0 + rm + 0.015 * w, w * 0.013, true, s, Rotate(v - 180.0, cx, cy), false, Degrees(deg));
      assert mark == MagLabel(h, d, deg);
      result', doc' := Append(result', doc', mark, markup, render);
    }
  }

  /** The declination label followed by the annual change in minutes and its direction. */
  method AnnotationLabel(d: real, change: real, year: string) returns (strDec: string)
    ensures strDec == AnnotationText(d, change, year)
  {
    strDec := DeclinationLabel(d, year);
    var dc, mc, sc, mdir := AnnualChange(change);
    strDec := strDec + " (" + IntStr(mc) + "'" + mdir + ")";
  }

  /** The annotation's text element: vertical and turned by d for a positive change,
      horizontal and turned by d - 90 otherwise. */
  method EmitAnnotation(result: string, ghost doc: seq<Elem>, h: real, d: real, change: real, strDec: string,
                        markup: Elem -> string, ghost render: seq<Elem> -> string)
    returns (result': string, ghost doc': seq<Elem>)
    requires AppendsMarkup(render, markup)
    requires result == render(doc)
    ensures doc' == doc + [Annotation(h, d, change, strDec)]
    ensures result' == render(doc')
  {
    var w := 0.915 * h;
    var cx := w / 2.0;
    var cy := 0.533 * h;
    var s := Magenta;
    var rm := 0.282 * w;
    var mark;
    if change > 0.0 {
      mark := Text(cx + 0.005 * w, cy - rm / 2.0, w * 0.015, false, s, Rotate(d, cx, cy), true, Caption(strDec));
    } else {
      mark := Text(cx + rm / 2.0, cy - 0.005 * w, w * 0.015, false, s, Rotate(d - 90.0, cx, cy), false, Caption(strDec));
    }
    result', doc' := Append(result, doc, mark, markup, render);
  }

  /** The three lines of the magnetic-north arrow, turned by d. */
  method EmitArrow(result: string, ghost doc: seq<Elem>, h: real, d: real, markup: Elem -> string,
                   ghost render: seq<Elem> -> string)
    returns (result': string, ghost doc': seq<Elem>)
    requires AppendsMarkup(render, markup)
    requires result == render(doc)
    ensures doc' == doc + Arrow(h, d)
    ensures result' == render(doc')
  {
    var w := 0.915 * h;
    var cx := w / 2.0;
    var cy := 0.533 * h;
    var s := Magenta;
    var rm := 0.282 * w;
    result', doc' := Append(result, doc, Line(cx, cy - rm, cx, cy - 0.38 * w, s, Rotate(d, cx, cy)), markup, render);
    result', doc' := Append(result', doc', Line(cx, cy - 0.38 * w, cx + 0.02 * w, cy - 0.34 * w, s, Rotate(d, cx, cy)), markup, render);
    result', doc' := Append(result', doc', Line(cx + 0.02 * w, cy - 0.34 * w, cx, cy - 0.32 * w, s, Rotate(d, cx, cy)), markup, render);
  }
}
