/** The CHS rose as one document: where each part sits, how many elements of each kind it
    holds, which parts depend on the declination, the change and the year, and a worked
    example of the annotation. */
module ChsDocument {
  import opened Js
  import opened Svg
  import opened Declination
  import opened Chs
  import opened ChsRings

  /** Where the seven parts of a document whose parts have the rose's sizes sit. */
  lemma Slices(a: seq<Elem>, t: seq<Elem>, s: seq<Elem>, m: seq<Elem>, n: Elem, r: seq<Elem>, c: Elem)
    requires |a| == 3 && |t| == 396 && |s| == 2 && |m| == 371 && |r| == 3
    ensures var doc := a + t + s + m + [n] + r + [c];
      && |doc| == 777
      && doc[..3] == a && doc[3..399] == t && doc[399..401] == s && doc[401..772] == m
      && doc[772] == n && doc[773..776] == r && doc[776] == c
      && doc[..772] == a + t + s + m && doc[773..] == r + [c]
  {
    var doc := a + t + s + m + [n] + r + [c];
    var front := a + t + s;
    assert doc == front + (m + [n] + r + [c]);
    assert doc[..401] == front;
    assert front[..3] == a && front[3..399] == t && front[399..401] == s;
    assert doc[401..] == m + [n] + r + [c];
    assert (m + [n] + r + [c])[..371] == m;
    assert (m + [n] + r + [c])[372..375] == r;
    assert doc == (a + t + s + m) + [n] + (r + [c]);
  }

  /** The document is 777 elements long: the header at 0 .. 2, the true ring at 3 .. 398,
      the star at 399 .. 400, the magnetic ring at 401 .. 771, the annotation at 772, the
      arrow at 773 .. 775 and the closing tag last. */
  lemma DocumentLayout(h: real, d: real, change: real, year: string)
    ensures var doc := Document(h, d, change, year);
      && |doc| == 777
      && doc[..3] == Header(h)
      && doc[3..399] == TrueRing(h, 360)
      && doc[399..401] == Star(h)
      && doc[401..772] == MagRing(h, d, 360)
      && doc[772] == Annotation(h, d, change, AnnotationText(d, change, year))
      && doc[773..776] == Arrow(h, d)
      && doc[776] == SvgClose
      && doc[..772] == Header(h) + TrueRing(h, 360) + Star(h) + MagRing(h, d, 360)
      && doc[773..] == Arrow(h, d) + [SvgClose]
  {
    TrueRingLength(h);
    MagRingLength(h, d);
    Slices(Header(h), TrueRing(h, 360), Star(h), MagRing(h, d, 360),
           Annotation(h, d, change, AnnotationText(d, change, year)), Arrow(h, d), SvgClose);
  }

  lemma Split3(x: seq<Elem>, i: nat, j: nat, k: nat)
    requires i <= j <= k <= |x|
    ensures x[..k] == x[..i] + x[i..j] + x[j..k]
  {
  }

  /** The true half of the rose (header, true ring and star) depends on the height alone. */
  lemma TrueHalfDependence(h: real, d: real, change: real, year: string, d': real, change': real, year': string)
    ensures var doc, doc' := Document(h, d, change, year), Document(h, d', change', year');
      |doc| == |doc'| == 777 && doc[..401] == doc'[..401]
  {
    var doc, doc' := Document(h, d, change, year), Document(h, d', change', year');
    DocumentLayout(h, d, change, year);
    DocumentLayout(h, d', change', year');
    Split3(doc, 3, 399, 401);
    Split3(doc', 3, 399, 401);
  }

  /** The annotation is the only element that depends on the annual change and the year. */
  lemma AnnotationDependence(h: real, d: real, change: real, year: string, change': real, year': string)
    ensures var doc, doc' := Document(h, d, change, year), Document(h, d, change', year');
      |doc| == |doc'| == 777 && doc[..772] == doc'[..772] && doc[773..] == doc'[773..]
  {
    DocumentLayout(h, d, change, year);
    DocumentLayout(h, d, change', year');
  }

  /** How many elements of kind p a document of seven parts holds, part by part. */
  lemma PartsCount(a: seq<Elem>, t: seq<Elem>, s: seq<Elem>, m: seq<Elem>, n: Elem, r: seq<Elem>, c: Elem,
                   p: Elem -> bool)
    ensures Count(a + t + s + m + [n] + r + [c], p)
      == Count(a, p) + Count(t, p) + Count(s, p) + Count(m, p) + Count([n], p) + Count(r, p) + Count([c], p)
  {
    CountConcat(a, t, p);
    CountConcat(a + t, s, p);
    CountConcat(a + t + s, m, p);
    CountConcat(a + t + s + m, [n], p);
    CountConcat(a + t + s + m + [n], r, p);
    CountConcat(a + t + s + m + [n] + r, [c], p);
  }

  /** How many elements of kind p the document holds, part by part. */
  lemma DocumentCount(h: real, d: real, change: real, year: string, p: Elem -> bool)
    ensures Count(Document(h, d, change, year), p)
      == Count(Header(h), p) + Count(TrueRing(h, 360), p) + Count(Star(h), p) + Count(MagRing(h, d, 360), p)
         + Count([Annotation(h, d, change, AnnotationText(d, change, year))], p) + Count(Arrow(h, d), p)
         + Count([SvgClose], p)
  {
    PartsCount(Header(h), TrueRing(h, 360), Star(h), MagRing(h, d, 360),
               Annotation(h, d, change, AnnotationText(d, change, year)), Arrow(h, d), SvgClose, p);
  }

  /** The fixed parts, element by element. */
  lemma HeaderCount(h: real, p: Elem -> bool)
    ensures var hd := Header(h); Count(hd, p) == Tally(p(hd[0])) + Tally(p(hd[1])) + Tally(p(hd[2]))
  {
    var hd := Header(h);
    assert hd == [hd[0], hd[1], hd[2]];
    CountThree(hd[0], hd[1], hd[2], p);
  }

  lemma StarCount(h: real, p: Elem -> bool)
    ensures var st := Star(h); Count(st, p) == Tally(p(st[0])) + Tally(p(st[1]))
  {
    var st := Star(h);
    assert st == [st[0], st[1]];
    CountTwo(st[0], st[1], p);
  }

  lemma ArrowCount(h: real, d: real, p: Elem -> bool)
    ensures var ar := Arrow(h, d); Count(ar, p) == Tally(p(ar[0])) + Tally(p(ar[1])) + Tally(p(ar[2]))
  {
    var ar := Arrow(h, d);
    assert ar == [ar[0], ar[1], ar[2]];
    CountThree(ar[0], ar[1], ar[2], p);
  }

  lemma PartCounts(h: real, d: real, n: Elem, p: Elem -> bool)
    ensures var hd, st, ar := Header(h), Star(h), Arrow(h, d);
      && Count(hd, p) == Tally(p(hd[0])) + Tally(p(hd[1])) + Tally(p(hd[2]))
      && Count(st, p) == Tally(p(st[0])) + Tally(p(st[1]))
      && Count(ar, p) == Tally(p(ar[0])) + Tally(p(ar[1])) + Tally(p(ar[2]))
      && Count([n], p) == Tally(p(n)) && Count([SvgClose], p) == Tally(p(SvgClose))
  {
    HeaderCount(h, p);
    StarCount(h, p);
    ArrowCount(h, d, p);
    CountOne(n, p);
    CountOne(SvgClose, p);
  }

  /** The lines and text elements of the two whole rings. */
  lemma RingKinds(h: real, d: real)
    ensures Count(TrueRing(h, 360), IsLine) == 360 && Count(TrueRing(h, 360), IsText) == 36
    ensures Count(MagRing(h, d, 360), IsLine) == 360 && Count(MagRing(h, d, 360), IsText) == 11
  {
    TrueRingSizes(h, 360);
    MagRingSizes(h, d, 360);
    assert MagLabelCount(360) == 11;
  }

  /** The lines and text elements of the fixed parts and of the annotation. */
  lemma FixedLines(h: real, d: real, change: real, text: string)
    ensures Count(Header(h), IsLine) == 0 && Count(Star(h), IsLine) == 1
    ensures Count([Annotation(h, d, change, text)], IsLine) == 0
    ensures Count(Arrow(h, d), IsLine) == 3 && Count([SvgClose], IsLine) == 0
  {
    PartCounts(h, d, Annotation(h, d, change, text), IsLine);
  }

  lemma FixedTexts(h: real, d: real, change: real, text: string)
    ensures Count(Header(h), IsText) == 0 && Count(Star(h), IsText) == 0
    ensures Count([Annotation(h, d, change, text)], IsText) == 1
    ensures Count(Arrow(h, d), IsText) == 0 && Count([SvgClose], IsText) == 0
  {
    PartCounts(h, d, Annotation(h, d, change, text), IsText);
  }

  /** A ring made of lines and text holds no element of any other kind. */
  lemma RingHasNo(ring: seq<Elem>, p: Elem -> bool)
    requires forall e :: p(e) ==> !e.Line? && !e.Text?
    requires |ring| == Count(ring, IsLine) + Count(ring, IsText)
    ensures Count(ring, p) == 0
  {
    CountDisjoint(ring, IsLine, IsText, p);
  }

  /** The lines: 360 ticks on each ring, the star's stem and the arrow's three segments. */
  lemma DocumentLines(h: real, d: real, change: real, year: string)
    ensures Count(Document(h, d, change, year), IsLine) == 724
  {
    DocumentCount(h, d, change, year, IsLine);
    RingKinds(h, d);
    FixedLines(h, d, change, AnnotationText(d, change, year));
  }

  /** The text elements: 36 true labels, 11 magnetic labels and the annotation. */
  lemma DocumentTexts(h: real, d: real, change: real, year: string)
    ensures Count(Document(h, d, change, year), IsText) == 48
  {
    DocumentCount(h, d, change, year, IsText);
    RingKinds(h, d);
    FixedTexts(h, d, change, AnnotationText(d, change, year));
  }

  /** The elements of kind p, which the rings and the annotation have none of. */
  lemma DocumentOthers(h: real, d: real, change: real, year: string, p: Elem -> bool)
    requires forall e :: p(e) ==> !e.Line? && !e.Text?
    ensures Count(Document(h, d, change, year), p)
      == Count(Header(h), p) + Count(Star(h), p) + Count(Arrow(h, d), p) + Count([SvgClose], p)
  {
    DocumentCount(h, d, change, year, p);
    TrueRingSizes(h, 360);
    MagRingSizes(h, d, 360);
    RingHasNo(TrueRing(h, 360), p);
    RingHasNo(MagRing(h, d, 360), p);
    PartCounts(h, d, Annotation(h, d, change, AnnotationText(d, change, year)), p);
  }

  /** One svg root, the first element. */
  lemma DocumentOpens(h: real, d: real, change: real, year: string)
    ensures Count(Document(h, d, change, year), IsSvgOpen) == 1
  {
    DocumentOthers(h, d, change, year, IsSvgOpen);
    PartCounts(h, d, Annotation(h, d, change, AnnotationText(d, change, year)), IsSvgOpen);
  }

  /** One closing tag, the last element. */
  lemma DocumentCloses(h: real, d: real, change: real, year: string)
    ensures Count(Document(h, d, change, year), IsSvgClose) == 1
  {
    DocumentOthers(h, d, change, year, IsSvgClose);
    PartCounts(h, d, Annotation(h, d, change, AnnotationText(d, change, year)), IsSvgClose);
  }

  /** Two circles: the centre dot and the centre circle. */
  lemma DocumentCircles(h: real, d: real, change: real, year: string)
    ensures Count(Document(h, d, change, year), IsCircle) == 2
  {
    DocumentOthers(h, d, change, year, IsCircle);
    PartCounts(h, d, Annotation(h, d, change, AnnotationText(d, change, year)), IsCircle);
  }

  /** One polygon: the star. */
  lemma DocumentPolygons(h: real, d: real, change: real, year: string)
    ensures Count(Document(h, d, change, year), IsPolygon) == 1
  {
    DocumentOthers(h, d, change, year, IsPolygon);
    PartCounts(h, d, Annotation(h, d, change, AnnotationText(d, change, year)), IsPolygon);
  }

  /** The census of the whole rose: one svg root and one closing tag, the centre dot and
      circle, the star polygon, 724 lines and 48 text elements, and nothing else. */
  lemma DocumentCensus(h: real, d: real, change: real, year: string)
    ensures var doc := Document(h, d, change, year);
      && Count(doc, IsSvgOpen) == 1 && Count(doc, IsSvgClose) == 1
      && Count(doc, IsCircle) == 2 && Count(doc, IsPolygon) == 1
      && Count(doc, IsLine) == 724 && Count(doc, IsText) == 48
      && |doc| == 777
  {
    DocumentLayout(h, d, change, year);
    DocumentLines(h, d, change, year);
    DocumentTexts(h, d, change, year);
    DocumentOpens(h, d, change, year);
    DocumentCloses(h, d, change, year);
    DocumentCircles(h, d, change, year);
    DocumentPolygons(h, d, change, year);
  }

  /** The arrow is one connected path: the shaft starts on the magnetic ring's inner radius
      and runs to the head, whose two segments meet at the tip; every segment is turned by
      the declination about the centre. */
  lemma ArrowShape(h: real, d: real)
    ensures var ar, cx, cy := Arrow(h, d), CenterX(h), CenterY(h);
      && |ar| == 3
      && (forall i :: 0 <= i < 3 ==> ar[i].Line? && ar[i].rot == Rotate(d, cx, cy))
      && ar[0].x1 == cx && ar[0].y1 == cy - MagRadius(h)
      && ar[0].x2 == ar[1].x1 && ar[0].y2 == ar[1].y1
      && ar[1].x2 == ar[2].x1 && ar[1].y2 == ar[2].y1
      && ar[2].x2 == cx
  {
  }

  /** The rendered rose is the svg root's markup, then the markup of everything between,
      then the closing tag. */
  lemma RenderedDocument(h: real, d: real, change: real, year: string, num: real -> string)
    ensures var doc := Document(h, d, change, year);
      && |doc| == 777
      && Render(doc, num) == Markup(SvgOpen(Width(h), h), num) + Render(doc[1..776], num) + "</svg>\n"
  {
    DocumentLayout(h, d, change, year);
    var doc := Document(h, d, change, year);
    assert doc[0] == SvgOpen(Width(h), h);
    RenderFrame(doc, num);
  }

  /** The annotation is vertical and turned by d exactly when the change is positive, and
      horizontal and turned by d - 90 otherwise; it shows the text it is given. */
  lemma AnnotationLayouts(h: real, d: real, change: real, text: string)
    ensures var ann, cx, cy := Annotation(h, d, change, text), CenterX(h), CenterY(h);
      && ann.Text? && ann.content == Caption(text)
      && (ann.vertical <==> change > 0.0)
      && (ann.rot == Rotate(d, cx, cy) <==> change > 0.0)
      && (ann.rot == Rotate(d - 90.0, cx, cy) <==> change <= 0.0)
  {
  }

  /** With no change at all the annotation takes the horizontal layout, while the printed
      direction is still east. */
  lemma NoChangeAnnotation(h: real, d: real, change: real, year: string)
    requires change == 0.0
    ensures !Annotation(h, d, change, AnnotationText(d, change, year)).vertical
    ensures ChangeDirection(change) == "E"
  {
  }

  /** A change of 0.1 degrees a year is printed as 6 minutes. */
  lemma TenthMinutes()
    ensures IntStr(ChangeMinutes(0.1)) == "6"
  {
    ChangeMinutesExamples();
    assert NatStr(6) == [DigitChar(6)];
  }

  /** The annotation text for a declination of 10 degrees east in 2024, changing by 0.1
      degrees a year: the declination label "010°E 2024", then 6 minutes east in
      parentheses, which reads "010°E 2024 (6'E)". */
  lemma TenDegreeAnnotationText(d: real, change: real, year: string)
    requires d == 10.0 && change == 0.1 && year == "2024"
    ensures AnnotationText(d, change, year) == "010\U{B0}E 2024" + " (" + "6" + "'" + "E" + ")"
  {
    var decl, minutes, dir := DeclinationText(d, year), IntStr(ChangeMinutes(change)), ChangeDirection(change);
    assert decl == "010\U{B0}E 2024" by {
      DeclinationTextTen();
    }
    assert minutes == "6" by {
      TenthMinutes();
    }
    assert dir == "E";
    assert AnnotationText(d, change, year) == decl + " (" + minutes + "'" + dir + ")";
  }

  /** On a 1000-pixel rose with that declination and change the annotation is written
      vertically and turned by 10 degrees about the centre (457.5, 533). */
  lemma TenDegreeAnnotation(h: real, d: real, change: real, year: string)
    requires h == 1000.0 && d == 10.0 && change == 0.1 && year == "2024"
    ensures var ann := Annotation(h, d, change, AnnotationText(d, change, year));
      && ann.Text? && ann.vertical && ann.rot == Rotate(10.0, 457.5, 533.0)
      && ann.content == Caption("010\U{B0}E 2024" + " (" + "6" + "'" + "E" + ")")
  {
    TenDegreeAnnotationText(d, change, year);
  }
}
