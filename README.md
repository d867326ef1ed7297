# Compass rose renderers

A model of the two SVG compass-rose renderers of the rose service, and proofs of what
they emit.

- `chs.js` `exports.rose(height, dec, change, year)` is the CHS rose. It checks the
  height, then grows a result string by appending, in order:
  - the svg root and two centre marks;
  - a true ring of 360 ticks with a label every ten degrees;
  - a star at north;
  - a magnetic ring of 360 ticks turned by the declination, with a label every thirty
    degrees except north;
  - one annotation giving the declination, the year and the annual change in minutes;
  - the three lines of the magnetic-north arrow;
  - the closing tag.
- `basic.js` `exports.rose(height)` is the basic rose. It makes the same checks, then
  appends a square svg root, two concentric circles and the closing tag.

The model keeps the renderers' form. Each `result += …` is a call to `Svg.Append`, and
each `for (deg …)` loop is a `while` loop. Beside the string, each method keeps a ghost
list of the elements emitted so far (`Svg.Elem`). Its contract says that the result
string is the rendering of that list (`Svg.Render`), and that the list is the
specification function's document (`Chs.Document`, `Basic.Document`).

The lemmas then state what the source promises about those documents:
- the order and position of every part;
- the tier of every tick and the layout of every label;
- the exact number of elements of each kind and tier;
- which parts depend on which inputs;
- the text of the declination annotation, and the carry that bounds its minutes.

Numbers are Dafny `real`s. The host's conversion of a number to text is the parameter
`num`, so nothing depends on the decimal text of IEEE doubles. The JavaScript numeric
primitives the renderers use are written out in module `Js`: `Math.floor`,
`Math.trunc`, `Math.round`, `Math.abs`, the remainder `% 1`, `String()` of an integer
and `padStart`.

Modules:
- `Js`: the JavaScript primitives.
- `Input`: the height and its validation.
- `Svg`: elements, markup, rendering and counting.
- `Sweeps`: what a loop over the degrees appends.
- `Declination`: the annotation text and the change conversion.
- `Chs`: the CHS renderer.
- `ChsRings`: facts about the two ring loops.
- `ChsDocument`: facts about the whole CHS document.
- `Basic`: the basic renderer.

## Model

| member | source | states |
|---|---|---|
| Js.Floor | chs.js:399-401 | Math.floor: the greatest integer not above x |
| Js.Abs | chs.js:399-400 | Math.abs: non-negative, and x or -x |
| Js.Trunc | chs.js:387 | Math.trunc: rounds toward zero, from below for x ≥ 0 and from above for x < 0 |
| Js.Rem1 | chs.js:389 | `d % 1` keeps the sign of d: in [0, 1) for d ≥ 0, in (-1, 0] for d < 0, and d minus it is whole |
| Js.Round | chs.js:405 | Math.round: within half of x, with halves going up |
| Js.IntStr | chs.js:387 | String() of an integer: a minus sign exactly for negatives, then decimal digits |
| Js.NatStrRoundTrip | chs.js:387 | reading back the digits of a natural number gives the number |
| Js.IntStrRoundTrip | chs.js:387 | reading back String() of an integer gives the integer, so the printed degree loses nothing |
| Js.PadStart | chs.js:388 | padStart(3, "0"): length max(|s|, n), ends with s, and everything before s is the fill character |
| Input.ValidateHeight | chs.js:19-22 | the checks as documented: Ok exactly for a convertible positive height, with that value; TypeError("Empty") for an empty height, TypeError("Not a number") for a non-number, RangeError("Height cannot be <= 0") for a height ≤ 0 |
| Input.ValidateHeightAsWritten | chs.js:19-22 | the checks as written: anything loosely equal to "" throws TypeError("Empty"); Ok exactly for a convertible positive height |
| Input.ZeroHeightIsEmpty | chs.js:19 | the written checks throw TypeError("Empty") for the number 0, where the documented answer is the RangeError |
| Input.ValidationAgreesSaveZero | chs.js:19-22 | the written and documented checks agree on every height except the number 0 |
| Svg.JoinConcat | chs.js:40-515 | the fragments of a + b are those of a followed by those of b |
| Svg.RenderConcat | chs.js:40-515 | rendering a + b is rendering a, then rendering b: appends accumulate in order |
| Svg.JoinAppends | chs.js:40-43 | joining the fragments from the empty string is a way of writing each element after those before it |
| Svg.Append | chs.js:43 | `result += markup(e)`: the new result renders the old document with e added at the end |
| Svg.RenderFrame | chs.js:43-515 | a document ending in the closing tag renders as its first element, the middle, then "</svg>\n" |
| Declination.HasHalfMark | chs.js:389 | the " ½" is added exactly when d ≥ 0 and d's fractional part is at least 0.5; never for a negative d |
| Declination.DeclinationLabel | chs.js:387-396 | the successive appends to strDec build the declination label |
| Declination.DeclinationTextParts | chs.js:387-396 | the label is the zero-padded degree (at least three characters, ending in String(trunc d)), the half mark, "°", "E " for d ≥ 0 or "W ", then the year |
| Declination.DeclinationTextTen | chs.js:387-396 | d = 10 and year "2024" give "010°E 2024" |
| Declination.DeclinationTextHalf | chs.js:389 | d = 7.5 gives "007 ½°E 2024" |
| Declination.DeclinationTextNegative | chs.js:387-392 | d = -5.5 pads its minus sign literally, "0-5°W 2024", with no half mark |
| Declination.DeclinationTextSmallWest | chs.js:387-395 | d = -0.7 truncates to a zero printed "0", giving "000°W " |
| Declination.RoundedSeconds | chs.js:399-405 | the change rounded to whole seconds of arc is non-negative and within half a second of 3600·abs(change) |
| Declination.ChangeMinutes | chs.js:399-412 | the printed minutes lie in 0 .. 59 |
| Declination.ChangeDirection | chs.js:402-403 | "W" exactly when change < 0, and "E" exactly when change ≥ 0 |
| Declination.MixedRadix | chs.js:406-413 | minutes and seconds below 60 determine the degree-minute split uniquely |
| Declination.AnnualChange | chs.js:399-413 | after the carry, dc ≥ 0, 0 ≤ mc < 60, 0 ≤ sc < 60 (seconds never 60), the three together equal the rounded seconds, mc is the printed minutes and mdir the direction |
| Declination.ChangeMinutesExamples | chs.js:399-414 | a change of ±0.1 prints 6 minutes, 0.25 prints 15, and 0.9999 rounds to 3600 seconds and carries to 0 minutes |
| Chs.Rose | chs.js:17-518 | an invalid height throws its error and returns no string; otherwise the result is the rendering of the full document for h, d, change and year |
| Chs.EmitHeader | chs.js:42-80 | appends the svg root for width 0.915·h and height h, the centre dot and the centre circle |
| Chs.EmitTrueRose | chs.js:83-192 | the true-ring loop appends the passes for degrees 0 .. 359 in order |
| Chs.EmitTrueDegree | chs.js:86-192 | one pass appends the degree's tick, then its label if it has one |
| Chs.EmitTrueTick | chs.js:88-149 | appends the tick of the degree's tier |
| Chs.EmitTrueLabel | chs.js:152-191 | appends a label exactly when deg % 10 == 0, in the layout of its semicircle |
| Chs.EmitStar | chs.js:194-250 | appends the star polygon and its stem |
| Chs.EmitMagneticRose | chs.js:253-384 | the magnetic-ring loop appends the passes for degrees 0 .. 359 in order |
| Chs.EmitMagneticDegree | chs.js:254-384 | one pass appends the degree's tick, then its label if it has one |
| Chs.EmitMagneticTick | chs.js:258-341 | appends the tick of the degree's tier, turned by deg + d |
| Chs.EmitMagneticLabel | chs.js:344-383 | appends a label exactly when deg is a nonzero multiple of 30 |
| Chs.AnnotationLabel | chs.js:387-414 | strDec is the declination label followed by " (" minutes "'" direction ")" |
| Chs.EmitAnnotation | chs.js:417-455 | appends the one annotation text element for the sign of the change |
| Chs.EmitArrow | chs.js:456-512 | appends the three arrow lines |
| ChsRings.TenDegreesInOrder | chs.js:152-191 | the labelled true degrees below n are 0, 10, 20, … in order, (n + 9) / 10 of them |
| ChsRings.MagDegreesInOrder | chs.js:344-383 | the labelled magnetic degrees below n are 30, 60, 90, … in order |
| ChsRings.TrueStepKinds | chs.js:86-192 | one true pass adds exactly one line, its tick, and a text element exactly on multiples of 10, and nothing else |
| ChsRings.TrueRingShape | chs.js:86-192 | the first n passes hold exactly n lines, the ticks of 0 .. n - 1 in order, and (n + 9) / 10 texts, the labels of 0, 10, 20, … in order, and nothing else |
| ChsRings.TrueTickTiers | chs.js:88-149 | each true tick is turned by deg and ends at cy - rt; it starts at cy - 0.39w exactly when deg % 10 == 0, at cy - 0.415w exactly on the other multiples of 5, and at cy - 0.433w exactly on the rest |
| ChsRings.TrueRingTiers | chs.js:88-149 | among the first n degrees: (n + 9) / 10 ticks of the first tier, (n + 4) / 5 - (n + 9) / 10 of the second, n - (n + 4) / 5 of the third |
| ChsRings.TrueLabelLayouts | chs.js:152-191 | a true label prints deg; for deg ≤ 90 or ≥ 270 it is at cy - rt - 2, turned by deg, with no baseline attribute; otherwise it is at cy + rt + 2, turned by deg - 180, hanging |
| ChsRings.TrueRingLayouts | chs.js:152-191 | upright and turned true labels among the first n degrees number as the upright and turned tens among them |
| ChsRings.TrueRingSizes | chs.js:86-192 | the first n passes hold n lines and (n + 9) / 10 texts, n + (n + 9) / 10 elements in all |
| ChsRings.TrueRingLength | chs.js:86-192 | the whole true ring is 396 elements long |
| ChsRings.TrueRingCounts | chs.js:83-192 | the whole true ring: 360 lines (36, 36 and 288 by tier) and 36 labels (19 upright, 17 turned) |
| ChsRings.MagStepKinds | chs.js:254-384 | one magnetic pass adds exactly one line, its tick, and a text element exactly on nonzero multiples of 30 |
| ChsRings.MagTickTurned | chs.js:255-341 | every magnetic tick is turned by v = deg + d |
| ChsRings.MagRingShape | chs.js:254-384 | the first n passes hold the n ticks in order, each turned by k + d, and the labels of 30, 60, … in order, and nothing else |
| ChsRings.MagTickTiers | chs.js:258-341 | a magnetic tick runs from cy - rc to cy - rm - 0.015w exactly when deg % 90 == 0; from cy - rm to cy - rm - 0.015w exactly on the other multiples of 10; to cy - rm - 0.012w exactly on the other multiples of 5; to cy - rm - 0.003w exactly on the rest |
| ChsRings.MagRingCardinalTicks | chs.js:258-279 | (n + 89) / 90 cardinal ticks among the first n degrees |
| ChsRings.MagRingTenTicks | chs.js:280-300 | (n + 9) / 10 - (n + 89) / 90 long ticks among the first n degrees |
| ChsRings.MagRingFiveTicks | chs.js:301-321 | (n + 4) / 5 - (n + 9) / 10 medium ticks among the first n degrees |
| ChsRings.MagRingOneTicks | chs.js:322-341 | n - (n + 4) / 5 short ticks among the first n degrees |
| ChsRings.MagRingTiers | chs.js:258-341 | the four tier counts among the first n degrees together |
| ChsRings.MagLabelLayouts | chs.js:344-383 | a magnetic label prints the unshifted deg; the upright or turned choice is made on deg, not on v; it is outside the ring and turned by v, or on the far side, hanging and turned by v - 180 |
| ChsRings.MagRingUprightLabels | chs.js:344-363 | upright magnetic labels among the first n degrees |
| ChsRings.MagRingTurnedLabels | chs.js:364-383 | turned magnetic labels among the first n degrees |
| ChsRings.MagRingLayouts | chs.js:344-383 | both label-layout counts among the first n degrees |
| ChsRings.MagRingSizes | chs.js:254-384 | the first n passes hold n lines and MagLabelCount(n) texts, and nothing else |
| ChsRings.MagRingLength | chs.js:254-384 | the whole magnetic ring is 371 elements long |
| ChsRings.MagRingTierTotals | chs.js:258-341 | the whole magnetic ring has 4, 32, 36 and 288 ticks of the four tiers |
| ChsRings.MagRingLabelTotals | chs.js:344-383 | the whole magnetic ring has 6 upright and 5 turned labels |
| ChsRings.MagRingCounts | chs.js:253-384 | the whole magnetic ring: 360 lines (4, 32, 36, 288 by tier) and 11 labels (6 upright, 5 turned) |
| ChsDocument.DocumentLayout | chs.js:40-515 | the document is 777 elements: the header at 0 .. 2, the true ring at 3 .. 398, the star at 399 .. 400, the magnetic ring at 401 .. 771, the annotation at 772, the arrow at 773 .. 775, and the closing tag last |
| ChsDocument.TrueHalfDependence | chs.js:40-250 | the header, true ring and star are the same whatever the declination, change and year |
| ChsDocument.AnnotationDependence | chs.js:387-455 | changing only the change and the year changes nothing but the annotation |
| ChsDocument.DocumentCount | chs.js:40-515 | counting a kind of element over the document is counting it part by part |
| ChsDocument.HeaderCount | chs.js:42-80 | the header counts element by element |
| ChsDocument.StarCount | chs.js:194-250 | the star counts element by element |
| ChsDocument.ArrowCount | chs.js:456-512 | the arrow counts element by element |
| ChsDocument.RingKinds | chs.js:83-384 | the true ring has 360 lines and 36 texts; the magnetic ring has 360 lines and 11 texts |
| ChsDocument.DocumentLines | chs.js:40-515 | 724 lines: two rings of 360, the star's stem and the three arrow lines |
| ChsDocument.DocumentTexts | chs.js:40-515 | 48 texts: 36 true labels, 11 magnetic labels and the annotation |
| ChsDocument.DocumentOthers | chs.js:40-515 | elements other than lines and texts come only from the header, star, arrow and closing tag |
| ChsDocument.DocumentOpens | chs.js:43-55 | exactly one svg root |
| ChsDocument.DocumentCloses | chs.js:515 | exactly one closing tag |
| ChsDocument.DocumentCircles | chs.js:57-80 | exactly two circles: the centre dot and the centre circle |
| ChsDocument.DocumentPolygons | chs.js:194-238 | exactly one polygon, the star |
| ChsDocument.DocumentCensus | chs.js:40-515 | the whole census: 1 root, 1 closing tag, 2 circles, 1 polygon, 724 lines, 48 texts, 777 elements |
| ChsDocument.ArrowShape | chs.js:456-512 | the three arrow lines are all turned by d; the shaft starts at the magnetic ring's inner radius above the centre, and each segment starts where the previous one ends |
| ChsDocument.RenderedDocument | chs.js:40-517 | the output starts with the svg root for width 0.915·h and height h, and ends with "</svg>\n" |
| ChsDocument.AnnotationLayouts | chs.js:417-455 | the annotation shows the given text; it is vertical exactly when change > 0, turned by d exactly when change > 0, and turned by d - 90 exactly when change ≤ 0 |
| ChsDocument.NoChangeAnnotation | chs.js:402-455 | with no change, the annotation takes the horizontal layout while the printed direction stays "E" |
| ChsDocument.TenthMinutes | chs.js:399-414 | a change of 0.1 prints the minutes "6" |
| ChsDocument.TenDegreeAnnotationText | chs.js:387-414 | d = 10, change 0.1 and year "2024" give "010°E 2024 (6'E)" |
| ChsDocument.TenDegreeAnnotation | chs.js:417-436 | on a 1000-unit rose with those values, the annotation is vertical, turned by 10 about (457.5, 533), and shows that text |
| Basic.Rose | basic.js:14-77 | an invalid height throws its error and returns no string; otherwise the result is the rendering of the basic document |
| Basic.EmitRose | basic.js:21-73 | appends the square svg root, the thick circle, the thin circle and the closing tag, in that order |
| Basic.BasicGeometry | basic.js:21-70 | the canvas is h by h; both circles are centred at (h/2, h/2); the thin one is inside the thick one; the thick stroke stays inside the canvas |
| Basic.HundredUnitCircles | basic.js:46-70 | for h = 100 the thick circle is centred at (50, 50) with radius 32 and stroke width 2.5, and the thin one has radius 27.5 and the literal stroke width "1" |
| Basic.BasicCensus | basic.js:31-73 | one svg root, two circles, one closing tag and no lines |

## Left out

- service.js is not part of this model: it is the HTTP server, query parsing, logging and response writes.
- The decimal text of computed JavaScript numbers is not modelled: every computed coordinate, size and angle reaches the markup through the parameter `num`, with Dafny reals for IEEE-754 doubles, so no contract states concrete digits of one. The whole numbers printed as text (the degree labels, the truncated declination and the minutes of the change) are written exactly by `Js.IntStr`.
- JavaScript value coercion is reduced to the four kinds of `Input.HeightInput`. `Number(dec)`, and NaN or infinite values of `dec` and `change`, are not modelled: d and change are reals.
- The year is a string appended as it is; a number passed as year, and its conversion to text, is not modelled.
- What the SVG draws is not modelled: the geometry of `rotate()`, and the star polygon's shape beyond its ten vertices.
- `result` and `deg` are implicit globals in the source; the model treats them as locals.
- The declination lookup service that supplies `dec` is not part of this model.
- The degrees `dc` and seconds `sc` of the annual change are never printed. They are modelled only through the carry in `Declination.AnnualChange`.
- Chs.Rose: validates with the documented checks, `Input.ValidateHeight`, not the written ones that treat the number 0 as empty (see Findings).
- Basic.Rose: validates with the documented checks in the same way.

## Findings

| source | as written | input that shows it | evidently intended | confidence | as-written member | corrected member |
|---|---|---|---|---|---|---|
| chs.js:19 (and basic.js:16) | `height == ""` uses loose equality, which is true for the number 0, so the function throws TypeError("Empty") | height = 0 (a number, as the service passes it) | RangeError("Height cannot be <= 0"), as the documented errors say: TypeError for a missing or non-numeric height, RangeError for one that is not positive | high, not executed | Input.ValidateHeightAsWritten, Input.ZeroHeightIsEmpty | Input.ValidateHeight |
