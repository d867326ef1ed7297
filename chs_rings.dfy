/** What the two loops of the CHS rose emit: one tick per degree in order, labels on the
    multiples of ten (true ring) or the nonzero multiples of thirty (magnetic ring), and how
    many ticks of each tier and labels of each layout there are. Each fact is split into
    what one pass appends and a count over the degrees. */
module ChsRings {
  import opened Svg
  import opened Sweeps
  import opened Chs

  // ---------------------------------------------------------------------------------------
  // Classes of degrees

  predicate TenDegree(deg: int) { deg % 10 == 0 }
  predicate FiveDegree(deg: int) { deg % 10 != 0 && deg % 5 == 0 }
  predicate OneDegree(deg: int) { deg % 5 != 0 }
  predicate Cardinal(deg: int) { deg % 90 == 0 }
  predicate TenNotCardinal(deg: int) { deg % 90 != 0 && deg % 10 == 0 }

  // The jth label of the true ring is at 10 j degrees, that of the magnetic ring at 30 (j + 1).
  predicate TrueUprightLabel(j: int) { Upright(10 * j) }
  predicate TrueTurnedLabel(j: int) { !Upright(10 * j) }
  predicate MagUprightLabel(j: int) { Upright(30 * (j + 1)) }
  predicate MagTurnedLabel(j: int) { !Upright(30 * (j + 1)) }

  /** Upright labels among the first m of the true ring: 0 to 90, and 270 onward. */
  function TrueUprightCount(m: nat): nat
  {
    if m <= 10 then m else if m <= 27 then 10 else m - 17
  }

  /** Turned labels among the first m of the true ring: 100 to 260. */
  function TrueTurnedCount(m: nat): nat
  {
    if m <= 10 then 0 else if m <= 27 then m - 10 else 17
  }

  /** Labels of the magnetic ring among degrees 0 .. n - 1. */
  function MagLabelCount(n: nat): nat
  {
    if n == 0 then 0 else (n - 1) / 30
  }

  /** Upright labels among the first m of the magnetic ring: 30, 60, 90, then 270 onward. */
  function MagUprightCount(m: nat): nat
  {
    if m <= 3 then m else if m <= 8 then 3 else m - 5
  }

  /** Turned labels among the first m of the magnetic ring: 120 to 240. */
  function MagTurnedCount(m: nat): nat
  {
    if m <= 3 then 0 else if m <= 8 then m - 3 else 5
  }

  /** The number of multiples of q below m + 1 exceeds that below m by one exactly when m
      is a multiple of q. */
  lemma CeilingStep(n: nat, q: nat)
    requires n > 0
    requires q == 5 || q == 10 || q == 90
    ensures (n + q - 1) / q == (n - 1 + q - 1) / q + (if (n - 1) % q == 0 then 1 else 0)
  {
  }

  lemma SelectedStep(sel: int -> bool, n: nat)
    requires n > 0
    ensures Selected(sel, n) == Selected(sel, n - 1) + (if sel(n - 1) then [n - 1] else [])
    ensures |Selected(sel, n)| == |Selected(sel, n - 1)| + (if sel(n - 1) then 1 else 0)
  {
  }

  /** A multiple of ten is a multiple of five. */
  lemma TenIsFive(m: nat)
    requires m % 10 == 0
    ensures m % 5 == 0
  {
    assert m == 5 * (2 * (m / 10));
  }

  /** A multiple of ninety is a multiple of ten. */
  lemma CardinalIsTen(m: nat)
    requires m % 90 == 0
    ensures m % 10 == 0
  {
    assert m == 10 * (9 * (m / 90));
  }

  /** The multiples of ten below n. */
  lemma {:induction false} TenTally(n: nat)
    ensures |Selected(TenDegree, n)| == (n + 9) / 10
  {
    if n > 0 {
      var m := n - 1;
      TenTally(m);
      SelectedStep(TenDegree, n);
      CeilingStep(n, 10);
    }
  }

  /** The multiples of five below n that are not multiples of ten. */
  lemma {:induction false} FiveTally(n: nat)
    ensures |Selected(FiveDegree, n)| == (n + 4) / 5 - (n + 9) / 10
  {
    if n > 0 {
      var m := n - 1;
      FiveTally(m);
      SelectedStep(FiveDegree, n);
      CeilingStep(n, 5);
      CeilingStep(n, 10);
      if m % 10 == 0 {
        TenIsFive(m);
        assert !FiveDegree(m);
      } else if m % 5 == 0 {
        assert FiveDegree(m);
      } else {
        assert !FiveDegree(m);
      }
    }
  }

  /** The degrees below n that are not multiples of five. */
  lemma {:induction false} OneTally(n: nat)
    ensures |Selected(OneDegree, n)| == n - (n + 4) / 5
  {
    if n > 0 {
      var m := n - 1;
      OneTally(m);
      SelectedStep(OneDegree, n);
      CeilingStep(n, 5);
    }
  }

  /** The multiples of ninety below n. */
  lemma {:induction false} CardinalTally(n: nat)
    ensures |Selected(Cardinal, n)| == (n + 89) / 90
  {
    if n > 0 {
      var m := n - 1;
      CardinalTally(m);
      SelectedStep(Cardinal, n);
      CeilingStep(n, 90);
    }
  }

  /** The multiples of ten below n that are not multiples of ninety. */
  lemma {:induction false} TenNotCardinalTally(n: nat)
    ensures |Selected(TenNotCardinal, n)| == (n + 9) / 10 - (n + 89) / 90
  {
    if n > 0 {
      var m := n - 1;
      TenNotCardinalTally(m);
      SelectedStep(TenNotCardinal, n);
      CeilingStep(n, 10);
      CeilingStep(n, 90);
      if m % 90 == 0 {
        CardinalIsTen(m);
        assert !TenNotCardinal(m);
      } else if m % 10 == 0 {
        assert TenNotCardinal(m);
      } else {
        assert !TenNotCardinal(m);
      }
    }
  }

  /** The upright ones among the first m true-ring labels. */
  lemma {:induction false} TrueUprightTally(m: nat)
    ensures |Selected(TrueUprightLabel, m)| == TrueUprightCount(m)
  {
    if m > 0 {
      TrueUprightTally(m - 1);
      SelectedStep(TrueUprightLabel, m);
    }
  }

  /** The turned ones among the first m true-ring labels. */
  lemma {:induction false} TrueTurnedTally(m: nat)
    ensures |Selected(TrueTurnedLabel, m)| == TrueTurnedCount(m)
  {
    if m > 0 {
      TrueTurnedTally(m - 1);
      SelectedStep(TrueTurnedLabel, m);
    }
  }

  /** The degrees below n that carry a magnetic label. */
  lemma {:induction false} MagLabelTally(n: nat)
    ensures |Selected(MagLabelled, n)| == MagLabelCount(n)
  {
    if n > 0 {
      MagLabelTally(n - 1);
      SelectedStep(MagLabelled, n);
    }
  }

  /** The upright ones among the first m magnetic labels. */
  lemma {:induction false} MagUprightTally(m: nat)
    ensures |Selected(MagUprightLabel, m)| == MagUprightCount(m)
  {
    if m > 0 {
      MagUprightTally(m - 1);
      SelectedStep(MagUprightLabel, m);
    }
  }

  /** The turned ones among the first m magnetic labels. */
  lemma {:induction false} MagTurnedTally(m: nat)
    ensures |Selected(MagTurnedLabel, m)| == MagTurnedCount(m)
  {
    if m > 0 {
      MagTurnedTally(m - 1);
      SelectedStep(MagTurnedLabel, m);
    }
  }

  /** The multiples of ten below n, in order, are 0, 10, 20, ... */
  lemma {:induction false} TenDegreesInOrder(n: nat)
    ensures |Selected(TenDegree, n)| == (n + 9) / 10
    ensures forall j :: 0 <= j < |Selected(TenDegree, n)| ==> Selected(TenDegree, n)[j] == 10 * j
  {
    if n > 0 {
      var m := n - 1;
      TenDegreesInOrder(m);
      var before := Selected(TenDegree, m);
      SelectedStep(TenDegree, n);
      if TenDegree(m) {
        assert 10 * |before| == m;
      }
    }
  }

  /** The nonzero multiples of thirty below n, in order, are 30, 60, 90, ... */
  lemma {:induction false} MagDegreesInOrder(n: nat)
    ensures |Selected(MagLabelled, n)| == MagLabelCount(n)
    ensures forall j :: 0 <= j < |Selected(MagLabelled, n)| ==> Selected(MagLabelled, n)[j] == 30 * (j + 1)
  {
    if n > 0 {
      var m := n - 1;
      MagDegreesInOrder(m);
      var before := Selected(MagLabelled, m);
      SelectedStep(MagLabelled, n);
      if MagLabelled(m) {
        assert 30 * (|before| + 1) == m;
      }
    }
  }

  // ---------------------------------------------------------------------------------------
  // The true ring

  /** One degree of the true ring contributes its tick to the lines and, on a multiple of
      ten, its label to the texts, and nothing else. */
  lemma TrueStepKinds(h: real, deg: int)
    ensures Filter(TrueStep(h, deg), IsLine) == [TrueTick(h, deg)]
    ensures Filter(TrueStep(h, deg), IsText) == if TenDegree(deg) then [TrueLabel(h, deg)] else []
    ensures |TrueStep(h, deg)| == Count(TrueStep(h, deg), IsLine) + Count(TrueStep(h, deg), IsText)
  {
    var marks := if deg % 10 == 0 then [TrueLabel(h, deg)] else [];
    FilterStep(TrueTick(h, deg), marks, IsLine);
    FilterStep(TrueTick(h, deg), marks, IsText);
  }

  /** The true ring holds exactly one tick per degree 0 .. n - 1, in order, and one label
      per multiple of ten, in order; nothing else. */
  lemma TrueRingShape(h: real, n: nat)
    ensures |Filter(TrueRing(h, n), IsLine)| == n
    ensures forall k :: 0 <= k < n ==> Filter(TrueRing(h, n), IsLine)[k] == TrueTick(h, k)
    ensures |Filter(TrueRing(h, n), IsText)| == (n + 9) / 10
    ensures forall j :: 0 <= j < (n + 9) / 10 ==> Filter(TrueRing(h, n), IsText)[j] == TrueLabel(h, 10 * j)
    ensures |TrueRing(h, n)| == n + (n + 9) / 10
  {
    var step, tick, mark := TrueSteps(h), (k: int) => TrueTick(h, k), (k: int) => TrueLabel(h, k);
    forall k | 0 <= k < n
      ensures Filter(step(k), IsLine) == [tick(k)]
      ensures Filter(step(k), IsText) == if TenDegree(k) then [mark(k)] else []
      ensures |step(k)| == Count(step(k), IsLine) + Count(step(k), IsText)
    {
      TrueStepKinds(h, k);
    }
    SweepEvery(step, IsLine, tick, n);
    SweepSelect(step, IsText, TenDegree, mark, n);
    SweepSplit(step, IsLine, IsText, n);
    TenDegreesInOrder(n);
    ItemsIndex(mark, Selected(TenDegree, n));
  }

  /** A true-ring tick is turned by its degree and ends on the ring's edge; it is of exactly
      one tier, told apart by its inner end: every ten degrees, on the other multiples of
      five, or on every other degree. */
  lemma TrueTickTiers(h: real, deg: int)
    requires h > 0.0
    ensures var t, w, cx, cy, rt := TrueTick(h, deg), Width(h), CenterX(h), CenterY(h), TrueRadius(h);
      && t.Line? && t.rot == Rotate(deg as real, cx, cy) && t.y2 == cy - rt
      && (LineSpan(cy - 0.39 * w, cy - rt)(t) <==> TenDegree(deg))
      && (LineSpan(cy - 0.415 * w, cy - rt)(t) <==> FiveDegree(deg))
      && (LineSpan(cy - 0.433 * w, cy - rt)(t) <==> OneDegree(deg))
  {
  }

  /** Counting the true-ring ticks satisfying p is counting the degrees below n in sel,
      when p picks out the ticks of the degrees in sel. */
  lemma TrueRingTicks(h: real, n: nat, p: Elem -> bool, sel: int -> bool)
    requires forall e :: p(e) ==> e.Line?
    requires forall k :: 0 <= k < n ==> (p(TrueTick(h, k)) <==> sel(k))
    ensures Count(TrueRing(h, n), p) == |Selected(sel, n)|
  {
    TrueRingShape(h, n);
    var lines := Filter(TrueRing(h, n), IsLine);
    assert forall k :: 0 <= k < |lines| ==> (p(lines[k]) <==> sel(k));
    CountIndexed(lines, p, sel);
    CountWithin(TrueRing(h, n), IsLine, p);
  }

  /** For the first n degrees of the true ring: how many ticks of each tier. */
  lemma TrueRingTiers(h: real, n: nat)
    requires h > 0.0
    ensures var ring, w, cy, rt := TrueRing(h, n), Width(h), CenterY(h), TrueRadius(h);
      && Count(ring, LineSpan(cy - 0.39 * w, cy - rt)) == (n + 9) / 10
      && Count(ring, LineSpan(cy - 0.415 * w, cy - rt)) == (n + 4) / 5 - (n + 9) / 10
      && Count(ring, LineSpan(cy - 0.433 * w, cy - rt)) == n - (n + 4) / 5
  {
    var w, cy, rt := Width(h), CenterY(h), TrueRadius(h);
    forall k | 0 <= k < n
      ensures LineSpan(cy - 0.39 * w, cy - rt)(TrueTick(h, k)) <==> TenDegree(k)
      ensures LineSpan(cy - 0.415 * w, cy - rt)(TrueTick(h, k)) <==> FiveDegree(k)
      ensures LineSpan(cy - 0.433 * w, cy - rt)(TrueTick(h, k)) <==> OneDegree(k)
    {
      TrueTickTiers(h, k);
    }
    TrueRingTicks(h, n, LineSpan(cy - 0.39 * w, cy - rt), TenDegree);
    TrueRingTicks(h, n, LineSpan(cy - 0.415 * w, cy - rt), FiveDegree);
    TrueRingTicks(h, n, LineSpan(cy - 0.433 * w, cy - rt), OneDegree);
    TenTally(n);
    FiveTally(n);
    OneTally(n);
  }

  /** A true-ring label prints its degree; it is upright, turned by the degree and above
      the ring, or turned half a revolution less and hanging below it. */
  lemma TrueLabelLayouts(h: real, deg: int)
    ensures var t, cx, cy, rt := TrueLabel(h, deg), CenterX(h), CenterY(h), TrueRadius(h);
      && t.Text? && t.content == Degrees(deg)
      && t.rot == (if Upright(deg) then Rotate(deg as real, cx, cy) else Rotate(deg as real - 180.0, cx, cy))
      && (TextAt(cy - rt - 2.0, false)(t) <==> Upright(deg))
      && (TextAt(cy + rt + 2.0, true)(t) <==> !Upright(deg))
  {
  }

  /** Counting the true-ring labels satisfying p is counting the label indices below
      (n + 9) / 10 in sel, when p picks out the labels whose index is in sel. */
  lemma TrueRingLabels(h: real, n: nat, p: Elem -> bool, sel: int -> bool)
    requires forall e :: p(e) ==> e.Text?
    requires forall j :: 0 <= j < (n + 9) / 10 ==> (p(TrueLabel(h, 10 * j)) <==> sel(j))
    ensures Count(TrueRing(h, n), p) == |Selected(sel, (n + 9) / 10)|
  {
    TrueRingShape(h, n);
    var texts := Filter(TrueRing(h, n), IsText);
    assert forall j :: 0 <= j < |texts| ==> (p(texts[j]) <==> sel(j));
    CountIndexed(texts, p, sel);
    CountWithin(TrueRing(h, n), IsText, p);
  }

  /** For the first n degrees of the true ring: how many labels of each layout. */
  lemma TrueRingLayouts(h: real, n: nat)
    ensures var ring, cy, rt := TrueRing(h, n), CenterY(h), TrueRadius(h);
      && Count(ring, TextAt(cy - rt - 2.0, false)) == TrueUprightCount((n + 9) / 10)
      && Count(ring, TextAt(cy + rt + 2.0, true)) == TrueTurnedCount((n + 9) / 10)
  {
    var cy, rt := CenterY(h), TrueRadius(h);
    forall j | 0 <= j < (n + 9) / 10
      ensures TextAt(cy - rt - 2.0, false)(TrueLabel(h, 10 * j)) <==> TrueUprightLabel(j)
      ensures TextAt(cy + rt + 2.0, true)(TrueLabel(h, 10 * j)) <==> TrueTurnedLabel(j)
    {
      TrueLabelLayouts(h, 10 * j);
    }
    TrueRingLabels(h, n, TextAt(cy - rt - 2.0, false), TrueUprightLabel);
    TrueRingLabels(h, n, TextAt(cy + rt + 2.0, true), TrueTurnedLabel);
    TrueUprightTally((n + 9) / 10);
    TrueTurnedTally((n + 9) / 10);
  }

  /** The sizes of the first n degrees of the true ring: n ticks, (n + 9) / 10 labels. */
  lemma TrueRingSizes(h: real, n: nat)
    ensures var ring := TrueRing(h, n);
      |ring| == n + (n + 9) / 10 && Count(ring, IsLine) == n && Count(ring, IsText) == (n + 9) / 10
  {
    TrueRingShape(h, n);
  }

  /** The whole true ring is 396 elements long. */
  lemma TrueRingLength(h: real)
    ensures |TrueRing(h, 360)| == 396
  {
    TrueRingSizes(h, 360);
  }

  /** The whole true ring: 360 ticks, 36 every ten degrees, 36 more every five, 288 single
      degrees; 36 labels, 19 upright (0 to 90 and 270 to 350) and 17 turned (100 to 260). */
  lemma TrueRingCounts(h: real)
    requires h > 0.0
    ensures var ring, w, cy, rt := TrueRing(h, 360), Width(h), CenterY(h), TrueRadius(h);
      && |ring| == 396 && Count(ring, IsLine) == 360 && Count(ring, IsText) == 36
      && Count(ring, LineSpan(cy - 0.39 * w, cy - rt)) == 36
      && Count(ring, LineSpan(cy - 0.415 * w, cy - rt)) == 36
      && Count(ring, LineSpan(cy - 0.433 * w, cy - rt)) == 288
      && Count(ring, TextAt(cy - rt - 2.0, false)) == 19
      && Count(ring, TextAt(cy + rt + 2.0, true)) == 17
  {
    TrueRingSizes(h, 360);
    TrueRingTiers(h, 360);
    TrueRingLayouts(h, 360);
    assert (360 + 9) / 10 == 36 && TrueUprightCount(36) == 19 && TrueTurnedCount(36) == 17;
  }

  // ---------------------------------------------------------------------------------------
  // The magnetic ring

  /** One degree of the magnetic ring contributes its tick to the lines and, on a nonzero
      multiple of thirty, its label to the texts, and nothing else. */
  lemma MagStepKinds(h: real, d: real, deg: int)
    ensures Filter(MagStep(h, d, deg), IsLine) == [MagTick(h, d, deg)]
    ensures Filter(MagStep(h, d, deg), IsText) == if MagLabelled(deg) then [MagLabel(h, d, deg)] else []
    ensures |MagStep(h, d, deg)| == Count(MagStep(h, d, deg), IsLine) + Count(MagStep(h, d, deg), IsText)
  {
    var marks := if MagLabelled(deg) then [MagLabel(h, d, deg)] else [];
    FilterStep(MagTick(h, d, deg), marks, IsLine);
    FilterStep(MagTick(h, d, deg), marks, IsText);
  }

  /** Every magnetic tick, whatever its tier, is turned by its degree plus the declination. */
  lemma MagTickTurned(h: real, d: real, deg: int)
    ensures MagTick(h, d, deg).Line? && MagTick(h, d, deg).rot == Rotate(deg as real + d, CenterX(h), CenterY(h))
  {
  }

  /** The magnetic ring holds exactly one tick per degree 0 .. n - 1, in order, each turned
      by its degree plus the declination, and one label per nonzero multiple of thirty, in
      order; nothing else. */
  lemma MagRingShape(h: real, d: real, n: nat)
    ensures |Filter(MagRing(h, d, n), IsLine)| == n
    ensures forall k :: 0 <= k < n ==> Filter(MagRing(h, d, n), IsLine)[k] == MagTick(h, d, k)
    ensures forall k :: 0 <= k < n ==>
      (Filter(MagRing(h, d, n), IsLine)[k].Line?
       && Filter(MagRing(h, d, n), IsLine)[k].rot == Rotate(k as real + d, CenterX(h), CenterY(h)))
    ensures |Filter(MagRing(h, d, n), IsText)| == MagLabelCount(n)
    ensures forall j :: 0 <= j < MagLabelCount(n) ==>
      Filter(MagRing(h, d, n), IsText)[j] == MagLabel(h, d, 30 * (j + 1))
    ensures |MagRing(h, d, n)| == n + MagLabelCount(n)
  {
    var step, tick, mark := MagSteps(h, d), (k: int) => MagTick(h, d, k), (k: int) => MagLabel(h, d, k);
    forall k | 0 <= k < n
      ensures Filter(step(k), IsLine) == [tick(k)]
      ensures Filter(step(k), IsText) == if MagLabelled(k) then [mark(k)] else []
      ensures |step(k)| == Count(step(k), IsLine) + Count(step(k), IsText)
    {
      MagStepKinds(h, d, k);
    }
    SweepEvery(step, IsLine, tick, n);
    SweepSelect(step, IsText, MagLabelled, mark, n);
    SweepSplit(step, IsLine, IsText, n);
    forall k | 0 <= k < n
      ensures MagTick(h, d, k).Line? && MagTick(h, d, k).rot == Rotate(k as real + d, CenterX(h), CenterY(h))
    {
      MagTickTurned(h, d, k);
    }
    MagDegreesInOrder(n);
    ItemsIndex(mark, Selected(MagLabelled, n));
  }

  /** A magnetic tick is of exactly one of four tiers, told apart by its two ends: from the
      centre circle on the cardinal degrees, long on the other multiples of ten, medium on
      the other multiples of five, short on every other degree. */
  lemma MagTickTiers(h: real, d: real, deg: int)
    requires h > 0.0
    ensures var t, w, cy, rc, rm := MagTick(h, d, deg), Width(h), CenterY(h), CenterRadius(h), MagRadius(h);
      && (LineSpan(cy - rc, cy - rm - 0.015 * w)(t) <==> Cardinal(deg))
      && (LineSpan(cy - rm, cy - rm - 0.015 * w)(t) <==> TenNotCardinal(deg))
      && (LineSpan(cy - rm, cy - rm - 0.012 * w)(t) <==> FiveDegree(deg))
      && (LineSpan(cy - rm, cy - rm - 0.003 * w)(t) <==> OneDegree(deg))
  {
  }

  /** Counting the magnetic ticks satisfying p is counting the degrees below n in sel,
      when p picks out the ticks of the degrees in sel. */
  lemma MagRingTicks(h: real, d: real, n: nat, p: Elem -> bool, sel: int -> bool)
    requires forall e :: p(e) ==> e.Line?
    requires forall k :: 0 <= k < n ==> (p(MagTick(h, d, k)) <==> sel(k))
    ensures Count(MagRing(h, d, n), p) == |Selected(sel, n)|
  {
    MagRingShape(h, d, n);
    var lines := Filter(MagRing(h, d, n), IsLine);
    assert forall k :: 0 <= k < |lines| ==> (p(lines[k]) <==> sel(k));
    CountIndexed(lines, p, sel);
    CountWithin(MagRing(h, d, n), IsLine, p);
  }

  /** Ticks from the centre circle, on the cardinal degrees, among the first n degrees of the magnetic ring. */
  lemma MagRingCardinalTicks(h: real, d: real, n: nat)
    requires h > 0.0
    ensures var w, cy, rc, rm := Width(h), CenterY(h), CenterRadius(h), MagRadius(h);
      Count(MagRing(h, d, n), LineSpan(cy - rc, cy - rm - 0.015 * w)) == (n + 89) / 90
  {
    var w, cy, rc, rm := Width(h), CenterY(h), CenterRadius(h), MagRadius(h);
    forall k | 0 <= k < n
      ensures LineSpan(cy - rc, cy - rm - 0.015 * w)(MagTick(h, d, k)) <==> Cardinal(k)
    {
      MagTickTiers(h, d, k);
    }
    MagRingTicks(h, d, n, LineSpan(cy - rc, cy - rm - 0.015 * w), Cardinal);
    CardinalTally(n);
  }

  /** Long ticks, on the other multiples of ten, among the first n degrees of the magnetic ring. */
  lemma MagRingTenTicks(h: real, d: real, n: nat)
    requires h > 0.0
    ensures var w, cy, rc, rm := Width(h), CenterY(h), CenterRadius(h), MagRadius(h);
      Count(MagRing(h, d, n), LineSpan(cy - rm, cy - rm - 0.015 * w)) == (n + 9) / 10 - (n + 89) / 90
  {
    var w, cy, rc, rm := Width(h), CenterY(h), CenterRadius(h), MagRadius(h);
    forall k | 0 <= k < n
      ensures LineSpan(cy - rm, cy - rm - 0.015 * w)(MagTick(h, d, k)) <==> TenNotCardinal(k)
    {
      MagTickTiers(h, d, k);
    }
    MagRingTicks(h, d, n, LineSpan(cy - rm, cy - rm - 0.015 * w), TenNotCardinal);
    TenNotCardinalTally(n);
  }

  /** Medium ticks, on the other multiples of five, among the first n degrees of the magnetic ring. */
  lemma MagRingFiveTicks(h: real, d: real, n: nat)
    requires h > 0.0
    ensures var w, cy, rc, rm := Width(h), CenterY(h), CenterRadius(h), MagRadius(h);
      Count(MagRing(h, d, n), LineSpan(cy - rm, cy - rm - 0.012 * w)) == (n + 4) / 5 - (n + 9) / 10
  {
    var w, cy, rc, rm := Width(h), CenterY(h), CenterRadius(h), MagRadius(h);
    forall k | 0 <= k < n
      ensures LineSpan(cy - rm, cy - rm - 0.012 * w)(MagTick(h, d, k)) <==> FiveDegree(k)
    {
      MagTickTiers(h, d, k);
    }
    MagRingTicks(h, d, n, LineSpan(cy - rm, cy - rm - 0.012 * w), FiveDegree);
    FiveTally(n);
  }

  /** Short ticks among the first n degrees of the magnetic ring. */
  lemma MagRingOneTicks(h: real, d: real, n: nat)
    requires h > 0.0
    ensures var w, cy, rc, rm := Width(h), CenterY(h), CenterRadius(h), MagRadius(h);
      Count(MagRing(h, d, n), LineSpan(cy - rm, cy - rm - 0.003 * w)) == n - (n + 4) / 5
  {
    var w, cy, rc, rm := Width(h), CenterY(h), CenterRadius(h), MagRadius(h);
    forall k | 0 <= k < n
      ensures LineSpan(cy - rm, cy - rm - 0.003 * w)(MagTick(h, d, k)) <==> OneDegree(k)
    {
      MagTickTiers(h, d, k);
    }
    MagRingTicks(h, d, n, LineSpan(cy - rm, cy - rm - 0.003 * w), OneDegree);
    OneTally(n);
  }

  /** For the first n degrees of the magnetic ring: how many ticks of each of the four tiers. */
  lemma MagRingTiers(h: real, d: real, n: nat)
    requires h > 0.0
    ensures var ring, w, cy, rc, rm := MagRing(h, d, n), Width(h), CenterY(h), CenterRadius(h), MagRadius(h);
      && Count(ring, LineSpan(cy - rc, cy - rm - 0.015 * w)) == (n + 89) / 90
      && Count(ring, LineSpan(cy - rm, cy - rm - 0.015 * w)) == (n + 9) / 10 - (n + 89) / 90
      && Count(ring, LineSpan(cy - rm, cy - rm - 0.012 * w)) == (n + 4) / 5 - (n + 9) / 10
      && Count(ring, LineSpan(cy - rm, cy - rm - 0.003 * w)) == n - (n + 4) / 5
  {
    MagRingCardinalTicks(h, d, n);
    MagRingTenTicks(h, d, n);
    MagRingFiveTicks(h, d, n);
    MagRingOneTicks(h, d, n);
  }

  /** A magnetic label prints its degree, not the degree plus the declination; it is
      upright, turned by v = deg + d and outside the ring, or turned by v - 180 and hanging
      on the far side. The layout follows the degree printed, whatever the declination. */
  lemma MagLabelLayouts(h: real, d: real, deg: int)
    ensures var t, w, cx, cy, rm := MagLabel(h, d, deg), Width(h), CenterX(h), CenterY(h), MagRadius(h);
      && t.Text? && t.content == Degrees(deg)
      && t.rot == (if Upright(deg) then Rotate(deg as real + d, cx, cy) else Rotate(deg as real + d - 180.0, cx, cy))
      && (TextAt(cy - 1.0 - rm - 0.015 * w, false)(t) <==> Upright(deg))
      && (TextAt(cy + 1.0 + rm + 0.015 * w, true)(t) <==> !Upright(deg))
  {
  }

  /** Counting the magnetic labels satisfying p is counting the label indices in sel, when
      p picks out the labels whose index is in sel. */
  lemma MagRingLabels(h: real, d: real, n: nat, p: Elem -> bool, sel: int -> bool)
    requires forall e :: p(e) ==> e.Text?
    requires forall j :: 0 <= j < MagLabelCount(n) ==> (p(MagLabel(h, d, 30 * (j + 1))) <==> sel(j))
    ensures Count(MagRing(h, d, n), p) == |Selected(sel, MagLabelCount(n))|
  {
    MagRingShape(h, d, n);
    var texts := Filter(MagRing(h, d, n), IsText);
    assert forall j :: 0 <= j < |texts| ==> (p(texts[j]) <==> sel(j));
    CountIndexed(texts, p, sel);
    CountWithin(MagRing(h, d, n), IsText, p);
  }

  /** Upright labels among the first n degrees of the magnetic ring. */
  lemma MagRingUprightLabels(h: real, d: real, n: nat)
    ensures var w, cy, rm := Width(h), CenterY(h), MagRadius(h);
      Count(MagRing(h, d, n), TextAt(cy - 1.0 - rm - 0.015 * w, false)) == MagUprightCount(MagLabelCount(n))
  {
    var w, cy, rm := Width(h), CenterY(h), MagRadius(h);
    forall j | 0 <= j < MagLabelCount(n)
      ensures TextAt(cy - 1.0 - rm - 0.015 * w, false)(MagLabel(h, d, 30 * (j + 1))) <==> MagUprightLabel(j)
    {
      MagLabelLayouts(h, d, 30 * (j + 1));
    }
    MagRingLabels(h, d, n, TextAt(cy - 1.0 - rm - 0.015 * w, false), MagUprightLabel);
    MagUprightTally(MagLabelCount(n));
  }

  /** Turned labels among the first n degrees of the magnetic ring. */
  lemma MagRingTurnedLabels(h: real, d: real, n: nat)
    ensures var w, cy, rm := Width(h), CenterY(h), MagRadius(h);
      Count(MagRing(h, d, n), TextAt(cy + 1.0 + rm + 0.015 * w, true)) == MagTurnedCount(MagLabelCount(n))
  {
    var w, cy, rm := Width(h), CenterY(h), MagRadius(h);
    forall j | 0 <= j < MagLabelCount(n)
      ensures TextAt(cy + 1.0 + rm + 0.015 * w, true)(MagLabel(h, d, 30 * (j + 1))) <==> MagTurnedLabel(j)
    {
      MagLabelLayouts(h, d, 30 * (j + 1));
    }
    MagRingLabels(h, d, n, TextAt(cy + 1.0 + rm + 0.015 * w, true), MagTurnedLabel);
    MagTurnedTally(MagLabelCount(n));
  }

  /** For the first n degrees of the magnetic ring: how many labels of each layout. */
  lemma MagRingLayouts(h: real, d: real, n: nat)
    ensures var ring, w, cy, rm := MagRing(h, d, n), Width(h), CenterY(h), MagRadius(h);
      && Count(ring, TextAt(cy - 1.0 - rm - 0.015 * w, false)) == MagUprightCount(MagLabelCount(n))
      && Count(ring, TextAt(cy + 1.0 + rm + 0.015 * w, true)) == MagTurnedCount(MagLabelCount(n))
  {
    MagRingUprightLabels(h, d, n);
    MagRingTurnedLabels(h, d, n);
  }

  /** The sizes of the first n degrees of the magnetic ring: n ticks, MagLabelCount(n) labels. */
  lemma MagRingSizes(h: real, d: real, n: nat)
    ensures var ring := MagRing(h, d, n);
      |ring| == n + MagLabelCount(n) && Count(ring, IsLine) == n && Count(ring, IsText) == MagLabelCount(n)
  {
    MagRingShape(h, d, n);
  }

  /** The whole magnetic ring is 371 elements long. */
  lemma MagRingLength(h: real, d: real)
    ensures |MagRing(h, d, 360)| == 371
  {
    MagRingSizes(h, d, 360);
    assert MagLabelCount(360) == 11;
  }

  /** The whole magnetic ring: 360 ticks, 4 cardinal, 32 more every ten degrees, 36 more
      every five, 288 single degrees; 11 labels, 6 upright and 5 turned. */
  lemma MagRingCounts(h: real, d: real)
    requires h > 0.0
    ensures var ring, w, cy, rc, rm := MagRing(h, d, 360), Width(h), CenterY(h), CenterRadius(h), MagRadius(h);
      && |ring| == 371 && Count(ring, IsLine) == 360 && Count(ring, IsText) == 11
      && Count(ring, LineSpan(cy - rc, cy - rm - 0.015 * w)) == 4
      && Count(ring, LineSpan(cy - rm, cy - rm - 0.015 * w)) == 32
      && Count(ring, LineSpan(cy - rm, cy - rm - 0.012 * w)) == 36
      && Count(ring, LineSpan(cy - rm, cy - rm - 0.003 * w)) == 288
      && Count(ring, TextAt(cy - 1.0 - rm - 0.015 * w, false)) == 6
      && Count(ring, TextAt(cy + 1.0 + rm + 0.015 * w, true)) == 5
  {
    MagRingSizes(h, d, 360);
    assert MagLabelCount(360) == 11;
    MagRingTierTotals(h, d);
    MagRingLabelTotals(h, d);
  }

  lemma MagRingTierTotals(h: real, d: real)
    requires h > 0.0
    ensures var ring, w, cy, rc, rm := MagRing(h, d, 360), Width(h), CenterY(h), CenterRadius(h), MagRadius(h);
      && Count(ring, LineSpan(cy - rc, cy - rm - 0.015 * w)) == 4
      && Count(ring, LineSpan(cy - rm, cy - rm - 0.015 * w)) == 32
      && Count(ring, LineSpan(cy - rm, cy - rm - 0.012 * w)) == 36
      && Count(ring, LineSpan(cy - rm, cy - rm - 0.003 * w)) == 288
  {
    MagRingTiers(h, d, 360);
  }

  lemma MagRingLabelTotals(h: real, d: real)
    ensures var ring, w, cy, rm := MagRing(h, d, 360), Width(h), CenterY(h), MagRadius(h);
      && Count(ring, TextAt(cy - 1.0 - rm - 0.015 * w, false)) == 6
      && Count(ring, TextAt(cy + 1.0 + rm + 0.015 * w, true)) == 5
  {
    MagRingLayouts(h, d, 360);
    assert MagLabelCount(360) == 11 && MagUprightCount(11) == 6 && MagTurnedCount(11) == 5;
  }
}
