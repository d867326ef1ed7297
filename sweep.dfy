/** What a loop over the degrees 0 .. n - 1 appends, when pass k appends step(k): counting
    and selecting over such a document reduces to a fact about one pass and a fact about
    the integers. */
module Sweeps {
  import opened Svg

  /** step(0) + step(1) + ... + step(n - 1). */
  function Sweep(step: int -> seq<Elem>, n: nat): seq<Elem>
  {
    if n == 0 then [] else Sweep(step, n - 1) + step(n - 1)
  }

  /** The degrees 0 .. n - 1 that satisfy sel, in increasing order. */
  function Selected(sel: int -> bool, n: nat): seq<int>
  {
    if n == 0 then [] else Selected(sel, n - 1) + (if sel(n - 1) then [n - 1] else [])
  }

  /** When every pass contributes exactly one element satisfying p, the elements of the
      sweep satisfying p are those elements, in pass order. */
  lemma {:induction false} SweepEvery(step: int -> seq<Elem>, p: Elem -> bool, item: int -> Elem, n: nat)
    requires forall k :: 0 <= k < n ==> Filter(step(k), p) == [item(k)]
    ensures |Filter(Sweep(step, n), p)| == n
    ensures forall k :: 0 <= k < n ==> Filter(Sweep(step, n), p)[k] == item(k)
  {
    if n > 0 {
      var m := n - 1;
      assert Filter(step(m), p) == [item(m)];
      SweepEvery(step, p, item, m);
      FilterConcat(Sweep(step, m), step(m), p);
      var prev, all := Filter(Sweep(step, m), p), Filter(Sweep(step, n), p);
      assert all == prev + [item(m)];
      forall k | 0 <= k < n
        ensures all[k] == item(k)
      {
        if k < m {
          assert all[k] == prev[k];
        }
      }
    }
  }

  /** item(ks[0]), ..., item(ks[|ks| - 1]). */
  function Items(item: int -> Elem, ks: seq<int>): seq<Elem>
  {
    if ks == [] then [] else Items(item, ks[..|ks| - 1]) + [item(ks[|ks| - 1])]
  }

  lemma {:induction false} ItemsIndex(item: int -> Elem, ks: seq<int>)
    ensures |Items(item, ks)| == |ks|
    ensures forall j :: 0 <= j < |ks| ==> Items(item, ks)[j] == item(ks[j])
  {
    if ks != [] {
      ItemsIndex(item, ks[..|ks| - 1]);
    }
  }

  lemma {:induction false} ItemsAppend(item: int -> Elem, ks: seq<int>, extra: seq<int>)
    ensures Items(item, ks + extra) == Items(item, ks) + Items(item, extra)
    decreases |extra|
  {
    if extra != [] {
      var n := |extra| - 1;
      assert (ks + extra)[..|ks + extra| - 1] == ks + extra[..n];
      ItemsAppend(item, ks, extra[..n]);
    } else {
      assert ks + extra == ks;
    }
  }

  lemma ItemsOpt(item: int -> Elem, b: bool, k: int)
    ensures Items(item, if b then [k] else []) == if b then [item(k)] else []
  {
    assert [k][..0] == [];
  }

  lemma SelectStep(step: int -> seq<Elem>, p: Elem -> bool, sel: int -> bool, item: int -> Elem, m: nat)
    requires Filter(Sweep(step, m), p) == Items(item, Selected(sel, m))
    requires Filter(step(m), p) == if sel(m) then [item(m)] else []
    ensures Filter(Sweep(step, m + 1), p) == Items(item, Selected(sel, m + 1))
  {
    var extra := if sel(m) then [m] else [];
    calc {
      Filter(Sweep(step, m + 1), p);
      Filter(Sweep(step, m) + step(m), p);
      { FilterConcat(Sweep(step, m), step(m), p); }
      Filter(Sweep(step, m), p) + Filter(step(m), p);
      { ItemsOpt(item, sel(m), m); }
      Items(item, Selected(sel, m)) + Items(item, extra);
      { ItemsAppend(item, Selected(sel, m), extra); }
      Items(item, Selected(sel, m) + extra);
      Items(item, Selected(sel, m + 1));
    }
  }

  /** When pass k contributes one element satisfying p exactly if sel(k), the elements of
      the sweep satisfying p are those of the selected passes, in order. */
  lemma {:induction false} SweepSelect(step: int -> seq<Elem>, p: Elem -> bool, sel: int -> bool,
                                       item: int -> Elem, n: nat)
    requires forall k :: 0 <= k < n ==> Filter(step(k), p) == if sel(k) then [item(k)] else []
    ensures Filter(Sweep(step, n), p) == Items(item, Selected(sel, n))
  {
    if n > 0 {
      var m := n - 1;
      assert Filter(step(m), p) == if sel(m) then [item(m)] else [];
      SweepSelect(step, p, sel, item, m);
      assert Filter(Sweep(step, m), p) == Items(item, Selected(sel, m));
      SelectStep(step, p, sel, item, m);
    }
  }

  /** When the kth element of s satisfies p exactly if sel(k), s holds as many elements
      satisfying p as there are selected indices. */
  lemma {:induction false} CountIndexed(s: seq<Elem>, p: Elem -> bool, sel: int -> bool)
    requires forall k :: 0 <= k < |s| ==> (p(s[k]) <==> sel(k))
    ensures Count(s, p) == |Selected(sel, |s|)|
    decreases |s|
  {
    if s != [] {
      var m := |s| - 1;
      assert forall k :: 0 <= k < m ==> s[..m][k] == s[k];
      CountIndexed(s[..m], p, sel);
    }
  }

  /** When every pass consists of elements of the kinds p and q only, so does the sweep. */
  lemma {:induction false} SweepSplit(step: int -> seq<Elem>, p: Elem -> bool, q: Elem -> bool, n: nat)
    requires forall k :: 0 <= k < n ==> |step(k)| == Count(step(k), p) + Count(step(k), q)
    ensures |Sweep(step, n)| == Count(Sweep(step, n), p) + Count(Sweep(step, n), q)
  {
    if n > 0 {
      SweepSplit(step, p, q, n - 1);
      CountConcat(Sweep(step, n - 1), step(n - 1), p);
      CountConcat(Sweep(step, n - 1), step(n - 1), q);
    }
  }
}
