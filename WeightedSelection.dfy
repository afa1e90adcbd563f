/**
 * Weighted random choice among the variants: the eligible variants (positive weight) in document
 * order partition `[0, total)` into contiguous buckets sized by weight, and the draw `r` in `[0, 1)`
 * picks the bucket holding `r * total`.
 */
module WeightedSelection {
  import opened Wrappers

  /** The weight a variant contributes to the walk: its weight if positive, otherwise nothing. */
  function Eligible(w: real): real {
    if w > 0.0 then w else 0.0
  }

  /** Total weight of the eligible entries of `ws`. */
  function Sum(ws: seq<real>): (total: real)
    ensures total >= 0.0
    decreases |ws|
  {
    if ws == [] then 0.0 else Sum(ws[..|ws| - 1]) + Eligible(ws[|ws| - 1])
  }

  /**
   * The cumulative walk from position `i`, where `cum` is the weight already passed: the first
   * eligible entry whose running sum, its own weight included, exceeds `target`.
   */
  function PickFrom(ws: seq<real>, i: nat, cum: real, target: real): Option<nat>
    decreases |ws| - i
  {
    if i >= |ws| then None
    else if ws[i] > 0.0 && target < cum + ws[i] then Some(i)
    else PickFrom(ws, i + 1, cum + Eligible(ws[i]), target)
  }

  /** Where a draw `r` in `[0, 1)` lands on a line of length `total`. */
  function Draw(r: real, total: real): real {
    r * total
  }

  /** A draw lands on the line, short of its end unless the line is empty. */
  lemma {:induction false} DrawBounds(r: real, total: real)
    requires 0.0 <= r < 1.0 && 0.0 <= total
    ensures 0.0 <= Draw(r, total) <= total
    ensures 0.0 < total ==> Draw(r, total) < total
  {
    ProductBounds(r, total);
  }

  lemma {:induction false} ProductBounds(r: real, total: real)
    requires 0.0 <= r < 1.0 && 0.0 <= total
    ensures 0.0 <= r * total <= total
    ensures 0.0 < total ==> r * total < total
  {
  }

  /** The entry whose bucket holds `target`, or None when `target` lies beyond the total. */
  function Pick(ws: seq<real>, target: real): Option<nat> {
    PickFrom(ws, 0, 0.0, target)
  }

  /** Whatever the walk picks is an eligible entry at or after where it started. */
  lemma {:induction false} PickFromRange(ws: seq<real>, i: nat, cum: real, target: real)
    ensures PickFrom(ws, i, cum, target).Some? ==>
              var k := PickFrom(ws, i, cum, target).value;
              i <= k < |ws| && ws[k] > 0.0
    decreases |ws| - i
  {
    if i < |ws| && !(ws[i] > 0.0 && target < cum + ws[i]) {
      PickFromRange(ws, i + 1, cum + Eligible(ws[i]), target);
    }
  }

  lemma {:induction false} SumStep(ws: seq<real>, i: nat)
    requires i < |ws|
    ensures Sum(ws[..i + 1]) == Sum(ws[..i]) + Eligible(ws[i])
  {
    assert ws[..i + 1][..i] == ws[..i];
  }

  /** Prefix sums never decrease. */
  lemma {:induction false} SumMonotone(ws: seq<real>, a: nat, b: nat)
    requires a <= b <= |ws|
    ensures Sum(ws[..a]) <= Sum(ws[..b])
    decreases b - a
  {
    if a < b {
      SumStep(ws, a);
      SumMonotone(ws, a + 1, b);
    }
  }

  /** The total is zero exactly when no entry is eligible. */
  lemma {:induction false} SumZero(ws: seq<real>)
    ensures Sum(ws) == 0.0 <==> forall i :: 0 <= i < |ws| ==> ws[i] <= 0.0
    decreases |ws|
  {
    if ws != [] {
      var init := ws[..|ws| - 1];
      SumZero(init);
      assert forall i :: 0 <= i < |init| ==> init[i] == ws[i];
    }
  }

  /** What the walk from `i` returns, given that it has passed exactly the weight before `i`. */
  lemma {:induction false} PickFromSpec(ws: seq<real>, i: nat, cum: real, target: real)
    requires i <= |ws| && cum == Sum(ws[..i]) && cum <= target
    ensures PickFrom(ws, i, cum, target).None? <==> Sum(ws) <= target
    ensures PickFrom(ws, i, cum, target).Some? ==>
              var k := PickFrom(ws, i, cum, target).value;
              i <= k < |ws| && ws[k] > 0.0 && Sum(ws[..k]) <= target < Sum(ws[..k + 1])
    decreases |ws| - i
  {
    if i == |ws| {
      assert ws[..i] == ws;
    } else {
      SumStep(ws, i);
      if ws[i] > 0.0 && target < cum + ws[i] {
        SumMonotone(ws, i + 1, |ws|);
        assert ws[..|ws|] == ws;
      } else {
        PickFromSpec(ws, i + 1, cum + Eligible(ws[i]), target);
      }
    }
  }

  /** Buckets do not overlap. */
  lemma {:induction false} BucketsDisjoint(ws: seq<real>, j: nat, k: nat, target: real)
    requires j < |ws| && k < |ws|
    requires Sum(ws[..j]) <= target < Sum(ws[..j + 1])
    requires Sum(ws[..k]) <= target < Sum(ws[..k + 1])
    ensures j == k
  {
    if j < k {
      SumMonotone(ws, j + 1, k);
    } else if k < j {
      SumMonotone(ws, k + 1, j);
    }
  }

  /**
   * Entry `k` is picked exactly when `target` lies in its bucket `[Sum(ws[..k]), Sum(ws[..k + 1]))`,
   * an interval as long as the entry's eligible weight.
   */
  lemma {:induction false} PickBucket(ws: seq<real>, target: real, k: nat)
    requires 0.0 <= target
    ensures Pick(ws, target) == Some(k) <==> k < |ws| && Sum(ws[..k]) <= target < Sum(ws[..k + 1])
    ensures k < |ws| ==> Sum(ws[..k + 1]) - Sum(ws[..k]) == Eligible(ws[k])
  {
    PickFromSpec(ws, 0, 0.0, target);
    if k < |ws| {
      SumStep(ws, k);
      if Sum(ws[..k]) <= target < Sum(ws[..k + 1]) {
        SumMonotone(ws, k + 1, |ws|);
        assert ws[..|ws|] == ws;
        BucketsDisjoint(ws, Pick(ws, target).value, k, target);
      }
    }
  }

  /**
   * A target short of the total picks an eligible entry, unless no entry is eligible, in which
   * case it picks nothing.
   */
  lemma {:induction false} PickBelowTotal(ws: seq<real>, target: real)
    requires 0.0 <= target && (Sum(ws) > 0.0 ==> target < Sum(ws))
    ensures Pick(ws, target).None? <==> forall i :: 0 <= i < |ws| ==> ws[i] <= 0.0
    ensures Pick(ws, target).Some? ==>
              var k := Pick(ws, target).value;
              k < |ws| && ws[k] > 0.0 && Sum(ws[..k]) <= target < Sum(ws[..k + 1])
  {
    SumZero(ws);
    assert ws[..0] == [];
    PickFromSpec(ws, 0, 0.0, target);
  }

  /** A draw in `[0, 1)` scaled by the total therefore picks an eligible entry whenever there is one. */
  lemma {:induction false} DrawPicks(ws: seq<real>, r: real)
    requires 0.0 <= r < 1.0
    ensures Pick(ws, Draw(r, Sum(ws))).None? <==> forall i :: 0 <= i < |ws| ==> ws[i] <= 0.0
    ensures Pick(ws, Draw(r, Sum(ws))).Some? ==>
              var k := Pick(ws, Draw(r, Sum(ws))).value;
              k < |ws| && ws[k] > 0.0 && Sum(ws[..k]) <= Draw(r, Sum(ws)) < Sum(ws[..k + 1])
  {
    DrawBounds(r, Sum(ws));
    PickBelowTotal(ws, Draw(r, Sum(ws)));
  }

  /** The cumulative walk: total the eligible weights, scale the draw, walk the buckets in order. */
  method WeightedSelect(ws: seq<real>, r: real) returns (k: Option<nat>)
    ensures k == Pick(ws, Draw(r, Sum(ws)))
  {
    var total := 0.0;
    var i := 0;
    while i < |ws|
      invariant 0 <= i <= |ws|
      invariant total == Sum(ws[..i])
    {
      SumStep(ws, i);
      if ws[i] > 0.0 {
        total := total + ws[i];
      }
      i := i + 1;
    }
    assert ws[..|ws|] == ws;
    assert total == Sum(ws);
    var target := Draw(r, total);
    var cum := 0.0;
    i := 0;
    while i < |ws|
      invariant 0 <= i <= |ws|
      invariant PickFrom(ws, i, cum, target) == Pick(ws, target)
    {
      if ws[i] > 0.0 {
        if target < cum + ws[i] {
          assert PickFrom(ws, i, cum, target) == Some(i);
          return Some(i);
        }
        cum := cum + ws[i];
      }
      i := i + 1;
    }
    return None;
  }

  /** Weights 50/50: a draw of 0.1 picks the first entry, 0.6 the second. */
  lemma {:induction false} FiftyFifty()
    ensures Pick([50.0, 50.0], Draw(0.1, Sum([50.0, 50.0]))) == Some(0)
    ensures Pick([50.0, 50.0], Draw(0.6, Sum([50.0, 50.0]))) == Some(1)
  {
    var ws := [50.0, 50.0];
    assert ws[..1] == [50.0] && ws[..0] == [];
    assert Sum(ws) == 100.0;
  }

  /** A target exactly on a boundary belongs to the next bucket. */
  lemma {:induction false} BoundaryGoesToNext(w1: real, w2: real)
    requires w1 > 0.0 && w2 > 0.0
    ensures Pick([w1, w2], w1) == Some(1)
  {
    var ws := [w1, w2];
    assert PickFrom(ws, 1, w1, w1) == Some(1);
    assert PickFrom(ws, 0, 0.0, w1) == PickFrom(ws, 1, 0.0 + w1, w1);
  }
}
