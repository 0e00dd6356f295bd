/** The greedy merge sweep over the border statistics and the one-step
    relabelling that applies it. */
module Merging {
  import opened Raster

  /** regionMapping right after std::iota: mapping[k] == k. */
  function Identity(n: nat): (m: seq<int>)
    ensures |m| == n && forall k :: 0 <= k < n ==> m[k] == k
  {
    seq(n, k => k)
  }

  /** The merge test on the counts of pair (i, j): some border and a
      similarity ratio sim / eff above one half, stated on integers. */
  predicate Redirects(eff: seq<seq<int>>, sim: seq<seq<int>>, n: nat, i: int, j: int)
    requires IsGrid(eff, n + 1, n + 1) && IsGrid(sim, n + 1, n + 1) && 0 <= i <= n && 0 <= j <= n
  {
    eff[i][j] > 0 && 2 * sim[i][j] > eff[i][j]
  }

  /** The source compares the ratio sim / eff, a double, with 0.5; for
      eff > 0 that is the integer test of Redirects. */
  lemma RatioTest(sim: int, eff: int)
    requires eff > 0
    ensures (sim as real) / (eff as real) > 0.5 <==> 2 * sim > eff
  {
    var e := eff as real;
    var r := (sim as real) / e;
    var d := 2.0 * r - 1.0;
    assert r * e == sim as real;
    assert d * e == (2 * sim - eff) as real;
    if d > 0.0 {
      SignOfProduct(d, e);
    } else {
      SignOfProduct(-d, e);
    }
  }

  lemma SignOfProduct(d: real, e: real)
    requires d >= 0.0 && e > 0.0
    ensures d > 0.0 ==> d * e > 0.0
    ensures d * e >= 0.0
  {
  }

  /** The mapping before the sweep visits pair (i, j); pairs are visited for
      i = 1..n and, for each i, j = i..n. */
  function MappingBefore(eff: seq<seq<int>>, sim: seq<seq<int>>, n: nat, i: nat, j: nat): (m: seq<int>)
    requires IsGrid(eff, n + 1, n + 1) && IsGrid(sim, n + 1, n + 1)
    requires 1 <= i <= n + 1 && i <= j <= n + 1
    ensures |m| == n + 1
    decreases i, j
  {
    if j == i then
      if i == 1 then Identity(n + 1) else MappingBefore(eff, sim, n, i - 1, n + 1)
    else
      var m := MappingBefore(eff, sim, n, i, j - 1);
      if Redirects(eff, sim, n, i, j - 1) then m[j - 1 := m[i]] else m
  }

  /** regionMapping after the whole sweep. */
  function FinalMapping(eff: seq<seq<int>>, sim: seq<seq<int>>, n: nat): (m: seq<int>)
    requires IsGrid(eff, n + 1, n + 1) && IsGrid(sim, n + 1, n + 1)
    ensures |m| == n + 1
  {
    MappingBefore(eff, sim, n, n + 1, n + 1)
  }

  /** What holds of the mapping throughout the sweep: 0 maps to 0, every id
      k >= 1 maps to an id in 1..k, every image of the mapping is a fixed
      point, and an id that has moved points at an id of an already visited
      row. */
  ghost predicate SweepInvariant(m: seq<int>, n: nat, i: nat)
  {
    |m| == n + 1 && m[0] == 0 &&
    (forall k :: 1 <= k <= n ==> 1 <= m[k] <= k) &&
    (forall k :: 0 <= k <= n ==> m[k] == k || m[k] <= i) &&
    (forall k :: 0 <= k <= n ==> m[m[k]] == m[k])
  }

  lemma {:induction false} SweepInvariantHolds(eff: seq<seq<int>>, sim: seq<seq<int>>, n: nat, i: nat, j: nat)
    requires IsGrid(eff, n + 1, n + 1) && IsGrid(sim, n + 1, n + 1)
    requires 1 <= i <= n + 1 && i <= j <= n + 1
    ensures SweepInvariant(MappingBefore(eff, sim, n, i, j), n, i)
    decreases i, j
  {
    if j == i {
      if i > 1 {
        SweepInvariantHolds(eff, sim, n, i - 1, n + 1);
      }
    } else {
      SweepInvariantHolds(eff, sim, n, i, j - 1);
      var m := MappingBefore(eff, sim, n, i, j - 1);
      if Redirects(eff, sim, n, i, j - 1) && j - 1 > i {
        var m' := m[j - 1 := m[i]];
        assert m[i] <= i;
        forall k | 0 <= k <= n ensures m'[m'[k]] == m'[k] {
          if k != j - 1 {
            assert m[k] != j - 1;
          }
        }
      }
    }
  }

  /** The final mapping: 0 stays 0, 1 <= mapping[k] <= k for k in 1..n, and
      it is idempotent, so relabelling once already yields representatives
      (a second lookup changes nothing). */
  lemma FinalMappingShape(eff: seq<seq<int>>, sim: seq<seq<int>>, n: nat)
    requires IsGrid(eff, n + 1, n + 1) && IsGrid(sim, n + 1, n + 1)
    ensures var m := FinalMapping(eff, sim, n);
      m[0] == 0 && (forall k :: 1 <= k <= n ==> 1 <= m[k] <= k) &&
      (forall k :: 0 <= k <= n ==> m[m[k]] == m[k])
  {
    SweepInvariantHolds(eff, sim, n, n + 1, n + 1);
  }

  /** An id is redirected only if the merge test held for it and some
      smaller id. */
  lemma {:induction false} RedirectNeedsCriterion(eff: seq<seq<int>>, sim: seq<seq<int>>, n: nat, i: nat, j: nat, k: nat)
    requires IsGrid(eff, n + 1, n + 1) && IsGrid(sim, n + 1, n + 1)
    requires 1 <= i <= n + 1 && i <= j <= n + 1 && k <= n
    requires MappingBefore(eff, sim, n, i, j)[k] != k
    ensures exists r :: 1 <= r < k && Redirects(eff, sim, n, r, k)
    decreases i, j
  {
    if j == i {
      if i > 1 {
        RedirectNeedsCriterion(eff, sim, n, i - 1, n + 1, k);
      }
    } else {
      var m := MappingBefore(eff, sim, n, i, j - 1);
      if Redirects(eff, sim, n, i, j - 1) && k == j - 1 && k != i {
        assert 1 <= i < k;
      } else {
        RedirectNeedsCriterion(eff, sim, n, i, j - 1, k);
      }
    }
  }

  lemma FinalRedirectNeedsCriterion(eff: seq<seq<int>>, sim: seq<seq<int>>, n: nat, k: nat)
    requires IsGrid(eff, n + 1, n + 1) && IsGrid(sim, n + 1, n + 1) && k <= n
    requires FinalMapping(eff, sim, n)[k] != k
    ensures exists r :: 1 <= r < k && Redirects(eff, sim, n, r, k)
  {
    RedirectNeedsCriterion(eff, sim, n, n + 1, n + 1, k);
  }

  /** The label grid after the single-lookup relabelling. */
  function Relabelled(labels: seq<seq<int>>, m: seq<int>, rows: nat, cols: nat): (r: seq<seq<int>>)
    requires IsGrid(labels, rows, cols)
    requires forall y, x :: 0 <= y < rows && 0 <= x < cols ==> 0 <= labels[y][x] < |m|
    ensures IsGrid(r, rows, cols)
    ensures forall y, x :: 0 <= y < rows && 0 <= x < cols ==> r[y][x] == m[labels[y][x]]
  {
    seq(rows, y requires 0 <= y < rows => seq(cols, x requires 0 <= x < cols => m[labels[y][x]]))
  }

  /** After relabelling with the final mapping, every label is a fixed point
      of the mapping, stays within 0..n, never grows, and is 0 exactly where
      growth left the pixel unlabelled. */
  lemma RelabelledAreRepresentatives(labels: seq<seq<int>>, eff: seq<seq<int>>, sim: seq<seq<int>>, n: nat,
                                     rows: nat, cols: nat)
    requires IsGrid(eff, n + 1, n + 1) && IsGrid(sim, n + 1, n + 1) && IsGrid(labels, rows, cols)
    requires forall y, x :: 0 <= y < rows && 0 <= x < cols ==> 0 <= labels[y][x] <= n
    ensures var m := FinalMapping(eff, sim, n);
      var r := Relabelled(labels, m, rows, cols);
      forall y, x :: 0 <= y < rows && 0 <= x < cols ==>
        0 <= r[y][x] <= labels[y][x] && (r[y][x] == 0 <==> labels[y][x] == 0)
    ensures var m := FinalMapping(eff, sim, n);
      var r := Relabelled(labels, m, rows, cols);
      forall y, x :: 0 <= y < rows && 0 <= x < cols ==> m[r[y][x]] == r[y][x]
  {
    FinalMappingShape(eff, sim, n);
  }
}
