/*
 * The value bookkeeping around the remote point evaluation of the non-nested
 * transfer (`prolongate_and_add_internal_comp`,
 * `restrict_and_add_internal_comp`): averaging the values a point receives
 * from several cells, dividing summed values by the number of cells, and
 * moving values between support points and fine DoFs through
 * `level_dof_indices_fine` (with or without `level_dof_indices_fine_ptrs`).
 *
 * A point value (`value_type`) is a vector of `nComponents` reals.
 */
module PointValues {
  import opened Arithmetic

  /** Every value has `nc` components. */
  predicate Shaped(vals: seq<seq<real>>, nc: nat)
  {
    forall j :: 0 <= j < |vals| ==> |vals[j]| == nc
  }

  /** `ptr` cuts a sequence of length at most `bound` into consecutive segments. */
  predicate Segments(ptr: seq<nat>, bound: nat)
  {
    |ptr| > 0
    && (forall i, j :: 0 <= i < j < |ptr| ==> ptr[i] <= ptr[j])
    && ptr[|ptr| - 1] <= bound
  }

  function Zero(nc: nat): (r: seq<real>)
    ensures |r| == nc && forall c :: 0 <= c < nc ==> r[c] == 0.0
  {
    seq(nc, _ => 0.0)
  }

  function Add(a: seq<real>, b: seq<real>): (r: seq<real>)
    requires |a| == |b|
    ensures |r| == |a| && forall c :: 0 <= c < |a| ==> r[c] == a[c] + b[c]
  {
    seq(|a|, c requires 0 <= c < |a| => a[c] + b[c])
  }

  /** Component-wise division by a positive count. */
  function Divide(a: seq<real>, n: nat): (r: seq<real>)
    requires n > 0
    ensures |r| == |a| && forall c :: 0 <= c < |a| ==> r[c] == a[c] / n as real
  {
    seq(|a|, c requires 0 <= c < |a| => a[c] / n as real)
  }

  /** The sum of `vals[a..b]`. */
  function SegmentSum(vals: seq<seq<real>>, nc: nat, a: nat, b: nat): (r: seq<real>)
    requires a <= b <= |vals| && Shaped(vals, nc)
    ensures |r| == nc
    decreases b - a
  {
    if a == b then Zero(nc) else Add(SegmentSum(vals, nc, a, b - 1), vals[b - 1])
  }

  /** The mean of `vals[a..b]`; the zero value for an empty segment. */
  function Mean(vals: seq<seq<real>>, nc: nat, a: nat, b: nat): (r: seq<real>)
    requires a <= b <= |vals| && Shaped(vals, nc)
    ensures |r| == nc
  {
    if a < b then Divide(SegmentSum(vals, nc, a, b), b - a) else Zero(nc)
  }

  /** One segment of the averaging loop: `result += temp[ptr[i] + j]`, then `result /= n_entries`. */
  method AverageSegment(vals: seq<seq<real>>, nc: nat, a: nat, b: nat) returns (result: seq<real>)
    requires a <= b <= |vals| && Shaped(vals, nc)
    ensures result == Mean(vals, nc, a, b)
  {
    var nEntries := b - a;
    result := Zero(nc);
    if nEntries > 0 {
      var j := 0;
      while j < nEntries
        invariant 0 <= j <= nEntries
        invariant result == SegmentSum(vals, nc, a, a + j)
      {
        result := Add(result, vals[a + j]);
        j := j + 1;
      }
      result := Divide(result, nEntries);
    }
  }

  /**
   * The prolongation's weighting when a point is owned by several cells:
   * the values of point i are replaced by their mean over `ptr[i]..ptr[i + 1]`.
   */
  method Average(vals: seq<seq<real>>, nc: nat, ptr: seq<nat>) returns (results: seq<seq<real>>)
    requires Shaped(vals, nc) && Segments(ptr, |vals|)
    ensures |results| == |ptr| - 1 && Shaped(results, nc)
    ensures forall i :: 0 <= i < |ptr| - 1 ==> results[i] == Mean(vals, nc, ptr[i], ptr[i + 1])
  {
    results := [];
    var i := 0;
    while i < |ptr| - 1
      invariant 0 <= i <= |ptr| - 1 && |results| == i && Shaped(results, nc)
      invariant forall k :: 0 <= k < i ==> results[k] == Mean(vals, nc, ptr[k], ptr[k + 1])
    {
      var result := AverageSegment(vals, nc, ptr[i], ptr[i + 1]);
      results := results + [result];
      i := i + 1;
    }
  }

  /** k copies of x added up, as the loops accumulate them. */
  function Repeat(k: nat, x: real): real
  {
    if k == 0 then 0.0 else Repeat(k - 1, x) + x
  }

  /** Adding up k copies of x gives `k * x`. */
  lemma {:induction false} RepeatIsProduct(k: nat, x: real)
    ensures Repeat(k, x) == k as real * x
  {
    if k > 0 {
      RepeatIsProduct(k - 1, x);
      assert k as real * x == (k - 1) as real * x + x;
    }
  }

  /** Every component of a sum of equal values is the count times that component. */
  lemma {:induction false} SegmentSumConstant(vals: seq<seq<real>>, nc: nat, a: nat, b: nat, v: seq<real>)
    requires a <= b <= |vals| && Shaped(vals, nc) && |v| == nc
    requires forall p :: a <= p < b ==> vals[p] == v
    ensures forall c :: 0 <= c < nc ==> SegmentSum(vals, nc, a, b)[c] == Repeat(b - a, v[c])
    decreases b - a
  {
    if a < b {
      SegmentSumConstant(vals, nc, a, b - 1, v);
      forall c | 0 <= c < nc
        ensures SegmentSum(vals, nc, a, b)[c] == Repeat(b - a, v[c])
      {
        assert SegmentSum(vals, nc, a, b)[c] == SegmentSum(vals, nc, a, b - 1)[c] + v[c];
      }
    }
  }

  /** Averaging a point that receives the same value from every cell gives back that value. */
  lemma MeanOfEqualValues(vals: seq<seq<real>>, nc: nat, a: nat, b: nat, v: seq<real>)
    requires a < b <= |vals| && Shaped(vals, nc) && |v| == nc
    requires forall p :: a <= p < b ==> vals[p] == v
    ensures Mean(vals, nc, a, b) == v
  {
    SegmentSumConstant(vals, nc, a, b, v);
    var n := (b - a) as real;
    forall c | 0 <= c < nc
      ensures Mean(vals, nc, a, b)[c] == v[c]
    {
      RepeatIsProduct(b - a, v[c]);
      assert SegmentSum(vals, nc, a, b)[c] == n * v[c];
      assert n * v[c] / n == v[c];
    }
  }

  /**
   * The restriction's weighting: `evaluation_point_results[i] /= n_entries`,
   * skipping points with no entries.
   */
  method Normalise(vals: seq<seq<real>>, ptr: seq<nat>) returns (results: seq<seq<real>>)
    requires |vals| == |ptr| - 1 && forall i, j :: 0 <= i < j < |ptr| ==> ptr[i] <= ptr[j]
    ensures |results| == |vals|
    ensures forall i :: 0 <= i < |vals| ==>
      results[i] == (if ptr[i] < ptr[i + 1] then Divide(vals[i], ptr[i + 1] - ptr[i]) else vals[i])
  {
    results := vals;
    var i := 0;
    while i < |ptr| - 1
      invariant 0 <= i <= |ptr| - 1 && |results| == |vals|
      invariant forall k :: 0 <= k < i ==>
        results[k] == (if ptr[k] < ptr[k + 1] then Divide(vals[k], ptr[k + 1] - ptr[k]) else vals[k])
      invariant forall k :: i <= k < |vals| ==> results[k] == vals[k]
    {
      var nEntries := ptr[i + 1] - ptr[i];
      if nEntries == 0 {
        i := i + 1;
        continue;
      }
      results := results[i := Divide(results[i], nEntries)];
      i := i + 1;
    }
  }

  /** The sums of the segments of `ptr`. */
  function SegmentSums(vals: seq<seq<real>>, nc: nat, ptr: seq<nat>): (r: seq<seq<real>>)
    requires Shaped(vals, nc) && Segments(ptr, |vals|)
    ensures |r| == |ptr| - 1
    ensures forall i :: 0 <= i < |ptr| - 1 ==> r[i] == SegmentSum(vals, nc, ptr[i], ptr[i + 1])
  {
    seq(|ptr| - 1, i requires 0 <= i < |ptr| - 1 => SegmentBounds(ptr, |vals|, i); SegmentSum(vals, nc, ptr[i], ptr[i + 1]))
  }

  /** Segment i of `ptr` lies inside the sequence it cuts. */
  lemma SegmentBounds(ptr: seq<nat>, bound: nat, i: nat)
    requires Segments(ptr, bound) && i < |ptr| - 1
    ensures ptr[i] <= ptr[i + 1] <= bound
  {
    assert ptr[i + 1] <= ptr[|ptr| - 1];
  }

  /** Averaging is summing each segment and then dividing by its length, as the restriction does. */
  lemma AverageIsNormalisedSums(vals: seq<seq<real>>, nc: nat, ptr: seq<nat>, i: nat)
    requires Shaped(vals, nc) && Segments(ptr, |vals|) && i < |ptr| - 1
    ensures var s := SegmentSums(vals, nc, ptr);
      Mean(vals, nc, ptr[i], ptr[i + 1])
      == (if ptr[i] < ptr[i + 1] then Divide(s[i], ptr[i + 1] - ptr[i]) else s[i])
  {
    assert ptr[i] <= ptr[i + 1];
  }

  /* ---- Moving values between support points and fine DoFs ---- */

  /** An update `dst[index] += value`. */
  datatype Contribution = Contribution(index: nat, value: real)

  /** The first entry of DoF block i in `fine`, `nc * i`, as repeated addition. */
  function Offset(nc: nat, i: nat): nat
  {
    if i == 0 then 0 else Offset(nc, i - 1) + nc
  }

  /** The offset of block i is the product `nc * i` the loops compute. */
  lemma {:induction false} OffsetIsProduct(nc: nat, i: nat)
    ensures Offset(nc, i) == nc * i
  {
    if i > 0 {
      OffsetIsProduct(nc, i - 1);
      MulAddDistrib(i - 1, 1, nc);
    }
  }

  /** Later blocks start later. */
  lemma {:induction false} OffsetMonotone(nc: nat, i: nat, j: nat)
    requires i <= j
    ensures Offset(nc, i) <= Offset(nc, j)
    decreases j - i
  {
    if i < j {
      OffsetMonotone(nc, i, j - 1);
    }
  }

  /** The components of one value, written to the DoFs `fine[nc*i + c]`. */
  function ComponentUpdates(fine: seq<nat>, nc: nat, i: nat, v: seq<real>): (r: seq<Contribution>)
    requires |v| == nc && Offset(nc, i) + nc <= |fine|
    ensures |r| == nc
    ensures forall c :: 0 <= c < nc ==> r[c] == Contribution(fine[Offset(nc, i) + c], v[c])
  {
    seq(nc, c requires 0 <= c < nc => Contribution(fine[Offset(nc, i) + c], v[c]))
  }

  /** The updates for the DoF blocks `a..b` that all receive the same value. */
  function BlockUpdates(fine: seq<nat>, nc: nat, a: nat, b: nat, v: seq<real>): seq<Contribution>
    requires a <= b && |v| == nc && Offset(nc, b) <= |fine|
    decreases b - a
  {
    if a == b then [] else BlockUpdates(fine, nc, a, b - 1, v) + ComponentUpdates(fine, nc, b - 1, v)
  }

  /** The block offsets in use: `ptrs`, or the unit offsets `0, 1, …, total` (one block per point) when there are none. */
  function Blocks(ptrs: seq<nat>, total: nat): (r: seq<nat>)
    ensures |ptrs| == 0 ==> |r| == total + 1 && forall i :: 0 <= i <= total ==> r[i] == i
    ensures |ptrs| > 0 ==> r == ptrs
  {
    if |ptrs| == 0 then seq(total + 1, i => i) else ptrs
  }

  /** The block offsets in use `p` cover `total` points, never decrease and stay inside `fine`. */
  predicate Layout(fine: seq<nat>, p: seq<nat>, nc: nat, total: nat)
  {
    total < |p| && (forall i, j :: 0 <= i < j < |p| ==> p[i] <= p[j]) && Offset(nc, p[|p| - 1]) <= |fine|
  }

  /** Where point j writes its value: every DoF block `p[j]..p[j + 1]`. */
  function PointUpdates(fine: seq<nat>, p: seq<nat>, nc: nat, total: nat, j: nat, v: seq<real>): seq<Contribution>
    requires |v| == nc && Layout(fine, p, nc, total) && j < total
  {
    LayoutPoint(fine, p, nc, total, j);
    BlockUpdates(fine, nc, p[j], p[j + 1], v)
  }

  /** All updates of the scatter loop for points `0..m`, point by point. */
  function Updates(results: seq<seq<real>>, fine: seq<nat>, p: seq<nat>, nc: nat, m: nat): seq<Contribution>
    requires m <= |results| && Shaped(results, nc) && Layout(fine, p, nc, |results|)
  {
    if m == 0 then []
    else Updates(results, fine, p, nc, m - 1) + PointUpdates(fine, p, nc, |results|, m - 1, results[m - 1])
  }

  /** The DoF blocks point j uses lie inside `fine`. */
  lemma LayoutPoint(fine: seq<nat>, p: seq<nat>, nc: nat, total: nat, j: nat)
    requires Layout(fine, p, nc, total) && j < total
    ensures j + 1 < |p| && p[j] <= p[j + 1] && Offset(nc, p[j + 1]) <= |fine|
  {
    OffsetMonotone(nc, p[j + 1], p[|p| - 1]);
  }

  /** Without `ptrs`, point j writes exactly the DoFs of block j. */
  lemma SingleBlock(fine: seq<nat>, nc: nat, total: nat, j: nat, v: seq<real>)
    requires |v| == nc && Layout(fine, Blocks([], total), nc, total) && j < total
    ensures Offset(nc, j) + nc <= |fine|
    ensures PointUpdates(fine, Blocks([], total), nc, total, j, v) == ComponentUpdates(fine, nc, j, v)
  {
    LayoutPoint(fine, Blocks([], total), nc, total, j);
    assert BlockUpdates(fine, nc, j, j, v) == [];
  }

  /** The effect of applying the first n updates in order; an update outside `dst` changes nothing. */
  function Applied(dst: seq<real>, us: seq<Contribution>, n: nat): (r: seq<real>)
    requires n <= |us|
    ensures |r| == |dst|
  {
    if n == 0 then dst
    else
      var d := Applied(dst, us, n - 1);
      var u := us[n - 1];
      if u.index < |d| then d[u.index := d[u.index] + u.value] else d
  }

  /** The effect of applying all updates in order. */
  function Apply(dst: seq<real>, us: seq<Contribution>): (r: seq<real>)
    ensures |r| == |dst|
  {
    Applied(dst, us, |us|)
  }

  /** The first n updates of `us + vs` are those of `us`. */
  lemma {:induction false} AppliedPrefix(dst: seq<real>, us: seq<Contribution>, vs: seq<Contribution>, n: nat)
    requires n <= |us|
    ensures Applied(dst, us + vs, n) == Applied(dst, us, n)
  {
    if n > 0 {
      AppliedPrefix(dst, us, vs, n - 1);
      assert (us + vs)[n - 1] == us[n - 1];
    }
  }

  /** Applying `us + vs` up to k updates into `vs`. */
  lemma {:induction false} AppliedConcat(dst: seq<real>, us: seq<Contribution>, vs: seq<Contribution>, k: nat)
    requires k <= |vs|
    ensures Applied(dst, us + vs, |us| + k) == Applied(Apply(dst, us), vs, k)
  {
    if k == 0 {
      AppliedPrefix(dst, us, vs, |us|);
    } else {
      AppliedConcat(dst, us, vs, k - 1);
      assert (us + vs)[|us| + k - 1] == vs[k - 1];
    }
  }

  /** Applying two lists of updates one after the other. */
  lemma ApplyConcat(dst: seq<real>, us: seq<Contribution>, vs: seq<Contribution>)
    ensures Apply(dst, us + vs) == Apply(Apply(dst, us), vs)
  {
    AppliedConcat(dst, us, vs, |vs|);
  }

  /** Entries that none of the first n updates names keep their values. */
  lemma {:induction false} AppliedUntouched(dst: seq<real>, us: seq<Contribution>, n: nat, k: nat)
    requires n <= |us| && k < |dst| && forall t :: 0 <= t < n ==> us[t].index != k
    ensures Applied(dst, us, n)[k] == dst[k]
  {
    if n > 0 {
      AppliedUntouched(dst, us, n - 1, k);
    }
  }

  /** Entries that no update names keep their values. */
  lemma ApplyUntouched(dst: seq<real>, us: seq<Contribution>, k: nat)
    requires k < |dst| && forall t :: 0 <= t < |us| ==> us[t].index != k
    ensures Apply(dst, us)[k] == dst[k]
  {
    AppliedUntouched(dst, us, |us|, k);
  }

  /** An entry named by exactly one of the first n updates receives exactly that update's value. */
  lemma {:induction false} AppliedOnce(dst: seq<real>, us: seq<Contribution>, n: nat, t: nat)
    requires t < n <= |us| && us[t].index < |dst|
    requires forall s :: 0 <= s < n && s != t ==> us[s].index != us[t].index
    ensures Applied(dst, us, n)[us[t].index] == dst[us[t].index] + us[t].value
  {
    if t == n - 1 {
      AppliedUntouched(dst, us, n - 1, us[t].index);
    } else {
      AppliedOnce(dst, us, n - 1, t);
    }
  }

  /** An entry named by exactly one update receives exactly that update's value. */
  lemma ApplyOnce(dst: seq<real>, us: seq<Contribution>, t: nat)
    requires t < |us| && us[t].index < |dst|
    requires forall s :: 0 <= s < |us| && s != t ==> us[s].index != us[t].index
    ensures Apply(dst, us)[us[t].index] == dst[us[t].index] + us[t].value
  {
    AppliedOnce(dst, us, |us|, t);
  }

  /** Every DoF index in `fine` names an entry of a vector of length `bound`. */
  predicate InRange(fine: seq<nat>, bound: nat)
  {
    forall k :: 0 <= k < |fine| ==> fine[k] < bound
  }

  /** The component loop: `dst[fine[nc*i + c]] += v[c]`. */
  method AddComponents(dst: seq<real>, fine: seq<nat>, nc: nat, i: nat, v: seq<real>) returns (out: seq<real>)
    requires |v| == nc && Offset(nc, i) + nc <= |fine| && InRange(fine, |dst|)
    ensures out == Apply(dst, ComponentUpdates(fine, nc, i, v))
  {
    ghost var us := ComponentUpdates(fine, nc, i, v);
    out := dst;
    var c := 0;
    OffsetIsProduct(nc, i);
    while c < nc
      invariant 0 <= c <= nc
      invariant out == Applied(dst, us, c)
    {
      out := out[fine[nc * i + c] := out[fine[nc * i + c]] + v[c]];
      c := c + 1;
    }
  }

  /** The `ptrs` loop: every DoF block `a..b` receives the same value. */
  method AddBlocks(dst: seq<real>, fine: seq<nat>, nc: nat, a: nat, b: nat, v: seq<real>) returns (out: seq<real>)
    requires a <= b && |v| == nc && Offset(nc, b) <= |fine| && InRange(fine, |dst|)
    ensures out == Apply(dst, BlockUpdates(fine, nc, a, b, v))
  {
    out := dst;
    var i := a;
    OffsetMonotone(nc, a, b);
    while i < b
      invariant a <= i <= b && Offset(nc, i) <= |fine|
      invariant out == Apply(dst, BlockUpdates(fine, nc, a, i, v))
    {
      ApplyBlockStep(dst, fine, nc, a, i, b, v);
      out := AddComponents(out, fine, nc, i, v);
      i := i + 1;
    }
  }

  /** Applying the updates of blocks `a..i + 1`. */
  lemma ApplyBlockStep(dst: seq<real>, fine: seq<nat>, nc: nat, a: nat, i: nat, b: nat, v: seq<real>)
    requires a <= i < b && |v| == nc && Offset(nc, b) <= |fine|
    ensures Offset(nc, i) + nc <= |fine| && Offset(nc, i + 1) <= |fine|
    ensures Apply(dst, BlockUpdates(fine, nc, a, i + 1, v))
      == Apply(Apply(dst, BlockUpdates(fine, nc, a, i, v)), ComponentUpdates(fine, nc, i, v))
  {
    OffsetMonotone(nc, i + 1, b);
    ApplyConcat(dst, BlockUpdates(fine, nc, a, i, v), ComponentUpdates(fine, nc, i, v));
  }

  /** The body of the scatter loop for point j: block j without `ptrs`, else blocks `ptrs[j]..ptrs[j + 1]`. */
  method ScatterPoint(dst: seq<real>, fine: seq<nat>, ptrs: seq<nat>, nc: nat, total: nat, j: nat, v: seq<real>)
    returns (out: seq<real>)
    requires |v| == nc && Layout(fine, Blocks(ptrs, total), nc, total) && j < total && InRange(fine, |dst|)
    ensures out == Apply(dst, PointUpdates(fine, Blocks(ptrs, total), nc, total, j, v))
  {
    if |ptrs| == 0 {
      SingleBlock(fine, nc, total, j, v);
      out := AddComponents(dst, fine, nc, j, v);
    } else {
      LayoutPoint(fine, ptrs, nc, total, j);
      out := AddBlocks(dst, fine, nc, ptrs[j], ptrs[j + 1], v);
    }
  }

  /**
   * The scatter loop of the prolongation: point j adds its value to the
   * DoFs of block j, or of every block `ptrs[j]..ptrs[j + 1]`.
   */
  method Scatter(dst: seq<real>, results: seq<seq<real>>, fine: seq<nat>, ptrs: seq<nat>, nc: nat)
    returns (out: seq<real>)
    requires Shaped(results, nc) && Layout(fine, Blocks(ptrs, |results|), nc, |results|) && InRange(fine, |dst|)
    ensures out == Apply(dst, Updates(results, fine, Blocks(ptrs, |results|), nc, |results|))
  {
    ghost var p := Blocks(ptrs, |results|);
    out := dst;
    var j := 0;
    while j < |results|
      invariant 0 <= j <= |results|
      invariant out == Apply(dst, Updates(results, fine, p, nc, j))
    {
      ApplyConcat(dst, Updates(results, fine, p, nc, j), PointUpdates(fine, p, nc, |results|, j, results[j]));
      out := ScatterPoint(out, fine, ptrs, nc, |results|, j, results[j]);
      j := j + 1;
    }
  }

  /** The updates of blocks `a..b` name the consecutive entries of `fine` from block a on. */
  lemma {:induction false} BlockUpdatesIndices(fine: seq<nat>, nc: nat, a: nat, b: nat, v: seq<real>)
    requires a <= b && |v| == nc && Offset(nc, b) <= |fine|
    ensures Offset(nc, a) + |BlockUpdates(fine, nc, a, b, v)| == Offset(nc, b)
    ensures Consecutive(BlockUpdates(fine, nc, a, b, v), fine, Offset(nc, a))
    decreases b - a
  {
    if a < b {
      OffsetMonotone(nc, b - 1, b);
      BlockUpdatesIndices(fine, nc, a, b - 1, v);
      var head := BlockUpdates(fine, nc, a, b - 1, v);
      var tail := ComponentUpdates(fine, nc, b - 1, v);
      assert Consecutive(tail, fine, Offset(nc, b - 1));
      ConsecutiveConcat(head, tail, fine, Offset(nc, a), Offset(nc, b - 1));
    }
  }

  /** Among the updates of blocks `a..b`, position t gives block i component c of the value. */
  lemma {:induction false} BlockUpdatesAt(fine: seq<nat>, nc: nat, a: nat, b: nat, v: seq<real>, i: nat, c: nat)
    returns (t: nat)
    requires a <= i < b && c < nc && |v| == nc && Offset(nc, b) <= |fine|
    ensures Offset(nc, i) + c < |fine|
    ensures t < |BlockUpdates(fine, nc, a, b, v)|
    ensures BlockUpdates(fine, nc, a, b, v)[t] == Contribution(fine[Offset(nc, i) + c], v[c])
    decreases b - a
  {
    OffsetMonotone(nc, i + 1, b);
    OffsetMonotone(nc, b - 1, b);
    var head: seq<Contribution> := BlockUpdates(fine, nc, a, b - 1, v);
    var tail: seq<Contribution> := ComponentUpdates(fine, nc, b - 1, v);
    assert BlockUpdates(fine, nc, a, b, v) == head + tail;
    if i < b - 1 {
      t := BlockUpdatesAt(fine, nc, a, b - 1, v, i, c);
      assert (head + tail)[t] == head[t];
    } else {
      t := |head| + c;
      assert (head + tail)[t] == tail[c];
    }
  }

  /** The updates of the first m + 1 points extend those of the first m by the blocks of point m. */
  lemma UpdatesStep(results: seq<seq<real>>, fine: seq<nat>, p: seq<nat>, nc: nat, m: nat)
    requires m < |results| && Shaped(results, nc) && Layout(fine, p, nc, |results|)
    ensures m + 1 < |p| && p[m] <= p[m + 1] && Offset(nc, p[m + 1]) <= |fine|
    ensures Updates(results, fine, p, nc, m + 1)
      == Updates(results, fine, p, nc, m) + BlockUpdates(fine, nc, p[m], p[m + 1], results[m])
  {
    LayoutPoint(fine, p, nc, |results|, m);
  }

  /** The scatter updates name the consecutive entries of `fine` from the first block in use on. */
  lemma {:induction false} UpdatesIndices(results: seq<seq<real>>, fine: seq<nat>, p: seq<nat>, nc: nat, m: nat)
    requires m <= |results| && Shaped(results, nc) && Layout(fine, p, nc, |results|)
    ensures Offset(nc, p[0]) + |Updates(results, fine, p, nc, m)| == Offset(nc, p[m])
    ensures Consecutive(Updates(results, fine, p, nc, m), fine, Offset(nc, p[0]))
  {
    OffsetMonotone(nc, p[m], p[|p| - 1]);
    if m > 0 {
      UpdatesIndices(results, fine, p, nc, m - 1);
      UpdatesStep(results, fine, p, nc, m - 1);
      var head: seq<Contribution> := Updates(results, fine, p, nc, m - 1);
      var tail: seq<Contribution> := BlockUpdates(fine, nc, p[m - 1], p[m], results[m - 1]);
      BlockUpdatesIndices(fine, nc, p[m - 1], p[m], results[m - 1]);
      ConsecutiveConcat(head, tail, fine, Offset(nc, p[0]), Offset(nc, p[m - 1]));
    }
  }

  /** Updates naming consecutive entries of `fine` from position `base` on. */
  predicate Consecutive(us: seq<Contribution>, fine: seq<nat>, base: nat)
  {
    base + |us| <= |fine| && forall k :: 0 <= k < |us| ==> us[k].index == fine[base + k]
  }

  /** Two runs of consecutive entries, the second starting where the first ends, form one run. */
  lemma ConsecutiveConcat(us: seq<Contribution>, vs: seq<Contribution>, fine: seq<nat>, base: nat, mid: nat)
    requires Consecutive(us, fine, base) && base + |us| == mid && Consecutive(vs, fine, mid)
    ensures Consecutive(us + vs, fine, base)
  {
    forall k | 0 <= k < |us| + |vs|
      ensures (us + vs)[k].index == fine[base + k]
    {
      if k >= |us| {
        assert (us + vs)[k] == vs[k - |us|];
      }
    }
  }

  /** Among the scatter updates, position t gives block i of point j component c of the point's value. */
  lemma {:induction false} UpdatesAt(results: seq<seq<real>>, fine: seq<nat>, p: seq<nat>, nc: nat, m: nat,
                                     j: nat, i: nat, c: nat)
    returns (t: nat)
    requires m <= |results| && Shaped(results, nc) && Layout(fine, p, nc, |results|)
    requires j < m && j + 1 < |p| && p[j] <= i < p[j + 1] && c < nc
    ensures Offset(nc, i) + c < |fine|
    ensures t < |Updates(results, fine, p, nc, m)|
    ensures Updates(results, fine, p, nc, m)[t] == Contribution(fine[Offset(nc, i) + c], results[j][c])
  {
    UpdatesStep(results, fine, p, nc, m - 1);
    var head: seq<Contribution> := Updates(results, fine, p, nc, m - 1);
    var tail: seq<Contribution> := BlockUpdates(fine, nc, p[m - 1], p[m], results[m - 1]);
    if j < m - 1 {
      t := UpdatesAt(results, fine, p, nc, m - 1, j, i, c);
      assert (head + tail)[t] == head[t];
    } else {
      var s := BlockUpdatesAt(fine, nc, p[j], p[j + 1], results[j], i, c);
      t := |head| + s;
      assert (head + tail)[t] == tail[s];
    }
  }

  /** When no two updates name the same entry, the entry of update t receives exactly its value. */
  lemma ApplyDistinct(dst: seq<real>, us: seq<Contribution>, t: nat, k: nat, x: real)
    requires t < |us| && us[t] == Contribution(k, x) && k < |dst|
    requires forall s, s' :: 0 <= s < s' < |us| ==> us[s].index != us[s'].index
    ensures Apply(dst, us)[k] == dst[k] + x
  {
    ApplyOnce(dst, us, t);
  }

  /** No two positions of `fine` name the same DoF. */
  predicate DistinctDofs(fine: seq<nat>)
  {
    forall d :: d in multiset(fine) ==> multiset(fine)[d] == 1
  }

  /** Two different positions of a sequence of distinct DoFs name different DoFs. */
  lemma DistinctPair(fine: seq<nat>, a: nat, b: nat)
    requires DistinctDofs(fine) && a < b < |fine|
    ensures fine[a] != fine[b]
  {
    var head, tail := fine[..b], fine[b..];
    assert fine == head + tail;
    assert fine[a] == head[a] && fine[b] == tail[0];
    assert multiset(fine) == multiset(head) + multiset(tail);
    assert fine[a] in multiset(head) && fine[b] in multiset(tail);
    assert multiset(fine)[fine[b]] == multiset(head)[fine[b]] + multiset(tail)[fine[b]];
  }

  /** Updates naming consecutive entries of distinct DoFs name distinct DoFs. */
  lemma ConsecutiveDistinct(us: seq<Contribution>, fine: seq<nat>, base: nat)
    requires Consecutive(us, fine, base) && DistinctDofs(fine)
    ensures forall s, t :: 0 <= s < t < |us| ==> us[s].index != us[t].index
  {
    forall s, t | 0 <= s < t < |us|
      ensures us[s].index != us[t].index
    {
      assert us[s].index == fine[base + s] && us[t].index == fine[base + t];
      DistinctPair(fine, base + s, base + t);
    }
  }

  /** Updates naming consecutive entries avoid every DoF those entries avoid. */
  lemma ConsecutiveAvoids(us: seq<Contribution>, fine: seq<nat>, base: nat, d: nat)
    requires Consecutive(us, fine, base)
    requires forall k :: 0 <= k < |fine| && base <= k < base + |us| ==> fine[k] != d
    ensures forall t :: 0 <= t < |us| ==> us[t].index != d
  {
    forall t | 0 <= t < |us|
      ensures us[t].index != d
    {
      assert us[t].index == fine[base + t];
    }
  }

  /** With distinct DoFs in `fine`, no two scatter updates name the same DoF. */
  lemma UpdatesDistinct(results: seq<seq<real>>, fine: seq<nat>, p: seq<nat>, nc: nat)
    requires Shaped(results, nc) && Layout(fine, p, nc, |results|) && DistinctDofs(fine)
    ensures forall s, s' :: 0 <= s < s' < |Updates(results, fine, p, nc, |results|)| ==>
      Updates(results, fine, p, nc, |results|)[s].index != Updates(results, fine, p, nc, |results|)[s'].index
  {
    UpdatesIndices(results, fine, p, nc, |results|);
    ConsecutiveDistinct(Updates(results, fine, p, nc, |results|), fine, Offset(nc, p[0]));
  }

  /** A scatter of `results` into a vector of length n through distinct DoFs. */
  predicate Scattering(results: seq<seq<real>>, fine: seq<nat>, p: seq<nat>, nc: nat, n: nat)
  {
    Shaped(results, nc) && Layout(fine, p, nc, |results|) && InRange(fine, n) && DistinctDofs(fine)
  }

  /**
   * With distinct DoF indices, scattering adds to each DoF of block i of
   * point j exactly component c of that point's value.
   */
  lemma ScatterValue(dst: seq<real>, results: seq<seq<real>>, fine: seq<nat>, p: seq<nat>, nc: nat,
                     j: nat, i: nat, c: nat)
    requires Scattering(results, fine, p, nc, |dst|)
    requires j < |results| && p[j] <= i < p[j + 1] && c < nc
    ensures Offset(nc, i) + c < |fine|
    ensures Apply(dst, Updates(results, fine, p, nc, |results|))[fine[Offset(nc, i) + c]]
      == dst[fine[Offset(nc, i) + c]] + results[j][c]
  {
    var t := UpdatesAt(results, fine, p, nc, |results|, j, i, c);
    UpdatesDistinct(results, fine, p, nc);
    ApplyDistinct(dst, Updates(results, fine, p, nc, |results|), t, fine[Offset(nc, i) + c], results[j][c]);
  }

  /** No scatter update names a DoF that the blocks in use do not hold. */
  lemma UpdatesAvoid(results: seq<seq<real>>, fine: seq<nat>, p: seq<nat>, nc: nat, d: nat)
    requires Shaped(results, nc) && Layout(fine, p, nc, |results|)
    requires forall k :: 0 <= k < |fine| && Offset(nc, p[0]) <= k < Offset(nc, p[|results|]) ==> fine[k] != d
    ensures forall t :: 0 <= t < |Updates(results, fine, p, nc, |results|)| ==>
      Updates(results, fine, p, nc, |results|)[t].index != d
  {
    UpdatesIndices(results, fine, p, nc, |results|);
    ConsecutiveAvoids(Updates(results, fine, p, nc, |results|), fine, Offset(nc, p[0]), d);
  }

  /** DoFs outside the blocks in use keep their values. */
  lemma ScatterUntouched(dst: seq<real>, results: seq<seq<real>>, fine: seq<nat>, p: seq<nat>, nc: nat, d: nat)
    requires Shaped(results, nc) && Layout(fine, p, nc, |results|) && d < |dst|
    requires forall k :: 0 <= k < |fine| && Offset(nc, p[0]) <= k < Offset(nc, p[|results|]) ==> fine[k] != d
    ensures Apply(dst, Updates(results, fine, p, nc, |results|))[d] == dst[d]
  {
    UpdatesAvoid(results, fine, p, nc, d);
    ApplyUntouched(dst, Updates(results, fine, p, nc, |results|), d);
  }

  /* ---- Gathering fine DoF values at the support points (restriction) ---- */

  /** The values `src[fine[nc*i + c]]` of DoF block i. */
  function BlockValues(src: seq<real>, fine: seq<nat>, nc: nat, i: nat): (r: seq<real>)
    requires Offset(nc, i) + nc <= |fine| && InRange(fine, |src|)
    ensures |r| == nc && forall c :: 0 <= c < nc ==> r[c] == src[fine[Offset(nc, i) + c]]
  {
    seq(nc, c requires 0 <= c < nc => src[fine[Offset(nc, i) + c]])
  }

  /** The sum of the values of the DoF blocks `a..b`. */
  function Gathered(src: seq<real>, fine: seq<nat>, nc: nat, a: nat, b: nat): (r: seq<real>)
    requires a <= b && Offset(nc, b) <= |fine| && InRange(fine, |src|)
    ensures |r| == nc
    decreases b - a
  {
    if a == b then Zero(nc)
    else
      OffsetMonotone(nc, b - 1, b);
      Add(Gathered(src, fine, nc, a, b - 1), BlockValues(src, fine, nc, b - 1))
  }

  /** A single block gathers exactly its own values. */
  lemma GatheredSingle(src: seq<real>, fine: seq<nat>, nc: nat, i: nat)
    requires Offset(nc, i + 1) <= |fine| && InRange(fine, |src|)
    ensures Offset(nc, i) + nc <= |fine|
    ensures Gathered(src, fine, nc, i, i + 1) == BlockValues(src, fine, nc, i)
  {
    assert Gathered(src, fine, nc, i, i + 1) == Add(Zero(nc), BlockValues(src, fine, nc, i));
  }

  /** The values gathered at point j: the sum over its DoF blocks `p[j]..p[j + 1]`. */
  function PointGathered(src: seq<real>, fine: seq<nat>, p: seq<nat>, nc: nat, total: nat, j: nat): seq<real>
    requires Layout(fine, p, nc, total) && j < total && InRange(fine, |src|)
  {
    LayoutPoint(fine, p, nc, total, j);
    Gathered(src, fine, nc, p[j], p[j + 1])
  }

  /** The component loop of the restriction: `result[c] += src[fine[nc*i + c]]`. */
  method AddBlockValues(result: seq<real>, src: seq<real>, fine: seq<nat>, nc: nat, i: nat) returns (out: seq<real>)
    requires |result| == nc && Offset(nc, i) + nc <= |fine| && InRange(fine, |src|)
    ensures out == Add(result, BlockValues(src, fine, nc, i))
  {
    ghost var block := BlockValues(src, fine, nc, i);
    out := result;
    var c := 0;
    OffsetIsProduct(nc, i);
    while c < nc
      invariant 0 <= c <= nc && |out| == nc
      invariant forall c' :: 0 <= c' < c ==> out[c'] == result[c'] + block[c']
      invariant forall c' :: c <= c' < nc ==> out[c'] == result[c']
    {
      out := out[c := out[c] + src[fine[nc * i + c]]];
      c := c + 1;
    }
  }

  /** The `ptrs` loop of the restriction: point j sums the values of every DoF block `a..b`. */
  method GatherBlocks(src: seq<real>, fine: seq<nat>, nc: nat, a: nat, b: nat) returns (result: seq<real>)
    requires a <= b && Offset(nc, b) <= |fine| && InRange(fine, |src|)
    ensures result == Gathered(src, fine, nc, a, b)
  {
    result := Zero(nc);
    var i := a;
    OffsetMonotone(nc, a, b);
    while i < b
      invariant a <= i <= b && Offset(nc, i) <= |fine|
      invariant result == Gathered(src, fine, nc, a, i)
    {
      OffsetMonotone(nc, i + 1, b);
      result := AddBlockValues(result, src, fine, nc, i);
      i := i + 1;
    }
  }

  /** The values gathered at point j: block j without `ptrs`, else the sum over blocks `ptrs[j]..ptrs[j + 1]`. */
  method GatherPoint(src: seq<real>, fine: seq<nat>, ptrs: seq<nat>, nc: nat, total: nat, j: nat)
    returns (result: seq<real>)
    requires Layout(fine, Blocks(ptrs, total), nc, total) && j < total && InRange(fine, |src|)
    ensures result == PointGathered(src, fine, Blocks(ptrs, total), nc, total, j)
  {
    LayoutPoint(fine, Blocks(ptrs, total), nc, total, j);
    if |ptrs| == 0 {
      GatheredSingle(src, fine, nc, j);
      OffsetIsProduct(nc, j);
      result := seq(nc, c requires 0 <= c < nc => src[fine[nc * j + c]]);
      assert result == BlockValues(src, fine, nc, j);
    } else {
      result := GatherBlocks(src, fine, nc, ptrs[j], ptrs[j + 1]);
    }
  }

  /**
   * The gather loop of the restriction: point j receives the values of
   * block j, or the sum of the values of every block `ptrs[j]..ptrs[j + 1]`.
   */
  method Gather(src: seq<real>, fine: seq<nat>, ptrs: seq<nat>, nc: nat, total: nat) returns (results: seq<seq<real>>)
    requires Layout(fine, Blocks(ptrs, total), nc, total) && InRange(fine, |src|)
    ensures |results| == total && Shaped(results, nc)
    ensures forall j :: 0 <= j < total ==> results[j] == PointGathered(src, fine, Blocks(ptrs, total), nc, total, j)
  {
    results := [];
    var j := 0;
    while j < total
      invariant 0 <= j <= total && |results| == j && Shaped(results, nc)
      invariant forall k :: 0 <= k < j ==> results[k] == PointGathered(src, fine, Blocks(ptrs, total), nc, total, k)
    {
      var result := GatherPoint(src, fine, ptrs, nc, total, j);
      results := results + [result];
      j := j + 1;
    }
  }

  /** DoF block i lies inside `fine` and holds the values v. */
  predicate BlockHolds(src: seq<real>, fine: seq<nat>, nc: nat, i: nat, v: seq<real>)
    requires InRange(fine, |src|)
  {
    Offset(nc, i) + nc <= |fine| && BlockValues(src, fine, nc, i) == v
  }

  /** Blocks that all hold the same value gather the block count times that value. */
  lemma {:induction false} GatheredConstant(src: seq<real>, fine: seq<nat>, nc: nat, a: nat, b: nat, v: seq<real>)
    requires a <= b && Offset(nc, b) <= |fine| && InRange(fine, |src|) && |v| == nc
    requires forall i :: a <= i < b ==> BlockHolds(src, fine, nc, i, v)
    ensures forall c :: 0 <= c < nc ==> Gathered(src, fine, nc, a, b)[c] == Repeat(b - a, v[c])
    decreases b - a
  {
    if a < b {
      OffsetMonotone(nc, b - 1, b);
      GatheredConstant(src, fine, nc, a, b - 1, v);
      var g := Gathered(src, fine, nc, a, b - 1);
      assert BlockHolds(src, fine, nc, b - 1, v);
      assert Gathered(src, fine, nc, a, b) == Add(g, v);
      assert forall c :: 0 <= c < nc ==> Add(g, v)[c] == Repeat(b - a, v[c]);
    }
  }

  /**
   * Restricting a prolongation into a zero vector: with distinct DoF
   * indices, point j gathers its own value once for each of its blocks.
   */
  lemma GatherOfScatter(results: seq<seq<real>>, fine: seq<nat>, p: seq<nat>, nc: nat, n: nat, j: nat)
    requires Scattering(results, fine, p, nc, n) && j < |results|
    ensures j + 1 < |p| && p[j] <= p[j + 1]
    ensures forall c :: 0 <= c < nc ==>
      PointGathered(Apply(Zero(n), Updates(results, fine, p, nc, |results|)), fine, p, nc, |results|, j)[c]
      == Repeat(p[j + 1] - p[j], results[j][c])
  {
    LayoutPoint(fine, p, nc, |results|, j);
    ScatterBlocks(results, fine, p, nc, n, j);
    PointGatheredConstant(Apply(Zero(n), Updates(results, fine, p, nc, |results|)), fine, p, nc, |results|, j, results[j]);
  }

  /** After prolongating into a zero vector, every DoF block of point j holds the point's value. */
  lemma ScatterBlocks(results: seq<seq<real>>, fine: seq<nat>, p: seq<nat>, nc: nat, n: nat, j: nat)
    requires Scattering(results, fine, p, nc, n) && j < |results|
    ensures forall i :: p[j] <= i < p[j + 1] ==>
      BlockHolds(Apply(Zero(n), Updates(results, fine, p, nc, |results|)), fine, nc, i, results[j])
  {
    forall i | p[j] <= i < p[j + 1]
      ensures BlockHolds(Apply(Zero(n), Updates(results, fine, p, nc, |results|)), fine, nc, i, results[j])
    {
      ScatterBlock(results, fine, p, nc, n, j, i);
    }
  }

  /** A point whose blocks all hold the same value gathers its block count times that value. */
  lemma PointGatheredConstant(src: seq<real>, fine: seq<nat>, p: seq<nat>, nc: nat, total: nat, j: nat, v: seq<real>)
    requires Layout(fine, p, nc, total) && j < total && InRange(fine, |src|) && |v| == nc
    requires forall i :: p[j] <= i < p[j + 1] ==> BlockHolds(src, fine, nc, i, v)
    ensures forall c :: 0 <= c < nc ==>
      PointGathered(src, fine, p, nc, total, j)[c] == Repeat(p[j + 1] - p[j], v[c])
  {
    LayoutPoint(fine, p, nc, total, j);
    GatheredConstant(src, fine, nc, p[j], p[j + 1], v);
  }

  /** After prolongating into a zero vector, DoF block i of point j holds the point's value. */
  lemma ScatterBlock(results: seq<seq<real>>, fine: seq<nat>, p: seq<nat>, nc: nat, n: nat, j: nat, i: nat)
    requires Scattering(results, fine, p, nc, n) && j < |results| && p[j] <= i < p[j + 1]
    ensures BlockHolds(Apply(Zero(n), Updates(results, fine, p, nc, |results|)), fine, nc, i, results[j])
  {
    LayoutPoint(fine, p, nc, |results|, j);
    OffsetMonotone(nc, i + 1, p[j + 1]);
    var out := Apply(Zero(n), Updates(results, fine, p, nc, |results|));
    forall c | 0 <= c < nc
      ensures BlockValues(out, fine, nc, i)[c] == results[j][c]
    {
      ScatterValue(Zero(n), results, fine, p, nc, j, i, c);
    }
  }

  /** Without `ptrs`, restricting a prolongation into a zero vector gives back every point's value. */
  lemma RestrictProlongate(results: seq<seq<real>>, fine: seq<nat>, nc: nat, n: nat, j: nat)
    requires Scattering(results, fine, Blocks([], |results|), nc, n) && j < |results|
    ensures PointGathered(Apply(Zero(n), Updates(results, fine, Blocks([], |results|), nc, |results|)),
                          fine, Blocks([], |results|), nc, |results|, j)
      == results[j]
  {
    var p := Blocks([], |results|);
    GatherOfScatter(results, fine, p, nc, n, j);
    var g := PointGathered(Apply(Zero(n), Updates(results, fine, p, nc, |results|)), fine, p, nc, |results|, j);
    assert p[j + 1] - p[j] == 1;
    forall c | 0 <= c < nc
      ensures g[c] == results[j][c]
    {
      assert Repeat(1, results[j][c]) == results[j][c];
    }
  }
}
