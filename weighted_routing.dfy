/**
 * The weighted-routing form: an ordered list of workloads, each with a traffic
 * weight in percent, a lock flag and the upper bound of its slider. Moving one
 * slider re-spreads the remaining budget over the unlocked rows; locking a row
 * recomputes the bounds of the unlocked rows.
 *
 * The list is the component's `workloads` state, which `onWeight` and `onLock`
 * update in place; here it is an array owned by the class `WeightedRouting`,
 * whose methods are proved against the specification functions below
 * (`ResetWeights`, `AfterWeight`, `AfterLock`) and whose properties are lemmas
 * about those functions.
 */
module WeightedRouting {
  import opened Wrappers
  import opened ServiceInfo

  /** One row of the form. Weights are integers but may go negative. */
  datatype WorkloadWeight = WorkloadWeight(name: string, weight: int, locked: bool, maxWeight: int)

  /** The arguments of one `onChange(valid, workloads, reset)` call to the hosting wizard. */
  datatype ChangeEvent = ChangeEvent(valid: bool, workloads: seq<WorkloadWeight>, reset: bool)

  // ---------------------------------------------------------------------------
  // Sums over the list, as left folds (the source's `reduce` and index loops).

  function TotalWeight(ws: seq<WorkloadWeight>): int {
    if ws == [] then 0 else TotalWeight(ws[..|ws| - 1]) + ws[|ws| - 1].weight
  }

  /** The `map(w => w.weight)` of `checkTotalWeight`. */
  function WeightsOf(ws: seq<WorkloadWeight>): (xs: seq<int>)
    ensures |xs| == |ws| && forall i :: 0 <= i < |ws| ==> xs[i] == ws[i].weight
  {
    seq(|ws|, i requires 0 <= i < |ws| => ws[i].weight)
  }

  /** `reduce((a, b) => a + b, acc)`: a left fold that starts at the first element. */
  function Reduce(xs: seq<int>, acc: int): int
    decreases |xs|
  {
    if xs == [] then acc else Reduce(xs[1..], acc + xs[0])
  }

  /** `TotalWeight` peeled from the front. */
  lemma {:induction false} TotalWeightFront(ws: seq<WorkloadWeight>)
    requires |ws| > 0
    ensures TotalWeight(ws) == ws[0].weight + TotalWeight(ws[1..])
    decreases |ws|
  {
    if |ws| == 1 {
      assert ws[..0] == [] && ws[1..] == [];
    } else {
      var init := ws[..|ws| - 1];
      TotalWeightFront(init);
      assert init[1..] == ws[1..][..|ws[1..]| - 1];
    }
  }

  /** The map/reduce of `checkTotalWeight` adds up the same weights as `TotalWeight`. */
  lemma {:induction false} ReduceWeights(ws: seq<WorkloadWeight>, acc: int)
    ensures Reduce(WeightsOf(ws), acc) == acc + TotalWeight(ws)
    decreases |ws|
  {
    if |ws| > 0 {
      TotalWeightFront(ws);
      assert WeightsOf(ws)[1..] == WeightsOf(ws[1..]);
      ReduceWeights(ws[1..], acc + ws[0].weight);
    } else {
      assert WeightsOf(ws) == [];
    }
  }

  /** `checkTotalWeight`: true exactly when the weights add up to 100. */
  function CheckTotalWeight(ws: seq<WorkloadWeight>): (ok: bool)
    ensures ok <==> TotalWeight(ws) == 100
  {
    ReduceWeights(ws, 0);
    Reduce(WeightsOf(ws), 0) == 100
  }

  /** The sum of the weights of the locked rows. */
  function LockedSum(ws: seq<WorkloadWeight>): int {
    if ws == [] then 0
    else LockedSum(ws[..|ws| - 1]) + (if ws[|ws| - 1].locked then ws[|ws| - 1].weight else 0)
  }

  /** The sum of the weights of the locked rows named `target`. */
  function LockedTargetSum(ws: seq<WorkloadWeight>, target: string): int {
    if ws == [] then 0
    else
      var e := ws[|ws| - 1];
      LockedTargetSum(ws[..|ws| - 1], target) + (if e.locked && e.name == target then e.weight else 0)
  }

  /** The number of rows named `target`. */
  function Count(ws: seq<WorkloadWeight>, target: string): nat {
    if ws == [] then 0
    else Count(ws[..|ws| - 1], target) + (if ws[|ws| - 1].name == target then 1 else 0)
  }

  /** Adds `newWeight` once per row named `target`. */
  function TargetWeights(ws: seq<WorkloadWeight>, target: string, newWeight: int): int {
    if ws == [] then 0
    else TargetWeights(ws[..|ws| - 1], target, newWeight) + (if ws[|ws| - 1].name == target then newWeight else 0)
  }

  /** A row that `onWeight(target, _)` may adjust: unlocked and not the target. */
  predicate Free(e: WorkloadWeight, target: string) {
    !e.locked && e.name != target
  }

  /** The sum of the weights of the rows that are free for `target`. */
  function FreeSum(ws: seq<WorkloadWeight>, target: string): int {
    if ws == [] then 0
    else FreeSum(ws[..|ws| - 1], target) + (if Free(ws[|ws| - 1], target) then ws[|ws| - 1].weight else 0)
  }

  /** Each fold over `s[..i]` is the fold over `s[..i - 1]` plus the contribution of `s[i - 1]`. */
  lemma SumsStep(s: seq<WorkloadWeight>, target: string, newWeight: int, i: nat)
    requires 0 < i <= |s|
    ensures var e := s[i - 1];
      && TotalWeight(s[..i]) == TotalWeight(s[..i - 1]) + e.weight
      && LockedSum(s[..i]) == LockedSum(s[..i - 1]) + (if e.locked then e.weight else 0)
      && LockedTargetSum(s[..i], target)
         == LockedTargetSum(s[..i - 1], target) + (if e.locked && e.name == target then e.weight else 0)
      && Count(s[..i], target) == Count(s[..i - 1], target) + (if e.name == target then 1 else 0)
      && TargetWeights(s[..i], target, newWeight)
         == TargetWeights(s[..i - 1], target, newWeight) + (if e.name == target then newWeight else 0)
      && FreeSum(s[..i], target) == FreeSum(s[..i - 1], target) + (if Free(e, target) then e.weight else 0)
  {
    assert s[..i][..i - 1] == s[..i - 1];
  }

  lemma LockedSumStep(s: seq<WorkloadWeight>, i: nat)
    requires 0 < i <= |s|
    ensures LockedSum(s[..i]) == LockedSum(s[..i - 1]) + (if s[i - 1].locked then s[i - 1].weight else 0)
  {
    assert s[..i][..i - 1] == s[..i - 1];
  }

  lemma TargetWeightsStep(s: seq<WorkloadWeight>, target: string, newWeight: int, i: nat)
    requires 0 < i <= |s|
    ensures TargetWeights(s[..i], target, newWeight)
            == TargetWeights(s[..i - 1], target, newWeight) + (if s[i - 1].name == target then newWeight else 0)
  {
    assert s[..i][..i - 1] == s[..i - 1];
  }

  ghost predicate NoFreeIn(ws: seq<WorkloadWeight>, target: string, lo: int, hi: int)
    requires 0 <= lo && hi <= |ws|
  {
    forall k :: lo <= k < hi ==> !Free(ws[k], target)
  }

  // ---------------------------------------------------------------------------
  // resetState

  /** `Math.round(p / q)` for q > 0: the nearest integer, halves rounded up. */
  function JsRound(p: int, q: int): (r: int)
    requires q > 0
    ensures 2 * q * r <= 2 * p + q < 2 * q * r + 2 * q
  {
    var r := (2 * p + q) / (2 * q);
    assert 2 * p + q == r * (2 * q) + (2 * p + q) % (2 * q);
    r
  }

  /** The weight every row gets on a reset of `n` rows. */
  function ResetShare(n: nat): int {
    if 0 < n < 100 then JsRound(100, n) else 0
  }

  /** What the last row gets on top of its share on a reset of `n` rows. */
  function ResetRemainder(n: nat): int {
    if 0 < n < 100 then 100 % n else 0
  }

  function Names(workloads: seq<WorkloadOverview>): (names: seq<string>)
    ensures |names| == |workloads|
    ensures forall i :: 0 <= i < |names| ==> names[i] == workloads[i].name
  {
    seq(|workloads|, i requires 0 <= i < |workloads| => workloads[i].name)
  }

  /** The rows after "evenly distribute traffic" over workloads with these names. */
  function ResetWeights(names: seq<string>): (r: seq<WorkloadWeight>)
    ensures |r| == |names|
  {
    var n := |names|;
    seq(n, i requires 0 <= i < n =>
      WorkloadWeight(names[i], ResetShare(n) + (if i == n - 1 then ResetRemainder(n) else 0), false, 100))
  }

  /**
   * Row k of a reset of n rows: the k-th name, unlocked, bounded by 100, with
   * `Math.round(100 / n)`, plus `100 % n` on the last row, when n < 100, and
   * weight 0 when n >= 100.
   */
  lemma ResetRow(names: seq<string>, k: nat)
    requires k < |names|
    ensures var n, row := |names|, ResetWeights(names)[k];
            && row.name == names[k] && !row.locked && row.maxWeight == 100
            && row.weight == if n < 100 then JsRound(100, n) + (if k == n - 1 then 100 % n else 0) else 0
  {
    var n, r := |names|, ResetWeights(names);
    assert r[k] == WorkloadWeight(names[k], ResetShare(n) + (if k == n - 1 then ResetRemainder(n) else 0), false, 100);
  }

  lemma {:induction false} ResetTotalPrefix(names: seq<string>, i: nat)
    requires i <= |names|
    ensures TotalWeight(ResetWeights(names)[..i])
            == i * ResetShare(|names|) + (if i == |names| && i > 0 then ResetRemainder(|names|) else 0)
  {
    var r, n := ResetWeights(names), |names|;
    var share, rem := ResetShare(n), ResetRemainder(n);
    if i > 0 {
      ResetTotalPrefix(names, i - 1);
      assert r[..i][..i - 1] == r[..i - 1];
      assert TotalWeight(r[..i]) == TotalWeight(r[..i - 1]) + r[i - 1].weight;
      assert r[i - 1].weight == share + (if i == n then rem else 0);
      assert (i - 1) * share + share == i * share;
    }
  }

  /** A reset of n >= 1 rows totals n times the rounded share plus the remainder. */
  lemma ResetTotal(names: seq<string>)
    requires |names| > 0
    ensures TotalWeight(ResetWeights(names)) == |names| * ResetShare(|names|) + ResetRemainder(|names|)
  {
    ResetTotalPrefix(names, |names|);
    assert ResetWeights(names)[..|names|] == ResetWeights(names);
  }

  lemma FloorUnique(x: int, d: int, a: int, b: int)
    requires d > 0
    requires d * a <= x < d * a + d
    requires d * b <= x < d * b + d
    ensures a == b
  {
    MulStep(d, a, b);
    MulStep(d, b, a);
  }

  /** For d > 0, a smaller factor a gives a product at least d below d * b. */
  lemma MulStep(d: int, a: int, b: int)
    requires d > 0
    ensures a < b ==> d * a + d <= d * b
  {
    if a < b {
      MulAtLeast(d, b - a);
      assert d * b == d * a + d * (b - a);
    }
  }

  /** A positive number times a positive factor is at least that number. */
  lemma {:induction false} MulAtLeast(d: int, k: int)
    requires d > 0 && k >= 1
    ensures d * k >= d
    decreases k
  {
    if k > 1 {
      MulAtLeast(d, k - 1);
      assert d * k == d * (k - 1) + d;
    }
  }

  /** The rounded share is the floor of 100/n plus one exactly when the remainder is at least half of n. */
  lemma ResetShareValue(n: nat)
    requires 0 < n < 100
    ensures ResetShare(n) == 100 / n + (if 2 * (100 % n) < n then 0 else 1)
  {
    var q, r := 100 / n, 100 % n;
    assert 100 == q * n + r;
    var s := ResetShare(n);
    var want := q + (if 2 * r < n then 0 else 1);
    assert 2 * n * s <= 200 + n < 2 * n * s + 2 * n;
    RoundedShare(n, q, r, want);
    FloorUnique(200 + n, 2 * n, s, want);
  }

  lemma RoundedShare(n: int, q: int, r: int, want: int)
    requires 0 < n && 100 == q * n + r && 0 <= r < n
    requires want == q + (if 2 * r < n then 0 else 1)
    ensures 2 * n * want <= 200 + n < 2 * n * want + 2 * n
  {
    assert 2 * n * want == 2 * (q * n) + (if 2 * r < n then 0 else 2 * n);
  }

  /**
   * A reset balances the weights exactly when the rounding did not round up:
   * for 1 <= n < 100 rows when 2 * (100 mod n) < n. With 6 rows the total is 106;
   * with 100 rows or more every weight is 0.
   */
  lemma ResetBalancedIff(names: seq<string>)
    ensures CheckTotalWeight(ResetWeights(names))
            <==> 0 < |names| < 100 && 2 * (100 % |names|) < |names|
  {
    ResetTotalIs100(names);
  }

  /** `ResetBalancedIff` stated on the total. */
  lemma ResetTotalIs100(names: seq<string>)
    ensures TotalWeight(ResetWeights(names)) == 100
            <==> 0 < |names| < 100 && 2 * (100 % |names|) < |names|
  {
    var n := |names|;
    if n == 0 {
      assert ResetWeights(names) == [];
    } else {
      ResetTotal(names);
      var share, rem := ResetShare(n), ResetRemainder(n);
      if n < 100 {
        var q, r := 100 / n, 100 % n;
        assert rem == r && 100 == q * n + r;
        ResetShareValue(n);
        ShareArith(n, q, r, share);
      } else {
        assert share == 0 && rem == 0;
      }
    }
  }

  lemma ShareArith(n: int, q: int, r: int, s: int)
    requires 0 < n && 100 == q * n + r && 0 <= r < n
    requires s == q + (if 2 * r < n then 0 else 1)
    ensures n * s + r == 100 <==> 2 * r < n
  {
    if 2 * r < n {
      assert n * s == q * n;
    } else {
      assert n * s == q * n + n;
    }
  }

  /** With six workloads the reset gives 17, 17, 17, 17, 17, 21: a total of 106. */
  lemma ResetSixWorkloads(names: seq<string>)
    requires |names| == 6
    ensures TotalWeight(ResetWeights(names)) == 106
    ensures forall i :: 0 <= i < 5 ==> ResetWeights(names)[i].weight == 17
    ensures ResetWeights(names)[5].weight == 21
  {
    ResetTotal(names);
    ResetShareValue(6);
  }

  /** The evidently intended share: the floor of 100/n. */
  function EvenShare(n: nat): int {
    if 0 < n < 100 then 100 / n else 0
  }

  /** The evidently intended reset: the floor of 100/n each and the remainder on the last row. */
  function EvenWeights(names: seq<string>): (r: seq<WorkloadWeight>)
    ensures |r| == |names|
  {
    var n := |names|;
    seq(n, i requires 0 <= i < n =>
      WorkloadWeight(names[i], EvenShare(n) + (if i == n - 1 then ResetRemainder(n) else 0), false, 100))
  }

  lemma {:induction false} EvenTotalPrefix(names: seq<string>, i: nat)
    requires 0 < |names| < 100 && i <= |names|
    ensures TotalWeight(EvenWeights(names)[..i])
            == i * EvenShare(|names|) + (if i == |names| then ResetRemainder(|names|) else 0)
  {
    var r := EvenWeights(names);
    if i > 0 {
      EvenTotalPrefix(names, i - 1);
      assert r[..i][..i - 1] == r[..i - 1];
      assert (i - 1) * EvenShare(|names|) + EvenShare(|names|) == i * EvenShare(|names|);
    }
  }

  /** The intended reset always balances for 1 <= n < 100 rows. */
  lemma EvenWeightsBalanced(names: seq<string>)
    requires 0 < |names| < 100
    ensures CheckTotalWeight(EvenWeights(names))
  {
    EvenTotal(names);
  }

  /** `EvenWeightsBalanced` stated on the total. */
  lemma EvenTotal(names: seq<string>)
    requires 0 < |names| < 100
    ensures TotalWeight(EvenWeights(names)) == 100
  {
    EvenTotalPrefix(names, |names|);
    assert EvenWeights(names)[..|names|] == EvenWeights(names);
    var n := |names|;
    assert 100 == (100 / n) * n + 100 % n;
  }

  // ---------------------------------------------------------------------------
  // onWeight

  /** `maxWeight` after the first two loops of `onWeight`: 100 minus the locked weights minus `newWeight` per row named `target`. */
  function Budget(ws: seq<WorkloadWeight>, target: string, newWeight: int): int {
    100 - LockedSum(ws) - Count(ws, target) * newWeight
  }

  /**
   * The running sum `sumWeights` of the distributing walk once it has passed
   * the free rows of `ws[..i]`: each free row is added, and when it would push
   * the sum over the budget it is cut down to fill the budget exactly.
   */
  function Run(ws: seq<WorkloadWeight>, target: string, budget: int, i: nat): int
    requires i <= |ws|
  {
    if i == 0 then 0
    else
      var before := Run(ws, target, budget, i - 1);
      if !Free(ws[i - 1], target) then before
      else if before + ws[i - 1].weight > budget then budget
      else before + ws[i - 1].weight
  }

  /** The weight the walk leaves on free row k. */
  function Clipped(ws: seq<WorkloadWeight>, target: string, budget: int, k: nat): int
    requires k < |ws|
  {
    Run(ws, target, budget, k + 1) - Run(ws, target, budget, k)
  }

  /** The index of the last free row, or -1 when there is none. */
  function LastFree(ws: seq<WorkloadWeight>, target: string): (r: int)
    ensures -1 <= r < |ws|
    ensures r >= 0 ==> Free(ws[r], target)
    ensures forall k :: r < k < |ws| ==> !Free(ws[k], target)
  {
    if ws == [] then -1
    else if Free(ws[|ws| - 1], target) then |ws| - 1
    else LastFree(ws[..|ws| - 1], target)
  }

  /** The row `ws[k]` after `onWeight(target, newWeight)`. */
  function WeightAfter(ws: seq<WorkloadWeight>, target: string, newWeight: int, k: nat): WorkloadWeight
    requires k < |ws|
  {
    var budget := Budget(ws, target, newWeight);
    var total := Run(ws, target, budget, |ws|);
    if ws[k].name == target then ws[k].(weight := newWeight)
    else if ws[k].locked then ws[k]
    else if k == LastFree(ws, target) && total < budget then
      ws[k].(weight := Clipped(ws, target, budget, k) + budget - total)
    else ws[k].(weight := Clipped(ws, target, budget, k))
  }

  /**
   * The rows after `onWeight(target, newWeight)`. Only weights change: the
   * target rows get `newWeight`, locked rows keep theirs.
   */
  function AfterWeight(ws: seq<WorkloadWeight>, target: string, newWeight: int): (r: seq<WorkloadWeight>)
    ensures |r| == |ws|
    ensures forall k {:trigger r[k]} :: 0 <= k < |ws| ==>
      r[k].name == ws[k].name && r[k].locked == ws[k].locked && r[k].maxWeight == ws[k].maxWeight
    ensures forall k {:trigger r[k]} :: 0 <= k < |ws| && ws[k].name == target ==> r[k].weight == newWeight
    ensures forall k {:trigger r[k]} :: 0 <= k < |ws| && ws[k].locked && ws[k].name != target ==> r[k] == ws[k]
  {
    seq(|ws|, k requires 0 <= k < |ws| => WeightAfter(ws, target, newWeight, k))
  }

  /** Between two free rows the running sum does not move. */
  lemma {:induction false} RunFlat(ws: seq<WorkloadWeight>, target: string, budget: int, lo: nat, hi: nat)
    requires lo <= hi <= |ws|
    requires NoFreeIn(ws, target, lo, hi)
    ensures Run(ws, target, budget, hi) == Run(ws, target, budget, lo)
    decreases hi
  {
    if lo < hi {
      RunFlat(ws, target, budget, lo, hi - 1);
    }
  }

  /** Once the walk has passed a free row, the running sum never exceeds the budget. */
  lemma {:induction false} RunAtMostBudget(ws: seq<WorkloadWeight>, target: string, budget: int, k: nat, i: nat)
    requires k < i <= |ws| && Free(ws[k], target)
    ensures Run(ws, target, budget, i) <= budget
    decreases i
  {
    if k < i - 1 {
      RunAtMostBudget(ws, target, budget, k, i - 1);
    }
  }

  /**
   * During the walk a free row never grows, the running sum stays within the
   * budget after it, and a row that was cut fills the budget exactly.
   */
  lemma WalkClips(ws: seq<WorkloadWeight>, target: string, budget: int, k: nat)
    requires k < |ws| && Free(ws[k], target)
    ensures Clipped(ws, target, budget, k) <= ws[k].weight
    ensures Run(ws, target, budget, k + 1) <= budget
    ensures Clipped(ws, target, budget, k) < ws[k].weight ==> Run(ws, target, budget, k + 1) == budget
  {
  }

  lemma {:induction false} FreeSumAfterPrefix(ws: seq<WorkloadWeight>, target: string, newWeight: int, i: nat)
    requires i <= |ws|
    ensures var budget := Budget(ws, target, newWeight);
            var total := Run(ws, target, budget, |ws|);
            var last := LastFree(ws, target);
            FreeSum(AfterWeight(ws, target, newWeight)[..i], target)
            == Run(ws, target, budget, i) + (if 0 <= last < i && total < budget then budget - total else 0)
  {
    if i > 0 {
      var r := AfterWeight(ws, target, newWeight);
      FreeSumAfterPrefix(ws, target, newWeight, i - 1);
      assert r[..i][..i - 1] == r[..i - 1];
    }
  }

  /**
   * When a free row exists, the free rows end up adding to exactly the budget,
   * the shortfall of the walk having gone to the last of them.
   */
  lemma FreeSumAfterWeight(ws: seq<WorkloadWeight>, target: string, newWeight: int)
    requires LastFree(ws, target) >= 0
    ensures FreeSum(AfterWeight(ws, target, newWeight), target) == Budget(ws, target, newWeight)
  {
    var r := AfterWeight(ws, target, newWeight);
    FreeSumAfterPrefix(ws, target, newWeight, |ws|);
    assert r[..|ws|] == r;
    RunAtMostBudget(ws, target, Budget(ws, target, newWeight), LastFree(ws, target), |ws|);
  }

  lemma {:induction false} TargetWeightsCount(ws: seq<WorkloadWeight>, target: string, newWeight: int)
    ensures TargetWeights(ws, target, newWeight) == Count(ws, target) * newWeight
  {
    if ws != [] {
      TargetWeightsCount(ws[..|ws| - 1], target, newWeight);
      MulSucc(Count(ws[..|ws| - 1], target), newWeight);
    }
  }

  lemma MulSucc(c: int, w: int)
    ensures (c + 1) * w == c * w + w
  {
  }

  /** The weight of row k after `onWeight`, by the kind of row. */
  lemma WeightAfterValue(ws: seq<WorkloadWeight>, target: string, newWeight: int, k: nat)
    requires k < |ws|
    ensures var budget := Budget(ws, target, newWeight);
            var total := Run(ws, target, budget, |ws|);
            AfterWeight(ws, target, newWeight)[k].weight
            == if ws[k].name == target then newWeight
               else if ws[k].locked then ws[k].weight
               else Clipped(ws, target, budget, k)
                    + (if k == LastFree(ws, target) && total < budget then budget - total else 0)
  {
  }

  /** How each of the sums in TotalAfterPrefix grows when the prefix takes in row k. */
  lemma TotalAfterStep(ws: seq<WorkloadWeight>, target: string, newWeight: int, k: nat)
    requires k < |ws|
    ensures var budget := Budget(ws, target, newWeight);
            var r := AfterWeight(ws, target, newWeight);
            var total, last := Run(ws, target, budget, |ws|), LastFree(ws, target);
            TotalWeight(r[..k + 1]) - TotalWeight(r[..k])
            == LockedSum(ws[..k + 1]) - LockedSum(ws[..k])
               - (LockedTargetSum(ws[..k + 1], target) - LockedTargetSum(ws[..k], target))
               + TargetWeights(ws[..k + 1], target, newWeight) - TargetWeights(ws[..k], target, newWeight)
               + Run(ws, target, budget, k + 1) - Run(ws, target, budget, k)
               + (if last == k && total < budget then budget - total else 0)
  {
    var budget := Budget(ws, target, newWeight);
    var r := AfterWeight(ws, target, newWeight);
    SumsStep(r, target, newWeight, k + 1);
    SumsStep(ws, target, newWeight, k + 1);
    WeightAfterValue(ws, target, newWeight, k);
    var total, last := Run(ws, target, budget, |ws|), LastFree(ws, target);
    if ws[k].name == target || ws[k].locked {
      assert Run(ws, target, budget, k + 1) == Run(ws, target, budget, k) && last != k;
    } else {
      assert r[k].weight == Run(ws, target, budget, k + 1) - Run(ws, target, budget, k)
                            + (if k == last && total < budget then budget - total else 0);
    }
  }

  lemma {:induction false} TotalAfterPrefix(ws: seq<WorkloadWeight>, target: string, newWeight: int, i: nat)
    requires i <= |ws|
    ensures var budget := Budget(ws, target, newWeight);
            var total := Run(ws, target, budget, |ws|);
            var last := LastFree(ws, target);
            TotalWeight(AfterWeight(ws, target, newWeight)[..i])
            == LockedSum(ws[..i]) - LockedTargetSum(ws[..i], target) + TargetWeights(ws[..i], target, newWeight)
               + Run(ws, target, budget, i) + (if 0 <= last < i && total < budget then budget - total else 0)
  {
    if i > 0 {
      TotalAfterPrefix(ws, target, newWeight, i - 1);
      TotalAfterStep(ws, target, newWeight, i - 1);
    }
  }

  /**
   * When a free row exists, `onWeight` leaves a total of 100 minus the old
   * weights of the locked rows named `target`: 100 when the target is
   * unlocked, 100 minus its old weight when it is locked.
   */
  lemma TotalAfterWeight(ws: seq<WorkloadWeight>, target: string, newWeight: int)
    requires LastFree(ws, target) >= 0
    ensures TotalWeight(AfterWeight(ws, target, newWeight)) == 100 - LockedTargetSum(ws, target)
  {
    var r := AfterWeight(ws, target, newWeight);
    TotalAfterPrefix(ws, target, newWeight, |ws|);
    TargetWeightsCount(ws, target, newWeight);
    assert r[..|ws|] == r;
    assert ws[..|ws|] == ws;
    RunAtMostBudget(ws, target, Budget(ws, target, newWeight), LastFree(ws, target), |ws|);
  }

  lemma {:induction false} NoLockedTargetSum(ws: seq<WorkloadWeight>, target: string)
    requires forall k :: 0 <= k < |ws| && ws[k].name == target ==> !ws[k].locked
    ensures LockedTargetSum(ws, target) == 0
  {
    if ws != [] {
      NoLockedTargetSum(ws[..|ws| - 1], target);
    }
  }

  /** Moving an unlocked slider while some other unlocked row exists leaves the weights balanced. */
  lemma OnWeightBalances(ws: seq<WorkloadWeight>, target: string, newWeight: int)
    requires LastFree(ws, target) >= 0
    requires forall k :: 0 <= k < |ws| && ws[k].name == target ==> !ws[k].locked
    ensures CheckTotalWeight(AfterWeight(ws, target, newWeight))
  {
    TotalAfterWeight(ws, target, newWeight);
    NoLockedTargetSum(ws, target);
  }

  /** With no free row, `onWeight` changes nothing but the target rows' weights. */
  lemma OnWeightWithoutFree(ws: seq<WorkloadWeight>, target: string, newWeight: int)
    requires LastFree(ws, target) == -1
    ensures forall k :: 0 <= k < |ws| ==>
      AfterWeight(ws, target, newWeight)[k] == if ws[k].name == target then ws[k].(weight := newWeight) else ws[k]
  {
  }

  // ---------------------------------------------------------------------------
  // Idempotence of onWeight

  /** Same lock flags, and the same weights on the locked rows: the same locked sum. */
  lemma {:induction false} LockedSumSame(a: seq<WorkloadWeight>, b: seq<WorkloadWeight>)
    requires |a| == |b|
    requires forall k :: 0 <= k < |a| ==> a[k].locked == b[k].locked && (a[k].locked ==> a[k].weight == b[k].weight)
    ensures LockedSum(a) == LockedSum(b)
  {
    if a != [] {
      LockedSumSame(a[..|a| - 1], b[..|b| - 1]);
    }
  }

  lemma {:induction false} CountSame(a: seq<WorkloadWeight>, b: seq<WorkloadWeight>, target: string)
    requires |a| == |b|
    requires forall k :: 0 <= k < |a| ==> a[k].name == b[k].name
    ensures Count(a, target) == Count(b, target)
  {
    if a != [] {
      CountSame(a[..|a| - 1], b[..|b| - 1], target);
    }
  }

  lemma {:induction false} TotalWeightSame(a: seq<WorkloadWeight>, b: seq<WorkloadWeight>)
    requires |a| == |b|
    requires forall k :: 0 <= k < |a| ==> a[k].weight == b[k].weight
    ensures TotalWeight(a) == TotalWeight(b)
  {
    if a != [] {
      TotalWeightSame(a[..|a| - 1], b[..|b| - 1]);
    }
  }

  lemma {:induction false} LastFreeSame(a: seq<WorkloadWeight>, b: seq<WorkloadWeight>, target: string)
    requires |a| == |b|
    requires forall k :: 0 <= k < |a| ==> Free(a[k], target) == Free(b[k], target)
    ensures LastFree(a, target) == LastFree(b, target)
  {
    if a != [] {
      LastFreeSame(a[..|a| - 1], b[..|b| - 1], target);
    }
  }

  /**
   * Walking the rows `onWeight` produced, with the same budget: the running
   * sum follows the first walk up to the last free row and is then exactly
   * the budget.
   */
  lemma {:induction false} RunAfterWeight(ws: seq<WorkloadWeight>, target: string, newWeight: int, i: nat)
    requires i <= |ws| && LastFree(ws, target) >= 0
    ensures var budget := Budget(ws, target, newWeight);
            Run(AfterWeight(ws, target, newWeight), target, budget, i)
            == if i <= LastFree(ws, target) then Run(ws, target, budget, i) else budget
  {
    if i > 0 {
      var budget := Budget(ws, target, newWeight);
      var last := LastFree(ws, target);
      var k := i - 1;
      RunAfterWeight(ws, target, newWeight, k);
      WeightAfterValue(ws, target, newWeight, k);
      if k < last && Free(ws[k], target) {
        RunAtMostBudget(ws, target, budget, k, i);
      }
      if k == last {
        RunFlat(ws, target, budget, last + 1, |ws|);
        RunAtMostBudget(ws, target, budget, last, |ws|);
      }
    }
  }

  /**
   * Repeating `onWeight(target, w)` changes nothing, provided every locked row
   * named `target` already weighs w (so that the budget is the same twice).
   */
  lemma AfterWeightIdempotent(ws: seq<WorkloadWeight>, target: string, newWeight: int)
    requires forall k :: 0 <= k < |ws| && ws[k].locked && ws[k].name == target ==> ws[k].weight == newWeight
    ensures AfterWeight(AfterWeight(ws, target, newWeight), target, newWeight) == AfterWeight(ws, target, newWeight)
  {
    var r := AfterWeight(ws, target, newWeight);
    var r2 := AfterWeight(r, target, newWeight);
    LockedSumSame(ws, r);
    CountSame(ws, r, target);
    LastFreeSame(ws, r, target);
    var budget := Budget(ws, target, newWeight);
    var last := LastFree(ws, target);
    assert Budget(r, target, newWeight) == budget;
    if last >= 0 {
      forall k | 0 <= k < |ws| ensures r2[k] == r[k] {
        IdempotentAt(ws, target, newWeight, k);
      }
    }
    assert r2 == r;
  }

  /** `AfterWeightIdempotent` at one row, given that the second call has the same budget and last free row. */
  lemma IdempotentAt(ws: seq<WorkloadWeight>, target: string, newWeight: int, k: nat)
    requires k < |ws| && LastFree(ws, target) >= 0
    requires Budget(AfterWeight(ws, target, newWeight), target, newWeight) == Budget(ws, target, newWeight)
    requires LastFree(AfterWeight(ws, target, newWeight), target) == LastFree(ws, target)
    ensures AfterWeight(AfterWeight(ws, target, newWeight), target, newWeight)[k] == AfterWeight(ws, target, newWeight)[k]
  {
    if Free(ws[k], target) {
      IdempotentFree(ws, target, newWeight, k);
    }
  }

  /** The free-row case of `IdempotentAt`: the second walk leaves the weight the first one gave. */
  lemma IdempotentFree(ws: seq<WorkloadWeight>, target: string, newWeight: int, k: nat)
    requires k < |ws| && LastFree(ws, target) >= 0 && Free(ws[k], target)
    requires Budget(AfterWeight(ws, target, newWeight), target, newWeight) == Budget(ws, target, newWeight)
    requires LastFree(AfterWeight(ws, target, newWeight), target) == LastFree(ws, target)
    ensures AfterWeight(AfterWeight(ws, target, newWeight), target, newWeight)[k].weight
            == AfterWeight(ws, target, newWeight)[k].weight
  {
    var r := AfterWeight(ws, target, newWeight);
    var budget := Budget(ws, target, newWeight);
    var last := LastFree(ws, target);
    RunAfterWeight(ws, target, newWeight, |ws|);
    RunAfterWeight(ws, target, newWeight, k);
    RunAfterWeight(ws, target, newWeight, k + 1);
    WeightAfterValue(r, target, newWeight, k);
    WeightAfterValue(ws, target, newWeight, k);
    if k == last {
      RunFlat(ws, target, budget, last + 1, |ws|);
      RunAtMostBudget(ws, target, budget, last, |ws|);
    }
  }

  // ---------------------------------------------------------------------------
  // onLock

  /** The rows once the lock flag of the rows named `target` is set to `locked`. */
  function Relocked(ws: seq<WorkloadWeight>, target: string, locked: bool): (f: seq<WorkloadWeight>)
    ensures |f| == |ws|
  {
    seq(|ws|, k requires 0 <= k < |ws| => if ws[k].name == target then ws[k].(locked := locked) else ws[k])
  }

  /** The rows once every unlocked row's bound is `bound`. */
  function WithBound(ws: seq<WorkloadWeight>, bound: int): (r: seq<WorkloadWeight>)
    ensures |r| == |ws|
  {
    seq(|ws|, k requires 0 <= k < |ws| => if ws[k].locked then ws[k] else ws[k].(maxWeight := bound))
  }

  /**
   * The rows after `onLock(target, locked)`: only the target's flag and the
   * bounds of the unlocked rows change; each unlocked row's bound becomes 100
   * minus the locked weights, counted with the new flags.
   */
  function AfterLock(ws: seq<WorkloadWeight>, target: string, locked: bool): (r: seq<WorkloadWeight>)
    ensures |r| == |ws|
    ensures forall k :: 0 <= k < |ws| ==> r[k].name == ws[k].name && r[k].weight == ws[k].weight
    ensures forall k :: 0 <= k < |ws| ==> r[k].locked == if ws[k].name == target then locked else ws[k].locked
    ensures forall k :: 0 <= k < |ws| && r[k].locked ==> r[k].maxWeight == ws[k].maxWeight
    ensures forall k :: 0 <= k < |ws| && !r[k].locked ==> r[k].maxWeight == 100 - LockedSum(r)
  {
    var f := Relocked(ws, target, locked);
    var r := WithBound(f, 100 - LockedSum(f));
    LockedSumSame(f, r);
    r
  }

  /** Locking or unlocking never changes the total, so it never changes `checkTotalWeight`. */
  lemma AfterLockKeepsTotal(ws: seq<WorkloadWeight>, target: string, locked: bool)
    ensures TotalWeight(AfterLock(ws, target, locked)) == TotalWeight(ws)
    ensures CheckTotalWeight(AfterLock(ws, target, locked)) == CheckTotalWeight(ws)
  {
    TotalWeightSame(AfterLock(ws, target, locked), ws);
  }

  // ---------------------------------------------------------------------------
  // The steps of the walk in `onWeight`, as the method takes them

  /** The rows once those named `target` carry `newWeight`. */
  function WithWeight(ws: seq<WorkloadWeight>, target: string, newWeight: int): (r: seq<WorkloadWeight>)
    ensures |r| == |ws|
  {
    seq(|ws|, k requires 0 <= k < |ws| => if ws[k].name == target then ws[k].(weight := newWeight) else ws[k])
  }

  /** The indices of the free rows of `ws[..i]`, in increasing order: the `nodeId` list. */
  function FreeList(ws: seq<WorkloadWeight>, target: string, i: nat): seq<nat>
    requires i <= |ws|
  {
    if i == 0 then [] else FreeList(ws, target, i - 1) + (if Free(ws[i - 1], target) then [i - 1] else [])
  }

  /** `nodeId` lists the free rows of `ws[..i]`, each once, in increasing order. */
  ghost predicate FreeIndices(ws: seq<WorkloadWeight>, target: string, nodeId: seq<nat>, i: nat)
    requires i <= |ws|
  {
    && (forall m :: 0 <= m < |nodeId| ==> nodeId[m] < i && Free(ws[nodeId[m]], target))
    && (forall m :: 0 < m < |nodeId| ==> nodeId[m - 1] < nodeId[m])
    && (forall m :: 0 <= m < |nodeId| ==>
          NoFreeIn(ws, target, if m == 0 then 0 else nodeId[m - 1] + 1, nodeId[m]))
    && NoFreeIn(ws, target, if |nodeId| == 0 then 0 else nodeId[|nodeId| - 1] + 1, i)
  }

  lemma {:induction false} FreeListIndices(ws: seq<WorkloadWeight>, target: string, i: nat)
    requires i <= |ws|
    ensures FreeIndices(ws, target, FreeList(ws, target, i), i)
  {
    if i > 0 {
      FreeListIndices(ws, target, i - 1);
      var before := FreeList(ws, target, i - 1);
      if Free(ws[i - 1], target) {
        FreeIndicesPush(ws, target, before, i - 1);
        assert FreeList(ws, target, i) == before + [i - 1];
      } else {
        FreeIndicesSkip(ws, target, before, i - 1);
        assert FreeList(ws, target, i) == before;
      }
    }
  }

  /** A row that is not free extends the stretch after the last listed one. */
  lemma FreeIndicesSkip(ws: seq<WorkloadWeight>, target: string, nodeId: seq<nat>, i: nat)
    requires i < |ws| && !Free(ws[i], target)
    requires FreeIndices(ws, target, nodeId, i)
    ensures FreeIndices(ws, target, nodeId, i + 1)
  {
  }

  /** Appending the free row `i` to a list of the free rows of `ws[..i]` lists those of `ws[..i + 1]`. */
  lemma FreeIndicesPush(ws: seq<WorkloadWeight>, target: string, nodeId: seq<nat>, i: nat)
    requires i < |ws| && Free(ws[i], target)
    requires FreeIndices(ws, target, nodeId, i)
    ensures FreeIndices(ws, target, nodeId + [i], i + 1)
  {
    var next := nodeId + [i];
    forall m | 0 <= m < |next| ensures next[m] < i + 1 && Free(ws[next[m]], target) {
      if m < |nodeId| {
        assert next[m] == nodeId[m];
      }
    }
    forall m | 0 <= m < |next|
      ensures NoFreeIn(ws, target, if m == 0 then 0 else next[m - 1] + 1, next[m])
    {
      if m < |nodeId| {
        assert next[m] == nodeId[m];
        if m > 0 {
          assert next[m - 1] == nodeId[m - 1];
        }
      } else if m > 0 {
        assert next[m] == i && next[m - 1] == nodeId[|nodeId| - 1];
      }
    }
    forall m | 0 < m < |next| ensures next[m - 1] < next[m] {
      if m < |nodeId| {
        assert next[m] == nodeId[m] && next[m - 1] == nodeId[m - 1];
      }
    }
  }

  /** Entry j of the `nodeId` list is a free row, and no row between it and the entry before is free. */
  lemma FreeListAt(ws: seq<WorkloadWeight>, target: string, j: nat)
    requires j < |FreeList(ws, target, |ws|)|
    ensures var nodeId := FreeList(ws, target, |ws|);
            && nodeId[j] < |ws| && Free(ws[nodeId[j]], target)
            && (j > 0 ==> nodeId[j - 1] < nodeId[j])
            && NoFreeIn(ws, target, if j == 0 then 0 else nodeId[j - 1] + 1, nodeId[j])
  {
    FreeListIndices(ws, target, |ws|);
  }

  /** No row after the last entry of the `nodeId` list is free, and that entry is a free row. */
  lemma FreeListEnd(ws: seq<WorkloadWeight>, target: string)
    ensures var nodeId := FreeList(ws, target, |ws|);
            && (|nodeId| == 0 ==> NoFreeIn(ws, target, 0, |ws|))
            && (|nodeId| > 0 ==> nodeId[|nodeId| - 1] < |ws| && Free(ws[nodeId[|nodeId| - 1]], target)
                                 && NoFreeIn(ws, target, nodeId[|nodeId| - 1] + 1, |ws|))
  {
    FreeListIndices(ws, target, |ws|);
  }

  /** The rows once the target rows carry `newWeight` and the walk has passed the rows before `pos`. */
  ghost predicate WalkedUpTo(ws: seq<WorkloadWeight>, target: string, newWeight: int, budget: int,
                             cur: seq<WorkloadWeight>, pos: nat)
    requires |cur| == |ws| && pos <= |ws|
  {
    forall k {:trigger cur[k]} :: 0 <= k < |ws| ==>
      cur[k] == if k < pos && Free(ws[k], target) then ws[k].(weight := Clipped(ws, target, budget, k))
                else if ws[k].name == target then ws[k].(weight := newWeight)
                else ws[k]
  }

  /** One step of the walk, at the next free row `id`: the row gets its clipped weight and the sum follows `Run`. */
  lemma WalkStep(ws: seq<WorkloadWeight>, target: string, newWeight: int, budget: int,
                 cur: seq<WorkloadWeight>, pos: nat, id: nat, sum: int)
    requires |cur| == |ws| && pos <= id < |ws| && Free(ws[id], target)
    requires NoFreeIn(ws, target, pos, id)
    requires sum == Run(ws, target, budget, pos)
    requires WalkedUpTo(ws, target, newWeight, budget, cur, pos)
    ensures cur[id] == ws[id]
    ensures var w := if sum + ws[id].weight > budget then budget - sum else ws[id].weight;
            && Run(ws, target, budget, id + 1) == sum + w
            && WalkedUpTo(ws, target, newWeight, budget, cur[id := cur[id].(weight := w)], id + 1)
  {
    RunFlat(ws, target, budget, pos, id);
  }

  /** The shortfall, when positive, goes onto row `lastId`, if there is one. */
  function Settled(cur: seq<WorkloadWeight>, lastId: int, shortfall: int): (r: seq<WorkloadWeight>)
    requires lastId < |cur|
    ensures |r| == |cur|
  {
    if lastId >= 0 && shortfall > 0 then cur[lastId := cur[lastId].(weight := cur[lastId].weight + shortfall)]
    else cur
  }

  /** After the walk and the adjustment of the last free row the rows are `AfterWeight`. */
  lemma WalkComplete(ws: seq<WorkloadWeight>, target: string, newWeight: int, budget: int,
                     cur: seq<WorkloadWeight>, pos: nat, sum: int, lastId: int)
    requires budget == Budget(ws, target, newWeight)
    requires |cur| == |ws| && pos <= |ws|
    requires WalkedUpTo(ws, target, newWeight, budget, cur, pos)
    requires sum == Run(ws, target, budget, pos)
    requires NoFreeIn(ws, target, pos, |ws|)
    requires lastId == -1 ==> NoFreeIn(ws, target, 0, |ws|)
    requires lastId != -1 ==> 0 <= lastId < pos && Free(ws[lastId], target) && NoFreeIn(ws, target, lastId + 1, |ws|)
    ensures AfterWeight(ws, target, newWeight) == Settled(cur, lastId, budget - sum)
  {
    RunFlat(ws, target, budget, pos, |ws|);
    LastFreeIs(ws, target, lastId);
    var r := AfterWeight(ws, target, newWeight);
    var want := Settled(cur, lastId, budget - sum);
    forall k | 0 <= k < |ws| ensures r[k] == want[k] {
      SettledAt(ws, target, newWeight, budget, cur, pos, sum, lastId, k);
    }
  }

  /** `WalkComplete` at one row. */
  lemma SettledAt(ws: seq<WorkloadWeight>, target: string, newWeight: int, budget: int,
                  cur: seq<WorkloadWeight>, pos: nat, sum: int, lastId: int, k: nat)
    requires budget == Budget(ws, target, newWeight)
    requires |cur| == |ws| && pos <= |ws| && k < |ws|
    requires cur[k] == if k < pos && Free(ws[k], target) then ws[k].(weight := Clipped(ws, target, budget, k))
                       else if ws[k].name == target then ws[k].(weight := newWeight)
                       else ws[k]
    requires Free(ws[k], target) ==> k < pos
    requires sum == Run(ws, target, budget, |ws|)
    requires lastId == LastFree(ws, target)
    ensures AfterWeight(ws, target, newWeight)[k] == Settled(cur, lastId, budget - sum)[k]
  {
    assert AfterWeight(ws, target, newWeight)[k] == WeightAfter(ws, target, newWeight, k);
  }

  /** The last free row is the free row after which no row is free. */
  lemma LastFreeIs(ws: seq<WorkloadWeight>, target: string, lastId: int)
    requires lastId == -1 ==> NoFreeIn(ws, target, 0, |ws|)
    requires lastId != -1 ==> 0 <= lastId < |ws| && Free(ws[lastId], target) && NoFreeIn(ws, target, lastId + 1, |ws|)
    ensures LastFree(ws, target) == lastId
  {
  }

  // ---------------------------------------------------------------------------
  // The component

  /** The component's state: the rows, in workload order. */
  class WeightedRouting {
    var workloads: array<WorkloadWeight>

    /** The component starts with no rows. */
    constructor ()
      ensures workloads[..] == []
    {
      workloads := new WorkloadWeight[0];
    }

    /**
     * "Evenly distribute traffic": with no workloads nothing happens and the
     * host is not told; otherwise the rows are rebuilt and `onChange` is
     * called with `reset = true`.
     */
    method ResetState(props: seq<WorkloadOverview>) returns (notified: Option<ChangeEvent>)
      modifies this
      ensures |props| == 0 ==> notified == None && workloads == old(workloads)
      ensures |props| > 0 ==> fresh(workloads) && workloads[..] == ResetWeights(Names(props))
      ensures |props| > 0 ==> notified == Some(ChangeEvent(CheckTotalWeight(workloads[..]), workloads[..], true))
    {
      var n := |props|;
      if n == 0 {
        return None;
      }
      var wkTraffic := if n < 100 then JsRound(100, n) else 0;
      var remainTraffic := if n < 100 then 100 % n else 0;
      assert wkTraffic == ResetShare(n) && remainTraffic == ResetRemainder(n);
      var rows := new WorkloadWeight[n];
      for i := 0 to n
        invariant forall k :: 0 <= k < i ==> rows[k] == WorkloadWeight(props[k].name, wkTraffic, false, 100)
      {
        rows[i] := WorkloadWeight(props[i].name, wkTraffic, false, 100);
      }
      if remainTraffic > 0 {
        rows[n - 1] := rows[n - 1].(weight := rows[n - 1].weight + remainTraffic);
      }
      workloads := rows;
      ghost var want := ResetWeights(Names(props));
      forall k | 0 <= k < n ensures workloads[k] == want[k] {
        if k < n - 1 {
          assert want[k] == WorkloadWeight(props[k].name, wkTraffic, false, 100);
        } else {
          assert want[k] == WorkloadWeight(props[k].name, wkTraffic + remainTraffic, false, 100);
        }
      }
      assert workloads[..] == want;
      notified := Some(ChangeEvent(CheckTotalWeight(workloads[..]), workloads[..], true));
    }

    /**
     * A slider moved: the rows named `workloadName` get `newWeight`, and the
     * unlocked other rows are walked in order, cut to the remaining budget,
     * the last of them taking any shortfall; then `onChange` is called with
     * `reset = false`. The phases of the source are the methods below.
     */
    method OnWeight(workloadName: string, newWeight: int) returns (event: ChangeEvent)
      modifies workloads
      ensures workloads[..] == AfterWeight(old(workloads[..]), workloadName, newWeight)
      ensures event == ChangeEvent(CheckTotalWeight(workloads[..]), workloads[..], false)
    {
      ghost var ws := workloads[..];
      var maxWeight := LockedBudget();
      var nodeId;
      maxWeight, nodeId := SetWeight(workloadName, newWeight, maxWeight);
      TargetWeightsCount(ws, workloadName, newWeight);
      DistributePending(workloadName, newWeight, nodeId, maxWeight, ws);
      event := ChangeEvent(CheckTotalWeight(workloads[..]), workloads[..], false);
    }

    /** The budget: 100 minus the weights of the locked rows. */
    method LockedBudget() returns (maxWeight: int)
      ensures maxWeight == 100 - LockedSum(workloads[..])
    {
      ghost var ws := workloads[..];
      maxWeight := 100;
      for i := 0 to workloads.Length
        invariant maxWeight == 100 - LockedSum(ws[..i])
      {
        LockedSumStep(ws, i + 1);
        if workloads[i].locked {
          maxWeight := maxWeight - workloads[i].weight;
        }
      }
      assert ws[..workloads.Length] == ws;
    }

    /**
     * Each row named `workloadName` gets `newWeight`, which is taken off the budget, and the
     * indices of the free rows are collected in order.
     */
    method SetWeight(workloadName: string, newWeight: int, maxWeight0: int) returns (maxWeight: int, nodeId: seq<nat>)
      modifies workloads
      ensures maxWeight == maxWeight0 - TargetWeights(old(workloads[..]), workloadName, newWeight)
      ensures workloads[..] == WithWeight(old(workloads[..]), workloadName, newWeight)
      ensures nodeId == FreeList(old(workloads[..]), workloadName, workloads.Length)
    {
      ghost var ws := workloads[..];
      ghost var targeted := WithWeight(ws, workloadName, newWeight);
      var n := workloads.Length;
      nodeId := [];
      maxWeight := maxWeight0;
      for i := 0 to n
        invariant maxWeight == maxWeight0 - TargetWeights(ws[..i], workloadName, newWeight)
        invariant forall k :: 0 <= k < n ==> workloads[k] == if k < i then targeted[k] else ws[k]
        invariant nodeId == FreeList(ws, workloadName, i)
      {
        TargetWeightsStep(ws, workloadName, newWeight, i + 1);
        if workloads[i].name == workloadName {
          workloads[i] := workloads[i].(weight := newWeight);
          maxWeight := maxWeight - newWeight;
        } else if !workloads[i].locked {
          nodeId := nodeId + [i];
        }
      }
      assert ws[..n] == ws;
      assert workloads[..] == targeted;
    }

    /**
     * The walk over the free rows `nodeId` with the budget `maxWeight`, then the shortfall
     * onto the last of them.
     */
    method DistributePending(workloadName: string, newWeight: int, nodeId: seq<nat>, maxWeight: int,
                             ghost ws: seq<WorkloadWeight>)
      requires |ws| == workloads.Length
      requires workloads[..] == WithWeight(ws, workloadName, newWeight)
      requires nodeId == FreeList(ws, workloadName, |ws|)
      requires maxWeight == Budget(ws, workloadName, newWeight)
      modifies workloads
      ensures workloads[..] == AfterWeight(ws, workloadName, newWeight)
    {
      ghost var pos;
      var sumWeights;
      sumWeights, pos := WalkFree(workloadName, newWeight, nodeId, maxWeight, ws);
      ghost var lastId := if |nodeId| == 0 then -1 else nodeId[|nodeId| - 1];
      FreeListEnd(ws, workloadName);
      WalkComplete(ws, workloadName, newWeight, maxWeight, workloads[..], pos, sumWeights, lastId);
      AdjustLast(nodeId, maxWeight - sumWeights);
    }

    /** Each free row, in order, is cut down to what the budget leaves for it. */
    method WalkFree(workloadName: string, newWeight: int, nodeId: seq<nat>, maxWeight: int,
                    ghost ws: seq<WorkloadWeight>)
      returns (sumWeights: int, ghost pos: nat)
      requires |ws| == workloads.Length
      requires workloads[..] == WithWeight(ws, workloadName, newWeight)
      requires nodeId == FreeList(ws, workloadName, |ws|)
      modifies workloads
      ensures pos == if |nodeId| == 0 then 0 else nodeId[|nodeId| - 1] + 1
      ensures pos <= |ws|
      ensures sumWeights == Run(ws, workloadName, maxWeight, pos)
      ensures WalkedUpTo(ws, workloadName, newWeight, maxWeight, workloads[..], pos)
    {
      var n := workloads.Length;
      sumWeights := 0;
      pos := 0;
      for j := 0 to |nodeId|
        invariant pos == if j == 0 then 0 else nodeId[j - 1] + 1
        invariant pos <= n
        invariant sumWeights == Run(ws, workloadName, maxWeight, pos)
        invariant WalkedUpTo(ws, workloadName, newWeight, maxWeight, workloads[..], pos)
      {
        FreeListAt(ws, workloadName, j);
        var id := nodeId[j];
        WalkStep(ws, workloadName, newWeight, maxWeight, workloads[..], pos, id, sumWeights);
        var w := ClipRow(id, sumWeights, maxWeight);
        sumWeights := sumWeights + w;
        pos := id + 1;
      }
    }

    /** One row of the walk: cut down to `maxWeight - sumWeights` when it would overshoot; its new weight is returned. */
    method ClipRow(id: nat, sumWeights: int, maxWeight: int) returns (w: int)
      requires id < workloads.Length
      modifies workloads
      ensures w == if sumWeights + old(workloads[id].weight) > maxWeight then maxWeight - sumWeights
                   else old(workloads[id].weight)
      ensures workloads[..] == old(workloads[..])[id := old(workloads[id]).(weight := w)]
    {
      if sumWeights + workloads[id].weight > maxWeight {
        workloads[id] := workloads[id].(weight := maxWeight - sumWeights);
      }
      w := workloads[id].weight;
    }

    /** A positive shortfall goes onto the last free row, if there is one. */
    method AdjustLast(nodeId: seq<nat>, shortfall: int)
      requires |nodeId| > 0 ==> nodeId[|nodeId| - 1] < workloads.Length
      modifies workloads
      ensures workloads[..] == Settled(old(workloads[..]), if |nodeId| == 0 then -1 else nodeId[|nodeId| - 1], shortfall)
    {
      if |nodeId| > 0 && shortfall > 0 {
        var id := nodeId[|nodeId| - 1];
        workloads[id] := workloads[id].(weight := workloads[id].weight + shortfall);
      }
    }

    /**
     * A lock toggled: the rows named `workloadName` take the flag, and every
     * unlocked row's bound becomes 100 minus the locked weights. The host is
     * not told.
     */
    method OnLock(workloadName: string, locked: bool)
      modifies workloads
      ensures workloads[..] == AfterLock(old(workloads[..]), workloadName, locked)
    {
      var maxWeights := SetLock(workloadName, locked);
      UpdateMaxWeights(maxWeights);
    }

    /** The first loop of `onLock`: set the flag and sum the locked weights, counted with the new flags. */
    method SetLock(workloadName: string, locked: bool) returns (maxWeights: int)
      modifies workloads
      ensures workloads[..] == Relocked(old(workloads[..]), workloadName, locked)
      ensures maxWeights == 100 - LockedSum(workloads[..])
    {
      ghost var ws := workloads[..];
      ghost var flagged := Relocked(ws, workloadName, locked);
      var n := workloads.Length;
      maxWeights := 100;
      var numLocks := 0;  // counted as in the component, never read
      for i := 0 to n
        invariant forall k :: 0 <= k < n ==> workloads[k] == if k < i then flagged[k] else ws[k]
        invariant maxWeights == 100 - LockedSum(flagged[..i])
      {
        LockedSumStep(flagged, i + 1);
        if workloads[i].name == workloadName {
          workloads[i] := workloads[i].(locked := locked);
        }
        // What the locked rows leave of the 100
        if workloads[i].locked {
          numLocks := numLocks + 1;
          maxWeights := maxWeights - workloads[i].weight;
        }
      }
      assert flagged[..n] == flagged;
      assert workloads[..] == flagged;
    }

    /** Every unlocked row gets the bound `maxWeights`; locked rows keep theirs. */
    method UpdateMaxWeights(maxWeights: int)
      modifies workloads
      ensures workloads[..] == WithBound(old(workloads[..]), maxWeights)
    {
      ghost var ws := workloads[..];
      ghost var bounded := WithBound(ws, maxWeights);
      for i := 0 to workloads.Length
        invariant forall k :: 0 <= k < workloads.Length ==> workloads[k] == if k < i then bounded[k] else ws[k]
      {
        if !workloads[i].locked {
          workloads[i] := workloads[i].(maxWeight := maxWeights);
        }
      }
      assert workloads[..] == bounded;
    }
  }
}
