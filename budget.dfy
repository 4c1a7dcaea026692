/** The budget pass of `autoPick`: when the rounded mean of the known
    salaries of the picks is over a truthy `budgetAvg`, the picks are
    visited from the most expensive down, and the first one that has a
    cheaper candidate of the same role group bringing the mean within
    budget is swapped for the cheapest such candidate. At most one swap is
    made. Picks are positions in `scored`, as in the greedy pass. */
module Budget {
  import opened Records
  import opened Ranking
  import opened Greedy

  // ------------------------------------------------------------ the mean

  function Sum(s: seq<nat>): nat {
    if s == [] then 0 else Sum(s[..|s| - 1]) + s[|s| - 1]
  }

  /** The known salaries of the picks, in the order of the picks. */
  function KnownSalaries(scored: seq<Scored>, picks: seq<nat>): (r: seq<nat>)
    requires InRange(|scored|, picks)
    ensures |r| <= |picks|
  {
    if picks == [] then []
    else
      var n := |picks| - 1;
      var front := KnownSalaries(scored, picks[..n]);
      match scored[picks[n]].meta.salary
      case Some(s) => front + [s]
      case None => front
  }

  /** `avgKnownFromScored`: `Math.round` of the mean of the known salaries,
      or `null` when none is known. `Math.round(x)` is `floor(x + 1/2)`,
      which for `x = sum / n` is `(2 * sum + n) / (2 * n)`. */
  function AvgKnown(scored: seq<Scored>, picks: seq<nat>): Option<nat>
    requires InRange(|scored|, picks)
  {
    var ns := KnownSalaries(scored, picks);
    if ns == [] then None else Some((2 * Sum(ns) + |ns|) / (2 * |ns|))
  }

  lemma DivBounds(m: nat, d: nat)
    requires d > 0
    ensures d * (m / d) <= m < d * (m / d) + d
  {
  }

  /** The rounded mean is the integer nearest to the mean, halves rounding
      up: `a - 1/2 <= sum / n < a + 1/2`. There is none exactly when no
      salary is known. */
  lemma AvgKnownRounds(scored: seq<Scored>, picks: seq<nat>)
    requires InRange(|scored|, picks)
    ensures var ns := KnownSalaries(scored, picks);
      (AvgKnown(scored, picks).None? <==> ns == [])
      && (AvgKnown(scored, picks).Some? ==>
            var a := AvgKnown(scored, picks).value;
            2 * |ns| * a <= 2 * Sum(ns) + |ns| < 2 * |ns| * a + 2 * |ns|)
  {
    var ns := KnownSalaries(scored, picks);
    if ns != [] {
      DivBounds(2 * Sum(ns) + |ns|, 2 * |ns|);
    }
  }

  /** `if (budgetAvg)`: a budget is there and is not zero. */
  predicate Truthy(budget: Option<real>) {
    budget.Some? && budget.value != 0.0
  }

  /** The budget pass runs: the budget is truthy and the rounded mean of
      the known salaries of the picks is above it. */
  predicate OverBudget(scored: seq<Scored>, picks: seq<nat>, budget: Option<real>)
    requires InRange(|scored|, picks)
  {
    var avg := AvgKnown(scored, picks);
    Truthy(budget) && avg.Some? && avg.value as real > budget.value
  }

  /** `newAvg !== null && newAvg <= budgetAvg` for `picks`. */
  predicate WithinBudget(scored: seq<Scored>, picks: seq<nat>, budget: Option<real>)
    requires InRange(|scored|, picks) && budget.Some?
  {
    var avg := AvgKnown(scored, picks);
    avg.Some? && avg.value as real <= budget.value
  }

  // ------------------------------------------------------ the pricey order

  /** The comparator `b.sal - a.sal` on `salary ?? Infinity`: higher first,
      an unknown salary first of all, two unknown ones equal. */
  function PriceyKey(sal: Option<nat>): Key {
    match sal
    case None => Key(0, 0.0, Fin(0))
    case Some(s) => Key(1, -(s as real), Fin(0))
  }

  /** The sort key of every slot of `picks`. */
  function PriceyKeys(scored: seq<Scored>, picks: seq<nat>): (r: seq<Key>)
    requires InRange(|scored|, picks)
    ensures |r| == |picks|
  {
    seq(|picks|, i requires 0 <= i < |picks| => PriceyKey(scored[picks[i]].meta.salary))
  }

  /** The slot positions `0, 1, ..., n - 1`. */
  function Slots(n: nat): (r: seq<nat>)
    ensures |r| == n && InRange(n, r)
    ensures forall i :: 0 <= i < n ==> r[i] == i
  {
    seq(n, i requires 0 <= i < n => i)
  }

  /** `pricey`: the slots of `picks` sorted from the highest salary down. */
  function Pricey(scored: seq<Scored>, picks: seq<nat>): (r: seq<nat>)
    requires InRange(|scored|, picks)
    ensures InRange(|picks|, r)
  {
    SortByKey(PriceyKeys(scored, picks), Slots(|picks|))
  }

  /** `pricey` visits every slot exactly once, from the highest salary
      down (an unknown salary first), equal salaries in slot order. */
  lemma PriceyOrder(scored: seq<Scored>, picks: seq<nat>)
    requires InRange(|scored|, picks)
    ensures var p := Pricey(scored, picks);
      |p| == |picks| && Distinct(p)
      && (forall i :: 0 <= i < |picks| ==> i in p)
      && forall a, b :: 0 <= a < b < |p| ==>
           Precedes(PriceyKeys(scored, picks), p[a], p[b])
           && !ExtLess(SalaryKey(scored[picks[p[a]]].meta.salary, Inf), SalaryKey(scored[picks[p[b]]].meta.salary, Inf))
  {
    var keys := PriceyKeys(scored, picks);
    var sl := Slots(|picks|);
    var p := Pricey(scored, picks);
    assert Distinct(sl);
    SortByKeyPermutes(keys, sl);
    SortByKeySorted(keys, sl);
    assert |p| == |multiset(p)| == |multiset(sl)| == |sl|;
    forall i | 0 <= i < |picks| ensures i in p {
      assert sl[i] == i;
      assert i in multiset(sl);
    }
    DistinctOfPermutation(sl, p);
    forall a, b | 0 <= a < b < |p|
      ensures !ExtLess(SalaryKey(scored[picks[p[a]]].meta.salary, Inf), SalaryKey(scored[picks[p[b]]].meta.salary, Inf))
    {
      assert Precedes(keys, p[a], p[b]);
    }
  }

  // -------------------------------------------------------- alternatives

  /** The filter of `alts` for a pick of role group `g` whose
      `salary ?? Infinity` is `cur`: the same `groupIndexOf`, not picked,
      and a strictly lower `salary ?? Infinity`. */
  function AltFilter(scored: seq<Scored>, groups: seq<seq<Category>>, picks: seq<nat>, g: int, cur: Ext): (r: seq<bool>)
    ensures |r| == |scored|
  {
    seq(|scored|, s requires 0 <= s < |scored| =>
      GroupIndex(groups, scored[s].meta.cats) == g && s !in picks && ExtLess(SalaryKey(scored[s].meta.salary, Inf), cur))
  }

  /** `s` may replace the pick in slot `i`. */
  predicate IsAlternative(scored: seq<Scored>, groups: seq<seq<Category>>, picks: seq<nat>, i: nat, s: nat)
    requires InRange(|scored|, picks) && i < |picks|
  {
    var cur := scored[picks[i]];
    s < |scored|
    && GroupIndex(groups, scored[s].meta.cats) == GroupIndex(groups, cur.meta.cats)
    && s !in picks
    && ExtLess(SalaryKey(scored[s].meta.salary, Inf), SalaryKey(cur.meta.salary, Inf))
  }

  function AltMask(scored: seq<Scored>, groups: seq<seq<Category>>, picks: seq<nat>, i: nat): (r: seq<bool>)
    requires InRange(|scored|, picks) && i < |picks|
    ensures |r| == |scored|
  {
    var cur := scored[picks[i]];
    AltFilter(scored, groups, picks, GroupIndex(groups, cur.meta.cats), SalaryKey(cur.meta.salary, Inf))
  }

  /** The comparator of `alts`: `salary ?? 1e12` lower first, then score
      higher first. */
  function AltKey(s: Scored): Key {
    var sal := match s.meta.salary case Some(v) => v case None => 1_000_000_000_000;
    Key(sal, -s.meta.score, Fin(0))
  }

  function AltKeys(scored: seq<Scored>): (r: seq<Key>)
    ensures |r| == |scored|
  {
    seq(|scored|, s requires 0 <= s < |scored| => AltKey(scored[s]))
  }

  /** The alternative `a` brings the rounded mean of the picks with `a` in
      slot `i` within budget. */
  predicate Fits(scored: seq<Scored>, picks: seq<nat>, budget: Option<real>, i: nat, a: nat)
    requires InRange(|scored|, picks) && i < |picks| && a < |scored| && budget.Some?
  {
    InRangeUpdate(|scored|, picks, i, a);
    WithinBudget(scored, picks[i := a], budget)
  }

  /** `a` is an alternative for slot `i` that fits the budget. */
  predicate FitsAt(scored: seq<Scored>, groups: seq<seq<Category>>, picks: seq<nat>, budget: Option<real>, i: nat, a: nat)
    requires InRange(|scored|, picks) && i < |picks| && budget.Some?
  {
    IsAlternative(scored, groups, picks, i, a) && Fits(scored, picks, budget, i, a)
  }

  /** Slot `i` has an alternative that fits the budget. */
  predicate HasFit(scored: seq<Scored>, groups: seq<seq<Category>>, picks: seq<nat>, budget: Option<real>, i: nat)
    requires InRange(|scored|, picks) && i < |picks| && budget.Some?
  {
    exists a :: 0 <= a < |scored| && FitsAt(scored, groups, picks, budget, i, a)
  }

  /** The first element of `alts` from position `u` on that fits the
      budget in slot `i`. */
  function FirstFit(scored: seq<Scored>, picks: seq<nat>, budget: Option<real>, i: nat, alts: seq<nat>, u: nat): (r: Option<nat>)
    requires InRange(|scored|, picks) && i < |picks| && InRange(|scored|, alts) && u <= |alts| && budget.Some?
    ensures r.Some? ==> r.value in alts
    decreases |alts| - u
  {
    if u == |alts| then None
    else if Fits(scored, picks, budget, i, alts[u]) then Some(alts[u])
    else FirstFit(scored, picks, budget, i, alts, u + 1)
  }

  /** `FirstFit` finds an element exactly when one from `u` on fits, and
      what it finds is the first that fits. */
  lemma {:induction false} FirstFitMeaning(scored: seq<Scored>, picks: seq<nat>, budget: Option<real>, i: nat, alts: seq<nat>, u: nat)
    requires InRange(|scored|, picks) && i < |picks| && InRange(|scored|, alts) && u <= |alts| && budget.Some?
    ensures var r := FirstFit(scored, picks, budget, i, alts, u);
      (r.None? <==> forall v :: u <= v < |alts| ==> !Fits(scored, picks, budget, i, alts[v]))
      && (r.Some? ==> exists v :: u <= v < |alts| && alts[v] == r.value
                        && Fits(scored, picks, budget, i, alts[v])
                        && forall w :: u <= w < v ==> !Fits(scored, picks, budget, i, alts[w]))
    decreases |alts| - u
  {
    if u < |alts| {
      if Fits(scored, picks, budget, i, alts[u]) {
        assert alts[u] == FirstFit(scored, picks, budget, i, alts, u).value;
      } else {
        FirstFitMeaning(scored, picks, budget, i, alts, u + 1);
        var r := FirstFit(scored, picks, budget, i, alts, u);
        assert r == FirstFit(scored, picks, budget, i, alts, u + 1);
        if r.Some? {
          var v :| u + 1 <= v < |alts| && alts[v] == r.value
                   && Fits(scored, picks, budget, i, alts[v])
                   && forall w :: u + 1 <= w < v ==> !Fits(scored, picks, budget, i, alts[w]);
          assert forall w :: u <= w < v ==> !Fits(scored, picks, budget, i, alts[w]);
        }
      }
    }
  }

  /** `alts` for slot `i`: its alternatives, stably sorted by `AltKey`. */
  function Alts(scored: seq<Scored>, groups: seq<seq<Category>>, picks: seq<nat>, i: nat): (r: seq<nat>)
    requires InRange(|scored|, picks) && i < |picks|
    ensures InRange(|scored|, r)
  {
    SortByKey(AltKeys(scored), Select(AltMask(scored, groups, picks, i)))
  }

  /** `alts` holds every alternative of slot `i` once and nothing else, in
      the order of `AltKey`. */
  lemma AltsMeaning(scored: seq<Scored>, groups: seq<seq<Category>>, picks: seq<nat>, i: nat, alts: seq<nat>)
    requires InRange(|scored|, picks) && i < |picks|
    requires alts == Alts(scored, groups, picks, i)
    ensures Distinct(alts) && SortedBy(AltKeys(scored), alts)
    ensures forall s: nat :: s in alts <==> IsAlternative(scored, groups, picks, i, s)
  {
    var ok := AltMask(scored, groups, picks, i);
    var sel := Select(ok);
    SelectMeaning(ok);
    SortByKeyPermutes(AltKeys(scored), sel);
    SortByKeySorted(AltKeys(scored), sel);
    DistinctOfPermutation(sel, alts);
    forall s: nat | s in alts ensures IsAlternative(scored, groups, picks, i, s) {
      assert s in multiset(alts);
      assert s in sel;
      assert s < |ok| && ok[s];
    }
    forall s: nat | IsAlternative(scored, groups, picks, i, s) ensures s in alts {
      assert ok[s];
      assert s in multiset(sel);
      assert s in multiset(alts);
    }
  }

  /** `a` is the alternative the budget pass puts in slot `i`: it fits, and
      it comes before every other alternative that fits in the order of
      `alts`. */
  predicate SwapAt(scored: seq<Scored>, groups: seq<seq<Category>>, picks: seq<nat>, budget: Option<real>, i: nat, a: nat)
    requires InRange(|scored|, picks) && i < |picks| && budget.Some?
  {
    FitsAt(scored, groups, picks, budget, i, a)
    && forall b :: 0 <= b < |scored| && b != a && FitsAt(scored, groups, picks, budget, i, b) ==> Precedes(AltKeys(scored), a, b)
  }

  /** The first fitting element of `alts` is the `SwapAt` alternative, and
      there is none exactly when no alternative of the slot fits. */
  lemma SlotChoice(scored: seq<Scored>, groups: seq<seq<Category>>, picks: seq<nat>, budget: Option<real>, i: nat, alts: seq<nat>)
    requires InRange(|scored|, picks) && i < |picks| && budget.Some?
    requires alts == Alts(scored, groups, picks, i)
    ensures var r := FirstFit(scored, picks, budget, i, alts, 0);
      (r.None? <==> !HasFit(scored, groups, picks, budget, i))
      && (r.Some? ==> SwapAt(scored, groups, picks, budget, i, r.value))
  {
    AltsMeaning(scored, groups, picks, i, alts);
    FirstFitMeaning(scored, picks, budget, i, alts, 0);
    var r := FirstFit(scored, picks, budget, i, alts, 0);
    if r.None? {
      forall b | 0 <= b < |scored| ensures !FitsAt(scored, groups, picks, budget, i, b) {
        if IsAlternative(scored, groups, picks, i, b) {
          var w: nat :| 0 <= w < |alts| && alts[w] == b;
        }
      }
    } else {
      var a := r.value;
      var v :| 0 <= v < |alts| && alts[v] == a && Fits(scored, picks, budget, i, alts[v])
               && forall w :: 0 <= w < v ==> !Fits(scored, picks, budget, i, alts[w]);
      assert FitsAt(scored, groups, picks, budget, i, a);
      forall b | 0 <= b < |scored| && b != a && FitsAt(scored, groups, picks, budget, i, b)
        ensures Precedes(AltKeys(scored), a, b)
      {
        var w: nat :| 0 <= w < |alts| && alts[w] == b;
        assert w != v;
        assert !(w < v);
      }
    }
  }

  /** The budget pass over `pricey` from position `t` on: the first slot
      with a fitting alternative takes its first fitting alternative, and
      the pass stops. */
  function RepairFrom(scored: seq<Scored>, groups: seq<seq<Category>>, picks: seq<nat>, budget: Option<real>, pricey: seq<nat>, t: nat): (r: seq<nat>)
    requires InRange(|scored|, picks) && InRange(|picks|, pricey) && t <= |pricey| && budget.Some?
    ensures |r| == |picks| && InRange(|scored|, r)
    decreases |pricey| - t
  {
    if t == |pricey| then picks
    else
      var i := pricey[t];
      match FirstFit(scored, picks, budget, i, Alts(scored, groups, picks, i), 0)
      case Some(a) => picks[i := a]
      case None => RepairFrom(scored, groups, picks, budget, pricey, t + 1)
  }

  /** The picks after the budget pass. */
  function BudgetRepair(scored: seq<Scored>, groups: seq<seq<Category>>, picks: seq<nat>, budget: Option<real>): (r: seq<nat>)
    requires InRange(|scored|, picks)
    ensures |r| == |picks| && InRange(|scored|, r)
  {
    if OverBudget(scored, picks, budget) then RepairFrom(scored, groups, picks, budget, Pricey(scored, picks), 0)
    else picks
  }

  /** `r` is `picks` with the slot at position `u` of `pricey`, the first
      from position `t` on with a fitting alternative, swapped for its
      `SwapAt` alternative `a`. */
  predicate SwapsFirstFit(scored: seq<Scored>, groups: seq<seq<Category>>, picks: seq<nat>, budget: Option<real>,
                          pricey: seq<nat>, t: nat, u: nat, a: nat, r: seq<nat>)
    requires InRange(|scored|, picks) && InRange(|picks|, pricey) && budget.Some?
  {
    t <= u < |pricey| && a < |scored|
    && (forall w :: t <= w < u ==> !HasFit(scored, groups, picks, budget, pricey[w]))
    && SwapAt(scored, groups, picks, budget, pricey[u], a) && r == picks[pricey[u] := a]
  }

  /** `RepairFrom` leaves the picks alone when no slot of `pricey` from `t`
      on has a fitting alternative. */
  lemma {:induction false} RepairFromKeeps(scored: seq<Scored>, groups: seq<seq<Category>>, picks: seq<nat>, budget: Option<real>, pricey: seq<nat>, t: nat)
    requires InRange(|scored|, picks) && InRange(|picks|, pricey) && t <= |pricey| && budget.Some?
    requires forall u :: t <= u < |pricey| ==> !HasFit(scored, groups, picks, budget, pricey[u])
    ensures RepairFrom(scored, groups, picks, budget, pricey, t) == picks
    decreases |pricey| - t
  {
    if t < |pricey| {
      var i := pricey[t];
      SlotChoice(scored, groups, picks, budget, i, Alts(scored, groups, picks, i));
      RepairFromKeeps(scored, groups, picks, budget, pricey, t + 1);
    }
  }

  /** When some slot of `pricey` from `t` on has a fitting alternative,
      `RepairFrom` swaps the first such slot for its `SwapAt` alternative. */
  lemma {:induction false} RepairFromSwaps(scored: seq<Scored>, groups: seq<seq<Category>>, picks: seq<nat>, budget: Option<real>,
                                           pricey: seq<nat>, t: nat, u0: nat)
    requires InRange(|scored|, picks) && InRange(|picks|, pricey) && budget.Some?
    requires t <= u0 < |pricey| && HasFit(scored, groups, picks, budget, pricey[u0])
    ensures exists u: nat, a: nat :: 0 <= a < |scored| && SwapsFirstFit(scored, groups, picks, budget, pricey, t, u, a, RepairFrom(scored, groups, picks, budget, pricey, t))
    decreases |pricey| - t
  {
    var i := pricey[t];
    var alts := Alts(scored, groups, picks, i);
    SlotChoice(scored, groups, picks, budget, i, alts);
    var c := FirstFit(scored, picks, budget, i, alts, 0);
    var r := RepairFrom(scored, groups, picks, budget, pricey, t);
    if c.Some? {
      assert r == picks[i := c.value];
      assert SwapsFirstFit(scored, groups, picks, budget, pricey, t, t, c.value, r);
    } else {
      assert u0 != t;
      RepairFromSwaps(scored, groups, picks, budget, pricey, t + 1, u0);
      assert r == RepairFrom(scored, groups, picks, budget, pricey, t + 1);
      var u: nat, a: nat :| 0 <= a < |scored| && SwapsFirstFit(scored, groups, picks, budget, pricey, t + 1, u, a, r);
      assert SwapsFirstFit(scored, groups, picks, budget, pricey, t, u, a, r);
    }
  }

  /** `RepairFrom` over any complete visiting order changes the picks
      exactly when some slot has a fitting alternative. */
  lemma RepairChanges(scored: seq<Scored>, groups: seq<seq<Category>>, picks: seq<nat>, budget: Option<real>, pricey: seq<nat>)
    requires InRange(|scored|, picks) && InRange(|picks|, pricey) && budget.Some?
    requires forall i :: 0 <= i < |picks| ==> i in pricey
    ensures RepairFrom(scored, groups, picks, budget, pricey, 0) == picks
        <==> forall i :: 0 <= i < |picks| ==> !HasFit(scored, groups, picks, budget, i)
  {
    if forall i :: 0 <= i < |picks| ==> !HasFit(scored, groups, picks, budget, i) {
      RepairFromKeeps(scored, groups, picks, budget, pricey, 0);
    } else {
      var i0: nat :| 0 <= i0 < |picks| && HasFit(scored, groups, picks, budget, i0);
      assert i0 in pricey;
      var u0: nat :| 0 <= u0 < |pricey| && pricey[u0] == i0;
      RepairFromSwaps(scored, groups, picks, budget, pricey, 0, u0);
      var r := RepairFrom(scored, groups, picks, budget, pricey, 0);
      var u: nat, a: nat :| 0 <= a < |scored| && SwapsFirstFit(scored, groups, picks, budget, pricey, 0, u, a, r);
      assert r[pricey[u]] == a && a !in picks;
    }
  }

  /** `r` is `picks` with slot `i` swapped for its `SwapAt` alternative
      `a`, and every other slot with a fitting alternative comes after `i`
      in the order of `keys`. */
  predicate SwapFirst(scored: seq<Scored>, groups: seq<seq<Category>>, picks: seq<nat>, budget: Option<real>,
                      keys: seq<Key>, i: nat, a: nat, r: seq<nat>)
    requires InRange(|scored|, picks) && |keys| == |picks| && budget.Some?
  {
    i < |picks| && a < |scored| && SwapAt(scored, groups, picks, budget, i, a) && r == picks[i := a]
    && forall j :: 0 <= j < |picks| && j != i && HasFit(scored, groups, picks, budget, j) ==> Precedes(keys, i, j)
  }

  /** `RepairFrom` over a complete visiting order sorted by `keys` swaps
      the first slot in that order with a fitting alternative. */
  lemma RepairSwapsFirst(scored: seq<Scored>, groups: seq<seq<Category>>, picks: seq<nat>, budget: Option<real>,
                         pricey: seq<nat>, keys: seq<Key>, i0: nat)
    requires InRange(|scored|, picks) && budget.Some? && |keys| == |picks|
    requires InRange(|picks|, pricey) && SortedBy(keys, pricey)
    requires forall i :: 0 <= i < |picks| ==> i in pricey
    requires i0 < |picks| && HasFit(scored, groups, picks, budget, i0)
    ensures exists i: nat, a: nat :: SwapFirst(scored, groups, picks, budget, keys, i, a, RepairFrom(scored, groups, picks, budget, pricey, 0))
  {
    assert i0 in pricey;
    var u0: nat :| 0 <= u0 < |pricey| && pricey[u0] == i0;
    RepairFromSwaps(scored, groups, picks, budget, pricey, 0, u0);
    var r := RepairFrom(scored, groups, picks, budget, pricey, 0);
    var u: nat, a: nat :| 0 <= a < |scored| && SwapsFirstFit(scored, groups, picks, budget, pricey, 0, u, a, r);
    var i := pricey[u];
    forall j | 0 <= j < |picks| && j != i && HasFit(scored, groups, picks, budget, j)
      ensures Precedes(keys, i, j)
    {
      assert j in pricey;
      var w: nat :| 0 <= w < |pricey| && pricey[w] == j;
      assert w != u;
      assert !(w < u);
    }
    assert SwapFirst(scored, groups, picks, budget, keys, i, a, r);
  }

  /** The slots of `pricey`: all of them, sorted by the pricey key. */
  lemma PriceySlots(scored: seq<Scored>, picks: seq<nat>)
    requires InRange(|scored|, picks)
    ensures var p := Pricey(scored, picks);
      (forall i :: 0 <= i < |picks| ==> i in p) && SortedBy(PriceyKeys(scored, picks), p)
  {
    var keys := PriceyKeys(scored, picks);
    var sl := Slots(|picks|);
    var p := Pricey(scored, picks);
    assert Distinct(sl);
    SortByKeyPermutes(keys, sl);
    SortByKeySorted(keys, sl);
    forall i | 0 <= i < |picks| ensures i in p {
      assert sl[i] == i;
      assert i in multiset(sl);
    }
  }

  // ------------------------------------------------------------- outcome

  /** The budget pass changes nothing exactly when it does not run or no
      pick has a cheaper alternative of its group that fits the budget. */
  lemma BudgetUnchanged(scored: seq<Scored>, groups: seq<seq<Category>>, picks: seq<nat>, budget: Option<real>)
    requires InRange(|scored|, picks)
    ensures BudgetRepair(scored, groups, picks, budget) == picks
        <==> !OverBudget(scored, picks, budget) || forall i :: 0 <= i < |picks| ==> !HasFit(scored, groups, picks, budget, i)
  {
    if OverBudget(scored, picks, budget) {
      PriceySlots(scored, picks);
      RepairChanges(scored, groups, picks, budget, Pricey(scored, picks));
    }
  }

  /** When the pass runs and some pick has a fitting alternative, it swaps
      the first such pick in `pricey` (the most expensive, the earliest
      slot among equals) for its `SwapAt` alternative, and changes nothing
      else. */
  lemma BudgetSwap(scored: seq<Scored>, groups: seq<seq<Category>>, picks: seq<nat>, budget: Option<real>, i0: nat)
    requires InRange(|scored|, picks) && OverBudget(scored, picks, budget)
    requires i0 < |picks| && HasFit(scored, groups, picks, budget, i0)
    ensures exists i: nat, a: nat :: SwapFirst(scored, groups, picks, budget, PriceyKeys(scored, picks), i, a, BudgetRepair(scored, groups, picks, budget))
  {
    var p := Pricey(scored, picks);
    var keys := PriceyKeys(scored, picks);
    PriceySlots(scored, picks);
    RepairSwapsFirst(scored, groups, picks, budget, p, keys, i0);
    var r := RepairFrom(scored, groups, picks, budget, p, 0);
    assert BudgetRepair(scored, groups, picks, budget) == r;
    var i: nat, a: nat :| SwapFirst(scored, groups, picks, budget, keys, i, a, r);
  }

  /** What the budget pass keeps: the number of picks, the role group of
      every slot, distinctness; no slot gets dearer; and a changed list of
      picks has its rounded mean within budget. */
  lemma BudgetPreserves(scored: seq<Scored>, groups: seq<seq<Category>>, picks: seq<nat>, budget: Option<real>)
    requires InRange(|scored|, picks)
    ensures var r := BudgetRepair(scored, groups, picks, budget);
      |r| == |picks|
      && (forall t :: 0 <= t < |picks| ==>
            GroupIndex(groups, scored[r[t]].meta.cats) == GroupIndex(groups, scored[picks[t]].meta.cats)
            && (r[t] == picks[t] || ExtLess(SalaryKey(scored[r[t]].meta.salary, Inf), SalaryKey(scored[picks[t]].meta.salary, Inf))))
      && (Distinct(picks) ==> Distinct(r))
      && (r != picks ==> budget.Some? && WithinBudget(scored, r, budget))
  {
    var r := BudgetRepair(scored, groups, picks, budget);
    BudgetUnchanged(scored, groups, picks, budget);
    if r != picks {
      var i0: nat :| 0 <= i0 < |picks| && HasFit(scored, groups, picks, budget, i0);
      BudgetSwap(scored, groups, picks, budget, i0);
      var i: nat, a: nat :| SwapFirst(scored, groups, picks, budget, PriceyKeys(scored, picks), i, a, r);
      assert FitsAt(scored, groups, picks, budget, i, a);
      if Distinct(picks) {
        forall x, y | 0 <= x < y < |r| ensures r[x] != r[y] {
          if x != i && y != i {
            assert r[x] == picks[x] && r[y] == picks[y];
          }
        }
      }
    }
  }

  // ---------------------------------------------------------- the method

  /** One slot of the budget pass: try the alternatives of slot `i` in
      `alts` order and return the picks with the first one whose rounded
      mean fits, with that mean; `None` when none fits. */
  method TrySlot(scored: seq<Scored>, groups: seq<seq<Category>>, picks: seq<nat>, budget: Option<real>, i: nat)
    returns (r: seq<nat>, newAvg: Option<nat>)
    requires InRange(|scored|, picks) && i < |picks| && budget.Some?
    ensures var c := FirstFit(scored, picks, budget, i, Alts(scored, groups, picks, i), 0);
      (c.Some? ==> r == picks[i := c.value] && InRange(|scored|, r) && newAvg == AvgKnown(scored, r)
                   && newAvg.Some? && newAvg.value as real <= budget.value)
      && (c.None? ==> r == picks && newAvg.None?)
  {
    var g := GroupIndexOf(groups, scored[picks[i]].meta.cats);
    var cur := SalaryKey(scored[picks[i]].meta.salary, Inf);
    var alts := SortByKey(AltKeys(scored), Select(AltFilter(scored, groups, picks, g, cur)));
    assert alts == Alts(scored, groups, picks, i);
    r, newAvg := picks, None;
    var u := 0;
    while u < |alts|
      invariant u <= |alts|
      invariant FirstFit(scored, picks, budget, i, alts, u) == FirstFit(scored, picks, budget, i, alts, 0)
    {
      var tmp := picks[i := alts[u]];
      InRangeUpdate(|scored|, picks, i, alts[u]);
      var avg := AvgKnown(scored, tmp);
      if avg.Some? && avg.value as real <= budget.value {
        r, newAvg := tmp, avg;
        return;
      }
      u := u + 1;
    }
  }

  /** The budget pass as `autoPick` runs it: try the slots in `pricey`
      order, commit the first swap whose rounded mean fits, and stop once
      the mean fits. */
  method BudgetPass(scored: seq<Scored>, groups: seq<seq<Category>>, picks: seq<nat>, budget: Option<real>) returns (r: seq<nat>)
    requires InRange(|scored|, picks)
    ensures r == BudgetRepair(scored, groups, picks, budget)
  {
    r := picks;
    if !Truthy(budget) {
      return;
    }
    var avg := AvgKnown(scored, picks);
    if !(avg.Some? && avg.value as real > budget.value) {
      return;
    }
    var pricey := SortByKey(PriceyKeys(scored, picks), Slots(|picks|));
    assert pricey == Pricey(scored, picks);
    ghost var want := BudgetRepair(scored, groups, picks, budget);
    assert want == RepairFrom(scored, groups, picks, budget, pricey, 0);
    for t := 0 to |pricey|
      invariant r == picks && avg.Some? && avg.value as real > budget.value
      invariant RepairFrom(scored, groups, picks, budget, pricey, t) == want
    {
      var swapped, newAvg := TrySlot(scored, groups, picks, budget, pricey[t]);
      if newAvg.Some? {
        r, avg := swapped, newAvg;
      }
      if avg.Some? && avg.value as real <= budget.value {
        break;
      }
    }
  }
}
