/** The greedy pass of `autoPick`: for each role group in turn, the best
    candidate of the group not picked yet (by region novelty, then score,
    then salary) is picked. Both copies of the engine share it; they differ
    only in how a missing salary compares. A candidate is identified by its
    position in `scored`, which is how `p.cand === cand` tells candidates
    apart; a list of picks is a list of positions. Role groups and
    `groupIndexOf` live here too. */
module Greedy {
  import opened Records
  import opened Tables
  import opened Scoring
  import opened Ranking

  /** `salary ?? missing`. */
  function SalaryKey(sal: Option<nat>, missing: Ext): Ext {
    match sal
    case Some(s) => Fin(s)
    case None => missing
  }

  /** `[...cats].some((g) => group.includes(g))`. */
  predicate InGroup(cats: set<Category>, group: seq<Category>) {
    exists g :: g in cats && g in group
  }

  /** The region of every candidate: `regionOf(cand.location)`, which the
      comparator recomputes on every call and which depends on the
      candidate alone. */
  function Regions(scored: seq<Scored>): (r: seq<Region>)
    ensures |r| == |scored|
  {
    seq(|scored|, k requires 0 <= k < |scored| => RegionOf(scored[k].cand.location))
  }

  /** `usedRegions` after the picks so far: the region of every pick. */
  function UsedRegions(regions: seq<Region>, picks: seq<nat>): set<Region>
    requires InRange(|regions|, picks)
  {
    if picks == [] then {}
    else
      var n := |picks| - 1;
      UsedRegions(regions, picks[..n]) + {regions[picks[n]]}
  }

  lemma UsedRegionsAppend(regions: seq<Region>, picks: seq<nat>, k: nat)
    requires InRange(|regions|, picks) && k < |regions|
    ensures InRange(|regions|, picks + [k])
    ensures UsedRegions(regions, picks + [k]) == UsedRegions(regions, picks) + {regions[k]}
  {
    InRangeAppend(|regions|, picks, k);
    assert (picks + [k])[..|picks|] == picks;
  }

  // ---------------------------------------------------------------- greedy pass

  /** The keys the greedy comparator subtracts: region novelty (a novel
      region sorts first), score (higher first), salary (lower first, an
      absent salary read as `missing`). */
  function GreedyKey(s: Scored, region: Region, used: set<Region>, prefer: bool, missing: Ext): Key {
    var novelty := if prefer && region != Unknown && region !in used then 1 else 0;
    Key(-novelty, -s.meta.score, SalaryKey(s.meta.salary, missing))
  }

  function GreedyKeys(scored: seq<Scored>, regions: seq<Region>, used: set<Region>, prefer: bool, missing: Ext): (r: seq<Key>)
    requires |regions| == |scored|
    ensures |r| == |scored|
  {
    seq(|scored|, k requires 0 <= k < |scored| => GreedyKey(scored[k], regions[k], used, prefer, missing))
  }

  /** Which candidates the greedy filter keeps for `group`: those with a
      category of the group that are not picked yet. */
  function EligibleMask(scored: seq<Scored>, group: seq<Category>, picks: seq<nat>): (r: seq<bool>)
    ensures |r| == |scored|
  {
    seq(|scored|, k requires 0 <= k < |scored| => InGroup(scored[k].meta.cats, group) && k !in picks)
  }

  /** `k` is what the greedy filter and sort put first for `group` after
      `picks`: a not yet picked candidate with a category of the group,
      ranked before every other such candidate (the first of the best in
      input order). */
  predicate ChosenFor(scored: seq<Scored>, regions: seq<Region>, group: seq<Category>, picks: seq<nat>,
                      prefer: bool, missing: Ext, k: nat)
    requires |regions| == |scored| && InRange(|scored|, picks)
  {
    var used := UsedRegions(regions, picks);
    k < |scored| && InGroup(scored[k].meta.cats, group) && k !in picks
    && forall j :: 0 <= j < |scored| && j != k && InGroup(scored[j].meta.cats, group) && j !in picks
         ==> GreedyPrecedes(scored, regions, used, prefer, missing, k, j)
  }

  /** The greedy comparator puts `k` before `j`, ties going to the earlier
      position: `Precedes` on the greedy keys. */
  predicate GreedyPrecedes(scored: seq<Scored>, regions: seq<Region>, used: set<Region>, prefer: bool, missing: Ext, k: nat, j: nat)
    requires |regions| == |scored| && k < |scored| && j < |scored|
  {
    var a := GreedyKey(scored[k], regions[k], used, prefer, missing);
    var b := GreedyKey(scored[j], regions[j], used, prefer, missing);
    Before(a, b) || (a == b && k < j)
  }

  /** `eligible`, the candidates the filter keeps stably sorted by the
      greedy comparator with the regions `used` by `picks`, is empty exactly
      when every candidate of the group is picked already, and otherwise
      starts with the candidate `ChosenFor` describes. */
  lemma EligibleHead(scored: seq<Scored>, regions: seq<Region>, group: seq<Category>, picks: seq<nat>, used: set<Region>,
                     prefer: bool, missing: Ext, eligible: seq<nat>)
    requires |regions| == |scored| && InRange(|scored|, picks) && used == UsedRegions(regions, picks)
    requires eligible == SortByKey(GreedyKeys(scored, regions, used, prefer, missing), Select(EligibleMask(scored, group, picks)))
    ensures eligible == [] <==> forall k :: 0 <= k < |scored| ==> !InGroup(scored[k].meta.cats, group) || k in picks
    ensures eligible != [] ==> ChosenFor(scored, regions, group, picks, prefer, missing, eligible[0])
  {
    var keys := GreedyKeys(scored, regions, used, prefer, missing);
    var ok := EligibleMask(scored, group, picks);
    var el := Select(ok);
    SelectMeaning(ok);
    SortedHead(keys, el);
    if eligible != [] {
      var k := eligible[0];
      assert ok[k];
      forall j | 0 <= j < |scored| && j != k && InGroup(scored[j].meta.cats, group) && j !in picks
        ensures GreedyPrecedes(scored, regions, used, prefer, missing, k, j)
      {
        assert ok[j];
        assert Precedes(keys, k, j);
      }
    } else {
      assert el == [];
      forall k | 0 <= k < |scored| ensures !InGroup(scored[k].meta.cats, group) || k in picks {
        assert !ok[k];
      }
    }
  }

  /** The picks of the greedy pass so far, with the index of the group each
      pick was made for. */
  datatype Trace = Trace(picks: seq<nat>, groups: seq<nat>)

  predicate Increasing(s: seq<nat>) {
    forall t, u :: 0 <= t < u < |s| ==> s[t] < s[u]
  }

  lemma IncreasingAppend(s: seq<nat>, x: nat)
    requires Increasing(s) && forall t :: 0 <= t < |s| ==> s[t] < x
    ensures Increasing(s + [x])
  {
    var r := s + [x];
    forall t, u | 0 <= t < u < |r| ensures r[t] < r[u] {
      assert r[t] == s[t];
    }
  }

  lemma {:induction false} IncreasingAtLeastIndex(s: seq<nat>, t: nat)
    requires Increasing(s) && t < |s|
    ensures s[t] >= t
  {
    if t > 0 {
      IncreasingAtLeastIndex(s, t - 1);
    }
  }

  /** An increasing list of indices below `n` has at most `n` elements. */
  lemma GroupsBound(s: seq<nat>, n: nat)
    requires Increasing(s) && forall t :: 0 <= t < |s| ==> s[t] < n
    ensures |s| <= n
  {
    if |s| > 0 {
      IncreasingAtLeastIndex(s, |s| - 1);
    }
  }

  lemma BelowAppend(s: seq<nat>, x: nat)
    requires forall t :: 0 <= t < |s| ==> s[t] < x
    ensures forall t :: 0 <= t < |s| + 1 ==> (s + [x])[t] < x + 1
  {
    forall t | 0 <= t < |s| + 1 ensures (s + [x])[t] < x + 1 {
      if t < |s| {
        assert (s + [x])[t] == s[t];
      }
    }
  }

  /** Each pick of the trace is the choice for its group given the picks
      before it. */
  predicate AllChosen(scored: seq<Scored>, regions: seq<Region>, groups: seq<seq<Category>>, prefer: bool, missing: Ext, tr: Trace)
    requires |regions| == |scored| && InRange(|scored|, tr.picks) && |tr.picks| == |tr.groups|
    requires forall t :: 0 <= t < |tr.groups| ==> tr.groups[t] < |groups|
  {
    forall t :: 0 <= t < |tr.picks| ==>
      ChosenFor(scored, regions, groups[tr.groups[t]], tr.picks[..t], prefer, missing, tr.picks[t])
  }

  /** Every candidate of `group` is among `picks`: the greedy filter for
      `group` keeps nobody. */
  predicate Exhausted(scored: seq<Scored>, group: seq<Category>, picks: seq<nat>) {
    forall k :: 0 <= k < |scored| && InGroup(scored[k].meta.cats, group) ==> k in picks
  }

  /** How many entries of `s` are below `g`; for an increasing list of
      group indices, the number of picks made before group `g`. */
  function CountBelow(s: seq<nat>, g: nat): (r: nat)
    ensures r <= |s|
  {
    if s == [] then 0
    else
      var n := |s| - 1;
      CountBelow(s[..n], g) + (if s[n] < g then 1 else 0)
  }

  lemma CountBelowAppend(s: seq<nat>, x: nat, g: nat)
    requires g <= x
    ensures CountBelow(s + [x], g) == CountBelow(s, g)
  {
    assert (s + [x])[..|s|] == s;
  }

  lemma {:induction false} CountBelowAll(s: seq<nat>, g: nat)
    requires forall t :: 0 <= t < |s| ==> s[t] < g
    ensures CountBelow(s, g) == |s|
  {
    if s != [] {
      var n := |s| - 1;
      assert forall t :: 0 <= t < n ==> s[..n][t] == s[t];
      CountBelowAll(s[..n], g);
    }
  }

  /** Each of the first `n` groups without a pick had all its candidates
      picked before its turn came. */
  predicate SkipsOnlyExhausted(scored: seq<Scored>, groups: seq<seq<Category>>, n: nat, tr: Trace)
    requires n <= |groups| && |tr.picks| == |tr.groups|
  {
    forall g :: 0 <= g < n && g !in tr.groups ==>
      Exhausted(scored, groups[g], tr.picks[..CountBelow(tr.groups, g)])
  }

  /** `tr` is what the greedy pass has done after the first `n` groups: at
      most one pick per group, in the order of the groups; no candidate
      twice; each pick the group's choice given the picks before it; and a
      group goes without a pick only when every candidate of that group was
      picked before the group's turn. */
  predicate IsGreedyRun(scored: seq<Scored>, regions: seq<Region>, groups: seq<seq<Category>>, prefer: bool, missing: Ext, n: nat, tr: Trace)
    requires |regions| == |scored|
  {
    n <= |groups| && InRange(|scored|, tr.picks) && |tr.picks| == |tr.groups|
    && (forall t :: 0 <= t < |tr.groups| ==> tr.groups[t] < n)
    && Distinct(tr.picks) && Increasing(tr.groups)
    && AllChosen(scored, regions, groups, prefer, missing, tr)
    && SkipsOnlyExhausted(scored, groups, n, tr)
  }

  lemma ExtendChosen(scored: seq<Scored>, regions: seq<Region>, groups: seq<seq<Category>>, prefer: bool, missing: Ext,
                     n: nat, prev: Trace, k: nat)
    requires |regions| == |scored| && 0 < n <= |groups| && k < |scored|
    requires InRange(|scored|, prev.picks) && |prev.picks| == |prev.groups|
    requires forall t :: 0 <= t < |prev.groups| ==> prev.groups[t] < n - 1
    requires AllChosen(scored, regions, groups, prefer, missing, prev)
    requires ChosenFor(scored, regions, groups[n - 1], prev.picks, prefer, missing, k)
    ensures AllChosen(scored, regions, groups, prefer, missing, Trace(prev.picks + [k], prev.groups + [n - 1]))
  {
    var tr := Trace(prev.picks + [k], prev.groups + [n - 1]);
    forall t | 0 <= t < |tr.picks|
      ensures ChosenFor(scored, regions, groups[tr.groups[t]], tr.picks[..t], prefer, missing, tr.picks[t])
    {
      if t < |prev.picks| {
        assert ChosenFor(scored, regions, groups[prev.groups[t]], prev.picks[..t], prefer, missing, prev.picks[t]);
        ChosenSame(scored, regions, groups[prev.groups[t]], groups[tr.groups[t]], prev.picks[..t], tr.picks[..t],
                   prefer, missing, prev.picks[t], tr.picks[t]);
      } else {
        ChosenSame(scored, regions, groups[n - 1], groups[tr.groups[t]], prev.picks, tr.picks[..t],
                   prefer, missing, k, tr.picks[t]);
      }
    }
  }

  /** `ChosenFor` of equal arguments. */
  lemma ChosenSame(scored: seq<Scored>, regions: seq<Region>, g1: seq<Category>, g2: seq<Category>,
                   p1: seq<nat>, p2: seq<nat>, prefer: bool, missing: Ext, k1: nat, k2: nat)
    requires |regions| == |scored| && InRange(|scored|, p1)
    requires g1 == g2 && p1 == p2 && k1 == k2
    requires ChosenFor(scored, regions, g1, p1, prefer, missing, k1)
    ensures InRange(|scored|, p2) && ChosenFor(scored, regions, g2, p2, prefer, missing, k2)
  {
  }

  lemma ExtendSkips(scored: seq<Scored>, groups: seq<seq<Category>>, n: nat, prev: Trace, k: nat)
    requires 0 < n <= |groups| && |prev.picks| == |prev.groups|
    requires SkipsOnlyExhausted(scored, groups, n - 1, prev)
    ensures SkipsOnlyExhausted(scored, groups, n, Trace(prev.picks + [k], prev.groups + [n - 1]))
  {
    var tr := Trace(prev.picks + [k], prev.groups + [n - 1]);
    assert tr.groups[|prev.groups|] == n - 1;
    forall g | 0 <= g < n && g !in tr.groups
      ensures Exhausted(scored, groups[g], tr.picks[..CountBelow(tr.groups, g)])
    {
      assert g !in prev.groups;
      CountBelowAppend(prev.groups, n - 1, g);
      var m := CountBelow(prev.groups, g);
      assert tr.picks[..m] == prev.picks[..m];
    }
  }

  /** A group with a choice extends the run by that choice. */
  lemma RunExtend(scored: seq<Scored>, regions: seq<Region>, groups: seq<seq<Category>>, prefer: bool, missing: Ext,
                  n: nat, picks: seq<nat>, forGroup: seq<nat>, k: nat)
    requires |regions| == |scored| && n < |groups|
    requires IsGreedyRun(scored, regions, groups, prefer, missing, n, Trace(picks, forGroup))
    requires ChosenFor(scored, regions, groups[n], picks, prefer, missing, k)
    ensures IsGreedyRun(scored, regions, groups, prefer, missing, n + 1, Trace(picks + [k], forGroup + [n]))
  {
    var prev := Trace(picks, forGroup);
    DistinctAppend(picks, k);
    IncreasingAppend(forGroup, n);
    ExtendChosen(scored, regions, groups, prefer, missing, n + 1, prev, k);
    ExtendSkips(scored, groups, n + 1, prev, k);
    InRangeAppend(|scored|, picks, k);
    BelowAppend(forGroup, n);
  }

  /** A group whose candidates are all picked leaves the run as it is. */
  lemma RunSkip(scored: seq<Scored>, regions: seq<Region>, groups: seq<seq<Category>>, prefer: bool, missing: Ext,
                n: nat, picks: seq<nat>, forGroup: seq<nat>)
    requires |regions| == |scored| && n < |groups|
    requires IsGreedyRun(scored, regions, groups, prefer, missing, n, Trace(picks, forGroup))
    requires forall j :: 0 <= j < |scored| && InGroup(scored[j].meta.cats, groups[n]) ==> j in picks
    ensures IsGreedyRun(scored, regions, groups, prefer, missing, n + 1, Trace(picks, forGroup))
  {
    CountBelowAll(forGroup, n);
    assert picks[..|picks|] == picks;
  }

  /** The greedy pass as the library writes it: one iteration per group,
      pushing `eligible[0]` and recording its region. `forGroup` records
      which group each pick was made for. */
  method GreedyPass(scored: seq<Scored>, regions: seq<Region>, groups: seq<seq<Category>>, prefer: bool, missing: Ext)
    returns (picks: seq<nat>, ghost forGroup: seq<nat>)
    requires |regions| == |scored|
    ensures IsGreedyRun(scored, regions, groups, prefer, missing, |groups|, Trace(picks, forGroup))
  {
    picks, forGroup := [], [];
    var used: set<Region> := {};
    for gi := 0 to |groups|
      invariant IsGreedyRun(scored, regions, groups, prefer, missing, gi, Trace(picks, forGroup))
      invariant used == UsedRegions(regions, picks)
    {
      var eligible := SortByKey(GreedyKeys(scored, regions, used, prefer, missing), Select(EligibleMask(scored, groups[gi], picks)));
      EligibleHead(scored, regions, groups[gi], picks, used, prefer, missing, eligible);
      if |eligible| > 0 {
        RunExtend(scored, regions, groups, prefer, missing, gi, picks, forGroup, eligible[0]);
        UsedRegionsAppend(regions, picks, eligible[0]);
        picks, forGroup := picks + [eligible[0]], forGroup + [gi];
        used := used + {regions[eligible[0]]};
      } else {
        RunSkip(scored, regions, groups, prefer, missing, gi, picks, forGroup);
      }
    }
  }

  // ------------------------------------------------------- the run is unique

  /** The run after the first `n` groups, given the run after `n + 1`: the
      last pick goes when it was made for group `n`. */
  function Restrict(tr: Trace, n: nat): Trace {
    if |tr.picks| > 0 && |tr.groups| == |tr.picks| && tr.groups[|tr.groups| - 1] == n
    then Trace(tr.picks[..|tr.picks| - 1], tr.groups[..|tr.groups| - 1])
    else tr
  }

  /** A restriction that drops a pick drops the last pick, made for `n`. */
  lemma RestrictShape(tr: Trace, n: nat)
    requires |tr.picks| == |tr.groups| && Restrict(tr, n) != tr
    ensures var p := Restrict(tr, n);
      |tr.picks| == |p.picks| + 1 && tr == Trace(p.picks + [tr.picks[|p.picks|]], p.groups + [n])
  {
    var L := |tr.picks| - 1;
    assert tr.picks == tr.picks[..L] + [tr.picks[L]];
    assert tr.groups == tr.groups[..L] + [tr.groups[L]];
  }

  /** When no pick was made for group `n`, every pick was made for an
      earlier group. */
  lemma RestrictKeepsBelow(tr: Trace, n: nat)
    requires |tr.picks| == |tr.groups| && Increasing(tr.groups)
    requires forall t :: 0 <= t < |tr.groups| ==> tr.groups[t] < n + 1
    requires Restrict(tr, n) == tr
    ensures forall t :: 0 <= t < |tr.groups| ==> tr.groups[t] < n
  {
    var L := |tr.groups|;
    forall t | 0 <= t < L ensures tr.groups[t] < n {
      if t < L - 1 {
        assert tr.groups[t] < tr.groups[L - 1];
      }
    }
  }

  /** A prefix of a trace whose picks are all choices has only choices. */
  lemma AllChosenPrefix(scored: seq<Scored>, regions: seq<Region>, groups: seq<seq<Category>>, prefer: bool, missing: Ext,
                        tr: Trace, p: Trace)
    requires |regions| == |scored| && InRange(|scored|, tr.picks) && |tr.picks| == |tr.groups|
    requires forall t :: 0 <= t < |tr.groups| ==> tr.groups[t] < |groups|
    requires AllChosen(scored, regions, groups, prefer, missing, tr)
    requires |p.picks| == |p.groups| <= |tr.picks|
    requires p.picks == tr.picks[..|p.picks|] && p.groups == tr.groups[..|p.groups|]
    ensures InRange(|scored|, p.picks) && forall t :: 0 <= t < |p.groups| ==> p.groups[t] < |groups|
    ensures AllChosen(scored, regions, groups, prefer, missing, p)
  {
    forall t | 0 <= t < |p.picks|
      ensures ChosenFor(scored, regions, groups[p.groups[t]], p.picks[..t], prefer, missing, p.picks[t])
    {
      assert ChosenFor(scored, regions, groups[tr.groups[t]], tr.picks[..t], prefer, missing, tr.picks[t]);
      assert tr.picks[..t] == p.picks[..t];
      ChosenSame(scored, regions, groups[tr.groups[t]], groups[p.groups[t]], tr.picks[..t], p.picks[..t],
                 prefer, missing, tr.picks[t], p.picks[t]);
    }
  }

  lemma SkipsDropLast(scored: seq<Scored>, groups: seq<seq<Category>>, n: nat, p: Trace, k: nat)
    requires n < |groups| && |p.picks| == |p.groups|
    requires SkipsOnlyExhausted(scored, groups, n + 1, Trace(p.picks + [k], p.groups + [n]))
    ensures SkipsOnlyExhausted(scored, groups, n, p)
  {
    var tr := Trace(p.picks + [k], p.groups + [n]);
    forall g | 0 <= g < n && g !in p.groups
      ensures Exhausted(scored, groups[g], p.picks[..CountBelow(p.groups, g)])
    {
      assert g !in tr.groups;
      CountBelowAppend(p.groups, n, g);
      var m := CountBelow(p.groups, g);
      assert tr.picks[..m] == p.picks[..m];
    }
  }

  /** Dropping the last pick and its group keeps picks distinct and
      groups increasing, and the remaining groups lie below the dropped one. */
  lemma DropLastKeeps(picks: seq<nat>, groups: seq<nat>, n: nat)
    requires |picks| == |groups| > 0 && groups[|groups| - 1] == n
    requires Distinct(picks) && Increasing(groups)
    ensures var L := |picks| - 1;
      Distinct(picks[..L]) && Increasing(groups[..L]) && forall t :: 0 <= t < L ==> groups[..L][t] < n
  {
    var L := |picks| - 1;
    forall t | 0 <= t < L ensures groups[..L][t] < n {
      assert groups[t] < groups[L];
    }
  }

  /** A run over `n + 1` groups whose last pick was made for group `n` is,
      without that pick, a run over `n` groups. */
  lemma DropLastRun(scored: seq<Scored>, regions: seq<Region>, groups: seq<seq<Category>>, prefer: bool, missing: Ext,
                    n: nat, p: Trace, k: nat)
    requires |regions| == |scored| && |p.picks| == |p.groups|
    requires IsGreedyRun(scored, regions, groups, prefer, missing, n + 1, Trace(p.picks + [k], p.groups + [n]))
    ensures IsGreedyRun(scored, regions, groups, prefer, missing, n, p)
  {
    var tr := Trace(p.picks + [k], p.groups + [n]);
    DropLastKeeps(tr.picks, tr.groups, n);
    assert tr.picks[..|p.picks|] == p.picks && tr.groups[..|p.groups|] == p.groups;
    AllChosenPrefix(scored, regions, groups, prefer, missing, tr, p);
    SkipsDropLast(scored, groups, n, p, k);
  }

  /** The first `n` groups of a run over `n + 1` are a run. */
  lemma RunRestrict(scored: seq<Scored>, regions: seq<Region>, groups: seq<seq<Category>>, prefer: bool, missing: Ext,
                    n: nat, tr: Trace)
    requires |regions| == |scored| && IsGreedyRun(scored, regions, groups, prefer, missing, n + 1, tr)
    ensures IsGreedyRun(scored, regions, groups, prefer, missing, n, Restrict(tr, n))
  {
    var p := Restrict(tr, n);
    if p != tr {
      RestrictShape(tr, n);
      DropLastRun(scored, regions, groups, prefer, missing, n, p, tr.picks[|p.picks|]);
    } else {
      RestrictKeepsBelow(tr, n);
    }
  }

  /** What group `n` did to a run: nothing when its candidates were all
      picked before, and otherwise it pushed its choice. */
  lemma RunStep(scored: seq<Scored>, regions: seq<Region>, groups: seq<seq<Category>>, prefer: bool, missing: Ext,
                n: nat, tr: Trace)
    requires |regions| == |scored| && IsGreedyRun(scored, regions, groups, prefer, missing, n + 1, tr)
    ensures var p := Restrict(tr, n);
      InRange(|scored|, p.picks)
      && (Exhausted(scored, groups[n], p.picks) ==> tr == p)
      && (!Exhausted(scored, groups[n], p.picks) ==>
            |tr.picks| == |p.picks| + 1
            && tr == Trace(p.picks + [tr.picks[|p.picks|]], p.groups + [n])
            && ChosenFor(scored, regions, groups[n], p.picks, prefer, missing, tr.picks[|p.picks|]))
  {
    var p := Restrict(tr, n);
    RunRestrict(scored, regions, groups, prefer, missing, n, tr);
    var L := |tr.picks|;
    if p != tr {
      RestrictShape(tr, n);
      var k := tr.picks[L - 1];
      assert ChosenFor(scored, regions, groups[tr.groups[L - 1]], tr.picks[..L - 1], prefer, missing, k);
      ChosenSame(scored, regions, groups[tr.groups[L - 1]], groups[n], tr.picks[..L - 1], p.picks,
                 prefer, missing, k, k);
      assert !Exhausted(scored, groups[n], p.picks) by {
        assert InGroup(scored[k].meta.cats, groups[n]) && k !in p.picks;
      }
    } else {
      RestrictKeepsBelow(tr, n);
      assert n !in tr.groups;
      CountBelowAll(tr.groups, n);
      assert tr.picks[..L] == tr.picks;
    }
  }

  /** At most one candidate is the choice for a group. */
  lemma ChosenUnique(scored: seq<Scored>, regions: seq<Region>, group: seq<Category>, picks: seq<nat>,
                     prefer: bool, missing: Ext, k1: nat, k2: nat)
    requires |regions| == |scored| && InRange(|scored|, picks)
    requires ChosenFor(scored, regions, group, picks, prefer, missing, k1)
    requires ChosenFor(scored, regions, group, picks, prefer, missing, k2)
    ensures k1 == k2
  {
    if k1 != k2 {
      var used := UsedRegions(regions, picks);
      assert GreedyPrecedes(scored, regions, used, prefer, missing, k1, k2);
      assert GreedyPrecedes(scored, regions, used, prefer, missing, k2, k1);
      var a := GreedyKey(scored[k1], regions[k1], used, prefer, missing);
      var b := GreedyKey(scored[k2], regions[k2], used, prefer, missing);
      BeforeOrder(a, b, a);
    }
  }

  /** The greedy pass is determined by its inputs: two runs over the same
      first `n` groups are the same run. */
  lemma {:induction false} GreedyRunUnique(scored: seq<Scored>, regions: seq<Region>, groups: seq<seq<Category>>,
                                           prefer: bool, missing: Ext, n: nat, tr1: Trace, tr2: Trace)
    requires |regions| == |scored|
    requires IsGreedyRun(scored, regions, groups, prefer, missing, n, tr1)
    requires IsGreedyRun(scored, regions, groups, prefer, missing, n, tr2)
    ensures tr1 == tr2
  {
    if n == 0 {
      GroupsBound(tr1.groups, 0);
      GroupsBound(tr2.groups, 0);
    } else {
      var m := n - 1;
      RunRestrict(scored, regions, groups, prefer, missing, m, tr1);
      RunRestrict(scored, regions, groups, prefer, missing, m, tr2);
      GreedyRunUnique(scored, regions, groups, prefer, missing, m, Restrict(tr1, m), Restrict(tr2, m));
      RunStep(scored, regions, groups, prefer, missing, m, tr1);
      RunStep(scored, regions, groups, prefer, missing, m, tr2);
      var p := Restrict(tr1, m);
      if !Exhausted(scored, groups[m], p.picks) {
        ChosenUnique(scored, regions, groups[m], p.picks, prefer, missing, tr1.picks[|p.picks|], tr2.picks[|p.picks|]);
      }
    }
  }

  /** Two candidates: the first of frontend and backend with score 10, the
      second of backend only with score 5, neither with a salary. */
  function TwoCandidates(blank: Candidate): seq<Scored> {
    [Scored(blank, ScoreMeta(10.0, {Frontend, Backend}, None)),
     Scored(blank, ScoreMeta(5.0, {Backend}, None))]
  }

  /** Each of the two picks is its group's choice given the picks before. */
  lemma TwoCandidatesChosen(blank: Candidate)
    requires blank.location == ""
    ensures var scored := TwoCandidates(blank);
      AllChosen(scored, Regions(scored), Groups, false, Inf, Trace([0, 1], [0, 1]))
  {
    var scored := TwoCandidates(blank);
    var regions := Regions(scored);
    assert InGroup(scored[0].meta.cats, Groups[0]) by { assert Frontend in Groups[0]; }
    assert !InGroup(scored[1].meta.cats, Groups[0]);
    var right := Trace([0, 1], [0, 1]);
    assert right.picks[..0] == [] && right.picks[..1] == [0];
    assert ChosenFor(scored, regions, Groups[0], [], false, Inf, 0);
    assert ChosenFor(scored, regions, Groups[1], [0], false, Inf, 1) by {
      assert InGroup(scored[1].meta.cats, Groups[1]) by { assert Backend in Groups[1]; }
    }
  }

  /** The first of `TwoCandidates` is picked for the frontend group and the
      second for the backend group. */
  lemma TwoCandidatesRun(blank: Candidate)
    requires blank.location == ""
    ensures var scored := TwoCandidates(blank);
      IsGreedyRun(scored, Regions(scored), Groups, false, Inf, |Groups|, Trace([0, 1], [0, 1]))
  {
    TwoCandidatesChosen(blank);
    TwoCandidatesSkips(blank);
  }

  /** The three later groups go without a pick: both candidates are picked
      by then. */
  lemma TwoCandidatesSkips(blank: Candidate)
    ensures SkipsOnlyExhausted(TwoCandidates(blank), Groups, |Groups|, Trace([0, 1], [0, 1]))
  {
    var scored := TwoCandidates(blank);
    var picks: seq<nat> := [0, 1];
    forall g | 2 <= g < |Groups| ensures Exhausted(scored, Groups[g], picks[..CountBelow(picks, g)]) {
      CountBelowAll(picks, g);
      assert picks[..2] == picks;
      assert forall k :: 0 <= k < |scored| ==> k in picks;
    }
  }

  /** A trace that picks the first of `TwoCandidates` for the backend group
      and skips the frontend group is not a run: the frontend candidate was
      not picked before the frontend group's turn. */
  lemma TwoCandidatesNotSkipped(blank: Candidate)
    ensures var scored := TwoCandidates(blank);
      !IsGreedyRun(scored, Regions(scored), Groups, false, Inf, |Groups|, Trace([0], [1]))
  {
    var scored := TwoCandidates(blank);
    assert InGroup(scored[0].meta.cats, Groups[0]) by { assert Frontend in Groups[0]; }
    var wrong := Trace([0], [1]);
    assert CountBelow([1], 0) == 0 by { assert [1][..0] == []; }
    assert 0 !in wrong.groups;
    assert !Exhausted(scored, Groups[0], wrong.picks[..0]);
  }

  // ------------------------------------------------------------- role groups

  function GroupIndexFrom(groups: seq<seq<Category>>, cats: set<Category>, i: nat): int
    requires i <= |groups|
    decreases |groups| - i
  {
    if i == |groups| then -1
    else if InGroup(cats, groups[i]) then i
    else GroupIndexFrom(groups, cats, i + 1)
  }

  /** `groupIndexOf`: the first group that shares a category with `cats`,
      or -1. */
  function GroupIndex(groups: seq<seq<Category>>, cats: set<Category>): int {
    GroupIndexFrom(groups, cats, 0)
  }

  lemma {:induction false} GroupIndexFromMeaning(groups: seq<seq<Category>>, cats: set<Category>, i: nat)
    requires i <= |groups|
    ensures var r := GroupIndexFrom(groups, cats, i);
      -1 <= r < |groups| && (r >= 0 ==> i <= r && InGroup(cats, groups[r]))
      && forall j :: i <= j < |groups| && (r == -1 || j < r) ==> !InGroup(cats, groups[j])
    decreases |groups| - i
  {
    if i < |groups| && !InGroup(cats, groups[i]) {
      GroupIndexFromMeaning(groups, cats, i + 1);
    }
  }

  /** `groupIndexOf` is the first group index whose group meets `cats`, and
      -1 exactly when no group does. */
  lemma GroupIndexMeaning(groups: seq<seq<Category>>, cats: set<Category>)
    ensures var r := GroupIndex(groups, cats);
      -1 <= r < |groups| && (r >= 0 ==> InGroup(cats, groups[r]))
      && forall j :: 0 <= j < |groups| && (r == -1 || j < r) ==> !InGroup(cats, groups[j])
  {
    GroupIndexFromMeaning(groups, cats, 0);
  }

  /** `groupIndexOf` with its loop and early return. */
  method GroupIndexOf(groups: seq<seq<Category>>, cats: set<Category>) returns (r: int)
    ensures -1 <= r < |groups| && (r >= 0 ==> InGroup(cats, groups[r]))
    ensures forall j :: 0 <= j < |groups| && (r == -1 || j < r) ==> !InGroup(cats, groups[j])
    ensures r == GroupIndex(groups, cats)
  {
    for i := 0 to |groups|
      invariant GroupIndexFrom(groups, cats, i) == GroupIndex(groups, cats)
      invariant forall j :: 0 <= j < i ==> !InGroup(cats, groups[j])
    {
      if InGroup(cats, groups[i]) {
        return i;
      }
    }
    return -1;
  }

  /** Every greedy pick has a category of the group it was picked for, so
      its `groupIndexOf` is that group or an earlier one. */
  lemma GreedyPickGroups(scored: seq<Scored>, regions: seq<Region>, groups: seq<seq<Category>>, prefer: bool, missing: Ext, tr: Trace)
    requires |regions| == |scored|
    requires IsGreedyRun(scored, regions, groups, prefer, missing, |groups|, tr)
    ensures |tr.picks| <= |groups|
    ensures forall t :: 0 <= t < |tr.picks| ==>
        InGroup(scored[tr.picks[t]].meta.cats, groups[tr.groups[t]])
        && 0 <= GroupIndex(groups, scored[tr.picks[t]].meta.cats) <= tr.groups[t]
  {
    forall t | 0 <= t < |tr.picks|
      ensures InGroup(scored[tr.picks[t]].meta.cats, groups[tr.groups[t]])
      ensures 0 <= GroupIndex(groups, scored[tr.picks[t]].meta.cats) <= tr.groups[t]
    {
      assert ChosenFor(scored, regions, groups[tr.groups[t]], tr.picks[..t], prefer, missing, tr.picks[t]);
      GroupIndexMeaning(groups, scored[tr.picks[t]].meta.cats);
    }
    GroupsBound(tr.groups, |groups|);
  }

  /** The greedy pass picks nobody exactly when no candidate has a
      category of any role group. */
  lemma GreedyEmptyIff(scored: seq<Scored>, regions: seq<Region>, groups: seq<seq<Category>>, prefer: bool, missing: Ext, tr: Trace)
    requires |regions| == |scored|
    requires IsGreedyRun(scored, regions, groups, prefer, missing, |groups|, tr)
    ensures tr.picks == [] <==>
      forall k, g :: 0 <= k < |scored| && 0 <= g < |groups| ==> !InGroup(scored[k].meta.cats, groups[g])
  {
    if tr.picks != [] {
      assert ChosenFor(scored, regions, groups[tr.groups[0]], tr.picks[..0], prefer, missing, tr.picks[0]);
    } else {
      forall k, g | 0 <= k < |scored| && 0 <= g < |groups| ensures !InGroup(scored[k].meta.cats, groups[g]) {
        assert g !in tr.groups;
      }
    }
  }
}
