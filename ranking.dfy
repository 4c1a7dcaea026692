/** The orderings the auto-selector sorts by. Every comparator the engine
    hands to `Array.prototype.sort` compares up to three numbers
    lexicographically; `Key` holds them and `Before` says the comparator
    is negative. `Array.prototype.sort` is stable, so sorting the elements
    at a list of increasing positions orders them by key and, among equal
    keys, by position: that is `Precedes`, and `SortByKey` is that sort on
    positions. */
module Ranking {

  /** A number that may be `Number.POSITIVE_INFINITY`. */
  datatype Ext = Fin(n: int) | Inf

  /** `a < b`; `Infinity - Infinity` is `NaN`, which a comparator reads as
      "equal", so `Inf` is not below `Inf`. */
  predicate ExtLess(a: Ext, b: Ext) {
    match a
    case Inf => false
    case Fin(x) => b.Inf? || x < b.n
  }

  /** The numbers a comparator subtracts, most significant first. */
  datatype Key = Key(major: int, minor: real, cost: Ext)

  /** The comparator of `x` and `y` is negative: `x` sorts first. */
  predicate Before(x: Key, y: Key) {
    x.major < y.major
    || (x.major == y.major && (x.minor < y.minor || (x.minor == y.minor && ExtLess(x.cost, y.cost))))
  }

  lemma BeforeOrder(x: Key, y: Key, z: Key)
    ensures !Before(x, x)
    ensures Before(x, y) && Before(y, z) ==> Before(x, z)
    ensures x != y ==> Before(x, y) || Before(y, x)
  {
  }

  /** Every element of `s` is a position below `n`. */
  predicate InRange(n: nat, s: seq<nat>) {
    forall a :: 0 <= a < |s| ==> s[a] < n
  }

  predicate Distinct(s: seq<nat>) {
    forall a, b :: 0 <= a < b < |s| ==> s[a] != s[b]
  }

  lemma InRangeAppend(n: nat, s: seq<nat>, x: nat)
    requires InRange(n, s) && x < n
    ensures InRange(n, s + [x])
  {
    var r := s + [x];
    forall a | 0 <= a < |r| ensures r[a] < n {
      if a < |s| {
        assert r[a] == s[a];
      }
    }
  }

  lemma DistinctAppend(s: seq<nat>, x: nat)
    requires Distinct(s) && x !in s
    ensures Distinct(s + [x])
  {
    var r := s + [x];
    forall a, b | 0 <= a < b < |r| ensures r[a] != r[b] {
      if b == |s| {
        assert r[a] == s[a];
      }
    }
  }

  lemma InRangeUpdate(n: nat, s: seq<nat>, i: nat, x: nat)
    requires InRange(n, s) && i < |s| && x < n
    ensures InRange(n, s[i := x])
  {
  }

  lemma {:induction false} DistinctMultiplicity(s: seq<nat>)
    requires Distinct(s)
    ensures forall x :: multiset(s)[x] <= 1
  {
    if s != [] {
      var rest := s[1..];
      assert forall a :: 0 <= a < |rest| ==> rest[a] == s[a + 1];
      DistinctMultiplicity(rest);
      assert s == [s[0]] + rest;
      assert s[0] !in rest;
    }
  }

  lemma RepeatMultiplicity(p: seq<nat>, a: nat, b: nat)
    requires a < b < |p| && p[a] == p[b]
    ensures multiset(p)[p[a]] >= 2
  {
    assert p == p[..b] + p[b..];
    assert p[..b][a] == p[a];
    assert p[b..][0] == p[a];
    assert p[a] in multiset(p[..b]) && p[a] in multiset(p[b..]);
  }

  /** A permutation of a list without repetitions has none either. */
  lemma DistinctOfPermutation(s: seq<nat>, p: seq<nat>)
    requires Distinct(s) && multiset(p) == multiset(s)
    ensures Distinct(p)
  {
    DistinctMultiplicity(s);
    forall a, b | 0 <= a < b < |p| ensures p[a] != p[b] {
      if p[a] == p[b] {
        RepeatMultiplicity(p, a, b);
      }
    }
  }

  /** The element at position `i` comes before the one at `j` after a
      stable sort by `keys`. */
  predicate Precedes(keys: seq<Key>, i: nat, j: nat)
    requires i < |keys| && j < |keys|
  {
    Before(keys[i], keys[j]) || (keys[i] == keys[j] && i < j)
  }

  lemma PrecedesOrder(keys: seq<Key>, i: nat, j: nat, k: nat)
    requires i < |keys| && j < |keys| && k < |keys|
    ensures !Precedes(keys, i, i)
    ensures Precedes(keys, i, j) && Precedes(keys, j, k) ==> Precedes(keys, i, k)
    ensures i != j ==> Precedes(keys, i, j) || Precedes(keys, j, i)
  {
    BeforeOrder(keys[i], keys[j], keys[k]);
    BeforeOrder(keys[j], keys[i], keys[k]);
  }

  predicate SortedBy(keys: seq<Key>, s: seq<nat>)
    requires InRange(|keys|, s)
  {
    forall a, b :: 0 <= a < b < |s| ==> Precedes(keys, s[a], s[b])
  }

  /** The positions `k` with `ok[k]`, in increasing order: `Array.prototype.filter`. */
  function Select(ok: seq<bool>): (r: seq<nat>)
    ensures InRange(|ok|, r)
  {
    if ok == [] then []
    else
      var n := |ok| - 1;
      Select(ok[..n]) + (if ok[n] then [n] else [])
  }

  /** `Select` keeps exactly the positions whose flag is set, in order, and
      so never the same position twice. */
  lemma {:induction false} SelectMeaning(ok: seq<bool>)
    ensures var r := Select(ok);
      (forall a :: 0 <= a < |r| ==> ok[r[a]])
      && (forall k :: 0 <= k < |ok| ==> (ok[k] <==> k in r))
      && (forall a, b :: 0 <= a < b < |r| ==> r[a] < r[b])
      && Distinct(r)
  {
    if ok != [] {
      var n := |ok| - 1;
      SelectMeaning(ok[..n]);
      var front := Select(ok[..n]);
      assert forall k :: 0 <= k < n ==> ok[..n][k] == ok[k];
      var r := Select(ok);
      assert r == front + (if ok[n] then [n] else []);
      forall k | 0 <= k < |ok| ensures ok[k] <==> k in r {
        if k < n {
          assert ok[k] <==> k in front;
        }
      }
    }
  }

  function Insert(keys: seq<Key>, x: nat, s: seq<nat>): (r: seq<nat>)
    requires x < |keys| && InRange(|keys|, s)
    ensures InRange(|keys|, r)
  {
    if s == [] then [x]
    else if Precedes(keys, x, s[0]) then [x] + s
    else [s[0]] + Insert(keys, x, s[1..])
  }

  lemma {:induction false} InsertPermutes(keys: seq<Key>, x: nat, s: seq<nat>)
    requires x < |keys| && InRange(|keys|, s)
    ensures multiset(Insert(keys, x, s)) == multiset(s) + multiset{x}
  {
    if s != [] && !Precedes(keys, x, s[0]) {
      InsertPermutes(keys, x, s[1..]);
      assert s == [s[0]] + s[1..];
    }
  }

  /** The positions `idxs`, stably sorted by `keys`. */
  function SortByKey(keys: seq<Key>, idxs: seq<nat>): (r: seq<nat>)
    requires InRange(|keys|, idxs)
    ensures InRange(|keys|, r)
  {
    if idxs == [] then []
    else Insert(keys, idxs[0], SortByKey(keys, idxs[1..]))
  }

  /** Sorting permutes: the same positions, each as often. */
  lemma {:induction false} SortByKeyPermutes(keys: seq<Key>, idxs: seq<nat>)
    requires InRange(|keys|, idxs)
    ensures multiset(SortByKey(keys, idxs)) == multiset(idxs)
  {
    if idxs != [] {
      SortByKeyPermutes(keys, idxs[1..]);
      InsertPermutes(keys, idxs[0], SortByKey(keys, idxs[1..]));
      assert idxs == [idxs[0]] + idxs[1..];
    }
  }

  lemma {:induction false} InsertSorted(keys: seq<Key>, x: nat, s: seq<nat>)
    requires x < |keys| && InRange(|keys|, s) && SortedBy(keys, s) && x !in s
    ensures SortedBy(keys, Insert(keys, x, s))
  {
    if s == [] {
    } else if Precedes(keys, x, s[0]) {
      var r := [x] + s;
      forall a, b | 0 <= a < b < |r| ensures Precedes(keys, r[a], r[b]) {
        if a == 0 && b > 1 {
          PrecedesOrder(keys, x, s[0], s[b - 1]);
        }
      }
    } else {
      PrecedesOrder(keys, x, s[0], s[0]);
      var tail := Insert(keys, x, s[1..]);
      InsertPermutes(keys, x, s[1..]);
      assert x !in s[1..];
      InsertSorted(keys, x, s[1..]);
      var r := [s[0]] + tail;
      forall a, b | 0 <= a < b < |r| ensures Precedes(keys, r[a], r[b]) {
        if a == 0 {
          var e := tail[b - 1];
          assert e in multiset(tail);
          if e != x {
            assert e in multiset(s[1..]);
            var c :| 0 <= c < |s[1..]| && s[1..][c] == e;
            assert s[c + 1] == e;
          }
        }
      }
    }
  }

  lemma {:induction false} SortByKeySorted(keys: seq<Key>, idxs: seq<nat>)
    requires InRange(|keys|, idxs) && Distinct(idxs)
    ensures SortedBy(keys, SortByKey(keys, idxs))
  {
    if idxs != [] {
      var rest := idxs[1..];
      SortByKeySorted(keys, rest);
      assert forall c :: 0 <= c < |rest| ==> rest[c] == idxs[c + 1];
      SortByKeyPermutes(keys, rest);
      assert idxs[0] !in multiset(SortByKey(keys, rest));
      InsertSorted(keys, idxs[0], SortByKey(keys, rest));
    }
  }

  /** The element a stable sort puts first, and more generally the first
      element of the sorted list with property `ok`, precedes every other
      element of the list with that property. */
  lemma FirstOfSorted(keys: seq<Key>, r: seq<nat>, ok: seq<bool>, t: nat)
    requires InRange(|keys|, r) && SortedBy(keys, r) && |ok| == |keys|
    requires t < |r| && ok[r[t]] && forall u :: 0 <= u < t ==> !ok[r[u]]
    ensures forall j :: j in r && ok[j] && j != r[t] ==> Precedes(keys, r[t], j)
  {
    forall j | j in r && ok[j] && j != r[t] ensures Precedes(keys, r[t], j) {
      var u :| 0 <= u < |r| && r[u] == j;
      assert u > t;
    }
  }

  /** The element of `S` that precedes every other element of `S`. */
  predicate IsLeast(keys: seq<Key>, S: seq<nat>, k: nat)
    requires InRange(|keys|, S)
  {
    k in S && forall j :: j in S && j != k ==> Precedes(keys, k, j)
  }

  /** A stable sort puts first the least element of what it sorts. */
  lemma SortedHead(keys: seq<Key>, idxs: seq<nat>)
    requires InRange(|keys|, idxs) && Distinct(idxs)
    ensures var r := SortByKey(keys, idxs);
      (r == [] <==> idxs == []) && (r != [] ==> IsLeast(keys, idxs, r[0]))
  {
    var r := SortByKey(keys, idxs);
    SortByKeyPermutes(keys, idxs);
    assert |r| == |multiset(r)| == |multiset(idxs)| == |idxs|;
    if r != [] {
      SortByKeySorted(keys, idxs);
      var ok := seq(|keys|, k => true);
      FirstOfSorted(keys, r, ok, 0);
      assert r[0] in multiset(idxs);
      forall j | j in idxs ensures j in r {
        assert j in multiset(r);
      }
    }
  }

  /** At most one element of a list is least. */
  lemma LeastUnique(keys: seq<Key>, S: seq<nat>, k1: nat, k2: nat)
    requires InRange(|keys|, S) && IsLeast(keys, S, k1) && IsLeast(keys, S, k2)
    ensures k1 == k2
  {
    if k1 != k2 {
      var i :| 0 <= i < |S| && S[i] == k1;
      var j :| 0 <= j < |S| && S[j] == k2;
      PrecedesOrder(keys, k1, k2, k1);
    }
  }
}
