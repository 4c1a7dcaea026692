/** The candidate list of the application component: the search filter
    over the uploaded records, the in-place sort of the scored records by
    score, and the manual shortlist. */
module Listing {
  import opened Records
  import opened Text
  import opened Ranking
  import opened Scoring

  // -------------------------------------------------------------- search

  /** The search haystack of a record: name, email, location, the skills,
      the role names and the companies, each normalised, joined by
      spaces. */
  function Haystack(c: Candidate): string {
    var fields := [c.name, c.email, c.location] + c.skills + RoleNames(c.workExperiences) + Companies(c.workExperiences);
    Join(seq(|fields|, i requires 0 <= i < |fields| => Norm(fields[i])), " ")
  }

  /** The record passes the search for the normalised query `text`. */
  predicate Matches(c: Candidate, text: string) {
    text == "" || Contains(Haystack(c), text)
  }

  function MatchMask(raw: seq<Candidate>, text: string): (r: seq<bool>)
    ensures |r| == |raw|
  {
    seq(|raw|, k requires 0 <= k < |raw| => Matches(raw[k], text))
  }

  /** The elements of `s` at the positions `idx`, in that order. */
  function Pick<T>(s: seq<T>, idx: seq<nat>): (r: seq<T>)
    requires InRange(|s|, idx)
    ensures |r| == |idx| && forall i :: 0 <= i < |idx| ==> r[i] == s[idx[i]]
  {
    seq(|idx|, i requires 0 <= i < |idx| => s[idx[i]])
  }

  /** `candidates`: nothing when `raw` is not an array, else the records
      whose haystack contains the normalised query. `None` stands for a
      `raw` that is not an array. */
  function Search(raw: Option<seq<Candidate>>, q: string): seq<Candidate> {
    match raw
    case None => []
    case Some(rs) => Pick(rs, Select(MatchMask(rs, Norm(q))))
  }

  /** An empty query keeps every record, in order. */
  lemma SearchEmptyQuery(rs: seq<Candidate>, q: string)
    requires Norm(q) == ""
    ensures Search(Some(rs), q) == rs
  {
    var ok := MatchMask(rs, Norm(q));
    assert forall k :: 0 <= k < |rs| ==> ok[k];
    IdentitySelect(ok);
  }

  /** When every flag is set, `Select` keeps every position. */
  lemma {:induction false} IdentitySelect(ok: seq<bool>)
    requires forall k :: 0 <= k < |ok| ==> ok[k]
    ensures var sel := Select(ok);
      |sel| == |ok| && forall i :: 0 <= i < |sel| ==> sel[i] == i
  {
    if ok != [] {
      var n := |ok| - 1;
      assert forall k :: 0 <= k < n ==> ok[..n][k];
      IdentitySelect(ok[..n]);
      assert Select(ok) == Select(ok[..n]) + [n];
    }
  }

  /** `r` is `rs` at the increasing positions `idx`, which are exactly the
      positions of the records matching `text`. */
  predicate KeepsMatching(rs: seq<Candidate>, text: string, idx: seq<nat>, r: seq<Candidate>) {
    InRange(|rs|, idx) && |idx| == |r|
    && (forall i :: 0 <= i < |idx| ==> r[i] == rs[idx[i]])
    && (forall a, b :: 0 <= a < b < |idx| ==> idx[a] < idx[b])
    && (forall k :: 0 <= k < |rs| ==> (k in idx <==> Matches(rs[k], text)))
  }

  /** Otherwise the search keeps exactly the matching records, in their
      input order. */
  lemma SearchKeepsMatches(rs: seq<Candidate>, q: string)
    ensures exists idx :: KeepsMatching(rs, Norm(q), idx, Search(Some(rs), q))
  {
    var ok := MatchMask(rs, Norm(q));
    SelectMeaning(ok);
    var idx := Select(ok);
    assert KeepsMatching(rs, Norm(q), idx, Search(Some(rs), q));
  }

  /** A record whose name, email, location, some skill, role name or
      company contains the normalised query passes the search. */
  lemma SearchFindsField(c: Candidate, text: string, field: string)
    requires field in [c.name, c.email, c.location] + c.skills + RoleNames(c.workExperiences) + Companies(c.workExperiences)
    requires Contains(Norm(field), text)
    ensures Matches(c, text)
  {
    var fields := [c.name, c.email, c.location] + c.skills + RoleNames(c.workExperiences) + Companies(c.workExperiences);
    var normed := seq(|fields|, i requires 0 <= i < |fields| => Norm(fields[i]));
    var i :| 0 <= i < |fields| && fields[i] == field;
    assert Contains(Haystack(c), normed[i]);
    ContainsTransitive(Haystack(c), normed[i], text);
  }

  // ---------------------------------------------------------------- sort

  predicate NonIncreasing(s: seq<Scored>) {
    forall p, q :: 0 <= p < q < |s| ==> s[p].meta.score >= s[q].meta.score
  }

  /** `scored.sort((a, b) => b.meta.score - a.meta.score)`, in place:
      highest score first, the same records. */
  method SortByScore(a: array<Scored>)
    modifies a
    ensures NonIncreasing(a[..]) && multiset(a[..]) == multiset(old(a[..]))
  {
    for i := 0 to a.Length
      invariant NonIncreasing(a[..i]) && multiset(a[..]) == multiset(old(a[..]))
    {
      InsertLast(a, i);
    }
    assert a[..a.Length] == a[..];
  }

  /** One step of the sort: moves `a[i]` down past the lower scores before
      it, so that the first `i + 1` records are in order. */
  method InsertLast(a: array<Scored>, i: nat)
    requires i < a.Length && NonIncreasing(a[..i])
    modifies a
    ensures NonIncreasing(a[..i + 1]) && multiset(a[..]) == multiset(old(a[..]))
  {
    var j := i;
    InsertStart(a[..], i);
    while j > 0 && a[j - 1].meta.score < a[j].meta.score
      invariant 0 <= j <= i && multiset(a[..]) == multiset(old(a[..]))
      invariant Inserting(a[..], i, j)
    {
      SwapDown(a[..], i, j);
      a[j - 1], a[j] := a[j], a[j - 1];
      j := j - 1;
    }
    InsertDone(a[..], i, j);
  }

  /** Halfway through inserting `s[j]` into the ordered `s[..i]`: the
      first `i + 1` records are in order but for position `j`, whose
      record scores above every one after it. */
  predicate Inserting(s: seq<Scored>, i: nat, j: nat)
    requires j <= i < |s|
  {
    (forall p, q :: 0 <= p < q <= i && p != j && q != j ==> s[p].meta.score >= s[q].meta.score)
    && forall q :: j < q <= i ==> s[j].meta.score > s[q].meta.score
  }

  lemma InsertStart(s: seq<Scored>, i: nat)
    requires i < |s| && NonIncreasing(s[..i])
    ensures Inserting(s, i, i)
  {
    forall p, q | 0 <= p < q <= i && p != i && q != i ensures s[p].meta.score >= s[q].meta.score {
      assert s[p] == s[..i][p] && s[q] == s[..i][q];
    }
  }

  lemma SwapDown(s: seq<Scored>, i: nat, j: nat)
    requires 0 < j <= i < |s| && Inserting(s, i, j) && s[j - 1].meta.score < s[j].meta.score
    ensures Inserting(s[j - 1 := s[j]][j := s[j - 1]], i, j - 1)
  {
  }

  lemma InsertDone(s: seq<Scored>, i: nat, j: nat)
    requires j <= i < |s| && Inserting(s, i, j)
    requires j == 0 || s[j - 1].meta.score >= s[j].meta.score
    ensures NonIncreasing(s[..i + 1])
  {
    forall p, q | 0 <= p < q <= i ensures s[p].meta.score >= s[q].meta.score {
      if q == j && p < j - 1 {
        assert s[p].meta.score >= s[j - 1].meta.score;
      }
    }
  }

  // ----------------------------------------------------------- shortlist

  predicate HasEmail(s: seq<Candidate>, email: string) {
    exists x :: x in s && x.email == email
  }

  /** The Shortlist button: `s.find((x) => x.email === cand.email) ? s : [...s, cand]`. */
  function ShortlistAdd(s: seq<Candidate>, c: Candidate): (r: seq<Candidate>)
    ensures HasEmail(r, c.email)
  {
    if HasEmail(s, c.email) then s else s + [c]
  }

  /** The remove link: `s.filter((x) => x !== c)`. */
  function ShortlistRemove(s: seq<Candidate>, c: Candidate): (r: seq<Candidate>)
    ensures c !in r
    ensures forall x :: x in r <==> x in s && x != c
  {
    if s == [] then []
    else
      var rest := ShortlistRemove(s[1..], c);
      assert forall x :: x in s <==> x == s[0] || x in s[1..];
      if s[0] == c then rest else [s[0]] + rest
  }

  /** Adding changes the list only when no entry has the email, and then
      appends exactly the new record. */
  lemma AddMeaning(s: seq<Candidate>, c: Candidate)
    ensures var r := ShortlistAdd(s, c);
      (HasEmail(s, c.email) ==> r == s)
      && (!HasEmail(s, c.email) ==> |r| == |s| + 1 && r[..|s|] == s && r[|s|] == c)
  {
  }

  /** Adding the same record twice is adding it once. */
  lemma AddIdempotent(s: seq<Candidate>, c: Candidate)
    ensures ShortlistAdd(ShortlistAdd(s, c), c) == ShortlistAdd(s, c)
  {
  }

  /** Distinct emails stay distinct. */
  predicate DistinctEmails(s: seq<Candidate>) {
    forall i, j :: 0 <= i < j < |s| ==> s[i].email != s[j].email
  }

  lemma AddKeepsEmailsDistinct(s: seq<Candidate>, c: Candidate)
    requires DistinctEmails(s)
    ensures DistinctEmails(ShortlistAdd(s, c))
  {
    if !HasEmail(s, c.email) {
      var r := s + [c];
      forall i, j | 0 <= i < j < |r| ensures r[i].email != r[j].email {
        if j == |s| {
          assert r[i] in s;
        }
      }
    }
  }

  /** Removing keeps the order of what stays: it distributes over
      concatenation. */
  lemma {:induction false} RemoveConcat(a: seq<Candidate>, b: seq<Candidate>, c: Candidate)
    ensures ShortlistRemove(a + b, c) == ShortlistRemove(a, c) + ShortlistRemove(b, c)
  {
    if a != [] {
      assert (a + b)[1..] == a[1..] + b;
      RemoveConcat(a[1..], b, c);
    } else {
      assert a + b == b;
    }
  }

  /** Removing keeps every other entry as often as it was there. */
  lemma {:induction false} RemoveCounts(s: seq<Candidate>, c: Candidate)
    ensures multiset(ShortlistRemove(s, c))[c] == 0
    ensures forall x :: x != c ==> multiset(ShortlistRemove(s, c))[x] == multiset(s)[x]
  {
    if s != [] {
      RemoveCounts(s[1..], c);
      assert s == [s[0]] + s[1..];
    }
  }

  /** Removing a record just added to a list that did not hold its email
      gives back the list. */
  lemma RemoveUndoesAdd(s: seq<Candidate>, c: Candidate)
    requires !HasEmail(s, c.email)
    ensures ShortlistRemove(ShortlistAdd(s, c), c) == s
  {
    RemoveConcat(s, [c], c);
    assert c !in s;
    RemoveAbsent(s, c);
    assert ShortlistRemove([c], c) == [];
  }

  lemma {:induction false} RemoveAbsent(s: seq<Candidate>, c: Candidate)
    requires c !in s
    ensures ShortlistRemove(s, c) == s
  {
    if s != [] {
      assert c !in s[1..];
      RemoveAbsent(s[1..], c);
    }
  }
}
