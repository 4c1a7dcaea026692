/** String helpers shared by the engine: the normaliser `norm` and the
    substring test `String.prototype.includes`, on which every keyword
    table and every location rule is built. */
module Text {

  /** ASCII lower-casing of one character. */
  function LowerChar(ch: char): char {
    if 'A' <= ch <= 'Z' then (ch as int + 32) as char else ch
  }

  /** `norm`: lower-cases a string character by character. An absent string
      is modelled as "". */
  function Norm(s: string): (r: string)
    ensures |r| == |s| && forall i :: 0 <= i < |s| ==> r[i] == LowerChar(s[i])
  {
    seq(|s|, i requires 0 <= i < |s| => LowerChar(s[i]))
  }

  /** Normalising twice is normalising once. */
  lemma NormIdempotent(s: string)
    ensures Norm(Norm(s)) == Norm(s)
  {
    var n := Norm(s);
    assert forall i :: 0 <= i < |n| ==> Norm(n)[i] == n[i];
  }

  /** `needle` sits in `hay` at position `i`. */
  ghost predicate OccursAt(hay: string, needle: string, i: int) {
    0 <= i && i + |needle| <= |hay| && hay[i..i + |needle|] == needle
  }

  predicate IsPrefix(p: string, s: string) {
    |p| <= |s| && s[..|p|] == p
  }

  /** `hay.includes(needle)`: some position of `hay` starts a copy of `needle`. */
  function Contains(hay: string, needle: string): (r: bool)
    ensures r <==> exists i :: OccursAt(hay, needle, i)
    decreases |hay|
  {
    if IsPrefix(needle, hay) then
      assert OccursAt(hay, needle, 0);
      true
    else if hay == [] then
      false
    else
      var rest := Contains(hay[1..], needle);
      assert rest ==> exists i :: OccursAt(hay, needle, i) by {
        if rest {
          var i :| OccursAt(hay[1..], needle, i);
          assert hay[1..][i..i + |needle|] == hay[i + 1..i + 1 + |needle|];
          assert OccursAt(hay, needle, i + 1);
        }
      }
      assert (exists i :: OccursAt(hay, needle, i)) ==> rest by {
        if exists i :: OccursAt(hay, needle, i) {
          var i :| OccursAt(hay, needle, i);
          assert i != 0;
          assert hay[1..][i - 1..i - 1 + |needle|] == hay[i..i + |needle|];
          assert OccursAt(hay[1..], needle, i - 1);
        }
      }
      rest
  }

  /** The empty string is in every string, and a string contains itself. */
  lemma ContainsTrivial(s: string)
    ensures Contains(s, "") && Contains(s, s)
  {
    assert OccursAt(s, "", 0);
    assert OccursAt(s, s, 0);
  }

  /** Substring is transitive: a part of a part of `a` is a part of `a`. */
  lemma ContainsTransitive(a: string, b: string, c: string)
    requires Contains(a, b) && Contains(b, c)
    ensures Contains(a, c)
  {
    var i :| OccursAt(a, b, i);
    var j :| OccursAt(b, c, j);
    forall k | 0 <= k < |c| ensures a[i + j + k] == c[k] {
      assert c[k] == b[j + k];
    }
    assert a[i + j..i + j + |c|] == c;
    assert OccursAt(a, c, i + j);
  }

  /** A string contains whatever either half of a concatenation contains. */
  lemma ContainsConcat(a: string, b: string, n: string)
    requires Contains(a, n) || Contains(b, n)
    ensures Contains(a + b, n)
  {
    if Contains(a, n) {
      var i :| OccursAt(a, n, i);
      assert (a + b)[i..i + |n|] == a[i..i + |n|];
      assert OccursAt(a + b, n, i);
    } else {
      var i :| OccursAt(b, n, i);
      assert (a + b)[|a| + i..|a| + i + |n|] == b[i..i + |n|];
      assert OccursAt(a + b, n, |a| + i);
    }
  }

  /** `keys.some((k) => hay.includes(k))`, also the model of a regular
      expression that is an alternation of literal fragments. */
  function ContainsAny(hay: string, keys: seq<string>): (r: bool)
    ensures r <==> exists k :: k in keys && Contains(hay, k)
  {
    if keys == [] then false
    else if Contains(hay, keys[0]) then
      assert keys[0] in keys;
      true
    else
      var rest := ContainsAny(hay, keys[1..]);
      assert (exists k :: k in keys && Contains(hay, k)) ==> rest by {
        if exists k :: k in keys && Contains(hay, k) {
          var k :| k in keys && Contains(hay, k);
          assert k in keys[1..];
        }
      }
      rest
  }

  /** `parts.join(sep)`. */
  function Join(parts: seq<string>, sep: string): (r: string)
    ensures forall k :: 0 <= k < |parts| ==> Contains(r, parts[k])
  {
    if parts == [] then ""
    else if |parts| == 1 then parts[0]
    else
      var rest := Join(parts[1..], sep);
      assert forall k :: 1 <= k < |parts| ==> Contains(rest, parts[k]) by {
        forall k | 1 <= k < |parts| ensures Contains(rest, parts[k]) {
          assert parts[k] == parts[1..][k - 1];
        }
      }
      var r := parts[0] + sep + rest;
      assert forall k :: 0 <= k < |parts| ==> Contains(r, parts[k]) by {
        forall k | 0 <= k < |parts| ensures Contains(r, parts[k]) {
          if k == 0 {
            ContainsTrivial(parts[0]);
            ContainsConcat(parts[0], sep, parts[0]);
            ContainsConcat(parts[0] + sep, rest, parts[0]);
          } else {
            ContainsConcat(parts[0] + sep, rest, parts[k]);
          }
        }
      }
      r
  }
}
