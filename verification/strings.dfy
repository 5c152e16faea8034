/**
  The handful of `std::basic_string` operations the interpolator relies on:
  `find`, `contains`, `starts_with`, `ends_with`, and the lexicographic
  comparison that orders the keys of a `std::map<std::basic_string, ...>`.
  Strings are sequences of code units; no normalisation or case folding.
 */
module Strings {
  import opened Wrappers

  /** `t` occurs in `s` at index `i`. */
  predicate OccursAt(s: string, t: string, i: nat) {
    i + |t| <= |s| && s[i..i + |t|] == t
  }

  /** `s.find(t, from)`: the first index at or after `from` where `t` occurs,
      `None` standing for `npos`. An empty `t` is found at `from` whenever
      `from <= |s|`, as in the standard library. */
  function Find(s: string, t: string, from: nat): (r: Option<nat>)
    ensures r.Some? ==> from <= r.value && OccursAt(s, t, r.value)
    ensures r.Some? ==> forall j :: from <= j < r.value ==> !OccursAt(s, t, j)
    ensures r.None? ==> forall j :: from <= j ==> !OccursAt(s, t, j)
    decreases |s| - from
  {
    if from + |t| > |s| then None
    else if OccursAt(s, t, from) then Some(from)
    else Find(s, t, from + 1)
  }

  /** `s.contains(t)`, which is `s.find(t) != npos`. */
  predicate Contains(s: string, t: string) {
    Find(s, t, 0).Some?
  }

  predicate StartsWith(s: string, p: string) {
    |p| <= |s| && s[..|p|] == p
  }

  predicate EndsWith(s: string, p: string) {
    |p| <= |s| && s[|s| - |p|..] == p
  }

  /** `Contains` holds exactly when there is an occurrence somewhere. */
  lemma ContainsIff(s: string, t: string)
    ensures Contains(s, t) <==> exists i: nat :: OccursAt(s, t, i)
  {
    if exists i: nat :: OccursAt(s, t, i) {
      var i: nat :| OccursAt(s, t, i);
      assert Find(s, t, 0).Some?;
    }
  }

  /** Every string contains the empty string. */
  lemma ContainsEmpty(s: string)
    ensures Contains(s, "")
  {
    assert OccursAt(s, "", 0);
  }

  /** Searching from `from` is searching the suffix `s[from..]` and shifting the answer. */
  lemma FindFrom(s: string, t: string, from: nat)
    requires from <= |s|
    ensures Find(s, t, from) ==
      match Find(s[from..], t, 0)
      case None => None
      case Some(j) => Some(from + j)
  {
    forall j: nat
      ensures OccursAt(s[from..], t, j) <==> OccursAt(s, t, from + j)
    {
      if j + |t| <= |s| - from {
        assert s[from..][j..] == s[from + j..];
        assert s[from..][j..j + |t|] == s[from + j..][..|t|] == s[from + j..from + j + |t|];
      }
    }
    match Find(s, t, from)
    case None =>
      assert forall j: nat :: !OccursAt(s[from..], t, j);
    case Some(i) =>
      assert OccursAt(s[from..], t, i - from);
      assert forall j: nat :: j < i - from ==> !OccursAt(s[from..], t, j);
  }

  /** An occurrence in `p` is still an occurrence in `p + q`. */
  lemma ContainsAppend(p: string, q: string, t: string)
    requires Contains(p, t)
    ensures Contains(p + q, t)
  {
    var i := Find(p, t, 0).value;
    assert (p + q)[i..i + |t|] == p[i..i + |t|];
    assert OccursAt(p + q, t, i);
  }

  /** A token holding a code unit that `s` lacks does not occur in `s`. */
  lemma AbsentWhenUnitMissing(s: string, t: string, k: nat, from: nat)
    requires k < |t| && t[k] !in s
    ensures Find(s, t, from) == None
  {
  }

  /** An occurrence at `i` is the only one when the token's first unit is
      absent before it and its last unit is absent after it. */
  lemma UniqueOccurrence(s: string, t: string, i: nat)
    requires |t| > 0 && OccursAt(s, t, i)
    requires t[0] !in s[..i] && t[|t| - 1] !in s[i + |t|..]
    ensures forall j: nat :: j != i ==> !OccursAt(s, t, j)
  {
  }

  /** An occurrence at `i` is the first one when unit `k` of the token does
      not appear before `i + k`. */
  lemma FindFirstAt(s: string, t: string, i: nat, k: nat)
    requires k < |t| && OccursAt(s, t, i) && t[k] !in s[..i + k]
    ensures Find(s, t, 0) == Some(i)
  {
    forall j: nat | j < i
      ensures !OccursAt(s, t, j)
    {
      assert s[j + k] == s[..i + k][j + k];
      if j + |t| <= |s| {
        assert s[j..j + |t|][k] == s[j + k];
      }
    }
  }

  // Lexicographic order of code-unit sequences, the `std::less` of a `std::map`
  // keyed by strings.

  predicate LexLe(a: string, b: string)
    decreases |a|
  {
    |a| == 0 || (|b| > 0 && (a[0] < b[0] || (a[0] == b[0] && LexLe(a[1..], b[1..]))))
  }

  predicate LexLt(a: string, b: string) {
    LexLe(a, b) && a != b
  }

  lemma {:induction false} LexLeRefl(a: string)
    ensures LexLe(a, a)
    decreases |a|
  {
    if |a| > 0 {
      LexLeRefl(a[1..]);
    }
  }

  lemma {:induction false} LexLeAntisymmetric(a: string, b: string)
    requires LexLe(a, b) && LexLe(b, a)
    ensures a == b
    decreases |a|
  {
    if |a| > 0 {
      LexLeAntisymmetric(a[1..], b[1..]);
      assert a == [a[0]] + a[1..];
      assert b == [b[0]] + b[1..];
    }
  }

  lemma {:induction false} LexLeTransitive(a: string, b: string, c: string)
    requires LexLe(a, b) && LexLe(b, c)
    ensures LexLe(a, c)
    decreases |a|
  {
    if |a| > 0 && a[0] == b[0] && b[0] == c[0] {
      LexLeTransitive(a[1..], b[1..], c[1..]);
    }
  }

  lemma {:induction false} LexLeTotal(a: string, b: string)
    ensures LexLe(a, b) || LexLe(b, a)
    decreases |a|
  {
    if |a| > 0 && |b| > 0 && a[0] == b[0] {
      LexLeTotal(a[1..], b[1..]);
    }
  }

  /** Two strings that agree on their first `i` units and differ at unit `i` are
      ordered by that unit. */
  lemma {:induction false} LexLtAt(a: string, b: string, i: nat)
    requires i < |a| && i < |b| && a[..i] == b[..i] && a[i] < b[i]
    ensures LexLt(a, b)
    decreases i
  {
    if i > 0 {
      assert a[1..][..i - 1] == a[1..i] == b[1..i] == b[1..][..i - 1];
      assert a[0] == a[..i][0] == b[..i][0] == b[0];
      LexLtAt(a[1..], b[1..], i - 1);
    }
    assert a[i] != b[i];
  }
}
