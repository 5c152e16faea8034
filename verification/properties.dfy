/**
  Properties of the interpolator that relate several operations: normalisation,
  the insertion guard and its first-wins rule, the "every token is in the
  pattern" invariant, the cache, and the independence of the result from the
  validation mode.
 */
module InterpolationProperties {
  import opened Wrappers
  import opened Strings
  import opened Replace
  import opened OrderedKeys
  import opened Interpolation

  /** Normalising a token again changes nothing. */
  lemma NormalizeIdempotent(open: string, close: string, name: string)
    ensures Normalize(open, close, Normalize(open, close, name)) == Normalize(open, close, name)
  {
    var t := Normalize(open, close, name);
    assert StartsWith(t, open) && EndsWith(t, close);
  }

  /** A put changes the state exactly when its token is admissible and not yet
      stored; in particular a stored token keeps its first replacement. */
  lemma PutArgumentChanges(s: Interpolator, name: string, rep: string)
    ensures var tok := Normalize(s.open, s.close, name);
      PutArgument(s, name, rep) != s <==> Admissible(s.pattern, tok) && tok !in s.args
  {
    var tok := Normalize(s.open, s.close, name);
    if Admissible(s.pattern, tok) && tok !in s.args {
      assert tok in PutArgument(s, name, rep).args;
    }
  }

  /** `names[i]` is the first name of `names` that normalises to `k`. */
  ghost predicate FirstNaming(open: string, close: string, names: seq<string>, k: string, i: int) {
    && 0 <= i < |names|
    && Normalize(open, close, names[i]) == k
    && forall j :: 0 <= j < i ==> Normalize(open, close, names[j]) != k
  }

  /** Putting names one by one: every admissible token ends up stored, and a
      newly stored token holds the replacement of the first name giving it. */
  lemma {:induction false} PutEachSpec(s: Interpolator, names: seq<string>, m: map<string, string>)
    requires forall i :: 0 <= i < |names| ==> names[i] in m
    ensures var r := PutEach(s, names, m);
      forall i :: 0 <= i < |names| && Admissible(s.pattern, Normalize(s.open, s.close, names[i]))
        ==> Normalize(s.open, s.close, names[i]) in r.args
    ensures var r := PutEach(s, names, m);
      forall k :: k in r.args && k !in s.args ==>
        exists i :: FirstNaming(s.open, s.close, names, k, i) && r.args[k] == m[names[i]]
    decreases |names|
  {
    if |names| > 0 {
      var tok0 := Normalize(s.open, s.close, names[0]);
      var s1 := PutArgument(s, names[0], m[names[0]]);
      var tail := names[1..];
      PutEachSpec(s1, tail, m);
      var r := PutEach(s1, tail, m);
      assert r == PutEach(s, names, m);
      forall i | 0 <= i < |names| && Admissible(s.pattern, Normalize(s.open, s.close, names[i]))
        ensures Normalize(s.open, s.close, names[i]) in r.args
      {
        if i > 0 {
          assert names[i] == tail[i - 1];
        }
      }
      forall k | k in r.args && k !in s.args
        ensures exists i :: FirstNaming(s.open, s.close, names, k, i) && r.args[k] == m[names[i]]
      {
        if k in s1.args {
          assert k == tok0;
          assert FirstNaming(s.open, s.close, names, k, 0);
        } else {
          var i' :| FirstNaming(s.open, s.close, tail, k, i') && r.args[k] == m[tail[i']];
          assert tok0 != k;
          forall j | 0 <= j < i' + 1
            ensures Normalize(s.open, s.close, names[j]) != k
          {
            if j > 0 {
              assert names[j] == tail[j - 1];
            }
          }
          assert FirstNaming(s.open, s.close, names, k, i' + 1);
        }
      }
    }
  }

  /** `name` is the smallest name of `m` that normalises to `k`. */
  ghost predicate SmallestNaming(open: string, close: string, m: map<string, string>, k: string, name: string) {
    && name in m
    && Normalize(open, close, name) == k
    && forall other :: other in m && Normalize(open, close, other) == k ==> LexLe(name, other)
  }

  /** Some name of `m` normalises to `k`. */
  ghost predicate Named(open: string, close: string, m: map<string, string>, k: string) {
    exists name :: name in m && Normalize(open, close, name) == k
  }

  /** Every admissible token some name normalises to gets stored. */
  lemma PutArgumentsStoresNamed(s: Interpolator, m: map<string, string>, k: string)
    requires Admissible(s.pattern, k) && Named(s.open, s.close, m, k)
    ensures k in PutArguments(s, m).args
  {
    var names := SortedKeys(m.Keys);
    var name :| name in m && Normalize(s.open, s.close, name) == k;
    assert name in names;
    var i :| 0 <= i < |names| && names[i] == name;
    PutEachSpec(s, names, m);
    assert Admissible(s.pattern, Normalize(s.open, s.close, names[i]));
    assert k in PutEach(s, names, m).args;
  }

  /** Every newly stored token is admissible and comes from a name. */
  lemma PutArgumentsOnlyNamed(s: Interpolator, m: map<string, string>, k: string)
    ensures k in PutArguments(s, m).args && k !in s.args ==> Admissible(s.pattern, k) && Named(s.open, s.close, m, k)
  {
    var names := SortedKeys(m.Keys);
    var r := PutEach(s, names, m);
    assert r == PutArguments(s, m);
    if k in r.args && k !in s.args {
      PutEachSpec(s, names, m);
      assert exists i :: FirstNaming(s.open, s.close, names, k, i) && r.args[k] == m[names[i]];
      var i :| FirstNaming(s.open, s.close, names, k, i);
      assert names[i] in m && Normalize(s.open, s.close, names[i]) == k;
    }
  }

  /** `putPatternArguments` stores exactly the admissible tokens its names
      normalise to, plus what was there. */
  lemma PutArgumentsKeys(s: Interpolator, m: map<string, string>)
    ensures var r := PutArguments(s, m);
      forall k :: k in r.args <==> k in s.args || (Admissible(s.pattern, k) && Named(s.open, s.close, m, k))
  {
    var r := PutArguments(s, m);
    forall k
      ensures k in r.args <==> k in s.args || (Admissible(s.pattern, k) && Named(s.open, s.close, m, k))
    {
      if Admissible(s.pattern, k) && Named(s.open, s.close, m, k) {
        PutArgumentsStoresNamed(s, m, k);
      }
      PutArgumentsOnlyNamed(s, m, k);
    }
  }

  /** In an ascending listing of the names, the first name giving `k` is the
      smallest such name. */
  lemma FirstNamingIsSmallest(open: string, close: string, m: map<string, string>,
                              names: seq<string>, k: string, i: int)
    requires Ascending(names) && forall n :: n in names <==> n in m
    requires FirstNaming(open, close, names, k, i)
    ensures SmallestNaming(open, close, m, k, names[i])
  {
    forall other | other in m && Normalize(open, close, other) == k
      ensures LexLe(names[i], other)
    {
      var j :| 0 <= j < |names| && names[j] == other;
      LexLeTotal(names[i], other);
      if !LexLe(names[i], other) {
        AscendingIndexOrder(names, j, i);
      }
    }
  }

  /** When several names of `m` normalise to the same new token, the smallest
      in key order supplies the replacement: the map is walked in ascending
      order and `emplace` keeps the first. */
  lemma PutArgumentsFirstWins(s: Interpolator, m: map<string, string>)
    ensures var r := PutArguments(s, m);
      forall k :: k in r.args && k !in s.args ==>
        exists name :: SmallestNaming(s.open, s.close, m, k, name) && r.args[k] == m[name]
  {
    var names := SortedKeys(m.Keys);
    var r := PutArguments(s, m);
    PutEachSpec(s, names, m);
    forall k | k in r.args && k !in s.args
      ensures exists name :: SmallestNaming(s.open, s.close, m, k, name) && r.args[k] == m[name]
    {
      var i :| FirstNaming(s.open, s.close, names, k, i) && r.args[k] == m[names[i]];
      FirstNamingIsSmallest(s.open, s.close, m, names, k, i);
    }
  }

  /** Appending keeps every stored token inside the pattern: a substring of
      `p` is a substring of `p + q`. */
  lemma AppendKeepsKeysInPattern(s: Interpolator, other: Interpolator)
    requires KeysInPattern(s)
    ensures KeysInPattern(Append(s, other))
  {
    var r := Append(s, other);
    forall k | k in r.args
      ensures Contains(r.pattern, k)
    {
      if k in s.args {
        ContainsAppend(s.pattern, other.pattern, k);
      }
    }
  }

  /** Two reads in a row return the same text; the second is a cache hit that
      changes nothing and reports nothing. */
  lemma GetSubstitutedTwice(s: Interpolator)
    requires !s.substituted ==> NoEmptyToken(s)
    ensures var a := GetSubstituted(s);
      var b := GetSubstituted(a.state);
      b.text == a.text && b.state == a.state && b.report == None
  {
  }

  /** After `setPattern` the next read substitutes into the new pattern. */
  lemma SetPatternRefreshes(s: Interpolator, pattern: string)
    requires NoEmptyToken(s)
    ensures GetSubstituted(SetPattern(s, pattern)).text == Substitute(pattern, s.args)
  {
  }

  /** No mutator other than `setPattern` marks the cache stale: after any of
      them a read returns the text cached before. */
  lemma CacheSurvivesMutators(s: Interpolator, name: string, rep: string, d: string, mode: Mode,
                              other: Interpolator)
    requires s.substituted
    ensures GetSubstituted(PutArgument(s, name, rep)).text == s.substitution
    ensures GetSubstituted(PutArguments(s, other.args)).text == s.substitution
    ensures GetSubstituted(SetOpenDelimiter(s, d)).text == s.substitution
    ensures GetSubstituted(SetCloseDelimiter(s, d)).text == s.substitution
    ensures GetSubstituted(SetDelimiters(s, d, d)).text == s.substitution
    ensures GetSubstituted(SetMode(s, mode)).text == s.substitution
    ensures GetSubstituted(Append(s, other)).text == s.substitution
  {
  }

  /** The text does not depend on the validation mode: validation only
      reports. */
  lemma ModeIndependent(s: Interpolator, mode: Mode)
    requires NoEmptyToken(s)
    ensures GetSubstituted(SetMode(s, mode)).text == GetSubstituted(s).text
    ensures Prepare(SetMode(s, mode)).text == Prepare(s).text
  {
  }

  /** Under the invariant, with a pattern and at least one argument,
      validation writes nothing; a failure report therefore means an empty
      pattern, no arguments, or a token left behind by `setPattern`. */
  lemma ValidatePassesUnderInvariant(s: Interpolator)
    requires KeysInPattern(s) && |s.pattern| > 0 && |s.args| > 0
    ensures Validate(s.pattern, s.args) == None
  {
  }

  /** A single stored token: substitution is one `ReplaceAll`. */
  lemma SubstituteSingle(pattern: string, tok: string, rep: string)
    requires |tok| > 0
    ensures Substitute(pattern, map[tok := rep]) == ReplaceAll(pattern, tok, rep)
  {
    SortedKeysUnique([tok], {tok});
    assert map[tok := rep].Keys == {tok};
  }

  /** Two stored tokens: the smaller is replaced first, and the larger is then
      searched for in the text that includes the first one's replacement. */
  lemma SubstituteTwo(pattern: string, t1: string, r1: string, t2: string, r2: string)
    requires |t1| > 0 && |t2| > 0 && LexLt(t1, t2)
    ensures Substitute(pattern, map[t1 := r1, t2 := r2])
      == ReplaceAll(ReplaceAll(pattern, t1, r1), t2, r2)
  {
    var args := map[t1 := r1, t2 := r2];
    assert args.Keys == {t1, t2};
    SortedKeysUnique([t1, t2], {t1, t2});
    var once := ReplaceAll(pattern, t1, r1);
    assert ApplyAll(pattern, [t1, t2], args) == ApplyAll(once, [t2], args);
    assert [t1, t2][1..] == [t2] && [t2][1..] == [];
    assert ApplyAll(once, [t2], args) == ApplyAll(ReplaceAll(once, t2, r2), [], args);
  }

  /** One put into a fresh object whose pattern holds its token exactly once:
      the read replaces that occurrence, and validation in its mode has
      nothing to report. */
  lemma SinglePutRead(p: string, open: string, close: string, mode: Mode,
                      name: string, rep: string, i: nat)
    requires var tok := Normalize(open, close, name);
      && |tok| > 0 && OccursAt(p, tok, i)
      && forall j: nat :: j != i ==> !OccursAt(p, tok, j)
    ensures var tok := Normalize(open, close, name);
      var s := PutArgument(Init(p, open, close, mode), name, rep);
      && s.args == map[tok := rep]
      && GetSubstituted(s).text == p[..i] + (rep + p[i + |tok|..])
      && GetSubstituted(s).report == None
  {
    var tok := Normalize(open, close, name);
    assert Find(p, tok, 0).Some?;
    InitPut(p, open, close, mode, name, rep);
    var s := PutArgument(Init(p, open, close, mode), name, rep);
    ValidatePassesUnderInvariant(s);
    SubstituteSingle(p, tok, rep);
    ReplaceOnce(p, tok, rep, i);
  }

  lemma SortedThree(a: string, b: string, c: string)
    requires LexLt(a, b) && LexLt(b, c)
    ensures Ascending([a, b, c]) && a != c
  {
    LexLeTransitive(a, b, c);
    if a == c {
      LexLeAntisymmetric(a, b);
    }
  }

  lemma ApplyAllThree(text: string, t1: string, t2: string, t3: string, args: map<string, string>)
    requires t1 in args && t2 in args && t3 in args && |t1| > 0 && |t2| > 0 && |t3| > 0
    ensures ApplyAll(text, [t1, t2, t3], args)
      == ReplaceAll(ReplaceAll(ReplaceAll(text, t1, args[t1]), t2, args[t2]), t3, args[t3])
  {
    var x1 := ReplaceAll(text, t1, args[t1]);
    var x2 := ReplaceAll(x1, t2, args[t2]);
    assert [t1, t2, t3][1..] == [t2, t3];
    assert [t2, t3][1..] == [t3];
    assert ApplyAll(x2, [t3], args) == ApplyAll(ReplaceAll(x2, t3, args[t3]), [], args);
    assert ApplyAll(x1, [t2, t3], args) == ApplyAll(x2, [t3], args);
  }

  /** Three stored tokens: replaced in ascending key order. */
  lemma SubstituteThree(pattern: string, t1: string, r1: string, t2: string, r2: string,
                        t3: string, r3: string)
    requires |t1| > 0 && |t2| > 0 && |t3| > 0 && LexLt(t1, t2) && LexLt(t2, t3)
    ensures Substitute(pattern, map[t1 := r1, t2 := r2, t3 := r3])
      == ReplaceAll(ReplaceAll(ReplaceAll(pattern, t1, r1), t2, r2), t3, r3)
  {
    var args := map[t1 := r1, t2 := r2, t3 := r3];
    SortedThree(t1, t2, t3);
    assert args.Keys == {t1, t2, t3};
    SortedKeysUnique([t1, t2, t3], {t1, t2, t3});
    ApplyAllThree(pattern, t1, t2, t3, args);
  }

  /** The first put into a new object stores its token when the pattern
      contains it. */
  lemma InitPut(p: string, open: string, close: string, mode: Mode, name: string, rep: string)
    requires Admissible(p, Normalize(open, close, name))
    ensures var s := PutArgument(Init(p, open, close, mode), name, rep);
      && s.args == map[Normalize(open, close, name) := rep]
      && s.pattern == p && s.open == open && s.close == close && s.mode == mode
      && !s.substituted && KeysInPattern(s)
  {
  }

  /** A map of one entry is one put. */
  lemma PutArgumentsSingle(s: Interpolator, name: string, rep: string)
    ensures PutArguments(s, map[name := rep]) == PutArgument(s, name, rep)
  {
    var m := map[name := rep];
    assert m.Keys == {name};
    SortedKeysUnique([name], {name});
    var once := PutArgument(s, name, rep);
    assert PutEach(s, [name], m) == PutEach(once, [], m);
  }

  /** Appending an object holding one entry: its key, normalised afresh with
      this object's delimiters, is added when the joined pattern contains it
      and this object lacks it. */
  lemma AppendSingle(s: Interpolator, other: Interpolator, key: string, rep: string)
    requires other.args == map[key := rep]
    requires var tok := Normalize(s.open, s.close, key);
      Admissible(s.pattern + other.pattern, tok) && tok !in s.args
    ensures Append(s, other).args == s.args[Normalize(s.open, s.close, key) := rep]
  {
    var joined := s.(pattern := s.pattern + other.pattern);
    PutArgumentsSingle(joined, key, rep);
    PutArgumentAdds(joined, key, rep);
  }

  /** A put whose token is admissible and new adds exactly that entry. */
  lemma PutArgumentAdds(s: Interpolator, name: string, rep: string)
    requires Admissible(s.pattern, Normalize(s.open, s.close, name))
    requires Normalize(s.open, s.close, name) !in s.args
    ensures PutArgument(s, name, rep) == s.(args := s.args[Normalize(s.open, s.close, name) := rep])
  {
  }

  /** Three names whose tokens are distinct and admissible, put into an object
      with no arguments: each token holds its name's replacement. */
  lemma PutThreeNames(s: Interpolator, m: map<string, string>, n1: string, n2: string, n3: string)
    requires m.Keys == {n1, n2, n3} && LexLt(n1, n2) && LexLt(n2, n3)
    requires s.args == map[]
    requires var t1, t2, t3 := Normalize(s.open, s.close, n1), Normalize(s.open, s.close, n2),
                               Normalize(s.open, s.close, n3);
      && Admissible(s.pattern, t1) && Admissible(s.pattern, t2) && Admissible(s.pattern, t3)
      && t1 != t2 && t2 != t3 && t1 != t3
    ensures PutArguments(s, m).args == map[][Normalize(s.open, s.close, n1) := m[n1]]
                                           [Normalize(s.open, s.close, n2) := m[n2]]
                                           [Normalize(s.open, s.close, n3) := m[n3]]
  {
    var t1, t2, t3 := Normalize(s.open, s.close, n1), Normalize(s.open, s.close, n2),
                      Normalize(s.open, s.close, n3);
    SortedThree(n1, n2, n3);
    SortedKeysUnique([n1, n2, n3], m.Keys);
    PutArgumentAdds(s, n1, m[n1]);
    var a := s.(args := s.args[t1 := m[n1]]);
    PutArgumentAdds(a, n2, m[n2]);
    var b := a.(args := a.args[t2 := m[n2]]);
    PutArgumentAdds(b, n3, m[n3]);
    var c := b.(args := b.args[t3 := m[n3]]);
    PutEachThree(s, n1, n2, n3, m);
  }

  lemma PutEachThree(s: Interpolator, n1: string, n2: string, n3: string, m: map<string, string>)
    requires n1 in m && n2 in m && n3 in m
    ensures PutEach(s, [n1, n2, n3], m)
      == PutArgument(PutArgument(PutArgument(s, n1, m[n1]), n2, m[n2]), n3, m[n3])
  {
    var a := PutArgument(s, n1, m[n1]);
    var b := PutArgument(a, n2, m[n2]);
    var c := PutArgument(b, n3, m[n3]);
    assert [n1, n2, n3][1..] == [n2, n3];
    assert [n2, n3][1..] == [n3];
    assert PutEach(b, [n3], m) == PutEach(c, [], m);
    assert PutEach(a, [n2, n3], m) == PutEach(b, [n3], m);
  }
}
