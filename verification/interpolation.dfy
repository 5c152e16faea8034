/**
  The interpolator `istr::BasicStringInterpolation<T>` as an immutable state
  record. Each member function of the class becomes a function from the old
  state to the new one; a read that fills the cache returns the new state
  alongside the text.
 */
module Interpolation {
  import opened Wrappers
  import opened Strings
  import opened Replace
  import opened OrderedKeys

  datatype Mode = WithValidation | WithoutValidation

  /** The three conditions validation writes to the error stream. */
  datatype Failure = NoPattern | NoArguments | MissingArgument(token: string)

  const DefaultOpen: string := "{{"
  const DefaultClose: string := "}}"

  /** `substitution` is the cached result; `substituted` (the source's
      `alreadySubstituted`) says whether the cache is filled. */
  datatype Interpolator = Interpolator(
    pattern: string,
    args: map<string, string>,
    open: string,
    close: string,
    mode: Mode,
    substitution: string,
    substituted: bool)

  /** A read: the text returned, the state after it, and the diagnostic the
      validation step wrote, if any. */
  datatype Reading = Reading(text: string, state: Interpolator, report: Option<Failure>)

  /** Every stored token occurs in the pattern. Insertion establishes it;
      replacing the pattern does not re-check it. */
  predicate KeysInPattern(s: Interpolator) {
    forall k :: k in s.args ==> Contains(s.pattern, k)
  }

  /** No stored token is empty, which is what makes substitution terminate. */
  predicate NoEmptyToken(s: Interpolator) {
    "" !in s.args
  }

  // Construction. The overloads of the class differ only in which of these
  // parameters they take and which default they use for the others.

  /** The constructors taking no pattern (with or without a mode). */
  function Blank(mode: Mode): (r: Interpolator)
    ensures r.pattern == "" && r.args == map[] && r.mode == mode
    ensures r.open == DefaultOpen && r.close == DefaultClose
    ensures !r.substituted
  {
    Interpolator("", map[], DefaultOpen, DefaultClose, mode, "", false)
  }

  /** The constructors taking a pattern and no arguments. */
  function Init(pattern: string, open: string, close: string, mode: Mode): (r: Interpolator)
    ensures r.pattern == pattern && r.args == map[] && r.mode == mode
    ensures r.open == open && r.close == close
    ensures !r.substituted
  {
    Interpolator(pattern, map[], open, close, mode, "", false)
  }

  /** The constructors taking a pattern and an argument map: the delimiters
      are in place before the arguments go through `PutArguments`. */
  ghost function InitWithArguments(pattern: string, args: map<string, string>,
                                   open: string, close: string, mode: Mode): (r: Interpolator)
    ensures r.pattern == pattern && r.mode == mode && r.open == open && r.close == close
    ensures !r.substituted
    ensures KeysInPattern(r) && NoEmptyToken(r)
    ensures forall k :: k in r.args ==> Admissible(pattern, k)
  {
    PutArguments(Init(pattern, open, close, mode), args)
  }

  // Tokens and arguments.

  /** `validateReplaceable`: a name already framed by the current delimiters
      is the token itself; any other name is wrapped in them. */
  function Normalize(open: string, close: string, name: string): (r: string)
    ensures StartsWith(r, open) && EndsWith(r, close)
    ensures r == name <==> StartsWith(name, open) && EndsWith(name, close)
    ensures r != name ==> r == open + name + close
  {
    if StartsWith(name, open) && EndsWith(name, close) then name
    else
      var r := open + name + close;
      assert r[..|open|] == open;
      assert r[|r| - |close|..] == close;
      r
  }

  /** A token the interpolator stores: it occurs in the pattern, and it is not
      empty (the source omits the second condition; see `PutArgumentAsWritten`). */
  predicate Admissible(pattern: string, token: string) {
    |token| > 0 && Contains(pattern, token)
  }

  /** `putPatternArgument`: store the normalised token only when the pattern
      contains it, and, as `std::map::emplace` does, never replace a
      replacement already stored. Nothing else changes. */
  function PutArgument(s: Interpolator, name: string, rep: string): (r: Interpolator)
    ensures r.pattern == s.pattern && r.open == s.open && r.close == s.close
    ensures r.mode == s.mode && r.substitution == s.substitution && r.substituted == s.substituted
    ensures var tok := Normalize(s.open, s.close, name);
      r.args.Keys == s.args.Keys + (if Admissible(s.pattern, tok) then {tok} else {})
    ensures forall k :: k in s.args ==> r.args[k] == s.args[k]
    ensures var tok := Normalize(s.open, s.close, name);
      tok in r.args && tok !in s.args ==> r.args[tok] == rep
    ensures KeysInPattern(s) ==> KeysInPattern(r)
    ensures NoEmptyToken(s) ==> NoEmptyToken(r)
  {
    var tok := Normalize(s.open, s.close, name);
    if Admissible(s.pattern, tok) && tok !in s.args then s.(args := s.args[tok := rep])
    else s
  }

  /** `putPatternArgument` as the source writes it: the guard is only that the
      pattern contains the token, so with both delimiters empty the empty name
      is stored as the empty token. */
  function PutArgumentAsWritten(s: Interpolator, name: string, rep: string): (r: Interpolator)
    ensures var tok := Normalize(s.open, s.close, name);
      r.args.Keys == s.args.Keys + (if Contains(s.pattern, tok) then {tok} else {})
    ensures forall k :: k in s.args ==> r.args[k] == s.args[k]
    ensures var tok := Normalize(s.open, s.close, name);
      tok in r.args && tok !in s.args ==> r.args[tok] == rep
  {
    var tok := Normalize(s.open, s.close, name);
    if Contains(s.pattern, tok) && tok !in s.args then s.(args := s.args[tok := rep])
    else s
  }

  /** `PutArgument` for each name of `names` in turn. */
  function PutEach(s: Interpolator, names: seq<string>, m: map<string, string>): (r: Interpolator)
    requires forall i :: 0 <= i < |names| ==> names[i] in m
    ensures r.pattern == s.pattern && r.open == s.open && r.close == s.close
    ensures r.mode == s.mode && r.substitution == s.substitution && r.substituted == s.substituted
    ensures forall k :: k in s.args ==> k in r.args && r.args[k] == s.args[k]
    ensures forall k :: k in r.args && k !in s.args ==> Admissible(s.pattern, k)
    decreases |names|
  {
    if |names| == 0 then s
    else PutEach(PutArgument(s, names[0], m[names[0]]), names[1..], m)
  }

  /** `putPatternArguments`: `PutArgument` for every entry, in the map's key
      order. Stored replacements stay, and every new token is admissible. */
  ghost function PutArguments(s: Interpolator, m: map<string, string>): (r: Interpolator)
    ensures r.pattern == s.pattern && r.open == s.open && r.close == s.close
    ensures r.mode == s.mode && r.substitution == s.substitution && r.substituted == s.substituted
    ensures forall k :: k in s.args ==> k in r.args && r.args[k] == s.args[k]
    ensures forall k :: k in r.args && k !in s.args ==> Admissible(s.pattern, k)
    ensures KeysInPattern(s) ==> KeysInPattern(r)
    ensures NoEmptyToken(s) ==> NoEmptyToken(r)
  {
    PutEach(s, SortedKeys(m.Keys), m)
  }

  // Mutators.

  /** `setPattern`: the only mutator that marks the cache stale. */
  function SetPattern(s: Interpolator, pattern: string): (r: Interpolator)
    ensures r.pattern == pattern && !r.substituted
    ensures r.args == s.args && r.open == s.open && r.close == s.close && r.mode == s.mode
  {
    s.(pattern := pattern, substituted := false)
  }

  /** `setOpenDelimiter`: stored tokens keep the old delimiters, and the cache
      is left as it is. */
  function SetOpenDelimiter(s: Interpolator, open: string): (r: Interpolator)
    ensures r.open == open && r.close == s.close && r.pattern == s.pattern && r.args == s.args
    ensures r.mode == s.mode && r.substituted == s.substituted && r.substitution == s.substitution
  {
    s.(open := open)
  }

  /** `setCloseDelimiter`, likewise. */
  function SetCloseDelimiter(s: Interpolator, close: string): (r: Interpolator)
    ensures r.close == close && r.open == s.open && r.pattern == s.pattern && r.args == s.args
    ensures r.mode == s.mode && r.substituted == s.substituted && r.substitution == s.substitution
  {
    s.(close := close)
  }

  /** `setOpenAndCloseDelimiters`: the open setter, then the close setter. */
  function SetDelimiters(s: Interpolator, open: string, close: string): (r: Interpolator)
    ensures r.open == open && r.close == close && r.pattern == s.pattern && r.args == s.args
    ensures r.mode == s.mode && r.substituted == s.substituted && r.substitution == s.substitution
  {
    SetCloseDelimiter(SetOpenDelimiter(s, open), close)
  }

  /** `setMode`: no effect on the cache. */
  function SetMode(s: Interpolator, mode: Mode): (r: Interpolator)
    ensures r.mode == mode && r.pattern == s.pattern && r.args == s.args
    ensures r.open == s.open && r.close == s.close
    ensures r.substituted == s.substituted && r.substitution == s.substitution
  {
    s.(mode := mode)
  }

  /** `operator+=`: append the other pattern to this one, without marking the
      cache stale, then put the other's stored arguments, normalised afresh
      with this object's delimiters and checked against the joined pattern. */
  ghost function Append(s: Interpolator, other: Interpolator): (r: Interpolator)
    ensures r.pattern == s.pattern + other.pattern
    ensures r.open == s.open && r.close == s.close && r.mode == s.mode
    ensures r.substituted == s.substituted && r.substitution == s.substitution
    ensures forall k :: k in s.args ==> k in r.args && r.args[k] == s.args[k]
    ensures forall k :: k in r.args && k !in s.args ==> Admissible(s.pattern + other.pattern, k)
    ensures NoEmptyToken(s) ==> NoEmptyToken(r)
  {
    PutArguments(s.(pattern := s.pattern + other.pattern), other.args)
  }

  // Validation.

  /** The position of the first key, in order, that `pattern` does not contain. */
  function FirstMissing(pattern: string, keys: seq<string>): (r: Option<nat>)
    ensures r.None? <==> forall i :: 0 <= i < |keys| ==> Contains(pattern, keys[i])
    ensures r.Some? ==> r.value < |keys| && !Contains(pattern, keys[r.value])
    ensures r.Some? ==> forall i :: 0 <= i < r.value ==> Contains(pattern, keys[i])
    decreases |keys|
  {
    if |keys| == 0 then None
    else if !Contains(pattern, keys[0]) then Some(0)
    else match FirstMissing(pattern, keys[1..])
      case None => None
      case Some(i) => Some(i + 1)
  }

  /** Every key smaller than the reported one is contained in the pattern. */
  lemma MissingIsFirst(pattern: string, keys: seq<string>, i: nat)
    requires Ascending(keys) && i < |keys|
    requires forall j :: 0 <= j < i ==> Contains(pattern, keys[j])
    ensures forall k :: k in keys && LexLt(k, keys[i]) ==> Contains(pattern, k)
  {
    forall k | k in keys && LexLt(k, keys[i])
      ensures Contains(pattern, k)
    {
      var j :| 0 <= j < |keys| && keys[j] == k;
      AscendingIndexOrder(keys, j, i);
    }
  }

  /** `tryPrepareSubstitution` as a check: `None` when it writes nothing,
      otherwise the first failure in the order the source tests them. */
  ghost function Validate(pattern: string, args: map<string, string>): (r: Option<Failure>)
    ensures r.None? <==> |pattern| > 0 && |args| > 0 && forall k :: k in args ==> Contains(pattern, k)
    ensures r == Some(NoPattern) <==> |pattern| == 0
    ensures r == Some(NoArguments) <==> |pattern| > 0 && |args| == 0
    ensures r.Some? && r.value.MissingArgument? ==>
      var t := r.value.token;
      && |pattern| > 0 && t in args && !Contains(pattern, t)
      && forall k :: k in args && LexLt(k, t) ==> Contains(pattern, k)
  {
    if |pattern| == 0 then Some(NoPattern)
    else if |args| == 0 then Some(NoArguments)
    else
      var keys := SortedKeys(args.Keys);
      match FirstMissing(pattern, keys)
      case None => None
      case Some(i) =>
        MissingIsFirst(pattern, keys, i);
        Some(MissingArgument(keys[i]))
  }

  // Substitution.

  /** Apply `ReplaceAll` for each key of `keys` in turn. */
  function ApplyAll(text: string, keys: seq<string>, args: map<string, string>): (r: string)
    requires forall i :: 0 <= i < |keys| ==> keys[i] in args && |keys[i]| > 0
    ensures (forall i :: 0 <= i < |keys| ==> !Contains(text, keys[i])) ==> r == text
    decreases |keys|
  {
    if |keys| == 0 then text
    else ApplyAll(ReplaceAll(text, keys[0], args[keys[0]]), keys[1..], args)
  }

  /** The substituted text: the pattern with `ReplaceAll` applied for each
      stored token in ascending key order. A pattern containing no stored token
      comes back unchanged. */
  ghost function Substitute(pattern: string, args: map<string, string>): (r: string)
    requires "" !in args
    ensures (forall k :: k in args ==> !Contains(pattern, k)) ==> r == pattern
  {
    ApplyAll(pattern, SortedKeys(args.Keys), args)
  }

  /** The loops of `prepareSubstitution`: copy the pattern, then run the
      replacement loop once per key, visiting the keys in the map's order
      (`keys` is that order). */
  method SubstituteLoop(pattern: string, args: map<string, string>, keys: seq<string>) returns (text: string)
    requires "" !in args && keys == SortedKeys(args.Keys)
    ensures text == Substitute(pattern, args)
  {
    assert forall i :: 0 <= i < |keys| ==> keys[i] in args && |keys[i]| > 0;
    text := pattern;
    var n := 0;
    while n < |keys|
      invariant 0 <= n <= |keys|
      invariant ApplyAll(text, keys[n..], args) == ApplyAll(pattern, keys, args)
    {
      var tok := keys[n];
      var rep := args[tok];
      ApplyAllStep(text, keys, n, args);
      text := ReplaceLoop(text, tok, rep);
      n := n + 1;
    }
  }

  /** One turn of `SubstituteLoop`: applying the keys from `n` on is one
      `ReplaceAll` for `keys[n]`, then the keys after it. */
  lemma ApplyAllStep(text: string, keys: seq<string>, n: nat, args: map<string, string>)
    requires n < |keys| && forall i :: 0 <= i < |keys| ==> keys[i] in args && |keys[i]| > 0
    ensures keys[n] in args && |keys[n]| > 0
    ensures ApplyAll(text, keys[n..], args) == ApplyAll(ReplaceAll(text, keys[n], args[keys[n]]), keys[n + 1..], args)
  {
    assert keys[n..][0] == keys[n] && keys[n..][1..] == keys[n + 1..];
  }

  /** `prepareSubstitution`: validate when the mode asks for it (the result
      is only reported), then substitute and mark the cache filled. */
  ghost function Prepare(s: Interpolator): (r: Reading)
    requires NoEmptyToken(s)
    ensures r.text == Substitute(s.pattern, s.args)
    ensures r.state == s.(substitution := r.text, substituted := true)
    ensures s.mode == WithoutValidation ==> r.report == None
    ensures s.mode == WithValidation ==> r.report == Validate(s.pattern, s.args)
  {
    var report := if s.mode == WithValidation then Validate(s.pattern, s.args) else None;
    var text := Substitute(s.pattern, s.args);
    Reading(text, s.(substitution := text, substituted := true), report)
  }

  /** `getSubstituted`: the cached text when the cache is filled, otherwise
      the result of `Prepare`. Either way the cache is filled afterwards and
      holds the text. */
  ghost function GetSubstituted(s: Interpolator): (r: Reading)
    requires !s.substituted ==> NoEmptyToken(s)
    ensures r.state.substituted && r.state.substitution == r.text
    ensures r.state.pattern == s.pattern && r.state.args == s.args && r.state.mode == s.mode
    ensures s.substituted ==> r.text == s.substitution && r.state == s && r.report == None
    ensures !s.substituted ==> r.text == Substitute(s.pattern, s.args)
  {
    if s.substituted then Reading(s.substitution, s, None) else Prepare(s)
  }
}
