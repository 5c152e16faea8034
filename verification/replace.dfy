/**
  The inner loop of substitution: every left-to-right, non-overlapping
  occurrence of one token is replaced, and the scan resumes after the
  inserted text, so replacement text is never searched again for that token.
 */
module Replace {
  import opened Wrappers
  import opened Strings

  /** Reference definition: replace the first occurrence, then recurse on the
      text after it. The token must be non-empty; with an empty token the loop
      in the source never leaves. */
  function ReplaceAll(s: string, tok: string, rep: string): (r: string)
    requires |tok| > 0
    ensures !Contains(s, tok) ==> r == s
    decreases |s|
  {
    match Find(s, tok, 0)
    case None => s
    case Some(i) => s[..i] + (rep + ReplaceAll(s[i + |tok|..], tok, rep))
  }

  /** The pieces between successive matched occurrences, in order. */
  function Split(s: string, tok: string): (parts: seq<string>)
    requires |tok| > 0
    ensures |parts| > 0
    ensures !Contains(parts[|parts| - 1], tok)
    decreases |s|
  {
    match Find(s, tok, 0)
    case None => [s]
    case Some(i) => [s[..i]] + Split(s[i + |tok|..], tok)
  }

  function Join(parts: seq<string>, sep: string): string
    requires |parts| > 0
  {
    if |parts| == 1 then parts[0] else parts[0] + (sep + Join(parts[1..], sep))
  }

  /** In `p + tok` the first occurrence of `tok` is the one right after `p`. */
  predicate LeftmostPiece(p: string, tok: string) {
    Find(p + tok, tok, 0) == Some(|p|)
  }

  /** The text before the first occurrence is a leftmost piece. */
  lemma HeadPieceLeftmost(s: string, tok: string, i: nat)
    requires Find(s, tok, 0) == Some(i)
    ensures LeftmostPiece(s[..i], tok)
  {
    var p := s[..i];
    assert s[..i + |tok|] == p + tok;
    forall j: nat | j < i
      ensures !OccursAt(p + tok, tok, j)
    {
      assert !OccursAt(s, tok, j);
      assert (p + tok)[j..j + |tok|] == s[j..j + |tok|];
    }
    assert OccursAt(p + tok, tok, i);
  }

  /** The pieces are exactly the leftmost matches: no piece but the last
      contains the token, nor does the token start early inside a piece. */
  lemma {:induction false} SplitLeftmost(s: string, tok: string)
    requires |tok| > 0
    ensures forall k :: 0 <= k < |Split(s, tok)| - 1 ==> LeftmostPiece(Split(s, tok)[k], tok)
    decreases |s|
  {
    match Find(s, tok, 0)
    case None =>
    case Some(i) =>
      var rest := s[i + |tok|..];
      SplitLeftmost(rest, tok);
      HeadPieceLeftmost(s, tok, i);
      var parts := Split(s, tok);
      assert parts == [s[..i]] + Split(rest, tok);
      forall k | 0 <= k < |parts| - 1
        ensures LeftmostPiece(parts[k], tok)
      {
        if k > 0 {
          assert parts[k] == Split(rest, tok)[k - 1];
        }
      }
  }

  /** Round trip: joining the pieces with the token gives back the text. */
  lemma {:induction false} JoinSplit(s: string, tok: string)
    requires |tok| > 0
    ensures Join(Split(s, tok), tok) == s
    decreases |s|
  {
    match Find(s, tok, 0)
    case None =>
    case Some(i) =>
      var rest := s[i + |tok|..];
      JoinSplit(rest, tok);
      SplitStep(s, tok, i, rest);
      assert s == s[..i] + (tok + rest);
  }

  /** The pieces of a text with a first occurrence at `i`: the text before
      it, then the pieces of the text after it. */
  lemma SplitStep(s: string, tok: string, i: nat, rest: string)
    requires |tok| > 0 && Find(s, tok, 0) == Some(i) && rest == s[i + |tok|..]
    ensures |Split(s, tok)| > 1 && Split(s, tok)[0] == s[..i] && Split(s, tok)[1..] == Split(rest, tok)
    ensures forall sep :: Join(Split(s, tok), sep) == s[..i] + (sep + Join(Split(rest, tok), sep))
  {
    var parts := Split(s, tok);
    assert parts == [s[..i]] + Split(rest, tok);
    assert parts[1..] == Split(rest, tok);
  }

  /** Replacing is joining the same pieces with the replacement instead: the
      pieces depend on the text and the token only, so the inserted text plays
      no part in where the next match is found. */
  lemma {:induction false} ReplaceAllIsJoinSplit(s: string, tok: string, rep: string)
    requires |tok| > 0
    ensures ReplaceAll(s, tok, rep) == Join(Split(s, tok), rep)
    decreases |s|
  {
    match Find(s, tok, 0)
    case None =>
    case Some(i) =>
      var rest := s[i + |tok|..];
      ReplaceAllIsJoinSplit(rest, tok, rep);
      SplitStep(s, tok, i, rest);
      ReplaceAllUnfold(s, tok, rep, i);
  }

  /** Replacing a token by itself changes nothing. */
  lemma ReplaceByItself(s: string, tok: string)
    requires |tok| > 0
    ensures ReplaceAll(s, tok, tok) == s
  {
    ReplaceAllIsJoinSplit(s, tok, tok);
    JoinSplit(s, tok);
  }

  /** Each of the `n` replacements changes the length by `|rep| - |tok|`. */
  lemma {:induction false} ReplaceAllLength(s: string, tok: string, rep: string)
    requires |tok| > 0
    ensures |ReplaceAll(s, tok, rep)| == |s| + (|Split(s, tok)| - 1) * (|rep| - |tok|)
    decreases |s|
  {
    match Find(s, tok, 0)
    case None =>
    case Some(i) =>
      var rest := s[i + |tok|..];
      ReplaceAllLength(rest, tok, rep);
      var n := |Split(rest, tok)| - 1;
      assert |Split(s, tok)| - 1 == n + 1;
      Distribute(n, |rep| - |tok|);
  }

  lemma Distribute(n: int, d: int)
    ensures (n + 1) * d == n * d + d
  {
  }

  lemma ReplaceAllUnfold(s: string, tok: string, rep: string, j: nat)
    requires |tok| > 0
    requires Find(s, tok, 0) == Some(j)
    ensures ReplaceAll(s, tok, rep) == s[..j] + (rep + ReplaceAll(s[j + |tok|..], tok, rep))
  {
  }

  /** Replacing in the text after the cursor starts at the match the loop found. */
  lemma ReplaceFromMatch(r: string, tok: string, rep: string, pos: nat, i: nat)
    requires |tok| > 0 && pos <= |r|
    requires Find(r, tok, pos) == Some(i)
    ensures ReplaceAll(r[pos..], tok, rep) == r[pos..i] + (rep + ReplaceAll(r[i + |tok|..], tok, rep))
  {
    FindFrom(r, tok, pos);
    var suffix := r[pos..];
    var j: nat := i - pos;
    assert Find(suffix, tok, 0) == Some(j);
    ReplaceAllUnfold(suffix, tok, rep, j);
    assert suffix[..j] == r[pos..i];
    assert suffix[j + |tok|..] == r[i + |tok|..];
  }

  /** Splicing `rep` over `r[i..i + n]` and splitting at the end of the
      inserted text regroups the same pieces. */
  lemma SpliceRegroup(r: string, rep: string, pos: nat, i: nat, n: nat, r': string, x: string)
    requires pos <= i && i + n <= |r|
    requires r' == r[..i] + rep + r[i + n..]
    ensures r'[i + |rep|..] == r[i + n..]
    ensures r'[..i + |rep|] + x == r[..pos] + (r[pos..i] + (rep + x))
  {
    assert r[..pos] + r[pos..i] == r[..i];
    assert r'[..i + |rep|] == r[..i] + rep;
  }

  /** One turn of the loop keeps "done text followed by the replaced rest"
      equal, and shrinks what is left to scan. */
  lemma LoopStep(r: string, tok: string, rep: string, pos: nat, i: nat, r': string)
    requires |tok| > 0 && pos <= |r|
    requires Find(r, tok, pos) == Some(i)
    requires r' == r[..i] + rep + r[i + |tok|..]
    ensures i + |rep| <= |r'|
    ensures |r'| - (i + |rep|) < |r| - pos
    ensures r'[..i + |rep|] + ReplaceAll(r'[i + |rep|..], tok, rep)
         == r[..pos] + ReplaceAll(r[pos..], tok, rep)
  {
    ReplaceFromMatch(r, tok, rep, pos, i);
    var x := ReplaceAll(r[i + |tok|..], tok, rep);
    SpliceRegroup(r, rep, pos, i, |tok|, r', x);
  }

  /** The loop of the source: find from the cursor, replace in place, move the
      cursor past the inserted text. It computes `ReplaceAll`. */
  method ReplaceLoop(s: string, tok: string, rep: string) returns (r: string)
    requires |tok| > 0
    ensures r == ReplaceAll(s, tok, rep)
  {
    r := s;
    var pos: nat := 0;
    var found := Find(r, tok, pos);
    while found.Some?
      invariant pos <= |r|
      invariant r[..pos] + ReplaceAll(r[pos..], tok, rep) == ReplaceAll(s, tok, rep)
      invariant found == Find(r, tok, pos)
      decreases |r| - pos
    {
      var i := found.value;
      var r' := r[..i] + rep + r[i + |tok|..];
      LoopStep(r, tok, rep, pos, i, r');
      r := r';
      pos := i + |rep|;
      found := Find(r, tok, pos);
    }
    FindFrom(r, tok, pos);
    assert r[..pos] + r[pos..] == r;
  }

  /** The same loop for any token, the empty one included, run for at most
      `fuel` turns: `None` when the turns run out before a search fails. */
  function ScanAsWritten(text: string, tok: string, rep: string, pos: nat, fuel: nat): (r: Option<string>)
    ensures r.Some? && pos <= |text| ==> pos <= |r.value| && r.value[..pos] == text[..pos]
    ensures r.Some? ==> fuel > 0
    decreases fuel
  {
    if fuel == 0 then None
    else match Find(text, tok, pos)
      case None => Some(text)
      case Some(i) => ScanAsWritten(text[..i] + rep + text[i + |tok|..], tok, rep, i + |rep|, fuel - 1)
  }

  /** The text the loop leaves once it has scanned past `pos`: the part
      before the cursor kept, every occurrence after it replaced. */
  function ReplaceAfter(text: string, tok: string, rep: string, pos: nat): string
    requires |tok| > 0 && pos <= |text|
  {
    text[..pos] + ReplaceAll(text[pos..], tok, rep)
  }

  /** With a nonempty token the loop ends within one turn per unit left to
      scan, and leaves the text before the cursor alone while replacing every
      occurrence after it. */
  lemma {:induction false} ScanCompletes(text: string, tok: string, rep: string, pos: nat, fuel: nat)
    requires |tok| > 0 && pos <= |text| && fuel > |text| - pos
    ensures ScanAsWritten(text, tok, rep, pos, fuel) == Some(ReplaceAfter(text, tok, rep, pos))
    decreases fuel, 1
  {
    match Find(text, tok, pos)
    case None =>
      NoMatchLeft(text, tok, rep, pos);
    case Some(i) =>
      ScanCompletesAt(text, tok, rep, pos, fuel, i);
  }

  /** The turn that finds the occurrence at `i`, and the scan after it. */
  lemma {:induction false} ScanCompletesAt(text: string, tok: string, rep: string, pos: nat, fuel: nat, i: nat)
    requires |tok| > 0 && pos <= |text| && fuel > |text| - pos
    requires Find(text, tok, pos) == Some(i)
    ensures ScanAsWritten(text, tok, rep, pos, fuel) == Some(ReplaceAfter(text, tok, rep, pos))
    decreases fuel, 0
  {
    var text' := text[..i] + rep + text[i + |tok|..];
    SpliceBounds(text, tok, rep, pos, i, text');
    var next: nat := i + |rep|;
    var rest: nat := fuel - 1;
    ScanCompletes(text', tok, rep, next, rest);
    ScanStep(text, tok, rep, pos, fuel, i, text', next, rest);
  }

  lemma SpliceBounds(text: string, tok: string, rep: string, pos: nat, i: nat, text': string)
    requires Find(text, tok, pos) == Some(i)
    requires text' == text[..i] + rep + text[i + |tok|..]
    ensures pos <= i && i + |tok| <= |text|
    ensures |text'| == |text| - |tok| + |rep|
  {
  }

  lemma NoMatchLeft(text: string, tok: string, rep: string, pos: nat)
    requires |tok| > 0 && pos <= |text| && Find(text, tok, pos) == None
    ensures ScanAsWritten(text, tok, rep, pos, 1) == Some(text)
    ensures ReplaceAfter(text, tok, rep, pos) == text
  {
    FindFrom(text, tok, pos);
    assert text[..pos] + text[pos..] == text;
  }

  /** One turn of the scan, given that the rest of the scan completes. */
  lemma ScanStep(text: string, tok: string, rep: string, pos: nat, fuel: nat, i: nat, text': string,
                 next: nat, rest: nat)
    requires |tok| > 0 && pos <= |text| && fuel > 0 && Find(text, tok, pos) == Some(i)
    requires text' == text[..i] + rep + text[i + |tok|..]
    requires next == i + |rep| && rest == fuel - 1 && next <= |text'|
    requires ScanAsWritten(text', tok, rep, next, rest) == Some(ReplaceAfter(text', tok, rep, next))
    ensures ScanAsWritten(text, tok, rep, pos, fuel) == Some(ReplaceAfter(text, tok, rep, pos))
  {
    ScanUnfold(text, tok, rep, pos, fuel, i, text', next, rest);
    LoopStep(text, tok, rep, pos, i, text');
    assert ReplaceAfter(text', tok, rep, next) == text'[..next] + ReplaceAll(text'[next..], tok, rep);
  }

  lemma ScanUnfold(text: string, tok: string, rep: string, pos: nat, fuel: nat, i: nat, text': string,
                   next: nat, rest: nat)
    requires fuel > 0 && Find(text, tok, pos) == Some(i)
    requires text' == text[..i] + rep + text[i + |tok|..]
    requires next == i + |rep| && rest == fuel - 1
    ensures ScanAsWritten(text, tok, rep, pos, fuel) == ScanAsWritten(text', tok, rep, next, rest)
  {
    var found := Find(text, tok, pos);
    assert found.value == i;
  }

  /** The whole text, scanned from its start. */
  lemma ScanFromStart(text: string, tok: string, rep: string)
    requires |tok| > 0
    ensures ScanAsWritten(text, tok, rep, 0, |text| + 1) == Some(ReplaceAll(text, tok, rep))
  {
    ScanCompletes(text, tok, rep, 0, |text| + 1);
    var x := ReplaceAll(text[0..], tok, rep);
    assert ReplaceAfter(text, tok, rep, 0) == text[..0] + x;
    assert text[0..] == text;
    assert text[..0] + x == x;
  }

  /** With the empty token every search succeeds at the cursor, so no number
      of turns is enough: the loop of the source does not end. */
  lemma {:induction false} EmptyTokenNeverFinishes(text: string, rep: string, pos: nat, fuel: nat)
    requires pos <= |text|
    ensures Find(text, "", pos) == Some(pos)
    ensures ScanAsWritten(text, "", rep, pos, fuel) == None
    decreases fuel
  {
    assert OccursAt(text, "", pos);
    if fuel > 0 {
      var text' := text[..pos] + rep + text[pos..];
      EmptyTokenNeverFinishes(text', rep, pos + |rep|, fuel - 1);
    }
  }

  /** A text with exactly one occurrence, at `i`: one replacement. */
  lemma ReplaceOnce(s: string, tok: string, rep: string, i: nat)
    requires |tok| > 0 && OccursAt(s, tok, i)
    requires forall j: nat :: j != i ==> !OccursAt(s, tok, j)
    ensures ReplaceAll(s, tok, rep) == s[..i] + (rep + s[i + |tok|..])
  {
    var rest := s[i + |tok|..];
    assert Find(s, tok, 0) == Some(i);
    match Find(rest, tok, 0)
    case None =>
    case Some(j) =>
      assert s[i + |tok| + j..i + |tok| + j + |tok|] == rest[j..j + |tok|];
      assert OccursAt(s, tok, i + |tok| + j);
      assert false;
  }

  /** The first occurrence is at `i` and none follows it, because unit `k` of
      the token appears neither before `i + k` nor after the occurrence: one
      replacement. */
  lemma ReplaceOnceByUnit(s: string, tok: string, rep: string, i: nat, k: nat)
    requires k < |tok| && OccursAt(s, tok, i)
    requires tok[k] !in s[..i + k] && tok[k] !in s[i + |tok|..]
    ensures ReplaceAll(s, tok, rep) == s[..i] + (rep + s[i + |tok|..])
  {
    FindFirstAt(s, tok, i, k);
    AbsentWhenUnitMissing(s[i + |tok|..], tok, k, 0);
  }

  /** `"aaa"` with `a -> ab` gives `"ababab"`. */
  lemma ReplaceAllExample()
    ensures ReplaceAll("aaa", "a", "ab") == "ababab"
  {
    assert OccursAt("aaa", "a", 0);
    assert OccursAt("aa", "a", 0);
    assert OccursAt("a", "a", 0);
    assert "aaa"[1..] == "aa" && "aa"[1..] == "a" && "a"[1..] == "";
    assert ReplaceAll("", "a", "ab") == "";
    assert ReplaceAll("a", "a", "ab") == "ab";
    assert ReplaceAll("aa", "a", "ab") == "abab";
  }
}
