/**
  The empty token. When both delimiters are empty, the name `""` normalises
  to the token `""`, which every pattern contains, so the put of the source
  stores it. The replacement loop then finds `""` at its cursor on every
  turn and never stops. The corrected put refuses the empty token, and with
  nonempty tokens the loop always ends.
 */
module InterpolationFindings {
  import opened Wrappers
  import opened Strings
  import opened Replace
  import opened OrderedKeys
  import opened Interpolation

  /** As written: with empty delimiters the name `""` is stored as the token
      `""`; the corrected put leaves the arguments without it. */
  lemma EmptyTokenStored(s: Interpolator, rep: string)
    requires s.open == "" && s.close == "" && NoEmptyToken(s)
    ensures Normalize(s.open, s.close, "") == ""
    ensures var w := PutArgumentAsWritten(s, "", rep);
      "" in w.args && w.args[""] == rep
    ensures "" !in PutArgument(s, "", rep).args
  {
    ContainsEmpty(s.pattern);
  }

  /** As written: once `""` is stored it is the first key the read visits,
      and the scan of the pattern for it does not end in any number of
      turns. */
  lemma EmptyTokenHangs(s: Interpolator, rep: string, fuel: nat)
    requires s.open == "" && s.close == "" && NoEmptyToken(s)
    ensures var w := PutArgumentAsWritten(s, "", rep);
      && "" in w.args && SortedKeys(w.args.Keys)[0] == ""
      && ScanAsWritten(w.pattern, "", w.args[""], 0, fuel) == None
  {
    EmptyTokenStored(s, rep);
    var w := PutArgumentAsWritten(s, "", rep);
    EmptyKeyFirst(SortedKeys(w.args.Keys));
    EmptyTokenNeverFinishes(w.pattern, rep, 0, fuel);
  }

  /** The two puts differ only on the empty token. */
  lemma AsWrittenAgrees(s: Interpolator, name: string, rep: string)
    requires |Normalize(s.open, s.close, name)| > 0
    ensures PutArgumentAsWritten(s, name, rep) == PutArgument(s, name, rep)
  {
  }

  /** Corrected: every token the corrected put can store is nonempty, so the
      scan for it ends within one turn per unit of text and replaces every
      occurrence. */
  lemma StoredTokensScanCompletes(s: Interpolator, text: string, k: string)
    requires NoEmptyToken(s) && k in s.args
    ensures ScanAsWritten(text, k, s.args[k], 0, |text| + 1) == Some(ReplaceAll(text, k, s.args[k]))
  {
    assert |k| > 0;
    ScanFromStart(text, k, s.args[k]);
  }
}
