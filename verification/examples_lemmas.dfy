/**
  Worked examples: the library's demonstration program, and a few further
  cases (appending, a key whose replacement holds another token), each
  stated as a lemma about the model.
 */
module InterpolationExamples {
  import opened Wrappers
  import opened Strings
  import opened Replace
  import opened OrderedKeys
  import opened Interpolation
  import opened InterpolationProperties

  /** The last demonstration: a put, an explicit `prepareSubstitution`, then
      a read, which returns the prepared text from the cache. */
  lemma PreparedThenRead()
    ensures var s := PutArgument(Init("test for prepare substition : {{test}}", DefaultOpen, DefaultClose,
                                      WithValidation), "test", "test passed");
      var prepared := Prepare(s);
      && s.args == map["{{test}}" := "test passed"]
      && prepared.text == "test for prepare substition : test passed"
      && prepared.report == None
      && GetSubstituted(prepared.state).text == prepared.text
  {
    PreparedPieces();
    UniqueOccurrence("test for prepare substition : {{test}}", "{{test}}", 30);
    SinglePutRead("test for prepare substition : {{test}}", DefaultOpen, DefaultClose, WithValidation,
                  "test", "test passed", 30);
  }

  lemma PreparedPieces()
    ensures Normalize(DefaultOpen, DefaultClose, "test") == "{{test}}"
    ensures OccursAt("test for prepare substition : {{test}}", "{{test}}", 30)
    ensures '{' !in "test for prepare substition : {{test}}"[..30]
    ensures "test for prepare substition : {{test}}"[38..] == ""
    ensures "test for prepare substition : {{test}}"[..30]
      + ("test passed" + "test for prepare substition : {{test}}"[38..])
      == "test for prepare substition : test passed"
  {
    assert "test for prepare substition : {{test}}"[30..38] == "{{test}}";
  }

  /** The second demonstration, with the clock reading as a parameter: the
      default delimiters frame `time`, and the read puts the reading in its
      place whatever it is. */
  lemma CurrentTime(now: string)
    ensures var s := PutArgument(Init(" current time is  {{time}}", DefaultOpen, DefaultClose, WithValidation),
                                 "time", now);
      && s.args == map["{{time}}" := now]
      && GetSubstituted(s).text == " current time is  " + now
      && GetSubstituted(s).report == None
  {
    CurrentTimePieces();
    UniqueOccurrence(" current time is  {{time}}", "{{time}}", 18);
    SinglePutRead(" current time is  {{time}}", DefaultOpen, DefaultClose, WithValidation, "time", now, 18);
    CurrentTimeJoin(now);
  }

  lemma CurrentTimeJoin(now: string)
    ensures " current time is  {{time}}"[..18] + (now + " current time is  {{time}}"[26..])
      == " current time is  " + now
  {
    CurrentTimePieces();
  }

  lemma CurrentTimePieces()
    ensures Normalize(DefaultOpen, DefaultClose, "time") == "{{time}}"
    ensures OccursAt(" current time is  {{time}}", "{{time}}", 18)
    ensures '{' !in " current time is  {{time}}"[..18] && " current time is  {{time}}"[26..] == ""
    ensures " current time is  {{time}}"[..18] == " current time is  "
  {
    assert " current time is  {{time}}"[18..26] == "{{time}}";
  }

  /** The first demonstration: delimiters `--`/`--`, and the bare name
      `name` is stored as `--name--`, as is the already delimited name. */
  lemma DashDelimitedName()
    ensures Normalize("--", "--", "--name--") == "--name--"
    ensures var s := PutArgument(Init("name is  --name-- ", "--", "--", WithValidation), "name", "Harry");
      && s.args == map["--name--" := "Harry"]
      && GetSubstituted(s).text == "name is  Harry "
  {
    DashDelimitedPieces();
    UniqueOccurrence("name is  --name-- ", "--name--", 9);
    SinglePutRead("name is  --name-- ", "--", "--", WithValidation, "name", "Harry", 9);
  }

  lemma DashDelimitedPieces()
    ensures Normalize("--", "--", "name") == "--name--"
    ensures OccursAt("name is  --name-- ", "--name--", 9)
    ensures '-' !in "name is  --name-- "[..9] && '-' !in "name is  --name-- "[17..]
    ensures "name is  --name-- "[..9] + ("Harry" + "name is  --name-- "[17..]) == "name is  Harry "
  {
    assert "name is  --name-- "[9..17] == "--name--";
  }

  /** A name whose token the pattern lacks is ignored without a report, and the
      read returns the pattern; validation then reports only the missing
      arguments, and substitution still happens. */
  lemma AbsentTokenIgnored()
    ensures var s := PutArgument(Init("abc", DefaultOpen, DefaultClose, WithValidation), "xyz", "q");
      && s.args == map[]
      && GetSubstituted(s).text == "abc"
      && GetSubstituted(s).report == Some(NoArguments)
  {
    assert Normalize(DefaultOpen, DefaultClose, "xyz") == "{{xyz}}";
    AbsentWhenUnitMissing("abc", "{{xyz}}", 0, 0);
  }

  /** With validation and no arguments the read reports that there is
      nothing to replace, and still returns the pattern. */
  lemma UnfilledTokenWithValidation()
    ensures var r := GetSubstituted(Init("test for optimization {{tests}}", DefaultOpen, DefaultClose, WithValidation));
      r.text == "test for optimization {{tests}}" && r.report == Some(NoArguments)
  {
  }

  /** Without validation an unfilled token stays in the text and nothing is
      reported. */
  lemma UnfilledTokenWithoutValidation()
    ensures var r := GetSubstituted(Init("test for optimization {{tests}}", DefaultOpen, DefaultClose, WithoutValidation));
      r.text == "test for optimization {{tests}}" && r.report == None
  {
  }

  /** The stale cache: a read, then a put, then a read returns the first
      text although the stored argument would change it. */
  lemma StaleCacheAfterPut()
    ensures var first := GetSubstituted(Init("{{a}}", DefaultOpen, DefaultClose, WithValidation));
      var s := PutArgument(first.state, "a", "1");
      && first.text == "{{a}}"
      && s.args == map["{{a}}" := "1"]
      && GetSubstituted(s).text == "{{a}}"
      && Substitute(s.pattern, s.args) == "1"
  {
    var p := "{{a}}";
    SoleTokenPieces();
    var first := GetSubstituted(Init(p, DefaultOpen, DefaultClose, WithValidation));
    assert first.state == Init(p, DefaultOpen, DefaultClose, WithValidation).(substitution := p, substituted := true);
    var s := PutArgument(first.state, "a", "1");
    TokenAt(p, p, 0);
    PutArgumentAdds(first.state, "a", "1");
    SubstituteSingle(p, p, "1");
    ReplaceOnceByUnit(p, p, "1", 0, 0);
  }

  lemma SoleTokenPieces()
    ensures Normalize(DefaultOpen, DefaultClose, "a") == "{{a}}"
    ensures OccursAt("{{a}}", "{{a}}", 0)
    ensures '{' !in "{{a}}"[..0] && '{' !in "{{a}}"[5..]
    ensures "{{a}}"[..0] + ("1" + "{{a}}"[5..]) == "1"
  {
  }

  /** Replacing the pattern does not re-check the stored tokens: the
      invariant can break, and validation then names the missing token. */
  lemma SetPatternLeavesStaleToken()
    ensures var s := SetPattern(PutArgument(Init("{{a}}", DefaultOpen, DefaultClose, WithValidation), "a", "1"), "b");
      && !KeysInPattern(s)
      && Validate(s.pattern, s.args) == Some(MissingArgument("{{a}}"))
  {
    var p := "{{a}}";
    assert Normalize(DefaultOpen, DefaultClose, "a") == p;
    assert OccursAt(p, p, 0);
    AbsentWhenUnitMissing("b", p, 0, 0);
  }

  /** The third demonstration: delimiters `--`/`))` set after construction,
      then the names `1`, `2`, `3` put together; the read replaces each
      token by its word and validation has nothing to report. */
  lemma ThreeArgs()
    ensures var p := "--1)) --2)) --3))";
      var s := SetCloseDelimiter(SetOpenDelimiter(Init(p, DefaultOpen, DefaultClose, WithValidation), "--"), "))");
      var r := PutArguments(s, map["1" := "one", "2" := "two", "3" := "three"]);
      && r.args == map["--1))" := "one", "--2))" := "two", "--3))" := "three"]
      && GetSubstituted(r).text == "one two three"
      && GetSubstituted(r).report == None
  {
    var p := "--1)) --2)) --3))";
    var s := SetCloseDelimiter(SetOpenDelimiter(Init(p, DefaultOpen, DefaultClose, WithValidation), "--"), "))");
    ThreeArgsStored(s);
    var r := PutArguments(s, map["1" := "one", "2" := "two", "3" := "three"]);
    ThreeArgsOrder();
    SubstituteThree(p, "--1))", "one", "--2))", "two", "--3))", "three");
    ThreeArgsReplacements();
    assert "--1))" in r.args;
    ValidatePassesUnderInvariant(r);
  }

  lemma ThreeArgsStored(s: Interpolator)
    requires s == Init("--1)) --2)) --3))", "--", "))", WithValidation)
    ensures PutArguments(s, map["1" := "one", "2" := "two", "3" := "three"]).args
      == map["--1))" := "one", "--2))" := "two", "--3))" := "three"]
  {
    var m := map["1" := "one", "2" := "two", "3" := "three"];
    ThreeArgsTokens();
    assert m.Keys == {"1", "2", "3"};
    PutThreeNames(s, m, "1", "2", "3");
  }

  lemma ThreeArgsTokens()
    ensures Normalize("--", "))", "1") == "--1))"
    ensures Normalize("--", "))", "2") == "--2))"
    ensures Normalize("--", "))", "3") == "--3))"
    ensures LexLt("1", "2") && LexLt("2", "3")
    ensures Admissible("--1)) --2)) --3))", "--1))")
    ensures Admissible("--1)) --2)) --3))", "--2))")
    ensures Admissible("--1)) --2)) --3))", "--3))")
  {
    ThreeArgsNormalize();
    ThreeArgsOrder();
    ThreeArgsOccurrence(0, "--1))");
    ThreeArgsOccurrence(6, "--2))");
    ThreeArgsOccurrence(12, "--3))");
  }

  lemma ThreeArgsNormalize()
    ensures Normalize("--", "))", "1") == "--1))"
    ensures Normalize("--", "))", "2") == "--2))"
    ensures Normalize("--", "))", "3") == "--3))"
  {
  }

  lemma ThreeArgsOrder()
    ensures LexLt("1", "2") && LexLt("2", "3")
    ensures LexLt("--1))", "--2))") && LexLt("--2))", "--3))")
  {
    LexLtAt("1", "2", 0);
    LexLtAt("2", "3", 0);
    LexLtAt("--1))", "--2))", 2);
    LexLtAt("--2))", "--3))", 2);
  }

  lemma ThreeArgsOccurrence(i: nat, tok: string)
    requires i + 5 <= 17 && tok == "--1)) --2)) --3))"[i..i + 5]
    ensures Admissible("--1)) --2)) --3))", tok)
  {
    assert OccursAt("--1)) --2)) --3))", tok, i);
    ContainsIff("--1)) --2)) --3))", tok);
  }

  lemma ThreeArgsReplacements()
    ensures ReplaceAll("--1)) --2)) --3))", "--1))", "one") == "one --2)) --3))"
    ensures ReplaceAll("one --2)) --3))", "--2))", "two") == "one two --3))"
    ensures ReplaceAll("one two --3))", "--3))", "three") == "one two three"
  {
    ThreeArgsPieces();
    ReplaceStep("--1)) --2)) --3))", "--1))", "one", 0, "one --2)) --3))");
    ReplaceStep("one --2)) --3))", "--2))", "two", 4, "one two --3))");
    ReplaceStep("one two --3))", "--3))", "three", 8, "one two three");
  }

  /** The literal facts behind the three replacement steps: where each token
      sits, and that its digit appears nowhere else. */
  lemma ThreeArgsPieces()
    ensures OccursAt("--1)) --2)) --3))", "--1))", 0)
    ensures '1' !in "--1)) --2)) --3))"[..2] && '1' !in "--1)) --2)) --3))"[5..]
    ensures "--1)) --2)) --3))"[..0] + ("one" + "--1)) --2)) --3))"[5..]) == "one --2)) --3))"
    ensures OccursAt("one --2)) --3))", "--2))", 4)
    ensures '2' !in "one --2)) --3))"[..6] && '2' !in "one --2)) --3))"[9..]
    ensures "one --2)) --3))"[..4] + ("two" + "one --2)) --3))"[9..]) == "one two --3))"
    ensures OccursAt("one two --3))", "--3))", 8)
    ensures '3' !in "one two --3))"[..10] && '3' !in "one two --3))"[13..]
    ensures "one two --3))"[..8] + ("three" + "one two --3))"[13..]) == "one two three"
  {
    FirstWordPieces();
    SecondWordPieces();
    ThirdWordPieces();
  }

  lemma FirstWordPieces()
    ensures OccursAt("--1)) --2)) --3))", "--1))", 0)
    ensures '1' !in "--1)) --2)) --3))"[..2] && '1' !in "--1)) --2)) --3))"[5..]
    ensures "--1)) --2)) --3))"[..0] + ("one" + "--1)) --2)) --3))"[5..]) == "one --2)) --3))"
  {
    assert "--1)) --2)) --3))"[0..5] == "--1))";
  }

  lemma SecondWordPieces()
    ensures OccursAt("one --2)) --3))", "--2))", 4)
    ensures '2' !in "one --2)) --3))"[..6] && '2' !in "one --2)) --3))"[9..]
    ensures "one --2)) --3))"[..4] + ("two" + "one --2)) --3))"[9..]) == "one two --3))"
  {
    assert "one --2)) --3))"[4..9] == "--2))";
  }

  lemma ThirdWordPieces()
    ensures OccursAt("one two --3))", "--3))", 8)
    ensures '3' !in "one two --3))"[..10] && '3' !in "one two --3))"[13..]
    ensures "one two --3))"[..8] + ("three" + "one two --3))"[13..]) == "one two three"
  {
    assert "one two --3))"[8..13] == "--3))";
  }

  /** One replacement step of the example: the token's digit (its unit 2)
      appears once in the text. */
  lemma ReplaceStep(text: string, tok: string, rep: string, i: nat, result: string)
    requires |tok| == 5 && OccursAt(text, tok, i)
    requires tok[2] !in text[..i + 2] && tok[2] !in text[i + 5..]
    requires result == text[..i] + (rep + text[i + 5..])
    ensures ReplaceAll(text, tok, rep) == result
  {
    ReplaceOnceByUnit(text, tok, rep, i, 2);
  }

  /** Appending: the patterns are joined and the other object's stored tokens
      are put into the joined pattern, so both tokens are filled. */
  lemma AppendExample()
    ensures var left := PutArgument(Init("X:{{a}}", DefaultOpen, DefaultClose, WithValidation), "a", "1");
      var right := PutArgument(Init(" Y:{{b}}", DefaultOpen, DefaultClose, WithValidation), "b", "2");
      var r := Append(left, right);
      && r.pattern == "X:{{a}} Y:{{b}}"
      && r.args == map["{{a}}" := "1", "{{b}}" := "2"]
      && GetSubstituted(r).text == "X:1 Y:2"
      && GetSubstituted(r).report == None
  {
    var left := PutArgument(Init("X:{{a}}", DefaultOpen, DefaultClose, WithValidation), "a", "1");
    var right := PutArgument(Init(" Y:{{b}}", DefaultOpen, DefaultClose, WithValidation), "b", "2");
    AppendStored(left, right);
    var r := Append(left, right);
    AppendOrder();
    SubstituteTwo("X:{{a}} Y:{{b}}", "{{a}}", "1", "{{b}}", "2");
    AppendReplacements();
    ValidatePassesUnderInvariant(r);
  }

  lemma AppendStored(left: Interpolator, right: Interpolator)
    requires left == PutArgument(Init("X:{{a}}", DefaultOpen, DefaultClose, WithValidation), "a", "1")
    requires right == PutArgument(Init(" Y:{{b}}", DefaultOpen, DefaultClose, WithValidation), "b", "2")
    ensures var r := Append(left, right);
      && r.pattern == "X:{{a}} Y:{{b}}" && r.args == map["{{a}}" := "1", "{{b}}" := "2"]
      && !r.substituted && r.mode == WithValidation && KeysInPattern(r)
  {
    AppendTokens();
    InitPut("X:{{a}}", DefaultOpen, DefaultClose, WithValidation, "a", "1");
    InitPut(" Y:{{b}}", DefaultOpen, DefaultClose, WithValidation, "b", "2");
    AppendPatterns();
    AppendSingle(left, right, "{{b}}", "2");
    AppendKeepsKeysInPattern(left, right);
  }

  lemma AppendOrder()
    ensures LexLt("{{a}}", "{{b}}")
  {
    LexLtAt("{{a}}", "{{b}}", 2);
  }

  lemma AppendPatterns()
    ensures "X:{{a}}" + " Y:{{b}}" == "X:{{a}} Y:{{b}}"
  {
  }

  lemma AppendTokens()
    ensures Normalize(DefaultOpen, DefaultClose, "a") == "{{a}}"
    ensures Normalize(DefaultOpen, DefaultClose, "b") == "{{b}}"
    ensures Normalize(DefaultOpen, DefaultClose, "{{b}}") == "{{b}}"
    ensures Admissible("X:{{a}}", "{{a}}") && Admissible(" Y:{{b}}", "{{b}}")
    ensures Admissible("X:{{a}} Y:{{b}}", "{{b}}")
  {
    AppendNormalize();
    AppendOccurrences();
    TokenAt("X:{{a}}", "{{a}}", 2);
    TokenAt(" Y:{{b}}", "{{b}}", 3);
    TokenAt("X:{{a}} Y:{{b}}", "{{b}}", 10);
  }

  lemma AppendNormalize()
    ensures Normalize(DefaultOpen, DefaultClose, "a") == "{{a}}"
    ensures Normalize(DefaultOpen, DefaultClose, "b") == "{{b}}"
    ensures Normalize(DefaultOpen, DefaultClose, "{{b}}") == "{{b}}"
  {
  }

  lemma AppendOccurrences()
    ensures OccursAt("X:{{a}}", "{{a}}", 2) && OccursAt(" Y:{{b}}", "{{b}}", 3)
    ensures OccursAt("X:{{a}} Y:{{b}}", "{{b}}", 10)
  {
    assert "X:{{a}}"[2..7] == "{{a}}";
    assert " Y:{{b}}"[3..8] == "{{b}}";
    assert "X:{{a}} Y:{{b}}"[10..15] == "{{b}}";
  }

  /** A token that occurs in the pattern may be stored. */
  lemma TokenAt(p: string, tok: string, i: nat)
    requires |tok| > 0 && OccursAt(p, tok, i)
    ensures Admissible(p, tok)
  {
    ContainsIff(p, tok);
  }

  lemma AppendReplacements()
    ensures ReplaceAll("X:{{a}} Y:{{b}}", "{{a}}", "1") == "X:1 Y:{{b}}"
    ensures ReplaceAll("X:1 Y:{{b}}", "{{b}}", "2") == "X:1 Y:2"
  {
    AppendPieces();
    ReplaceStep("X:{{a}} Y:{{b}}", "{{a}}", "1", 2, "X:1 Y:{{b}}");
    ReplaceStep("X:1 Y:{{b}}", "{{b}}", "2", 6, "X:1 Y:2");
  }

  lemma AppendPieces()
    ensures OccursAt("X:{{a}} Y:{{b}}", "{{a}}", 2)
    ensures 'a' !in "X:{{a}} Y:{{b}}"[..4] && 'a' !in "X:{{a}} Y:{{b}}"[7..]
    ensures "X:{{a}} Y:{{b}}"[..2] + ("1" + "X:{{a}} Y:{{b}}"[7..]) == "X:1 Y:{{b}}"
    ensures OccursAt("X:1 Y:{{b}}", "{{b}}", 6)
    ensures 'b' !in "X:1 Y:{{b}}"[..8] && 'b' !in "X:1 Y:{{b}}"[11..]
    ensures "X:1 Y:{{b}}"[..6] + ("2" + "X:1 Y:{{b}}"[11..]) == "X:1 Y:2"
  {
    assert "X:{{a}} Y:{{b}}"[2..7] == "{{a}}";
    assert "X:1 Y:{{b}}"[6..11] == "{{b}}";
  }

  /** Tokens are replaced one after another in key order, each over the text
      the previous ones left: a replacement that spells a later token is
      itself replaced. */
  lemma CrossKeyExample()
    ensures var s := PutArgument(PutArgument(Init("{{a}}{{b}}", DefaultOpen, DefaultClose, WithValidation),
                                             "a", "{{b}}"), "b", "x");
      && s.args == map["{{a}}" := "{{b}}", "{{b}}" := "x"]
      && GetSubstituted(s).text == "xx"
  {
    CrossKeyTokens();
    var s := PutArgument(PutArgument(Init("{{a}}{{b}}", DefaultOpen, DefaultClose, WithValidation),
                                     "a", "{{b}}"), "b", "x");
    assert s.args == map["{{a}}" := "{{b}}", "{{b}}" := "x"];
    SubstituteTwo("{{a}}{{b}}", "{{a}}", "{{b}}", "{{b}}", "x");
    CrossKeyReplacements();
  }

  lemma CrossKeyTokens()
    ensures Normalize(DefaultOpen, DefaultClose, "a") == "{{a}}"
    ensures Normalize(DefaultOpen, DefaultClose, "b") == "{{b}}"
    ensures Admissible("{{a}}{{b}}", "{{a}}") && Admissible("{{a}}{{b}}", "{{b}}")
    ensures LexLt("{{a}}", "{{b}}")
  {
    AppendNormalize();
    AppendOrder();
    CrossKeyOccurrences();
    TokenAt("{{a}}{{b}}", "{{a}}", 0);
    TokenAt("{{a}}{{b}}", "{{b}}", 5);
  }

  lemma CrossKeyOccurrences()
    ensures OccursAt("{{a}}{{b}}", "{{a}}", 0) && OccursAt("{{a}}{{b}}", "{{b}}", 5)
  {
    assert "{{a}}{{b}}"[0..5] == "{{a}}";
    assert "{{a}}{{b}}"[5..10] == "{{b}}";
  }

  lemma CrossKeyReplacements()
    ensures ReplaceAll("{{a}}{{b}}", "{{a}}", "{{b}}") == "{{b}}{{b}}"
    ensures ReplaceAll("{{b}}{{b}}", "{{b}}", "x") == "xx"
  {
    CrossKeyPieces();
    ReplaceStep("{{a}}{{b}}", "{{a}}", "{{b}}", 0, "{{b}}{{b}}");
    ReplaceStep("{{b}}", "{{b}}", "x", 0, "x");
    FindFirstAt("{{b}}{{b}}", "{{b}}", 0, 0);
    ReplaceAllUnfold("{{b}}{{b}}", "{{b}}", "x", 0);
  }

  lemma CrossKeyPieces()
    ensures OccursAt("{{a}}{{b}}", "{{a}}", 0)
    ensures 'a' !in "{{a}}{{b}}"[..2] && 'a' !in "{{a}}{{b}}"[5..]
    ensures "{{a}}{{b}}"[..0] + ("{{b}}" + "{{a}}{{b}}"[5..]) == "{{b}}{{b}}"
    ensures OccursAt("{{b}}", "{{b}}", 0) && 'b' !in "{{b}}"[..2] && 'b' !in "{{b}}"[5..]
    ensures "{{b}}"[..0] + ("x" + "{{b}}"[5..]) == "x"
    ensures OccursAt("{{b}}{{b}}", "{{b}}", 0) && "{{b}}{{b}}"[5..] == "{{b}}"
    ensures "{{b}}{{b}}"[..0] + ("x" + "x") == "xx"
  {
    assert "{{a}}{{b}}"[0..5] == "{{a}}";
    assert "{{b}}{{b}}"[0..5] == "{{b}}";
  }
}
