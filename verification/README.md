# String interpolation, modelled in Dafny

This project models `istr::BasicStringInterpolation<T>`, a header-only C++ class
that fills named placeholders in a text pattern. An object holds five things:

- a pattern;
- a map from tokens to replacements;
- an open and a close delimiter (`{{` and `}}` by default);
- a validation mode;
- a cached substitution, with a flag saying whether the cache is filled.

A name given to `putPatternArgument` is first normalised. A name already framed
by the delimiters is used as it is; any other name is wrapped in them. The token
is stored only when the pattern contains it. `std::map::emplace` never overwrites
an entry, so the first replacement stored for a token stays.

`getSubstituted` returns the cache when it is filled. Otherwise it runs
`prepareSubstitution`, which does three things:

- when the mode asks for it, it validates and writes any failure to the error
  stream;
- it copies the pattern and, for each stored token in ascending key order,
  replaces every occurrence left to right, resuming after each inserted text;
- it marks the cache filled.

Only `setPattern` marks the cache stale again.

The class becomes the immutable datatype `Interpolation.Interpolator`. Each
mutating member becomes a function from the old state to the new one. A read
returns a `Reading`, which holds the text, the new state and the failure that
validation reported, if any. The modules follow the layers of the code:

- `Strings`: `find`, `contains`, `starts_with`, `ends_with`, and the
  lexicographic order of `std::less<std::string>`;
- `OrderedKeys`: the order in which a `std::map` visits its keys;
- `Replace`: the find/replace loop, with a reference definition and its
  split/join partner;
- `Interpolation`: the class itself;
- `InterpolationProperties`: laws that relate several operations;
- `InterpolationExamples`: the repository's demonstration program, worked
  through;
- `InterpolationFindings`: a defect in the source (see "## Findings").

Three consequences of the code are worth stating on their own:

- A second put of the same token keeps the first replacement, because the code
  uses `emplace` (include/string_interpolation.h:252).
- `operator+=` does not touch `alreadySubstituted`
  (include/string_interpolation.h:303-309), so a filled cache survives an append.
- Substitution is one full pass per key. Each key's pass also scans the text
  inserted for smaller keys (see `InterpolationExamples.CrossKeyExample`).

## Model

| member | source | states |
|---|---|---|
| Strings.Find | include/string_interpolation.h:142-143 | the result is the least position at or after the cursor where the token occurs; it is absent exactly when no such position exists |
| Strings.ContainsIff | include/string_interpolation.h:251 | a pattern contains a token exactly when the token occurs in it at some position |
| Strings.FindFrom | include/string_interpolation.h:142 | searching from a cursor finds the first occurrence in the suffix after the cursor, shifted by the cursor |
| Strings.ContainsAppend | include/string_interpolation.h:306 | a token the pattern contains is still contained after text is appended |
| Strings.LexLeTotal | include/string_interpolation.h:140 | any two keys are comparable in the map's order |
| Strings.LexLeAntisymmetric | include/string_interpolation.h:140 | keys that are ordered both ways are equal |
| Strings.LexLeTransitive | include/string_interpolation.h:140 | the map's key order is transitive |
| OrderedKeys.SortedKeys | include/string_interpolation.h:140 | the listing of a key set used for iteration has exactly the set's keys, each once, in strictly ascending order |
| OrderedKeys.SortedKeysUnique | include/string_interpolation.h:140 | any strictly ascending listing of a key set is that iteration order, so the order is determined by the keys alone |
| OrderedKeys.EmptyKeyFirst | include/string_interpolation.h:140 | a map holding the empty key visits it first |
| Replace.ReplaceAll | include/string_interpolation.h:141-146 | reference for the replacement loop: a text without the token is returned unchanged (its meaning is fixed by JoinSplit and ReplaceAllIsJoinSplit) |
| Replace.JoinSplit | include/string_interpolation.h:141-146 | joining the pieces between successive leftmost matches with the token gives back the original text |
| Replace.SplitLeftmost | include/string_interpolation.h:142 | every piece but the last ends at the leftmost occurrence of the token after it, which is the match `find` returns |
| Replace.ReplaceAllIsJoinSplit | include/string_interpolation.h:144-145 | replacing every occurrence is joining the same pieces with the replacement, so no occurrence that the loop already passed is matched again |
| Replace.ReplaceByItself | include/string_interpolation.h:144-145 | replacing a token by itself leaves the text unchanged |
| Replace.ReplaceAllLength | include/string_interpolation.h:144 | each of the n replacements changes the length by the replacement's length minus the token's length |
| Replace.ReplaceOnce | include/string_interpolation.h:141-146 | a text in which the token occurs at exactly one position gets exactly one splice there |
| Replace.ReplaceLoop | include/string_interpolation.h:141-146 | the in-place loop (find from the cursor, splice, move the cursor past the replacement) computes the reference `ReplaceAll` |
| Replace.ReplaceAllExample | include/string_interpolation.h:145 | `"aaa"` with `a` replaced by `ab` becomes `"ababab"`: inserted text is never rescanned by the same key |
| Replace.ScanAsWritten | include/string_interpolation.h:141-146 | the loop as written, for any token including the empty one, run for a bounded number of turns: when it finishes it leaves the text before the starting cursor unchanged, and it never finishes in zero turns |
| Replace.ScanCompletes | include/string_interpolation.h:141-146 | with a non-empty token the loop as written finishes within one turn per remaining code unit, and leaves the prefix before the cursor alone and the rest fully replaced |
| Replace.ScanFromStart | include/string_interpolation.h:141-146 | the loop as written, started at position 0, finishes and computes `ReplaceAll` |
| Replace.EmptyTokenNeverFinishes | include/string_interpolation.h:142-145 | with the empty token every search succeeds at the cursor, so the loop as written finishes within no number of turns |
| Interpolation.Blank | include/string_interpolation.h:318-322 | the constructors without a pattern leave the pattern and the arguments empty, use the default delimiters and the given mode, and leave the cache stale |
| Interpolation.Init | include/string_interpolation.h:256-261 | the constructors with a pattern and no arguments keep the pattern, delimiters and mode they get, store nothing, and leave the cache stale |
| Interpolation.InitWithArguments | include/string_interpolation.h:218-226 | the constructors with arguments put them after the delimiters are set, so every stored token is admissible and the cache is stale; through `PutArgument` no stored token is empty (see "## Left out") |
| Interpolation.Normalize | include/string_interpolation.h:152-158 | the token starts with the open and ends with the close delimiter; it equals the name exactly when the name is already framed, and is otherwise the name wrapped in the delimiters |
| Interpolation.PutArgument | include/string_interpolation.h:247-254 | the key set grows by the normalised token exactly when that token is non-empty and the pattern contains it; stored replacements are never changed; a new token maps to the replacement; nothing else changes; both invariants are kept |
| Interpolation.PutArgumentAsWritten | include/string_interpolation.h:251-252 | the guard as written: the key set grows by the token exactly when the pattern contains it, even when the token is empty |
| Interpolation.PutEach | include/string_interpolation.h:213-215 | putting names one at a time keeps every stored entry, adds only admissible tokens, and changes no other field |
| Interpolation.PutArguments | include/string_interpolation.h:210-216 | a put for every entry in key order keeps stored replacements, adds only admissible tokens, and keeps both invariants |
| Interpolation.SetPattern | include/string_interpolation.h:196-202 | the pattern is replaced and the cache is marked stale; arguments, delimiters and mode stay |
| Interpolation.SetOpenDelimiter | include/string_interpolation.h:175-178 | only the open delimiter changes; stored tokens and the cache stay |
| Interpolation.SetCloseDelimiter | include/string_interpolation.h:185-189 | only the close delimiter changes; stored tokens and the cache stay |
| Interpolation.SetDelimiters | include/string_interpolation.h:311-316 | both delimiters change and nothing else does |
| Interpolation.SetMode | include/string_interpolation.h:338-341 | only the mode changes, and the cache stays |
| Interpolation.Append | include/string_interpolation.h:303-309 | the patterns are joined; the other object's arguments are put again with this object's delimiters against the joined pattern; stored entries and the cache stay |
| Interpolation.FirstMissing | include/string_interpolation.h:285-295 | the index of the first key, in order, that the pattern lacks; absent exactly when the pattern contains every key |
| Interpolation.MissingIsFirst | include/string_interpolation.h:285-295 | every key smaller than the reported key is contained in the pattern |
| Interpolation.Validate | include/string_interpolation.h:272-295 | nothing is reported exactly when the pattern is non-empty, there is an argument, and the pattern contains every key; an empty pattern is reported first, then a missing argument map, then the smallest key the pattern lacks |
| Interpolation.ApplyAll | include/string_interpolation.h:140-147 | a text that contains none of the keys comes out unchanged |
| Interpolation.Substitute | include/string_interpolation.h:138-147 | a pattern that contains no stored token is the substitution itself |
| Interpolation.SubstituteLoop | include/string_interpolation.h:138-147 | the two nested loops (copy the pattern, then one replacement loop per key in map order) compute `Substitute` |
| Interpolation.Prepare | include/string_interpolation.h:132-149 | the text is the substitution of the pattern; the cache is filled with it; validation runs and is reported only in validating mode |
| Interpolation.GetSubstituted | include/string_interpolation.h:239-245 | afterwards the cache is filled and holds the text; a filled cache is returned unchanged with no report, whatever tokens are stored; a stale one is recomputed from the current pattern and arguments |
| InterpolationProperties.NormalizeIdempotent | include/string_interpolation.h:152-158 | normalising a token again changes nothing |
| InterpolationProperties.PutArgumentChanges | include/string_interpolation.h:251-252 | a put changes the object exactly when its token is contained in the pattern, is non-empty, and is not yet stored |
| InterpolationProperties.PutEachSpec | include/string_interpolation.h:213-215 | every admissible token of the names ends up stored, and each new token holds the replacement of the first name that gives it |
| InterpolationProperties.PutArgumentsStoresNamed | include/string_interpolation.h:210-216 | every admissible token that some name normalises to is stored |
| InterpolationProperties.PutArgumentsOnlyNamed | include/string_interpolation.h:210-216 | every newly stored token is admissible and comes from some name |
| InterpolationProperties.PutArgumentsKeys | include/string_interpolation.h:210-216 | a token is stored afterwards exactly when it was stored before, or is admissible and named |
| InterpolationProperties.FirstNamingIsSmallest | include/string_interpolation.h:213 | in the map's iteration order the first name giving a token is the smallest such name |
| InterpolationProperties.PutArgumentsFirstWins | include/string_interpolation.h:210-216 | when several names normalise to the same new token, the smallest name in key order supplies the replacement |
| InterpolationProperties.PutArgumentsSingle | include/string_interpolation.h:210-216 | putting a one-entry map is one put |
| InterpolationProperties.PutArgumentAdds | include/string_interpolation.h:251-252 | an admissible new token adds exactly that entry |
| InterpolationProperties.InitPut | include/string_interpolation.h:256-261 | the first put into a new object stores exactly its token, keeps the pattern inside the invariant, and leaves the cache stale |
| InterpolationProperties.AppendKeepsKeysInPattern | include/string_interpolation.h:303-309 | appending keeps every stored token inside the pattern |
| InterpolationProperties.AppendSingle | include/string_interpolation.h:303-309 | appending an object holding one entry adds exactly that entry, under its key normalised afresh with this object's delimiters, when the joined pattern contains that token and this object lacks it |
| InterpolationProperties.GetSubstitutedTwice | include/string_interpolation.h:239-245 | two reads in a row return the same text, and the second changes nothing and reports nothing |
| InterpolationProperties.SetPatternRefreshes | include/string_interpolation.h:196-202 | after `setPattern` the next read substitutes into the new pattern |
| InterpolationProperties.CacheSurvivesMutators | include/string_interpolation.h:239-245 | after a put, a put of a map, a delimiter change, a mode change or an append, a filled cache is still what a read returns |
| InterpolationProperties.ModeIndependent | include/string_interpolation.h:133-147 | the text does not depend on the mode, because validation only reports |
| InterpolationProperties.ValidatePassesUnderInvariant | include/string_interpolation.h:272-295 | when every stored token is in a non-empty pattern and there is an argument, validation reports nothing |
| InterpolationProperties.SubstituteSingle | include/string_interpolation.h:140-147 | with one stored token, substitution is one `ReplaceAll` |
| InterpolationProperties.SubstituteTwo | include/string_interpolation.h:140-147 | with two stored tokens, the smaller key is replaced first |
| InterpolationProperties.SubstituteThree | include/string_interpolation.h:140-147 | with three stored tokens, they are replaced in ascending key order |
| InterpolationProperties.SinglePutRead | include/string_interpolation.h:239-254 | one put into a new object whose pattern contains the token at exactly one position, then a read, splices the replacement in at that position and reports nothing |
| InterpolationExamples.DashDelimitedName | test/src/example.cpp:30-34 | with delimiters `--`/`--` the bare name and the framed name give the same token, and the read gives `"name is  Harry "` |
| InterpolationExamples.CurrentTime | test/src/example.cpp:44-47 | whatever the clock reading, the read gives `" current time is  "` followed by it |
| InterpolationExamples.ThreeArgs | test/src/example.cpp:51-56 | delimiters set after construction frame the three names, and the read gives `"one two three"` |
| InterpolationExamples.UnfilledTokenWithValidation | test/src/example.cpp:70-78 | with validation and no arguments the read reports the missing arguments and returns the pattern |
| InterpolationExamples.UnfilledTokenWithoutValidation | test/src/example.cpp:83-85 | without validation the unfilled token stays and nothing is reported |
| InterpolationExamples.PreparedThenRead | test/src/example.cpp:87-91 | an explicit prepare fills the cache, and the read returns `"test for prepare substition : test passed"` from it |
| InterpolationExamples.AbsentTokenIgnored | include/string_interpolation.h:251-253 | a name whose token the pattern lacks is ignored, and the read returns the pattern |
| InterpolationExamples.StaleCacheAfterPut | include/string_interpolation.h:239-252 | a read, then a put, then a read returns the first text: the put does not refresh the cache |
| InterpolationExamples.SetPatternLeavesStaleToken | include/string_interpolation.h:196-202 | a new pattern keeps a token it lacks, and validation then reports that token |
| InterpolationExamples.AppendExample | include/string_interpolation.h:303-309 | `"X:{{a}}"` with `a=1`, appended with `" Y:{{b}}"` with `b=2`, reads `"X:1 Y:2"` |
| InterpolationExamples.CrossKeyExample | include/string_interpolation.h:140-147 | in `"{{a}}{{b}}"` with `a` replaced by `"{{b}}"` and `b` by `"x"`, the text inserted for `a` is replaced again for `b`, which gives `"xx"` |
| InterpolationFindings.EmptyTokenStored | include/string_interpolation.h:251-252 | as written, with empty delimiters the empty name is stored as the empty token; the corrected put refuses it |
| InterpolationFindings.EmptyTokenHangs | include/string_interpolation.h:140-146 | as written, the stored empty token is the first key visited and its replacement loop finishes within no number of turns |
| InterpolationFindings.AsWrittenAgrees | include/string_interpolation.h:251-252 | the corrected put differs from the put as written only on the empty token |
| InterpolationFindings.StoredTokensScanCompletes | include/string_interpolation.h:140-146 | every token the corrected put stores makes the loop as written finish with the `ReplaceAll` result |

## Left out

- Character types: only `char` strings are modelled, as `seq<char>`. The other code-unit types (include/string_interpolation.h:18-22, :386-392) are not modelled. As written they do not compile, because :126-130 and :288-291 build strings from narrow `char` literals.
- The concept at include/string_interpolation.h:23 uses a bare `#elif`, so the header does not compile unless `STRING_INTERPOLATION_EXTEND_TYPES` is defined. This is a build matter and is not modelled.
- Diagnostics: the `stringstream` message text, the file and line details, and the writes to `std::cerr` (include/string_interpolation.h:265-299) are left out. Only which failure is reported is modelled, as `Failure`.
- The getters (include/string_interpolation.h:170-173, :180-183, :191-194, :204-208) are field selections of `Interpolator`. `getMode` (:333-336) returns a member named `modes` that does not exist; it is read as the `mode` field.
- The static default delimiters (:120, :125-130) and their getters (:161-168) are the constants `DefaultOpen` and `DefaultClose`. Nothing in the class changes them.
- `mutable` members and `const` methods: every state change is an explicit new `Interpolator`. The const-ness of the class is not modelled.
- `int start_position` and its comparison with `npos` (:141-143) are modelled as a natural-number cursor. Texts longer than `INT_MAX` are outside the model.
- Self-append (`x += x`) aliasing in `operator+=` is left out. `Append` takes the other object by value.
- The cost of `std::map` operations and any concurrency are left out.
- Interpolation.Prepare: requires that no token is empty, because the source's loop never finishes on the empty token (see "## Findings"). Every state built with `PutArgument` meets this.
- Interpolation.GetSubstituted: requires that no token is empty only when the cache is stale, because only then does the read run the loop; a filled cache is returned whatever is stored.
- Interpolation.PutArgument: refuses the empty token, which the source stores when both delimiters are empty and the name is empty (include/string_interpolation.h:153, :251-252). This is the corrected put of "## Findings"; `Interpolation.PutArgumentAsWritten` keeps the source's guard.
- Interpolation.PutEach: inherits the refusal of the empty token from `PutArgument`.
- Interpolation.PutArguments: inherits the refusal of the empty token from `PutArgument`.
- Interpolation.InitWithArguments: inherits the refusal of the empty token from `PutArgument`, so "no stored token is empty" holds for the corrected put only.
- Interpolation.Append: inherits the refusal of the empty token from `PutArgument`, so it keeps "no stored token is empty" only for the corrected put.
- Interpolation.SubstituteLoop: takes the key listing as a parameter that must equal `SortedKeys(args.Keys)`. The iteration of `std::map` is not itself written as a loop.
- Replace.ScanAsWritten: it takes a fuel bound, and running out is reported as `None`, so "never finishes" is stated as "finishes within no number of turns".

## Findings

| source | as written | input that shows it | evidently intended | confidence | as-written member | corrected member |
|---|---|---|---|---|---|---|
| include/string_interpolation.h:251-252 | the put only checks that the pattern contains the normalised token, so with both delimiters empty the empty name becomes the empty token and is stored; `find("", pos)` then always succeeds at `pos`, the cursor moves by the replacement's length, and the loop never ends (for an empty replacement the cursor does not move at all) | delimiters `""` and `""`, `putPatternArgument("", "x")` on any pattern, then `getSubstituted()` while the cache is stale | the empty token is never stored, so every replacement loop ends | not executed | Interpolation.PutArgumentAsWritten, InterpolationFindings.EmptyTokenStored, InterpolationFindings.EmptyTokenHangs, Replace.EmptyTokenNeverFinishes | Interpolation.PutArgument, InterpolationFindings.AsWrittenAgrees, InterpolationFindings.StoredTokensScanCompletes, Replace.ScanCompletes |
