# Model refinement utilities of the Palladio SoMoX CIPM bundle

This project models the helper layer of the parameter-estimation bundle of
the continuous integration of performance models (CIPM). That layer turns
monitoring records into training data and turns trained models back into
Palladio stochastic expressions (StoEx).

- **ServiceParameters** (`service_parameters.dfy`): the immutable, name-sorted
  parameter map of a monitored call, with `build`, `buildFromJson`, `merge`,
  `equals`/`hashCode` and `getParameters`.
- **ParametersWithClass** (`parameters_with_class.dfy`): one training row,
  holding parameters, a class value and a weight that defaults to 1.0.
- **WekaDataSetBuilder** (`data_set_builder.dfy`): a class whose row list is
  appended in place by every `addInstance` variant.
- **ParameterToOptimize** (`parameter_to_optimize.dfy`): splits a model's
  attributes into numeric and nominal ones by the class of their first value.
- **Utils** (`utils.dfy`):
  - HALF_UP rounding;
  - the `_VALUE`/`_BYTESIZE`/`_NUMBER_OF_ELEMENTS` to dot-accessor rewrite;
  - the StoEx of a linear regression, from its coefficients and attribute names;
  - the nested conditional StoEx of a J48 tree, from the tree's text dump;
  - `cleanStoEx` and `countPipes`;
  - `replaceDoubles`, which turns decimal literals into two-point integer distributions.
- **PcmUtils** (`pcm_utils.dfy`): queries over a PCM repository, written over
  plain values.
- Shared vocabulary:
  - `common.dfy` holds results that carry the Java exception a call would throw.
  - `text.dfy` holds the Java string operations the code relies on, including
    `split`'s dropping of trailing empty strings and `replaceFirst`'s reading of
    `.` as a wildcard.

Numbers are exact (`real` and unbounded `int`). Where Java's 32-bit range
matters it is written out: `Integer.parseInt` overflow and the wrap-around of
`lowerInt + 1`. Number-to-text conversions are parameters: `Double.toString`
is `toText` and `DecimalFormat("0.00")` is `fmt`.

Places where the code and its comments disagree follow the code:
- `cleanStoEx` says it removes all pipe symbols, but it hands `"|"` to
  `replaceAll`, which reads it as a regular expression: two empty
  alternatives, matching only the empty string. The step removes nothing, so
  every `|` stays. `Utils.CleanStoEx` keeps them, and "## Findings" gives the
  corrected cleaning.
- `cleanStoEx` says it removes groups such as `(4.0/8.0)`, but its pattern
  `[(]\d+\.\d+[)]` only matches a single number in parentheses, such as
  `(3.0)`. `Utils.RemoveDecimalGroupsExamples` shows both cases.
- `getStoExTree` leaves the loop that would close the remaining conditionals
  commented out. `Utils.TreeUnclosedParens` states how many parentheses stay
  open.

## Model

| member | source | states |
|---|---|---|
| Utils.Round | bundles/org.palladiosimulator.somox.cipm.modelrefinement.parameters/src/org/palladiosimulator/somox/cipm/modelrefinement/parameters/util/Utils.java:27-34 | throws IllegalArgumentException exactly when `places` is negative; otherwise the result has at most `places` decimals and lies within half a unit of the last place of the input, a tie going away from zero (HALF_UP) |
| Utils.RoundHalfUp | bundles/org.palladiosimulator.somox.cipm.modelrefinement.parameters/src/org/palladiosimulator/somox/cipm/modelrefinement/parameters/util/Utils.java:32 | HALF_UP to an integer: at most 0.5 away, a tie going away from zero |
| Utils.RoundTo | bundles/org.palladiosimulator.somox.cipm.modelrefinement.parameters/src/org/palladiosimulator/somox/cipm/modelrefinement/parameters/util/Utils.java:31-33 | HALF_UP rounding to `places` decimals lands on a multiple of 10^-places at most half a unit away; a result half a unit above the input needs a positive input, one half a unit below a negative input |
| Utils.RoundToKeepsGridValue | bundles/org.palladiosimulator.somox.cipm.modelrefinement.parameters/src/org/palladiosimulator/somox/cipm/modelrefinement/parameters/util/Utils.java:31-33 | a value that already has `places` decimals is returned unchanged |
| Utils.RoundIdempotent | bundles/org.palladiosimulator.somox.cipm.modelrefinement.parameters/src/org/palladiosimulator/somox/cipm/modelrefinement/parameters/util/Utils.java:27-34 | rounding a rounded value again to the same places changes nothing |
| Utils.ReplaceSuffixDotsOnly | bundles/org.palladiosimulator.somox.cipm.modelrefinement.parameters/src/org/palladiosimulator/somox/cipm/modelrefinement/parameters/util/Utils.java:37-38 | each `replaceAll` of a suffix only turns underscores into dots; length and every other character are kept |
| Utils.ReplaceSuffixChangesOnlyStarts | bundles/org.palladiosimulator.somox.cipm.modelrefinement.parameters/src/org/palladiosimulator/somox/cipm/modelrefinement/parameters/util/Utils.java:37-38 | a changed character is the leading `_` of an occurrence of the suffix |
| Utils.ReplaceSuffixReplacesEveryOccurrence | bundles/org.palladiosimulator.somox.cipm.modelrefinement.parameters/src/org/palladiosimulator/somox/cipm/modelrefinement/parameters/util/Utils.java:37-38 | every occurrence of the suffix in the input gets its `_` turned into `.` |
| Utils.ReplaceSuffixLeavesNone | bundles/org.palladiosimulator.somox.cipm.modelrefinement.parameters/src/org/palladiosimulator/somox/cipm/modelrefinement/parameters/util/Utils.java:37-38 | after one `replaceAll` the suffix no longer occurs |
| Utils.ReplaceSuffixWithoutPattern | bundles/org.palladiosimulator.somox.cipm.modelrefinement.parameters/src/org/palladiosimulator/somox/cipm/modelrefinement/parameters/util/Utils.java:37-38 | text without the suffix is left as it is |
| Utils.ReplaceUnderscoreWithDotRewritesAll | bundles/org.palladiosimulator.somox.cipm.modelrefinement.parameters/src/org/palladiosimulator/somox/cipm/modelrefinement/parameters/util/Utils.java:36-39 | the rewrite only turns underscores into dots, and none of `_VALUE`, `_BYTESIZE`, `_NUMBER_OF_ELEMENTS` is left |
| Utils.ReplaceUnderscoreWithDotIdentity | bundles/org.palladiosimulator.somox.cipm.modelrefinement.parameters/src/org/palladiosimulator/somox/cipm/modelrefinement/parameters/util/Utils.java:36-39 | an expression with none of the three suffixes is returned unchanged |
| Utils.ReplaceUnderscoreWithDotIdempotent | bundles/org.palladiosimulator.somox.cipm.modelrefinement.parameters/src/org/palladiosimulator/somox/cipm/modelrefinement/parameters/util/Utils.java:36-39 | the rewrite keeps the length, and applying it twice equals applying it once |
| Utils.RegressorCount | bundles/org.palladiosimulator.somox.cipm.modelrefinement.parameters/src/org/palladiosimulator/somox/cipm/modelrefinement/parameters/util/Utils.java:51 | the loop covers all coefficients but the last two (or none) |
| Utils.TermIndicesMeaning | bundles/org.palladiosimulator.somox.cipm.modelrefinement.parameters/src/org/palladiosimulator/somox/cipm/modelrefinement/parameters/util/Utils.java:51-55 | exactly the indices below the bound whose coefficient rounded to 3 places is non-zero, in increasing order |
| Utils.LinRegExpression | bundles/org.palladiosimulator.somox.cipm.modelrefinement.parameters/src/org/palladiosimulator/somox/cipm/modelrefinement/parameters/util/Utils.java:47-68 | throws IndexOutOfBounds exactly when the coefficient array is empty or a kept coefficient has no attribute name |
| Utils.CollectTerms | bundles/org.palladiosimulator.somox.cipm.modelrefinement.parameters/src/org/palladiosimulator/somox/cipm/modelrefinement/parameters/util/Utils.java:48-61 | the first loop adds one summand per kept coefficient, in index order, and counts them in `braces` |
| Utils.CloseBraces | bundles/org.palladiosimulator.somox.cipm.modelrefinement.parameters/src/org/palladiosimulator/somox/cipm/modelrefinement/parameters/util/Utils.java:63-66 | the second loop appends exactly `braces` closing parentheses |
| Utils.GetStoExLinReg | bundles/org.palladiosimulator.somox.cipm.modelrefinement.parameters/src/org/palladiosimulator/somox/cipm/modelrefinement/parameters/util/Utils.java:47-68 | the loops compute `LinRegExpression`, error cases included |
| Utils.LinRegBalanced | bundles/org.palladiosimulator.somox.cipm.modelrefinement.parameters/src/org/palladiosimulator/somox/cipm/modelrefinement/parameters/util/Utils.java:56-66 | with names and number texts free of parentheses the expression has as many `(` as `)`, one pair per summand |
| Utils.LinRegInterceptOnly | bundles/org.palladiosimulator.somox.cipm.modelrefinement.parameters/src/org/palladiosimulator/somox/cipm/modelrefinement/parameters/util/Utils.java:51-62 | when every regressor coefficient rounds to zero the expression is the rounded intercept alone |
| Utils.LinRegIgnoresClassCoefficient | bundles/org.palladiosimulator.somox.cipm.modelrefinement.parameters/src/org/palladiosimulator/somox/cipm/modelrefinement/parameters/util/Utils.java:51-62 | the second-to-last coefficient (the class attribute slot) never affects the expression |
| Utils.CountPipes | bundles/org.palladiosimulator.somox.cipm.modelrefinement.parameters/src/org/palladiosimulator/somox/cipm/modelrefinement/parameters/util/Utils.java:124-126 | the number of pipe characters: at most the length, and zero exactly when there is none |
| Utils.DoubleEqualsRoundTrip | bundles/org.palladiosimulator.somox.cipm.modelrefinement.parameters/src/org/palladiosimulator/somox/cipm/modelrefinement/parameters/util/Utils.java:118 | doubling every `=` not preceded by `!` loses nothing: collapsing the doubled `==` gives the input back |
| Utils.DoubleEqualsCounts | bundles/org.palladiosimulator.somox.cipm.modelrefinement.parameters/src/org/palladiosimulator/somox/cipm/modelrefinement/parameters/util/Utils.java:118 | the doubling adds only `=` characters |
| Utils.DoubleEqualsExamples | bundles/org.palladiosimulator.somox.cipm.modelrefinement.parameters/src/org/palladiosimulator/somox/cipm/modelrefinement/parameters/util/Utils.java:117-118 | `<=` becomes `<==`, `=` becomes `==`, `!=` is kept |
| Utils.RemoveDecimalGroupsCounts | bundles/org.palladiosimulator.somox.cipm.modelrefinement.parameters/src/org/palladiosimulator/somox/cipm/modelrefinement/parameters/util/Utils.java:120 | removing `[(]\d+\.\d+[)]` matches removes as many `(` as `)` and keeps every character other than parentheses, digits and dots |
| Utils.RemoveDecimalGroupsWithoutParen | bundles/org.palladiosimulator.somox.cipm.modelrefinement.parameters/src/org/palladiosimulator/somox/cipm/modelrefinement/parameters/util/Utils.java:120 | text without `(` is unchanged |
| Utils.RemoveDecimalGroupsExamples | bundles/org.palladiosimulator.somox.cipm.modelrefinement.parameters/src/org/palladiosimulator/somox/cipm/modelrefinement/parameters/util/Utils.java:119-120 | `(3.0)` is removed while `(4.0/8.0)` is kept |
| Utils.CleanStoEx | bundles/org.palladiosimulator.somox.cipm.modelrefinement.parameters/src/org/palladiosimulator/somox/cipm/modelrefinement/parameters/util/Utils.java:114-122 | the pipe step hands the pipe character to `replaceAll` as a regular expression, which matches only the empty string, so it removes nothing: the result has exactly as many pipe characters as the input |
| Utils.CleanStoExKeepsPipe | bundles/org.palladiosimulator.somox.cipm.modelrefinement.parameters/src/org/palladiosimulator/somox/cipm/modelrefinement/parameters/util/Utils.java:116 | a pipe followed by `a` is returned as it is: the pipe is not removed |
| Utils.CleanStoExIntended | bundles/org.palladiosimulator.somox.cipm.modelrefinement.parameters/src/org/palladiosimulator/somox/cipm/modelrefinement/parameters/util/Utils.java:115-121 | the cleaning the comment describes: no pipe is left, and the surplus of `(` over `)` is kept |
| Utils.CleanStoExKeepsParenSurplus | bundles/org.palladiosimulator.somox.cipm.modelrefinement.parameters/src/org/palladiosimulator/somox/cipm/modelrefinement/parameters/util/Utils.java:114-122 | cleaning keeps the difference between the numbers of `(` and `)` |
| Utils.TreeLine | bundles/org.palladiosimulator.somox.cipm.modelrefinement.parameters/src/org/palladiosimulator/somox/cipm/modelrefinement/parameters/util/Utils.java:84-106 | a line without `:` (a condition) keeps the nesting or deepens it by one; a line with `:` (a leaf) closes one level or deepens it by one; only a leaf line can throw, and then IndexOutOfBounds |
| Utils.TreeBody | bundles/org.palladiosimulator.somox.cipm.modelrefinement.parameters/src/org/palladiosimulator/somox/cipm/modelrefinement/parameters/util/Utils.java:83-107 | the walk from line 3 to the first empty line fails only with IndexOutOfBounds (no empty line, or a bad leaf line) |
| Utils.TreeExpression | bundles/org.palladiosimulator.somox.cipm.modelrefinement.parameters/src/org/palladiosimulator/somox/cipm/modelrefinement/parameters/util/Utils.java:75-112 | the expression of a dump fails only with IndexOutOfBounds |
| Utils.GetStoExTree | bundles/org.palladiosimulator.somox.cipm.modelrefinement.parameters/src/org/palladiosimulator/somox/cipm/modelrefinement/parameters/util/Utils.java:75-112 | the loop over the lines computes `TreeExpression`, error cases included |
| Utils.TreeConstant | bundles/org.palladiosimulator.somox.cipm.modelrefinement.parameters/src/org/palladiosimulator/somox/cipm/modelrefinement/parameters/util/Utils.java:77-79 | a six-line dump gives line 3 with its `:` and whitespace removed: every other character kept, as often as in the line and in its order, and nothing else |
| Utils.StripIsTreeChars | bundles/org.palladiosimulator.somox.cipm.modelrefinement.parameters/src/org/palladiosimulator/somox/cipm/modelrefinement/parameters/util/Utils.java:78 | removing `:` and then whitespace equals one pass keeping the characters that are neither, in order |
| Utils.TreeKeepsPipes | bundles/org.palladiosimulator.somox.cipm.modelrefinement.parameters/src/org/palladiosimulator/somox/cipm/modelrefinement/parameters/util/Utils.java:111-116 | outside the six-line case the expression has exactly as many pipe characters as the text the walk wrote, so nested conditionals keep their pipes |
| Utils.TreeIntendedHasNoPipes | bundles/org.palladiosimulator.somox.cipm.modelrefinement.parameters/src/org/palladiosimulator/somox/cipm/modelrefinement/parameters/util/Utils.java:111-116 | with the intended cleaning the expression of a larger tree has no pipe, and its `(` surplus is the walk's |
| Utils.TreeBodyStopsAtEmptyLine | bundles/org.palladiosimulator.somox.cipm.modelrefinement.parameters/src/org/palladiosimulator/somox/cipm/modelrefinement/parameters/util/Utils.java:83 | lines after the first empty line never influence the result |
| Utils.TreeLineSurplus | bundles/org.palladiosimulator.somox.cipm.modelrefinement.parameters/src/org/palladiosimulator/somox/cipm/modelrefinement/parameters/util/Utils.java:86-106 | with balanced leaf statistics, a line opens one more `(` than it closes exactly when it deepens the nesting, one fewer when it closes a conditional |
| Utils.TreeBodySurplus | bundles/org.palladiosimulator.somox.cipm.modelrefinement.parameters/src/org/palladiosimulator/somox/cipm/modelrefinement/parameters/util/Utils.java:83-107 | over the walk, unmatched `(` grow exactly as the nesting depth does |
| Utils.TreeUnclosedParens | bundles/org.palladiosimulator.somox.cipm.modelrefinement.parameters/src/org/palladiosimulator/somox/cipm/modelrefinement/parameters/util/Utils.java:83-111 | the final expression has one unmatched `(` per conditional still open at the end (the closing loop is commented out) |
| Utils.FindFrom | bundles/org.palladiosimulator.somox.cipm.modelrefinement.parameters/src/org/palladiosimulator/somox/cipm/modelrefinement/parameters/util/Utils.java:136-143 | `find` returns the leftmost match of `\d+\.\d+` at or after the matcher position, with greedy digit runs, or none when there is no later match |
| Utils.Literals | bundles/org.palladiosimulator.somox.cipm.modelrefinement.parameters/src/org/palladiosimulator/somox/cipm/modelrefinement/parameters/util/Utils.java:136-143 | successive `find` calls return non-overlapping well-formed matches in increasing order |
| Utils.LiteralSplit | bundles/org.palladiosimulator.somox.cipm.modelrefinement.parameters/src/org/palladiosimulator/somox/cipm/modelrefinement/parameters/util/Utils.java:145-146 | splitting a match at `.` gives exactly the digit run before and the one after the dot |
| Utils.ParseInt | bundles/org.palladiosimulator.somox.cipm.modelrefinement.parameters/src/org/palladiosimulator/somox/cipm/modelrefinement/parameters/util/Utils.java:146-148 | `Integer.parseInt` succeeds exactly on a non-empty digit run of value at most 2^31 - 1, else throws NumberFormatException |
| Utils.PmfOfMeaning | bundles/org.palladiosimulator.somox.cipm.modelrefinement.parameters/src/org/palladiosimulator/somox/cipm/modelrefinement/parameters/util/Utils.java:145-150 | throws exactly when a digit run exceeds 2^31 - 1; the masses sum to 1 with the upper mass below 1; upper is lower + 1 except at 2^31 - 1 where it wraps to -2^31; the mean over lower and lower + 1 is the literal value |
| Utils.ReplacedPieces | bundles/org.palladiosimulator.somox.cipm.modelrefinement.parameters/src/org/palladiosimulator/somox/cipm/modelrefinement/parameters/util/Utils.java:141-154 | the loop throws only NumberFormatException |
| Utils.ReplaceDoubles | bundles/org.palladiosimulator.somox.cipm.modelrefinement.parameters/src/org/palladiosimulator/somox/cipm/modelrefinement/parameters/util/Utils.java:133-156 | the loop with the shared matcher computes `ReplaceDoublesSpec`, error cases included |
| Utils.ReplacedPiecesAsZip | bundles/org.palladiosimulator.somox.cipm.modelrefinement.parameters/src/org/palladiosimulator/somox/cipm/modelrefinement/parameters/util/Utils.java:140-154 | the loop pairs the k-th `+` piece with the k-th literal that successive `find` calls return on the whole expression, each literal with its text and distribution |
| Utils.ReplacedPiecesFailure | bundles/org.palladiosimulator.somox.cipm.modelrefinement.parameters/src/org/palladiosimulator/somox/cipm/modelrefinement/parameters/util/Utils.java:141-154 | the call throws exactly when one of the first min(pieces, literals) literals has a digit run above 2^31 - 1 |
| Utils.ReplacedPiecesZip | bundles/org.palladiosimulator.somox.cipm.modelrefinement.parameters/src/org/palladiosimulator/somox/cipm/modelrefinement/parameters/util/Utils.java:140-154 | the k-th `+` piece receives the k-th literal of the whole expression; min(pieces, literals) pieces are kept, the others dropped |
| Utils.ReplaceDoublesWithoutLiterals | bundles/org.palladiosimulator.somox.cipm.modelrefinement.parameters/src/org/palladiosimulator/somox/cipm/modelrefinement/parameters/util/Utils.java:138-155 | an expression without a decimal literal gives the empty string |
| Utils.ReplaceDoublesDropsLaterTerm | bundles/org.palladiosimulator.somox.cipm.modelrefinement.parameters/src/org/palladiosimulator/somox/cipm/modelrefinement/parameters/util/Utils.java:140-155 | `5 + 1.5` gives `5 `: the literal is lost together with its term |
| Utils.ReplaceLiteralsKeepsPlusSigns | bundles/org.palladiosimulator.somox.cipm.modelrefinement.parameters/src/org/palladiosimulator/somox/cipm/modelrefinement/parameters/util/Utils.java:128-133 | the corrected rewrite keeps every `+` of the expression |
| Utils.ReplaceDoublesIntendedKeepsTerm | bundles/org.palladiosimulator.somox.cipm.modelrefinement.parameters/src/org/palladiosimulator/somox/cipm/modelrefinement/parameters/util/Utils.java:128-133 | the corrected rewrite turns `5 + 1.5` into `5 + ` followed by the distribution of 1.5 |
| Text.ReplaceFirstPatternLeftmost | bundles/org.palladiosimulator.somox.cipm.modelrefinement.parameters/src/org/palladiosimulator/somox/cipm/modelrefinement/parameters/util/Utils.java:151 | `replaceFirst` replaces exactly the leftmost match of the literal read as a pattern |
| Text.ReplaceFirstPatternNoMatch | bundles/org.palladiosimulator.somox.cipm.modelrefinement.parameters/src/org/palladiosimulator/somox/cipm/modelrefinement/parameters/util/Utils.java:151 | `replaceFirst` without a match leaves the piece unchanged |
| Text.ReplaceFirstWildcard | bundles/org.palladiosimulator.somox.cipm.modelrefinement.parameters/src/org/palladiosimulator/somox/cipm/modelrefinement/parameters/util/Utils.java:151 | the `.` of a literal used as a pattern matches any digit: `1.5` matches `105` |
| ServiceParams.Build | bundles/org.palladiosimulator.somox.cipm.modelrefinement.parameters/src/org/palladiosimulator/somox/cipm/modelrefinement/parameters/ServiceParameters.java:102-107 | null or an empty map give EMPTY; any other map gives an instance holding exactly its entries |
| ServiceParams.BuildFromJson | bundles/org.palladiosimulator.somox.cipm.modelrefinement.parameters/src/org/palladiosimulator/somox/cipm/modelrefinement/parameters/ServiceParameters.java:116-126 | null, empty or unparsable text gives EMPTY; text read as a null map (the JSON `null`) fails with a null pointer, the only failure; otherwise the parsed entries |
| ServiceParams.Merge | bundles/org.palladiosimulator.somox.cipm.modelrefinement.parameters/src/org/palladiosimulator/somox/cipm/modelrefinement/parameters/ServiceParameters.java:128-138 | the key set is the union of both key sets; on a shared key the receiver's value wins; other keys keep the added value |
| ServiceParams.MergeEmptyRight | bundles/org.palladiosimulator.somox.cipm.modelrefinement.parameters/src/org/palladiosimulator/somox/cipm/modelrefinement/parameters/ServiceParameters.java:128-138 | merging EMPTY in changes nothing |
| ServiceParams.MergeEmptyLeft | bundles/org.palladiosimulator.somox.cipm.modelrefinement.parameters/src/org/palladiosimulator/somox/cipm/modelrefinement/parameters/ServiceParameters.java:128-138 | EMPTY merged with `b` is `b` |
| ServiceParams.MergeIdempotent | bundles/org.palladiosimulator.somox.cipm.modelrefinement.parameters/src/org/palladiosimulator/somox/cipm/modelrefinement/parameters/ServiceParameters.java:128-138 | merging an instance with itself gives it back |
| ServiceParams.MergeAbsorbs | bundles/org.palladiosimulator.somox.cipm.modelrefinement.parameters/src/org/palladiosimulator/somox/cipm/modelrefinement/parameters/ServiceParameters.java:128-138 | merging the same parameters in twice equals merging them once |
| ServiceParams.Equals | bundles/org.palladiosimulator.somox.cipm.modelrefinement.parameters/src/org/palladiosimulator/somox/cipm/modelrefinement/parameters/ServiceParameters.java:63-79 | true exactly for another instance with an equal map |
| ServiceParams.EqualsAgreesWithHashCode | bundles/org.palladiosimulator.somox.cipm.modelrefinement.parameters/src/org/palladiosimulator/somox/cipm/modelrefinement/parameters/ServiceParameters.java:63-93 | equal instances have equal hash codes |
| ServiceParams.StringLessIrreflexive | bundles/org.palladiosimulator.somox.cipm.modelrefinement.parameters/src/org/palladiosimulator/somox/cipm/modelrefinement/parameters/ServiceParameters.java:53-55 | the name order of the sorted map is irreflexive |
| ServiceParams.StringLessTransitive | bundles/org.palladiosimulator.somox.cipm.modelrefinement.parameters/src/org/palladiosimulator/somox/cipm/modelrefinement/parameters/ServiceParameters.java:53-55 | the name order is transitive |
| ServiceParams.StringLessTotal | bundles/org.palladiosimulator.somox.cipm.modelrefinement.parameters/src/org/palladiosimulator/somox/cipm/modelrefinement/parameters/ServiceParameters.java:53-55 | any two different names are ordered |
| ServiceParams.GetParameters | bundles/org.palladiosimulator.somox.cipm.modelrefinement.parameters/src/org/palladiosimulator/somox/cipm/modelrefinement/parameters/ServiceParameters.java:86-88 | every entry once, with its value, in strictly ascending name order |
| ParamsWithClass.Make | bundles/org.palladiosimulator.somox.cipm.modelrefinement.parameters/src/org/palladiosimulator/somox/cipm/modelrefinement/parameters/util/ParametersWithClass.java:16-32 | the getters return the parameters, class value and weight given to the constructor |
| ParamsWithClass.MakeWithDefaultWeight | bundles/org.palladiosimulator.somox.cipm.modelrefinement.parameters/src/org/palladiosimulator/somox/cipm/modelrefinement/parameters/util/ParametersWithClass.java:12-14 | the two-argument constructor gives weight 1.0 |
| DataSetBuilder.WekaDataSetBuilder.constructor | bundles/org.palladiosimulator.somox.cipm.modelrefinement.parameters/src/org/palladiosimulator/somox/cipm/modelrefinement/parameters/util/WekaDataSetBuilder.java:38-44 | a builder with the given service calls and mode and no rows |
| DataSetBuilder.WekaDataSetBuilder.WithMode | bundles/org.palladiosimulator.somox.cipm.modelrefinement.parameters/src/org/palladiosimulator/somox/cipm/modelrefinement/parameters/util/WekaDataSetBuilder.java:46-48 | a builder without service calls |
| DataSetBuilder.WekaDataSetBuilder.AddInstanceWithWeight | bundles/org.palladiosimulator.somox.cipm.modelrefinement.parameters/src/org/palladiosimulator/somox/cipm/modelrefinement/parameters/util/WekaDataSetBuilder.java:75-78 | appends exactly one row with the given parameters, class value and weight |
| DataSetBuilder.WekaDataSetBuilder.AddInstance | bundles/org.palladiosimulator.somox.cipm.modelrefinement.parameters/src/org/palladiosimulator/somox/cipm/modelrefinement/parameters/util/WekaDataSetBuilder.java:71-73 | appends exactly one row of weight 1.0 |
| DataSetBuilder.WekaDataSetBuilder.AddInstanceForExecutionWithWeight | bundles/org.palladiosimulator.somox.cipm.modelrefinement.parameters/src/org/palladiosimulator/somox/cipm/modelrefinement/parameters/util/WekaDataSetBuilder.java:58-65 | throws IllegalArgumentException and adds nothing without service calls; otherwise appends the caller's parameters with weight 1.0, ignoring the weight argument |
| DataSetBuilder.WekaDataSetBuilder.AddInstanceForExecution | bundles/org.palladiosimulator.somox.cipm.modelrefinement.parameters/src/org/palladiosimulator/somox/cipm/modelrefinement/parameters/util/WekaDataSetBuilder.java:80-82 | the same with the default weight |
| DataSetBuilder.WekaDataSetBuilder.AddInstanceWithReturnValues | bundles/org.palladiosimulator.somox.cipm.modelrefinement.parameters/src/org/palladiosimulator/somox/cipm/modelrefinement/parameters/util/WekaDataSetBuilder.java:67-70 | appends the caller's parameters merged with the return values, caller winning, weight 1.0; without service calls a null dereference and no row |
| DataSetBuilder.WekaDataSetBuilder.Build | bundles/org.palladiosimulator.somox.cipm.modelrefinement.parameters/src/org/palladiosimulator/somox/cipm/modelrefinement/parameters/util/WekaDataSetBuilder.java:84-87 | the data set holds the rows in insertion order and the mode |
| DataSetBuilder.WekaDataSetBuilder.GetMode | bundles/org.palladiosimulator.somox.cipm.modelrefinement.parameters/src/org/palladiosimulator/somox/cipm/modelrefinement/parameters/util/WekaDataSetBuilder.java:89-91 | the mode given at construction |
| ParameterToOptimize.ParameterToOptimize.constructor | bundles/org.palladiosimulator.somox.cipm.modelrefinement.parameters/src/org/palladiosimulator/somox/cipm/modelrefinement/parameters/ParameterToOptimize.java:15-19 | the attribute map is the model's attribute-to-values map |
| ParameterToOptimize.ParameterToOptimize.GetNumericAttr | bundles/org.palladiosimulator.somox.cipm.modelrefinement.parameters/src/org/palladiosimulator/somox/cipm/modelrefinement/parameters/ParameterToOptimize.java:26-34 | throws IndexOutOfBounds exactly when some attribute has no value; otherwise exactly the attributes whose first value is a Double, with their lists |
| ParameterToOptimize.ParameterToOptimize.GetNominalAttr | bundles/org.palladiosimulator.somox.cipm.modelrefinement.parameters/src/org/palladiosimulator/somox/cipm/modelrefinement/parameters/ParameterToOptimize.java:41-50 | the same for a String first value |
| ParameterToOptimize.SplitIsPartition | bundles/org.palladiosimulator.somox.cipm.modelrefinement.parameters/src/org/palladiosimulator/somox/cipm/modelrefinement/parameters/ParameterToOptimize.java:26-50 | the numeric and nominal maps are disjoint, take their lists unchanged, and together hold exactly the attributes whose first value is a Double or a String |
| ParameterToOptimize.OtherClassesInNeither | bundles/org.palladiosimulator.somox.cipm.modelrefinement.parameters/src/org/palladiosimulator/somox/cipm/modelrefinement/parameters/ParameterToOptimize.java:29-30 | an attribute whose first value is an Integer, Long or Boolean is in neither map |
| ParameterToOptimize.ParameterToOptimize.GetId | bundles/org.palladiosimulator.somox.cipm.modelrefinement.parameters/src/org/palladiosimulator/somox/cipm/modelrefinement/parameters/ParameterToOptimize.java:52-54 | the id given at construction |
| ParameterToOptimize.ParameterToOptimize.GetModel | bundles/org.palladiosimulator.somox.cipm.modelrefinement.parameters/src/org/palladiosimulator/somox/cipm/modelrefinement/parameters/ParameterToOptimize.java:56-58 | the model given at construction |
| PcmUtils.ObjectsOfMembers | bundles/org.palladiosimulator.somox.cipm.modelrefinement.parameters/src/org/palladiosimulator/somox/cipm/modelrefinement/parameters/util/PcmUtils.java:61-71 | every content object of the type is in the result and every result element is such an object |
| PcmUtils.ObjectsOfConcat | bundles/org.palladiosimulator.somox.cipm.modelrefinement.parameters/src/org/palladiosimulator/somox/cipm/modelrefinement/parameters/util/PcmUtils.java:63-69 | the result follows traversal order: the objects of a concatenation are those of each part in turn |
| PcmUtils.ObjectsOfNone | bundles/org.palladiosimulator.somox.cipm.modelrefinement.parameters/src/org/palladiosimulator/somox/cipm/modelrefinement/parameters/util/PcmUtils.java:61-71 | without an object of the type the list is empty |
| PcmUtils.GetObjects | bundles/org.palladiosimulator.somox.cipm.modelrefinement.parameters/src/org/palladiosimulator/somox/cipm/modelrefinement/parameters/util/PcmUtils.java:61-71 | the loop over the contents computes `ObjectsOf` |
| PcmUtils.StopIndex | bundles/org.palladiosimulator.somox.cipm.modelrefinement.parameters/src/org/palladiosimulator/somox/cipm/modelrefinement/parameters/util/PcmUtils.java:181-187 | the scan stops at the first step that is not added and whose id is the same String object as the action's |
| PcmUtils.CollectedOfMembers | bundles/org.palladiosimulator.somox.cipm.modelrefinement.parameters/src/org/palladiosimulator/somox/cipm/modelrefinement/parameters/util/PcmUtils.java:182-183 | the added steps are external calls with another id text taken from the steps, and every such step is added |
| PcmUtils.CollectedOfConcat | bundles/org.palladiosimulator.somox.cipm.modelrefinement.parameters/src/org/palladiosimulator/somox/cipm/modelrefinement/parameters/util/PcmUtils.java:181-183 | the added steps keep step order |
| PcmUtils.GetPredecessorsFor | bundles/org.palladiosimulator.somox.cipm.modelrefinement.parameters/src/org/palladiosimulator/somox/cipm/modelrefinement/parameters/util/PcmUtils.java:178-189 | the loop with its `break` computes `Predecessors` |
| PcmUtils.PredecessorsExactly | bundles/org.palladiosimulator.somox.cipm.modelrefinement.parameters/src/org/palladiosimulator/somox/cipm/modelrefinement/parameters/util/PcmUtils.java:178-189 | the predecessors are exactly the external calls with another id text before the stop |
| PcmUtils.PredecessorsWhenAbsent | bundles/org.palladiosimulator.somox.cipm.modelrefinement.parameters/src/org/palladiosimulator/somox/cipm/modelrefinement/parameters/util/PcmUtils.java:181-187 | when no step has the action's id object, every external call with another id text is a predecessor |
| PcmUtils.StopsAtSameObject | bundles/org.palladiosimulator.somox.cipm.modelrefinement.parameters/src/org/palladiosimulator/somox/cipm/modelrefinement/parameters/util/PcmUtils.java:182-185 | when ids that are one String object share its text, the scan stops exactly at the steps whose id is the action's own object |
| PcmUtils.PredecessorsScanPastEqualText | bundles/org.palladiosimulator.somox.cipm.modelrefinement.parameters/src/org/palladiosimulator/somox/cipm/modelrefinement/parameters/util/PcmUtils.java:184 | a step with an equal id text in another String object does not stop the scan |
| PcmUtils.ExternalCallsOf | bundles/org.palladiosimulator.somox.cipm.modelrefinement.parameters/src/org/palladiosimulator/somox/cipm/modelrefinement/parameters/util/PcmUtils.java:212 | the external calls found are exactly those among the contents |
| PcmUtils.ExternalCallById | bundles/org.palladiosimulator.somox.cipm.modelrefinement.parameters/src/org/palladiosimulator/somox/cipm/modelrefinement/parameters/util/PcmUtils.java:211-216 | null exactly when no external call calls `serviceId`; otherwise an external call of the contents calling it |
| PcmUtils.SeffsOf | bundles/org.palladiosimulator.somox.cipm.modelrefinement.parameters/src/org/palladiosimulator/somox/cipm/modelrefinement/parameters/util/PcmUtils.java:219 | the SEFFs found are exactly those among the contents |
| PcmUtils.SignatureToSeffId | bundles/org.palladiosimulator.somox.cipm.modelrefinement.parameters/src/org/palladiosimulator/somox/cipm/modelrefinement/parameters/util/PcmUtils.java:218-224 | throws NullPointerException exactly when no SEFF describes `signId`; otherwise the id of a SEFF of the contents that describes it |
| PcmUtils.SeffIdsOf | bundles/org.palladiosimulator.somox.cipm.modelrefinement.parameters/src/org/palladiosimulator/somox/cipm/modelrefinement/parameters/util/PcmUtils.java:199-201 | one SEFF id per action, in order; throws exactly when one of the called services has no SEFF |
| PcmUtils.PredecessorsSeffIds | bundles/org.palladiosimulator.somox.cipm.modelrefinement.parameters/src/org/palladiosimulator/somox/cipm/modelrefinement/parameters/util/PcmUtils.java:198-202 | same length and order as the predecessors, each element the SEFF id of the service that predecessor calls |
| PcmUtils.CreateVariableUsage | bundles/org.palladiosimulator.somox.cipm.modelrefinement.parameters/src/org/palladiosimulator/somox/cipm/modelrefinement/parameters/util/PcmUtils.java:156-169 | exactly one characterisation, with the given type and specification |
| PcmUtils.CreateVariableUsageName | bundles/org.palladiosimulator.somox.cipm.modelrefinement.parameters/src/org/palladiosimulator/somox/cipm/modelrefinement/parameters/util/PcmUtils.java:161 | the reference name is the variable name with the suffix underscores turned into dots, no suffix left; a name without suffixes is used as it is |

## Left out

- I/O and EMF plumbing are not modelled: `PcmUtils.loadModel` and `saveModel`, `ParameterToOptimize.printAttr` (console output), the EMF factories and the containment tree. A repository is the sequence of objects its content traversal visits. An action carries its id, its kind and the id of the service it calls; the called service is never null.
- Foreign code is taken as given:
  - Weka is out of scope. Training a classifier is not modelled. The coefficient array and attribute names of a linear regression, and the text of a J48 dump, are inputs.
  - The `WekaDataSet` constructor and `ServiceCallDataSet` are not part of this model. They become a plain record and a lookup function.
  - Jackson's JSON reader is the `parse` parameter of `ServiceParams.BuildFromJson`; it says whether a text reads as a map, as a null map or not at all, and `Map.hashCode` is the `mapHash` parameter.
- Utils.Round: the model rounds the exact value. It does not model the conversion of a double to its shortest decimal text by `BigDecimal.valueOf`, or the conversion of the result back to the nearest double. It does not model the NumberFormatException that `BigDecimal.valueOf` throws for NaN and the infinities, because a `real` has no such values.
- Utils.PmfOf: the fraction is exact. Java divides by `Math.pow(10, length)` in double arithmetic, which is inexact for long fractions.
- Text.ReplaceFirstPattern: the replacement text is inserted literally. Java would interpret a `$` or `\` in it, and `DecimalFormat` output is assumed to contain neither.
- `findAny` in `externalCallById` and `signatureToSeffId` may return any matching object. The model returns the first in traversal order, which is what a sequential stream returns.
- `EMPTY` is the value with no entries. Whether a call returns the shared instance itself (reference identity) is not modelled.
- ServiceParams.StringLessTotal: names are ordered by Unicode scalar value. `String.compareTo` compares UTF-16 code units, and the two orders differ on characters outside the Basic Multilingual Plane.
- `ServiceParameters.merge` would throw on a null value inside `Collectors.toMap`. Values are never null here.
- ParameterToOptimize.ParameterToOptimize.constructor: the attribute map is copied when the object is built. In Java it is shared with the model's data set, so later changes to that data set would show through.
- Utils.GetStoExTree: the text a line appends is computed by the function `TreeLine`, called from the loop. `StringBuilder` appends become sequence concatenation.
- Interfaces without behaviour, and the rest of the bundle, are not part of this model. The rest includes estimator wiring and the genetic optimisation with its own `Utils`.

## Findings

| source | as written | input that shows it | evidently intended | confidence | as-written member | corrected member |
|---|---|---|---|---|---|---|
| bundles/org.palladiosimulator.somox.cipm.modelrefinement.parameters/src/org/palladiosimulator/somox/cipm/modelrefinement/parameters/util/Utils.java:140-154 | The k-th piece between `+` signs receives the k-th decimal literal of the whole expression. A piece is only added while `find` still succeeds. | `5 + 1.5` gives `5 `: the first piece does not contain `1.5` and is kept as it is, and the term that holds the literal is dropped. | Every decimal literal is replaced in place and all terms are kept. `Utils.ReplaceLiteralsKeepsPlusSigns` proves that every `+` survives, and `Utils.ReplaceDoublesIntendedKeepsTerm` gives `5 + IntPMF[...]`. | not executed | Utils.ReplaceDoublesDropsLaterTerm | Utils.ReplaceDoublesIntended |
| bundles/org.palladiosimulator.somox.cipm.modelrefinement.parameters/src/org/palladiosimulator/somox/cipm/modelrefinement/parameters/util/Utils.java:116 | `replaceAll` is given the pipe character as a one-character regular expression. There it is an alternation of two empty branches, which matches only the empty string, so no pipe is removed. | `cleanStoEx` of a pipe followed by `a` gives that text back. A nested J48 tree keeps the pipe prefixes of its inner conditions. | Every pipe is removed, as the comment on line 115 says, for example with `String.replace`. `Utils.CleanStoExIntended` leaves no pipe, and `Utils.TreeIntendedHasNoPipes` carries this to the tree expression. | not executed | Utils.CleanStoExKeepsPipe | Utils.CleanStoExIntended |
