# McRule filter rules in Dafny

McRule compiles small textual filter rules into boolean predicates. Each rule is a triple: the name of a target type, the name of a member, and a value pattern. The predicates are then combined into AND/OR policies. In .NET the result is an expression tree built by reflection. This model uses a predicate syntax tree instead (`Predicates.Pred`) with an evaluator, `Predicates.Eval`. The evaluator works over a record that maps member names to values, and it yields `Known(b)` or `Throws` (a dereference of a null member), so null guards have observable meaning.

The repository carries three generations of the value-pattern grammar, and all three are modelled:

- **`Ruler` (Ruler/Ruler.cs).** Only `*` wildcards and case-sensitive matching. A value without wildcards becomes an unguarded `==`.
- **`FilterPolicies` (McRule/McRule.cs).** Adds `~` for ignore-case matching and a nested `Rule` collection. A leading `!` is literal text.
- **`PolicyExtensions` (McRule/PredicateExpressionPolicyExtensions.cs).** Adds `!` negation. It is the grammar the rule objects use.

For comparable members, a leading run of `!<>=` picks the comparison. Integer operands that contain a `.` are rounded half-to-even first. Nullable members get a not-null guard. A collection member tests whether the collection contains the raw value.

Around the grammars:

- `Combinators` holds the AND/OR folds.
- `PolicyCompiler` holds the policy compiler.
- `ExpressionRules` and `FilterRules` hold the two rule classes. Each class keeps a mutable cache of its compiled predicate; `RuleCache` holds the shared specification of that cache.
- `FilterPatternHelpers` adds sigils to a raw search term.
- `NpgsqlGenerator` and `EfCoreExtensions` model the two database back ends. They build ILIKE/`%` patterns; `SqlLike` gives the meaning of LIKE/ILIKE.

Supporting modules:

- `Results` holds the outcome and error datatypes.
- `Text` holds the string helpers that .NET's `Trim`, `StartsWith` and `IndexOf` stand for.
- `Numbers` holds integer and decimal parsing, `Math.Round` and the integral widths.

## Model

| member | source | states |
|---|---|---|
| PredicateBuilder.True | Ruler/Ruler.cs:40-43 | accepts every record |
| PredicateBuilder.False | Ruler/Ruler.cs:45-48 | rejects every record |
| PredicateBuilder.And | Ruler/Ruler.cs:58-64 | holds exactly when both operands hold; a rejecting left operand decides alone; never throws when neither operand throws |
| PredicateBuilder.Or | Ruler/Ruler.cs:50-56 | holds exactly when the left holds, or the left rejects and the right holds (left-to-right short circuit); never throws when neither operand throws |
| Predicates.GuardedEval | McRule/PredicateExpressionPolicyExtensions.cs:57-64 | `member != null && e` rejects a record whose member is null and otherwise evaluates as `e` |
| Predicates.Render | McRule/ExpressionRule.cs:86-88 | the printed form of a predicate is non-empty |
| Combinators.AndAll | McRule/PredicateExpressionPolicyExtensions.cs:232-240 | the left AND-fold holds iff every operand holds; rejects iff some operand rejects after all before it held; never throws when no operand throws |
| Combinators.OrAll | McRule/PredicateExpressionPolicyExtensions.cs:246-254 | the left OR-fold holds iff some operand holds after all before it rejected; rejects iff every operand rejects |
| Combinators.OrAllWhenTotal | McRule/PredicateExpressionPolicyExtensions.cs:246-254 | when no operand throws, the OR-fold never throws and holds iff some operand holds |
| Combinators.CombinedMeaning | McRule/PredicateExpressionPolicyExtensions.cs:259-266 | combining gives no predicate iff the list is empty; under And it holds iff all hold; under Or (no operand throwing) it holds iff one holds |
| Combinators.CombineAnd | McRule/PredicateExpressionPolicyExtensions.cs:232-240 | the loop returns null for an empty list and otherwise the AND-fold, so a single predicate comes back unchanged |
| Combinators.CombineOr | McRule/PredicateExpressionPolicyExtensions.cs:246-254 | the loop returns null for an empty list and otherwise the OR-fold |
| Combinators.CombinePredicates | McRule/PredicateExpressionPolicyExtensions.cs:259-266 | null for an empty list; And folds with AND, every other operator with OR |
| PolicyExtensions.AddStringPropertyExpression | McRule/PredicateExpressionPolicyExtensions.cs:22-52 | never throws on a null or string member; holds iff the member is a non-null string that passes the StartsWith/EndsWith/Contains/Equals test, case-folded when ignoreCase is set |
| PolicyExtensions.AddNullCheck | McRule/PredicateExpressionPolicyExtensions.cs:57-64 | rejects a null member and otherwise evaluates as the guarded comparison |
| PolicyExtensions.Negate | McRule/PredicateExpressionPolicyExtensions.cs:72-80 | holds exactly where the operand rejects, rejects where it holds, throws where it throws |
| PolicyExtensions.GetComparer | McRule/PredicateExpressionPolicyExtensions.cs:86-95 | `>` `>=` `<` `<=` give the orderings, `<>` `!=` `!` give inequality, anything else gives equality |
| PolicyExtensions.GetArrayContainsExpression | McRule/PredicateExpressionPolicyExtensions.cs:206-226 | never throws on a null or collection member; holds iff the collection is non-null and contains the raw value |
| PolicyExtensions.FinishComparisonAsWritten | McRule/PredicateExpressionPolicyExtensions.cs:195-203 | the code as written fails exactly when no comparison was built (the empty operand) |
| PolicyExtensions.FinishComparison | McRule/PredicateExpressionPolicyExtensions.cs:195-203 | the corrected tail (see Findings): with no comparison the predicate rejects every record; on a nullable member a null value rejects; otherwise it evaluates as the comparison |
| PolicyExtensions.PredicateFor | McRule/PredicateExpressionPolicyExtensions.cs:107-204 | a missing member fails with MemberNotFound; compilation can fail only for a missing or an integral member |
| PolicyExtensions.CompileStringRule | McRule/PredicateExpressionPolicyExtensions.cs:133-172 | the step-by-step string branch yields the rule of the parsed pattern |
| PolicyExtensions.CompileComparison | McRule/PredicateExpressionPolicyExtensions.cs:173-188 | the step-by-step comparable branch yields the comparison of the split operator and operand |
| PolicyExtensions.GetPredicateExpressionForType | McRule/PredicateExpressionPolicyExtensions.cs:107-204 | the method that dispatches on the member's kind yields exactly the leaf compiler's result |
| PolicyLaws.TextTestIsGlob | McRule/PredicateExpressionPolicyExtensions.cs:157-165 | each of StartsWith, EndsWith, Contains and Equals is a glob match with the right ends left free |
| PolicyLaws.WildcardIsGlob | McRule/PredicateExpressionPolicyExtensions.cs:157-165 | a leading `*` frees the start, a trailing `*` frees the end; both give Contains with every edge `*` trimmed, one gives EndsWith or StartsWith, none gives Equals |
| PolicyLaws.PatternFields | McRule/PredicateExpressionPolicyExtensions.cs:141-155 | the parsed pattern negates iff the value starts with `!`, and ignores case iff `~` follows the stripped `!` run |
| PolicyLaws.StringRuleMeaning | McRule/PredicateExpressionPolicyExtensions.cs:133-172 | a string rule never throws and holds iff an independent reading of the value pattern (sigils then glob) accepts the member |
| PolicyLaws.StringRuleEval | McRule/PredicateExpressionPolicyExtensions.cs:141-169 | the string rule evaluates as the guarded match, negated when the pattern starts with `!` |
| PolicyLaws.FoldedGlob | McRule/PredicateExpressionPolicyExtensions.cs:151-155 | with `~` the match is the glob match of the case-folded member against the case-folded literal |
| PolicyLaws.NegationLaw | McRule/PredicateExpressionPolicyExtensions.cs:141-169 | a `!` value is the exact logical negation of the rule for the value with all leading `!` removed |
| PolicyLaws.BangPattern | McRule/PredicateExpressionPolicyExtensions.cs:141-145 | a leading `!` run sets the negation flag, and the rest parses to a pattern without it |
| PolicyLaws.PlainPattern | McRule/PredicateExpressionPolicyExtensions.cs:140-164 | a value with no sigil in front and no `*` at either end is a case-sensitive exact match of itself, not negated |
| PolicyLaws.StringMemberRule | McRule/PredicateExpressionPolicyExtensions.cs:133-172 | a string member compiles to the string rule of its parsed pattern |
| PolicyLaws.IntMemberRule | McRule/PredicateExpressionPolicyExtensions.cs:173-203 | an integral member compiles iff its comparison does, and then to the finished comparison with the member's nullability |
| PolicyLaws.DoubleBangIsSingle | McRule/PredicateExpressionPolicyExtensions.cs:141-145 | `!!v` means the same as `!v` because every leading `!` is stripped and negation applies once |
| PolicyLaws.TildeBeforeBang | McRule/PredicateExpressionPolicyExtensions.cs:141-155 | `~` is recognised only after `!`: `~!x` is a case-insensitive match of the text `!x`, not a negation |
| PolicyLaws.NullStringMember | McRule/PredicateExpressionPolicyExtensions.cs:133-172 | on a null string member an un-negated rule rejects and a negated rule holds |
| PolicyLaws.ComparisonMeaning | McRule/PredicateExpressionPolicyExtensions.cs:173-203 | a compiled comparison on an integral member never throws; a non-empty operand parses; it holds iff the operand is non-empty, the member is a number, and that number stands in the operator's ordering to the parsed operand |
| PolicyLaws.CompiledComparison | McRule/PredicateExpressionPolicyExtensions.cs:195-201 | a comparison that compiles evaluates as the chosen ordering on the parsed operand, behind the null guard on nullable members |
| PolicyLaws.NullNeverCompares | McRule/PredicateExpressionPolicyExtensions.cs:199-201 | on a nullable member a null value matches no operator, `!=` included |
| PolicyLaws.EmptyOperandRejects | McRule/PredicateExpressionPolicyExtensions.cs:178-201 | with the corrected finish, an empty operand gives a predicate that rejects every record |
| PolicyLaws.EmptyOperandAsWritten | McRule/PredicateExpressionPolicyExtensions.cs:195-203 | as written, a value that is all operator on an integral member, nullable or not, fails to compile instead of giving always-false |
| PolicyLaws.OperatorOnlyValue | McRule/PredicateExpressionPolicyExtensions.cs:175-176 | the value `>=` splits into the operator `>=` and an empty operand |
| PolicyLaws.RoundedOperand | McRule/PredicateExpressionPolicyExtensions.cs:179-183 | an integral operand with a `.` is parsed as a decimal and replaced by its half-to-even rounding before integer parsing |
| PolicyLaws.CollectionRuleIsVerbatim | McRule/PredicateExpressionPolicyExtensions.cs:189-190 | a collection member gives the contains test of the raw value: `!`, `~` and `*` are not interpreted |
| PolicyLaws.LeafNeverThrows | McRule/PredicateExpressionPolicyExtensions.cs:107-204 | every predicate the leaf compiler yields never throws on a well-typed record |
| Numbers.ParseIntegral | McRule/PredicateExpressionPolicyExtensions.cs:179-183 | parsing an integral operand succeeds iff the text is a signed digit string whose value lies in the width's range, and then yields that value |
| Numbers.ParseIntRoundTrip | McRule/PredicateExpressionPolicyExtensions.cs:179-183 | printing an integer and parsing it back gives the same integer |
| Numbers.MagnitudeNearest | McRule/PredicateExpressionPolicyExtensions.cs:181 | the rounded magnitude is within half a unit of digits / 10^scale, and even on a tie |
| Numbers.RoundIsNearestEven | McRule/PredicateExpressionPolicyExtensions.cs:181 | the rounded decimal lies within half a unit of the decimal, and a tie lands on an even integer |
| Numbers.SignAtEitherEnd | McRule/PredicateExpressionPolicyExtensions.cs:181 | `decimal.Parse` in the number style reads a sign the same way whether it leads or trails the number |
| RuleCache.CompileRule | McRule/ExpressionRule.cs:62-64 | a null property fails; with property and value set the rule compiles with the newest grammar; a null value on a member of another reference type compiles to `x.m == null` |
| RuleCache.Refill | McRule/ExpressionRule.cs:59-67 | a filled cache is never changed, and a type-name mismatch never fills it |
| RuleCache.RefillUnlessNoCache | McRule/ExpressionRule.cs:72-80 | with NoCache set the getter taking options leaves the cache alone |
| RuleCache.RefillKeepsOutcome | McRule/ExpressionRule.cs:59-67 | filling the cache is idempotent and does not change what the cached getter returns, so asking twice answers as asking once |
| RuleCache.CacheIgnoresLaterEdits | McRule/ExpressionRule.cs:34-66 | once the first applicable call filled the cache, later edits to Property and Value do not change the cached getter's result |
| RuleCache.FreshIsFirstCall | McRule/ExpressionRule.cs:72-80 | the getter taking options returns what the cached getter would return on an empty cache, whatever the cache holds |
| RuleCache.OptionsRefillKeepsOutcome | McRule/ExpressionRule.cs:72-80 | the getter taking options never changes what the cached getter returns |
| RuleCache.SameNameOtherType | McRule/ExpressionRule.cs:60-66 | the cache is keyed by type name only: once filled for one type, another type whose name matches the target ignoring case gets an invalid cast |
| RuleCache.RuleTextRoundTrip | McRule/ExpressionRule.cs:82-84 | `[T]P='V']` gives back T, P and V when T has no `]` and P has no `=` |
| ExpressionRules.ExpressionRule.Empty | McRule/ExpressionRule.cs:42 | all three fields are null and the cache is empty |
| ExpressionRules.ExpressionRule.constructor | McRule/ExpressionRule.cs:44-48 | stores target type, property and value, with an empty cache |
| ExpressionRules.ExpressionRule.FromTuple | McRule/ExpressionRule.cs:50-54 | assigns the tuple's items to TargetType, Property and Value in order |
| ExpressionRules.ExpressionRule.GetExpression | McRule/ExpressionRule.cs:59-67 | returns the cached outcome (null on a type-name mismatch); fills the cache as the cache specification says; the rule's observable view is unchanged |
| ExpressionRules.ExpressionRule.GetExpressionWith | McRule/ExpressionRule.cs:72-80 | always returns a fresh compile; writes the cache only when it is empty and NoCache is off; never changes what the cached getter returns |
| ExpressionRules.ExpressionRule.ToString | McRule/ExpressionRule.cs:82-84 | the text parses back to the three fields |
| ExpressionRules.ExpressionRule.GetFilterString | McRule/ExpressionRule.cs:86-88 | succeeds iff the cached getter would; gives the empty text iff the rule does not apply |
| ExpressionRules.NewExpressionRuleCollection | McRule/ExpressionRule.cs:8-14 | a new collection has operator And, no rules and no target type |
| ExpressionRules.CombineChildrenMeaning | McRule/ExpressionRule.cs:16-22 | with every child applicable, the collection holds under And iff all children hold, and under Or (no child throwing) iff one holds |
| ExpressionRules.GetExpression | McRule/ExpressionRule.cs:16-30 | asks each child in order and returns the collection outcome: the first failure, or the fold of the children's results, which fails when any child is not applicable |
| ExpressionRules.AskChildren | McRule/ExpressionRule.cs:17 | the walk over the children yields their outcomes in order, or the first failure, and keeps every rule's view mirrored |
| ExpressionRules.ChildOutcomesStep | McRule/ExpressionRule.cs:17 | one more child extends the outcomes by its own, or ends them with its failure |
| ExpressionRules.AskChild | McRule/ExpressionRule.cs:17 | a child's answer is its own outcome (a leaf through its cache, a nested collection recursively) |
| ExpressionRules.CombineResults | McRule/ExpressionRule.cs:19-21 | Or combines with CombineOr, every other operator with CombineAnd; a null child makes the combination fail |
| PolicyCompiler.GetPredicateExpression | McRule/PredicateExpressionPolicyExtensions.cs:272-292 | keeps children whose target type equals the type name ignoring case, drops null results, combines with the policy operator and falls back to always-false |
| PolicyCompiler.PolicyMeaning | McRule/PredicateExpressionPolicyExtensions.cs:284-291 | with nothing applicable the policy rejects everything; under And it holds iff every applicable predicate holds; under Or (none throwing) iff one holds |
| PolicyCompiler.MismatchContributesNothing | McRule/PredicateExpressionPolicyExtensions.cs:276-279 | appending a child whose target type does not match leaves the policy's outcome unchanged |
| PolicyCompiler.NullChildSkippedOnlyByPolicy | McRule/ExpressionRule.cs:17-21 | a collection with a non-applicable child fails to combine, while the policy compiler over the same children skips it and keeps the other predicate |
| FilterRules.FilterRule.Empty | McRule/FilterRule.cs:27 | all three fields are null and the cache is empty |
| FilterRules.FilterRule.constructor | McRule/FilterRule.cs:29-33 | stores target type, property and value, with an empty cache |
| FilterRules.FilterRule.FromTuple | McRule/FilterRule.cs:35-39 | assigns the tuple's items to TargetType, Property and Value in order |
| FilterRules.FilterRule.GetFilterExpression | McRule/FilterRule.cs:44-52 | null on a type-name mismatch; otherwise the first applicable result is cached and returned unchanged on every later call; compiles with the negation-aware grammar |
| FilterRules.FilterRule.ToString | McRule/FilterRule.cs:54-56 | the text parses back to the three fields |
| FilterRules.FilterRule.GetFilterString | McRule/FilterRule.cs:58-60 | gives the empty text iff the rule does not apply |
| FilterRules.NewFilterRuleCollection | McRule/FilterRule.cs:8-16 | no nested rule, operator And, no rules |
| FilterPolicies.LegacyStringPattern | McRule/McRule.cs:129-150 | the older grammar never negates: `~` then the wildcards are its only sigils |
| FilterPolicies.GetFilterExpressionForType | McRule/McRule.cs:93-181 | the older leaf compiler yields the string rule of the legacy pattern for string members and the newer grammar's result for the others |
| FilterPolicies.LegacyAgreesWithoutBang | McRule/McRule.cs:120-150 | on a value that does not start with `!`, the older and newer grammars give the same predicate |
| FilterPolicies.BangIsLiteral | McRule/McRule.cs:120-150 | in the older grammar a `!` value without wildcards is an exact match of the text `!…`, where the newer grammar negates |
| FilterPolicies.BangSeanPattern | McRule/PredicateExpressionPolicyExtensions.cs:141-165 | the newer grammar reads `!Sean` as a negated, case-sensitive Equals of `Sean` |
| FilterPolicies.BangSeanLegacy | McRule/McRule.cs:120-150 | in the older grammar `!Sean` holds iff the name is exactly the text `!Sean` |
| FilterPolicies.BangSean | McRule/PredicateExpressionPolicyExtensions.cs:141-169 | in the newer grammar `!Sean` holds iff the name is not `Sean`, a null name included |
| FilterPolicies.CombinePair | McRule/McRule.cs:238-244 | null arguments are dropped; both null gives null, one gives itself, two give their And/Or |
| FilterPolicies.FinishPolicy | McRule/McRule.cs:280-285 | never null: neither result gives always-false, one gives itself, both are combined with the policy operator |
| FilterPolicies.CollectRuleExpressions | McRule/McRule.cs:267-275 | the loop over the rules yields, in order, the non-null predicates of the rules whose target type names the type ignoring case, or the first failure |
| FilterPolicies.GetFilterExpression | McRule/McRule.cs:262-286 | the nested-collection compiler returns the recursive filter outcome: matching rules' predicates, the nested result, and the four-way finish |
| FilterPolicies.MismatchedRuleIgnored | McRule/McRule.cs:269-272 | a rule with a null or differently named target type contributes nothing |
| FilterPolicies.NothingApplicableIsFalse | McRule/McRule.cs:280-282 | with no nested rule and nothing applicable the policy rejects every record |
| FilterPolicies.NestedRejectsUnderAnd | McRule/McRule.cs:277-285 | a nested collection with nothing applicable yields always-false, which makes an And policy reject everything |
| FilterPolicies.FilterPolicyMeaningAnd | McRule/McRule.cs:262-286 | under And the policy holds iff something applied, the nested collection holds and every applicable rule holds |
| Ruler.NewFilterPolicy | Ruler/Ruler.cs:6-13 | a new policy has the given name, operator And, and null properties and scope, so compiling it for any type fails at the loop over the null scope |
| Ruler.AddFilterToStringProperty | Ruler/Ruler.cs:76-101 | the guarded, case-sensitive string test: never throws on null or string, holds iff the member is a non-null string passing the test |
| Ruler.GetFilterForType | Ruler/Ruler.cs:104-136 | a missing member fails with MemberNotFound; a present member fails iff it is integral or a collection (no `==` with a string) |
| Ruler.WildcardsAgree | Ruler/Ruler.cs:112-128 | on a string member, a value with `*` at an end and no leading `!` or `~` compiles to the same predicate in the oldest grammar as in the newest |
| Ruler.UnguardedEqualsAgrees | Ruler/Ruler.cs:109-131 | the unguarded `==` on a string member evaluates as the guarded Equals on null and string values |
| Ruler.SigilsAreLiteral | Ruler/Ruler.cs:112-133 | `~` and `!` are literal text in the oldest grammar: a value starting with either and not ending with `*` holds iff the member is exactly that text |
| Ruler.ScopePredicates | Ruler/Ruler.cs:182-185 | one predicate per scope pair, in scope order, each the leaf compiler's result for that pair |
| Ruler.GetFilterExpression | Ruler/Ruler.cs:179-188 | a null scope fails; otherwise the loop yields the combination of the scope's predicates with the policy operator, with no target-type filtering |
| Ruler.PolicyFilterMeaning | Ruler/Ruler.cs:179-188 | a policy that compiles has a non-null scope; the filter is null iff the scope is empty; under And it holds iff every scope predicate holds; under Or (none throwing) iff one holds |
| FilterPatternHelpers.AddFilterOptionsIfNotSpecified | McRule.Tests/McAttributes/FilterPatternHelpers.cs:8-28 | the step-by-step rewrite equals the option specification |
| FilterPatternHelpers.OptionsCases | McRule.Tests/McAttributes/FilterPatternHelpers.cs:7-28 | a pattern starting with `~` or `*` or ending with `*` comes back trimmed; otherwise Contains gives `*p*`, StartsWith and EndsWith give `p*`, `*p` or `*p*`, and IgnoreCase prepends `~` outside |
| FilterPatternHelpers.NoOptionsTrims | McRule.Tests/McAttributes/FilterPatternHelpers.cs:8-27 | with None the trimmed pattern comes back |
| FilterPatternHelpers.BangIsNotAnOption | McRule.Tests/McAttributes/FilterPatternHelpers.cs:7-14 | `!x` with Contains becomes `*!x*` |
| FilterPatternHelpers.ContainsIgnoreCaseText | McRule.Tests/McAttributes/FilterPatternHelpers.cs:9-25 | for a term without sigils, Contains+IgnoreCase yields `~*p*` with p the trimmed term |
| FilterPatternHelpers.ParseFoldedContains | McRule/PredicateExpressionPolicyExtensions.cs:141-158 | the newest grammar reads `~*p*` as an un-negated, case-insensitive Contains of p when p has no `*` at either end |
| FilterPatternHelpers.ContainsIgnoreCaseRoundTrip | McRule.Tests/McAttributes/FilterPatternHelpers.cs:9-25 | for a term without sigils, the output of Contains+IgnoreCase is read by the newest grammar as a case-insensitive Contains of the trimmed term |
| NpgsqlGenerator.AddStringPropertyExpression | McRule.Tests/McAttributes/NpgsqlGenerator.cs:14-64 | ignoreCase gives a bare ILIKE call with `p%`, `%p` or `%p%` (Equals: `p` unchanged); otherwise an unguarded call of the named string method |
| NpgsqlGenerator.ILikeMatchesFoldedTest | McRule.Tests/McAttributes/NpgsqlGenerator.cs:25-51 | for a filter without `%`, `_` or `\`, the ILIKE pattern accepts a string iff the case-folded string test does |
| NpgsqlGenerator.UnescapedUnderscore | McRule.Tests/McAttributes/NpgsqlGenerator.cs:28-34 | the filter is spliced in unescaped: the Equals filter `a_c` matches `abc` |
| NpgsqlGenerator.CaseSensitiveIsUnguarded | McRule.Tests/McAttributes/NpgsqlGenerator.cs:56-63 | the case-sensitive path throws on a null member where the guarded core version rejects |
| EfCoreExtensions.EfPredicateAsWritten | McRule.EF/CoreExtensionFunctions.cs:16-59 | always `member != null && call`; a null member rejects; the call is Contains of the trimmed filter, Contains of `%`+trimmed for StartsWith, Contains of trimmed+`%` for EndsWith, and the named method on the untrimmed filter otherwise |
| EfCoreExtensions.AddStringPropertyExpressionWithEF | McRule.EF/CoreExtensionFunctions.cs:16-59 | the step-by-step switch yields that predicate, whatever ignoreCase and supportEF are |
| EfCoreExtensions.AddStringPropertyExpression | McRule.EF/CoreExtensionFunctions.cs:9-11 | the four-argument overload gives the five-argument result |
| EfCoreExtensions.StartsWithCall | McRule.EF/CoreExtensionFunctions.cs:36-38 | StartsWith `ab` becomes a Contains test of `%ab` |
| EfCoreExtensions.StartsWithAsWritten | McRule.EF/CoreExtensionFunctions.cs:36-41 | on the name `abc`, StartsWith `ab` holds as a string test, but the predicate as written rejects |
| EfCoreExtensions.EfPredicate | McRule.EF/CoreExtensionFunctions.cs:29-45 | the corrected back end: a null member rejects; otherwise it holds iff the string test of the trimmed filter passes (the untrimmed filter for Equals) |
| EfCoreExtensions.EfPredicateAgrees | McRule.EF/CoreExtensionFunctions.cs:32-45 | for a filter without edge spaces or `*`, the corrected back end equals the core guarded string test |

## Left out

- Expression trees, reflection (`Expression.Property`, `GetMethod`, `Compile`) and the generic type parameter are replaced by the `Pred` syntax tree, its evaluator and a `TypeDesc` (type name plus member kinds).
- Member kinds are limited to strings, integral types (16 to 64 bits, signed or unsigned, optionally nullable), string collections and other reference types. DateTime, floating point and other comparables, with their culture-dependent `Parse`, are left out.
- Culture-sensitive comparison (`CurrentCulture`, `CurrentCultureIgnoreCase`) is replaced by ASCII case folding.
- Byte and SByte members are left out: the integral kinds of the model are the twelve types of the rounding list (McRule/PredicateExpressionPolicyExtensions.cs:98-101). Those two are comparable but missing from it, so in .NET their operands skip the decimal rounding.
- Numbers.ParseDecimal: parses with `.` as the decimal point and `,` as the group separator, as the invariant culture does. Other cultures' symbols, currency signs and white space between the digits and a trailing sign are left out.
- Numbers.ParseDecimal: parses to an exact rational. The 28 to 29 significant digits of `decimal`, and its rounding of longer operands, are left out.
- PolicyLaws.RoundedOperand: rounds the exact value of the operand. .NET first rounds an operand with more digits than `decimal` holds, so `0.50000000000000000000000000000001` gives 1 here and 0 in .NET.
- PolicyExtensions.CompileComparison: has the operand limits of Numbers.ParseDecimal listed above.
- PolicyExtensions.PredicateFor: an integral member with an empty operand (the value `>=`) gets the always-false predicate, behind the null guard when nullable. The code as written throws at McRule/PredicateExpressionPolicyExtensions.cs:197-203 (see Findings); the model uses the corrected tail, PolicyExtensions.FinishComparison.
- PolicyExtensions.GetPredicateExpressionForType: the same empty-operand correction as PredicateFor, because it yields PredicateFor's result.
- FilterPolicies.GetFilterExpressionForType: the same empty-operand correction for the copy of that tail at McRule/McRule.cs:174-180.
- PolicyExtensions.PredicateFor: for a member of another reference type, `x.m == value` is modelled as the member's text being equal to the value. `Expression.Equal` (McRule/PredicateExpressionPolicyExtensions.cs:192) compares references when the member's type is a supertype of string such as `object`. It throws when the two types are unrelated and define no `==`. Object identity and the type hierarchy are not modelled.
- PolicyExtensions.GetPredicateExpressionForType: the same text equality for other reference types as PredicateFor.
- FilterPolicies.GetFilterExpressionForType: the same text equality for other reference types, at McRule/McRule.cs:169.
- Ruler.GetFilterForType: the same text equality for other reference types, at Ruler/Ruler.cs:109.
- A parse failure of a comparison operand throws in the code; it is modelled as a `Fail` outcome.
- The PostgreSQL ILIKE function and EF's SQL translation are external. The model builds the pattern string and gives it the LIKE meaning in `SqlLike`. A trailing lone `\` there is read as a literal, where PostgreSQL would raise an error. An ILIKE over a null column is treated as no match.
- The `#if DEBUG` checks that reject an unknown `filterType` are left out: the match kind is an enumeration, so no other kind can be passed.
- Thread safety of the per-rule cache, `Id`/`Guid` fields and `Debug.WriteLine` are left out.
- McRule/DynamicTypeRegistry.cs (runtime type synthesis), the console helpers and the RulerDev demo are not part of this model.
- The interface and data-only files (ExpressionInterface.cs, ExpressionPolicy.cs, FilterPolicy.cs, PolicyMap.cs, LiteralValue.cs, ExpressionGeneratorException.cs, McRule/CoreExtensionFunctions.cs) carry no behaviour beyond fields. They are folded into the datatypes.
- `ExpressionOptions` is modelled by its `NoCache` flag alone.
- A null `Rules` enumeration (a `NullReferenceException` in the source) is left out: rule lists are sequences.
- ExpressionRules.NewExpressionRuleCollection: gives an empty rule list where the parameterless constructor leaves `Rules` null, because rule lists are sequences.
- FilterRules.NewFilterRuleCollection: gives an empty rule list where the parameterless constructor leaves `Rules` null, for the same reason.
- Lazy `Select` re-enumeration in the collection getter is left out: the model asks each child once. Because refilling a cache is idempotent (`RuleCache.RefillKeepsOutcome`), asking again would not change the result.
- The two `RuleOperator` enumerations (Ruler and McRule) are modelled as one datatype with And and Or.
- Some helpers in McRule/McRule.cs and Ruler/Ruler.cs are copies of the ones in the newest file, and each is modelled once. The copies are:
  - in McRule/McRule.cs: `AddFilterToStringProperty` (lines 22-52), `AddNullCheck` (60-67), `GetComparer` (73-82), `GetArrayContainsExpression` (184-204), `CombineAnd` (210-218), `CombineOr` (225-233) and the list `CombinePredicates` (249-256);
  - in Ruler/Ruler.cs: `CombineAnd` (139-148), `CombineOr` (152-161) and `CombinePredicates` (165-176).
  They are the `PolicyExtensions` and `Combinators` members of the same names.
- Predicates.Render: states only that the printed form is non-empty, because .NET's `Expression.ToString` layout is not modelled.
- Dictionary-key member access, the `{{NULL}}` literal and `~`/`!` on collection elements appear in the tests but not in the code. They are not modelled; the model follows the code.

## Findings

| source | as written | input that shows it | evidently intended | confidence | as-written member | corrected member |
|---|---|---|---|---|---|---|
| McRule/PredicateExpressionPolicyExtensions.cs:195-203 | with an empty operand the always-false fallback is itself a lambda, so the outer `Expression.Lambda` (and, on a nullable member, `AndAlso`) receives a non-boolean body and throws; McRule/McRule.cs:174-180 repeats the same tail | value `>=` on an Int32 member (PolicyLaws.OperatorOnlyValue shows its operand is empty) | an always-false predicate, as the comment at lines 195-196 says | medium, not executed | PolicyLaws.EmptyOperandAsWritten | PolicyLaws.EmptyOperandRejects |
| McRule.EF/CoreExtensionFunctions.cs:36-41 | StartsWith and EndsWith call `String.Contains` with `%` glued to the filter, so outside SQL translation they test for a literal `%` | name `abc`, StartsWith `ab`: the predicate rejects | a prefix (suffix) test of the trimmed filter | medium, not executed | EfCoreExtensions.StartsWithAsWritten | EfCoreExtensions.EfPredicate |
