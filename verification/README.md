# Verified model of the Fineract back-office UI's algorithms

Most of this repository is user interface. A few parts of it are algorithms with laws worth
keeping: the lint rules that hold the repository's boundaries, the serializer behind every generated
request, and the helpers the end-to-end suite builds its fixtures with. This project models them in
Dafny 4.11 and proves those laws. `dafny verify dfyconfig.toml` checks everything.

## What is modelled

**The cognitive-complexity rule** (`Ast`, `Metric`, `Origins`, `ScoreMachine`,
`StackDiscipline`, `CognitiveComplexity`, `Isolation`, `Shapes`, `LogicalRegions`). `CognitiveComplexity.Rule` is the
rule: a stack of frame objects, updated in place by the handlers, one event at a time.
`ScoreMachine` gives each handler as a function of the state, and the methods of the class are proved
equal to it. `Metric` defines the metric as a recursive function of the tree and again as a plain
sum over the nodes a function owns. The central result is that the event machine, fed with the walk of
any tree from any state, does exactly what the recursive metric says. A tree is any tree of typed
nodes with children in named fields; a `Link` is a node's `parent` together with the field that holds
the node, which is what `parent.alternate === node` asks about, and `uid` stands for object identity.

**The query serializer** (`Text`, `PercentCodec`, `QueryModel`, `QueryString`, `QueryParams`,
`JsValue`, `BaseService`). `PercentCodec` is `encodeURIComponent` and the full `decodeURIComponent`,
error cases included (RFC 3986, sections 2.1 and 2.3; RFC 3629, section 3). `QueryModel` is the
parameter collection as a value, `QueryParams.OpenApiHttpParams` the mutable class, whose methods are
proved against it, and `QueryString` the record, the query string and a parser that reads it back.
`BaseService` turns values of any shape into calls on the collection, errors and partial effects
included.

**The import boundaries** (`GlobMatcher`, `GuardedPath`). The regular-expression text the vendor
rule builds is parsed back as an ECMAScript pattern and given the matching semantics of patterns; the
string comparison of the generated-client rule is compared with a comparison of path segments.

**The end-to-end helpers and the breadcrumb trail** (`Password`, `GlSeeder`, `Breadcrumbs`,
`SettledRoute`, `ClientSearch`).

## Where code and documentation differ

The model follows the code.

- The header of the complexity rule says a nested function raises the nesting for its own contents.
  The code starts every frame at nesting 0, so the depth a function stands at never reaches its
  score (`StackDiscipline.NestedFunctionIgnoresSurroundings`). The two agree exactly on functions that
  own no node that pays for depth (`Metric.DocumentedNestingIff`).
- Handlers run in the order of ESLint's selector specificity, `:function` before
  `IfStatement > *.alternate`. A function declaration that is itself the `else` branch therefore takes
  the `else` charge into its own score, and the function around it loses that charge
  (`Metric.ScoreIsSumIffNotAlternate`, `Shapes.ElseCost`).
- `toString` promises repeated pairs for exploded parameters. It writes one pair with comma-joined
  values; the promise is kept exactly for a single value (`QueryString.ExplodedAsRepeatedPairsIff`).
- `toRecord` promises the bare value for a parameter with one value and an array for several. The code
  goes by the options instead: an exploded parameter is a list, also with one value, and any other is one
  text, also with several. The promise is kept exactly for parameters that are exploded just when they
  have several values (`QueryString.RecordAsDocumentedIff`; both failures are in
  `QueryString.RecordNotAsDocumented`).
- A parameter called `__proto__` never becomes an entry of the record, because assigning to that key
  of a plain object does not create one. When it is exploded its array becomes the record's prototype, and
  `toString`, which enumerates with `for … in`, lists the array's indices as well. The round trip
  holds exactly without `__proto__` and without empty value lists (`QueryString.QueryRoundTripIff`).
- Exploded objects keep only the innermost field names, so leaves of different objects can meet under one
  name; when exactly something is lost is `BaseService.ExplodedFormKeepsAllIff`.
- `*` of a vendor pattern is documented as any run of characters. In the code it does not cross a line
  terminator (`GlobMatcher.MatcherMeaning`), so all patterns mean what is documented exactly on
  specifiers without one (`GlobMatcher.DecidesGlobIffOneLine`).
- A guarded directory that is the file-system root would accept only the root itself
  (`GuardedPath.SegmentTestIffNotRoot`).

## Model

| member | source | states |
|---|---|---|
| CognitiveComplexity.Lint | eslint-rules/cognitive-complexity.js:165-292 | for every tree and threshold (15 when none is configured) the rule reports exactly the functions whose recursive score is above the threshold, in the order they are left |
| CognitiveComplexity.Rule.Score | eslint-rules/cognitive-complexity.js:177-182 | the in-place update of the innermost frame is the state function `ScoreMachine.Score`; nothing happens on an empty stack |
| CognitiveComplexity.Rule.EnterFunction | eslint-rules/cognitive-complexity.js:201-203 | a new frame object is pushed and the old ones are kept, as objects and as values |
| CognitiveComplexity.Rule.ExitFunction | eslint-rules/cognitive-complexity.js:205-223 | pops, guards against a mismatch, and reports above the threshold with the location and name the message uses |
| CognitiveComplexity.Rule.OnEnter | eslint-rules/cognitive-complexity.js:236-282 | every enter handler refines one step of the machine, and every frame on the stack is an old one or new |
| CognitiveComplexity.Rule.OnLeave | eslint-rules/cognitive-complexity.js:238-252 | every exit handler refines one step of the machine and only ever shortens the stack |
| ScoreMachine.WalkRefines | eslint-rules/cognitive-complexity.js:171-292 | walking any subtree from any sound state adds the subtree's recursive cost at the current depth to the innermost frame, appends the reports of the functions in it in exit order, and leaves every lower frame, the nesting and the stack height as they were |
| StackDiscipline.EveryEventDisciplined | eslint-rules/cognitive-complexity.js:201-252 | at every event of every walk: leaving a function finds its own frame on top, no nesting is negative, only the innermost frame changes, no complexity decreases |
| StackDiscipline.WalkDisciplined | eslint-rules/cognitive-complexity.js:201-252 | the same for the walk of any subtree begun in any sound state |
| StackDiscipline.WholeProgram | eslint-rules/cognitive-complexity.js:165-292 | a whole program ends with the empty stack and exactly the flagged functions |
| StackDiscipline.NestedFunctionIgnoresSurroundings | eslint-rules/cognitive-complexity.js:201-223 | a function walked from any two states, in any two places that name it alike and agree on the `else` charge, appends the same reports and leaves both stacks untouched |
| StackDiscipline.OuterFrameIgnoresNestedBodies | eslint-rules/cognitive-complexity.js:205-212 | replacing the bodies of nested functions leaves the whole stack after the walk unchanged |
| Isolation.CostIgnoresNestedBodies | eslint-rules/cognitive-complexity.js:209-211 | the cost of a subtree is a function of the tree with every nested function emptied |
| Isolation.OuterScoreIgnoresNestedBodies | eslint-rules/cognitive-complexity.js:205-223 | two functions that differ only inside functions nested in them have the same name and score |
| Isolation.HollowIff | eslint-rules/cognitive-complexity.js:209-211 | two trees are hollowed alike exactly when they agree in all types and fields outside nested functions |
| Metric.ScoreIsSumOverOwnedNodes | eslint-rules/cognitive-complexity.js:34-50 | a function's score is the sum over the nodes it owns of 1 for each break in the flow plus the number of nesting structures of the same function around it |
| Metric.ScoreIsSumIffNotAlternate | eslint-rules/cognitive-complexity.js:254-257 | a function's score is exactly that sum if and only if the function does not itself follow `else` |
| Origins.CallByName | eslint-rules/cognitive-complexity.js:185-199 | a call by a bare name costs 1 on top of its parts exactly when that is the non-empty name of the function it is in |
| Origins.CallOnObject | eslint-rules/cognitive-complexity.js:190-197 | a call on an object does exactly when the object is `this` and the property an identifier with that name |
| Origins.CallOfAnythingElse | eslint-rules/cognitive-complexity.js:198 | any other call costs its parts only |
| Origins.OwnName | eslint-rules/cognitive-complexity.js:94-95 | a function with a non-empty `id` has that name wherever it stands, and is reported under it, in quotes, at the `id`, for every threshold below its score |
| Origins.HolderName | eslint-rules/cognitive-complexity.js:96-110 | without one it has the name of the declarator, method, property or class property it stands in, when that is an identifier, and is reported under it |
| Origins.NoName | eslint-rules/cognitive-complexity.js:111 | anywhere else it has none and is reported as `this function` |
| Origins.OnlyElseCosts | eslint-rules/cognitive-complexity.js:254-257 | the alternate of an `if` costs 1 more than the node would alone; no other place does, the alternate of a conditional expression included |
| Origins.OnlyElseIfIsFlat | eslint-rules/cognitive-complexity.js:239-248 | an `if` in that place costs 1 and its parts at the same depth; in every other place it pays the depth and deepens its parts |
| Metric.CostIsSum | eslint-rules/cognitive-complexity.js:171-182 | the same for any subtree under any ancestors, depth being the count of deepening ancestors |
| Metric.DepthShift | eslint-rules/cognitive-complexity.js:177-282 | k levels deeper costs exactly k for each owned node that pays for depth; `else`, `else if`, operators, recursion and labelled jumps are unaffected |
| Metric.DocumentedNestingIff | eslint-rules/cognitive-complexity.js:48-50 | a nested function scores as the header says, with the nesting raised for its contents, exactly when it owns no node that pays for depth; the code begins it at 0 |
| Shapes.ChainCost | eslint-rules/cognitive-complexity.js:239-257 | an if/else-if chain of n tests at depth d costs d + n, plus 1 for a final else, on top of its parts one level down |
| Shapes.ElseCost | eslint-rules/cognitive-complexity.js:254-257 | an `else` costs the function around it 1 and what follows it, but nothing at all when a function follows it |
| Shapes.StaircaseCost | eslint-rules/cognitive-complexity.js:240-248 | n ifs inside each other at depth d cost n*d + n(n+1)/2 on top of their parts |
| LogicalRegions.ChargedAreRegions | eslint-rules/cognitive-complexity.js:122-140 | the nodes charged by looking at one parent are as many as the maximal connected regions of one counted operator |
| LogicalRegions.ConnectedIffSameHead | eslint-rules/cognitive-complexity.js:113-127 | two operator nodes are connected by same-operator steps exactly when they climb to the same head |
| LogicalRegions.ExpressionCost | eslint-rules/cognitive-complexity.js:259-261 | an operator expression costs one for each region of `&&` or `\|\|` plus its leaves; `??` costs nothing and separates regions |
| LogicalRegions.OneOperatorOneRegion | eslint-rules/cognitive-complexity.js:113-140 | a chain of one operator, of any length and bracketing, is one region, or none for `??` |
| LogicalRegions.RegionOperators | eslint-rules/cognitive-complexity.js:129-140 | the regions cover exactly the `&&` and `\|\|` nodes, and each has one operator throughout |
| LogicalRegions.CoalesceCost | eslint-rules/cognitive-complexity.js:129-140 | `l ?? r` costs what its two sides cost each on its own, wherever it stands |
| LogicalRegions.BranchingCost | eslint-rules/cognitive-complexity.js:122-127 | `&&` or `\|\|` costs 1 and its sides, less 1 for each side that begins with the same operator |
| LogicalRegions.ChainOfOneOperator | eslint-rules/cognitive-complexity.js:113-140 | a chain of `&&` or of `\|\|` costs 1 and its leaves, a chain of `??` its leaves alone |
| PercentCodec.DecodeEncode | src/app/api/encoder.ts:7-20 | decoding undoes encoding for every well-formed string |
| PercentCodec.EncodeInjective | src/app/api/encoder.ts:8-13 | different strings have different encodings |
| PercentCodec.EncodeIsEncoded | src/app/api/encoder.ts:8-13 | the output is made of unescaped characters and upper-case `%HH` triples only |
| PercentCodec.EncodedCharacters | src/app/api/encoder.ts:8-13 | only letters, digits, the nine marks `-_.!~*'()` and `%` come out |
| PercentCodec.EncodesItselfIff | src/app/api/encoder.ts:8-13 | a text is its own encoding exactly when it is made of letters, digits and the nine marks |
| PercentCodec.DecodeIff | src/app/api/encoder.ts:14-19 | decoding gives a string exactly when the text spells it, each character plain or as the escaped octets, in either case, of its one UTF-8 form; all other texts fail |
| PercentCodec.Utf8Strict | src/app/api/encoder.ts:14-19 | no octets but a character's own are read as the character |
| PercentCodec.EncodeHidesSeparators | src/app/api/query.params.ts:110-115 | encoded text contains none of `&`, `=`, comma, space, pipe and tab |
| PercentCodec.Utf8RoundTrip | src/app/api/encoder.ts:8-19 | every character is recovered from its UTF-8 octets by a decoder that refuses overlong forms, surrogates and values out of range |
| QueryParams.OpenApiHttpParams.constructor | src/app/api/query.params.ts:36-42 | an empty collection with the defaults exploded and comma unless given |
| QueryParams.OpenApiHttpParams.SetParam | src/app/api/query.params.ts:55-60 | replaces one key's entry and nothing else; the stored array is a fresh copy, so the caller's array is neither kept nor changed |
| QueryParams.OpenApiHttpParams.AppendParam | src/app/api/query.params.ts:66-78 | extends the key's list at the end in place, merging options over the stored ones, or creates the key; all other keys are untouched |
| QueryParams.OpenApiHttpParams.ToRecord | src/app/api/query.params.ts:103-120 | the loop over the mutable entries computes the record of the collection's value, with the array it inherits from when `__proto__` is exploded |
| QueryParams.OpenApiHttpParams.ToString | src/app/api/query.params.ts:87-96 | for every collection and every order of enumeration, inherited keys included, the text reads back as all parameters but `__proto__`, or not at all exactly when an inherited index shows that is no parameter |
| QueryModel.History | src/app/api/query.params.ts:44-78 | after any sequence of `set` and `append` a key is there exactly when named, with the values given since its last `set`, in order, and for each option the last thing said since then, `undefined` meaning the default |
| QueryModel.ApplyAllConsistent | src/app/api/query.params.ts:27-78 | any sequence of calls keeps the key order free of duplicates and in step with the entries |
| QueryModel.NothingLostIff | src/app/api/query.params.ts:55-78 | for any calls on any starting collection a key keeps all it held and was given exactly when no `set` of it comes after values for it |
| QueryString.RecordEntries | src/app/api/query.params.ts:103-120 | keys never collide: the record has one entry per parameter but `__proto__`, each holding its own parameter's encoded values |
| QueryString.OneEntryPerParameterIff | src/app/api/query.params.ts:104-119 | there are as many entries as parameters exactly when none is called `__proto__` |
| QueryString.RecordAsDocumentedIff | src/app/api/query.params.ts:98-117 | a non-empty parameter is kept in the documented form exactly when it is exploded just for having several values |
| QueryString.RecordNotAsDocumented | src/app/api/query.params.ts:98-117 | one exploded value is kept as a list, and two joined values as one text, against the documentation |
| QueryString.ExplodedReadsBack | src/app/api/query.params.ts:109-110 | the list kept for an exploded parameter decodes to exactly its values, the empty list included |
| QueryString.JoinedText | src/app/api/query.params.ts:12-117 | the four delimiters join with the comma, the space, the pipe and the tab |
| QueryString.QueryRoundTripIff | src/app/api/query.params.ts:87-120 | splitting on `&`, `=` and each key's delimiter and decoding recovers all parameters, for every enumeration order and every mix of options and delimiters, exactly when no list is empty and no key is `__proto__` |
| QueryString.QueryReadsBack | src/app/api/query.params.ts:87-120 | what the same parser recovers for arbitrary parameters: all but `__proto__`, an empty list as one empty value, and nothing when an exploded `__proto__` shows an index that is no parameter |
| QueryString.InheritedTexts | src/app/api/query.params.ts:104-110 | what the record inherits is exactly the encoded values of an exploded `__proto__` |
| QueryString.VisibleKeys | src/app/api/query.params.ts:91-93 | an enumeration sees every own entry as it is, and otherwise only indices of the inherited array |
| QueryString.ExplodedAsRepeatedPairsIff | src/app/api/query.params.ts:80-96 | an exploded parameter is written as the documented repeated pairs exactly when it has one value |
| BaseService.AddToHttpParams | src/app/api/api.base.service.ts:57-110 | for every value, style and explode flag the collection ends as its old value with the plan's calls applied in order, up to the error that is thrown, if one is |
| BaseService.AddMembers | src/app/api/api.base.service.ts:94-98 | the recursion over fields makes the fields' calls one after another and stops at the first error |
| BaseService.AddDeepObject | src/app/api/api.base.service.ts:62-70 | one append for each key of a deep object, under `key[k]`, in order |
| BaseService.DeepObjectArrives | src/app/api/api.base.service.ts:62-70 | a member of a deep object, if no other has its name, adds exactly its value under `key[name]`, and nothing held there is lost |
| BaseService.DeepArrayArrives | src/app/api/api.base.service.ts:62-70 | so does each element of an array, under `key[i]` with the index in decimal |
| BaseService.DeepOfNoObject | src/app/api/api.base.service.ts:62-65 | a primitive is refused and a date adds nothing |
| BaseService.ArrayArrives | src/app/api/api.base.service.ts:81-91 | an array replaces the parameter with one text for each element, in order, given for every kind of element |
| BaseService.ArrayTextSplits | src/app/api/api.base.service.ts:81-91 | an array inside an array is its elements between commas, empty where there is `null` or `undefined` |
| BaseService.ArrayText | src/app/api/api.base.service.ts:81-91 | an exploded array is kept as the list of its encoded texts, another one joined by the comma, space or pipe of its style |
| BaseService.ObjectText | src/app/api/query.params.ts:134-160 | an object that is not exploded fails with the error of its first unconvertible value and stores nothing; otherwise its keys and texts are joined by the character of its style |
| BaseService.ExplodedFormIsLeaves | src/app/api/api.base.service.ts:76-98 | in exploded form style the recursion is one call for each non-null leaf of the value tree, depth first, up to the first invalid date |
| BaseService.ExplodedFormKeepsAllIff | src/app/api/api.base.service.ts:76-98 | each name ends with all it held and all its leaves give exactly when no array leaf of that name comes after other values for it |
| BaseService.DistinctLeafArrives | src/app/api/api.base.service.ts:92-98 | a leaf with a name of its own, not used before, arrives with exactly its values |
| BaseService.ConcatHttpParamsObject | src/app/api/query.params.ts:134-152 | the loop stores the list of keys and values under one key, or nothing when a value cannot be converted |
| BaseService.ConcatRoundTripIff | src/app/api/query.params.ts:134-160 | an object of scalars is read back, member by member in order, from the delimited text exactly when it has a member |
| BaseService.WrittenLikeOneArray | src/app/api/query.params.ts:137-151 | whatever object can be written is written alike for an object with a single array member, so the list is readable only once all values are known to be scalars |
| GlobMatcher.MatcherMeaning | eslint-rules/no-vendor-ui-import.js:70-76 | for every pattern the text built is a regular expression that accepts exactly what the pattern matches with each `*` a run within one line |
| GlobMatcher.DecidesGlobIffOneLine | eslint-rules/no-vendor-ui-import.js:57-76 | every pattern decides a specifier as documented, `*` standing for any run including `/`, exactly when the specifier has none of the four line terminators |
| GlobMatcher.StarStopsAtLineEnd | eslint-rules/no-vendor-ui-import.js:70-76 | a specifier of two lines that the documented `*` matches and the code does not |
| GlobMatcher.MatcherDecidesGlob | eslint-rules/no-vendor-ui-import.js:57-76 | each single pattern decides exactly its glob on specifiers without line terminators |
| GlobMatcher.JoinedIsCompiled | eslint-rules/no-vendor-ui-import.js:71-74 | splitting on `*`, escaping the pieces and joining with `.*` is compiling the pattern one character at a time |
| GlobMatcher.CompiledParses | eslint-rules/no-vendor-ui-import.js:70-76 | the text parses back to one literal for each character and one `.*` for each star: no literal is ever quantified or left unescaped |
| GuardedPath.StringTestIsSegmentTest | eslint-rules/no-generated-api-import.js:105-117 | the string test holds exactly when the source is relative and the guarded segments are a prefix of the resolved ones, a guarded root accepting only itself |
| GuardedPath.SegmentTestIffNotRoot | eslint-rules/no-generated-api-import.js:105-117 | the string test is the segment test for every import exactly when the guarded directory is not the root |
| GuardedPath.RestrictedIffInside | eslint-rules/no-generated-api-import.js:97-117 | the whole rule, from working directory, option, file name and specifier: reported exactly when a directory is configured, the specifier is relative and the configured segments begin the resolved ones, a root beginning only itself |
| GuardedPath.FileImport | eslint-rules/no-generated-api-import.js:97-117 | for a file n in a directory written d, an import is reported exactly when `d/` followed by the specifier leads inside |
| GuardedPath.ImportBeside | eslint-rules/no-generated-api-import.js:103-117 | `./x` is judged as x beside the file |
| GuardedPath.ImportAbove | eslint-rules/no-generated-api-import.js:103-117 | `../x` is judged as x beside the directory of the file |
| GuardedPath.NamesResolve | eslint-rules/no-generated-api-import.js:102-103 | a written path of names resolves to itself when it is absolute and goes on from the base when it is not |
| GuardedPath.AbsoluteFile | eslint-rules/no-generated-api-import.js:102-103 | the working directory matters to an absolute file name only through the option |
| GuardedPath.AbsoluteOption | eslint-rules/no-generated-api-import.js:102-103 | and not at all when the option is absolute |
| GuardedPath.SiblingIsOutside | eslint-rules/no-generated-api-import.js:108-110 | a sibling whose name merely begins with the guarded name is never inside, however deep the import goes |
| GuardedPath.SpellingsAgree | eslint-rules/no-generated-api-import.js:112-117 | relative specifiers with the same normal form (no empty and `.` segments, every name cancelled by the `..` after it) are decided alike, for every file and every guarded directory |
| GuardedPath.SameSpellingIff | eslint-rules/no-generated-api-import.js:114 | the normal form is exact: two relative specifiers have the same one exactly when they resolve alike from every directory |
| GuardedPath.LeadingDot | eslint-rules/no-generated-api-import.js:114 | a leading `./` does not change the path spelled |
| GuardedPath.EndSpellings | eslint-rules/no-generated-api-import.js:114 | nor does a trailing slash, a trailing `.`, or a trailing name that is left again |
| GuardedPath.InnerSpellings | eslint-rules/no-generated-api-import.js:112-117 | nor do these with more of the specifier behind them change the decision |
| Password.GeneratePassword | e2e/utils/seed-api.ts:1541-1555 | on every stream of draws: a result exactly when enough draws are kept; then 16 characters, each from its position's pool, no equal neighbours, and 16 plus the rejections draws used |
| Password.FirstFourKept | e2e/utils/seed-api.ts:1547-1553 | the first four draws are never rejected, because the pools are disjoint |
| Password.FirstDrawsKept | e2e/utils/seed-api.ts:1547-1553 | the same for any pairwise disjoint pools |
| Password.DrawnMeetsPolicy | e2e/utils/seed-api.ts:1521-1534 | every result meets the policy: length, the four classes in the first four places, no whitespace, no repeated neighbour |
| Password.CharacterAt | e2e/utils/seed-api.ts:1521-1549 | exactly which characters can stand at which position: a capital but I and O, a small letter but l, a digit from 2 on, one of eleven signs, then any of them |
| Password.UnionOfPools | e2e/utils/seed-api.ts:1546-1549 | from the fifth character on the pool is the four pools one after another |
| Password.DrawnIffReachable | e2e/utils/seed-api.ts:1541-1555 | every password of that shape can come out, and no other |
| GlSeeder.SeedGlAccounts | e2e/utils/seed-api.ts:1055-1087 | wherever the run stops it has only added missing accounts under free codes and keeps contiguous codes contiguous; refused only if a needed code was taken, complete only if none was; complete means six of each class, or as many as there were; nothing is posted when nothing is missing |
| GlSeeder.SeedClass | e2e/utils/seed-api.ts:1073-1085 | the loop of one class leaves the other classes alone, returns the ids of all its accounts on the server, and stops early only for a taken code or an interruption |
| GlSeeder.SeedNext | e2e/utils/seed-api.ts:1073-1085 | one class of the loop: at most six posts, full classes stay full, and an early stop is a taken code or an interruption |
| GlSeeder.GrowOne | e2e/utils/seed-api.ts:1074-1084 | posting the next number of a class under a free code keeps every fact about the codes of all classes |
| GlSeeder.GrownContiguous | e2e/utils/seed-api.ts:1055-1087 | stopping after any number of posts leaves contiguous codes contiguous |
| GlSeeder.ContiguousNotBlocked | e2e/utils/seed-api.ts:1074-1082 | with contiguous codes every code that is posted is fresh |
| GlSeeder.CodeInjective | e2e/utils/seed-api.ts:1078 | no two classes and no two numbers share a code |
| GlSeeder.CodeText | e2e/utils/seed-api.ts:1078 | the codes are `E2E-ACC-`, the digit of the class, a hyphen and the digit of the number |
| GlSeeder.SixOfEach | e2e/utils/seed-api.ts:1074 | when a run is complete each class has six accounts, or as many as it had if it had more |
| GlSeeder.CutShortThenResumed | e2e/utils/seed-api.ts:1055-1087 | a run cut short anywhere leaves contiguous codes, the next run completes from there, and a third run posts nothing |
| Breadcrumbs.BuildBreadcrumbs | src/app/layout/breadcrumb.ts:38-55 | the crumbs are one for each run of equal titles down the chain of first children, with the url accumulated at the run's first level |
| Breadcrumbs.TrailUnique | src/app/layout/breadcrumb.ts:33-36 | a route chain has only one trail: the division into runs and every crumb are determined |
| Breadcrumbs.TrailIffLeads | src/app/layout/breadcrumb.ts:43-50 | crumbs are the trail exactly when each has the title of its run and a url that splits at its slashes into the empty text and all segments down to where the run starts, or is empty when there are none |
| Breadcrumbs.TrailLeads | src/app/layout/breadcrumb.ts:44-50 | along a trail each crumb's url is a prefix of every later one |
| SettledRoute.LandsOn | e2e/utils/settled-route.ts:39-46 | returns at the first point where four consecutive entries agree, counting the initial empty path as an entry, and not at all if there is no such point |
| SettledRoute.SettledSamples | e2e/utils/settled-route.ts:39-46 | when the first path is not empty the four are four samples |
| ClientSearch.PagesAreMatches | e2e/utils/client-search-mock.ts:43-44 | for a positive size the pages concatenate to exactly the matches, once there are enough of them |
| ClientSearch.EachMatchOnOnePage | e2e/utils/client-search-mock.ts:43 | every match position is shown by exactly one page, at the place its remainder names |
| ClientSearch.MatchesAreHits | e2e/utils/client-search-mock.ts:28-40 | a record is among the matches exactly when it is a client, with the account number renamed, one of whose four searched fields contains the text |
| ClientSearch.MatchesInOrder | e2e/utils/client-search-mock.ts:28-40 | the matches keep the order of the clients, each client being decided by itself |
| ClientSearch.HitIff | e2e/utils/client-search-mock.ts:30-40 | a client is a hit exactly when its display name, account number, external id or mobile number, in lower case and empty when missing, is some text, the searched one, and some text |
| ClientSearch.RenamedFields | e2e/utils/client-search-mock.ts:30 | a match has the client's fields, with the account number taken from `accountNo` or missing with it |
| ClientSearch.PagesFromTheEnd | e2e/utils/client-search-mock.ts:43 | page -1 is empty, page -k the k-th last |

## Left out

- QueryParams.OpenApiHttpParams.ToRecord: is compared as a map; that a plain object lists integer-like keys first is covered by quantifying over all enumeration orders, not modelled.
- BaseService.AddToHttpParams: values that are not strings are turned into text when they are stored, not when they are encoded, so later mutation of a stored date or array is not captured; functions as values, objects with their own `toString`, and values `JSON.stringify` refuses are not modelled.
- PercentCodec.DecodeEncode: strings are sequences of Unicode scalar values, so the lone surrogates on which `encodeURIComponent` throws are not there.
- GlobMatcher.MatcherMeaning: the parser of patterns covers literals, escaped syntax characters, `.`, `*` and anchors, which is all the built texts use; any other construct is refused as outside the fragment.
- GuardedPath.RestrictedIffInside: POSIX paths only; `path.resolve` and `path.dirname` are modelled from their documented behaviour, and Windows separators are not; the directory the linter reports and the process's own are taken to be one, which is no matter for absolute file names (`GuardedPath.AbsoluteFile`).
- Password.GeneratePassword: the endless stream of random numbers is any finite stream of draws; that an endless one yields enough kept draws is a matter of probability.
- GlSeeder.SeedGlAccounts: the server is a list of accounts that refuses a taken code, and the only interruptions are between posts; other server errors and concurrent seeders are not modelled.
- SettledRoute.LandsOn: the page is the finite sequence of paths it reports; the waiting between samples is not modelled.
- ESLint's traversal: a well-nested depth-first walk is assumed, in the documented order of selector specificity.
- Parameter collections with another codec than the default one, and Angular's `HttpParams` behind `toHttpParams`.
- The import and export syntaxes the two boundary rules listen to, and `ignoreNames`: tests on one node each.
- The generated services, components, routes, configuration and the other seeding helpers: assembly around library calls.
