# Digital Rift Luau obfuscator, modelled in Dafny

This project models the obfuscation engine of the Digital Rift web tool: the class
`LuauObfuscator` (assets/js/core/obfuscator.js) and the helpers it and the page rely on
(assets/js/core/utils.js). `obfuscate(code)` turns a Luau script into an obfuscated one in
six passes over one text buffer:

1. every quoted literal goes into a string table (XOR with a drawn key, then three-digit
   octal escapes), and each occurrence is replaced by a call `<decoder>(k)`;
2. `local` names, then `function` names, are renamed by whole-word substitution through two
   maps the object keeps from one call to the next until `reset()`;
3. optionally, lines are wrapped in opaque predicates and junk statements are inserted;
4. optionally, integer literals above 5 are rewritten as small expressions;
5. the result is wrapped in a header, the `_S` table and its decoder, an anti-VM probe and a
   state-machine loader;
6. the whole text is minified, with double-quoted spans protected and restored.

Randomness is an explicit stream: `Utils.RandomSource` holds an arbitrary function
`draws: nat -> nat` and a cursor `used`; `Random.int(lo, hi)` is `lo + draw % (hi - lo + 1)`.
Every random generator has a function of the stream (`IdAt`, `VarNameAt`, `OpaqueAt`,
`StringPassAt`, `WrapperAt`, `ObfuscateAt`, ...) returning its value and the next cursor,
and the method that performs the draws is proved equal to it. Properties that do not
mention the stream therefore hold for every sequence of draws. Text is `seq<char>`; each
regular expression of the source is written out as a scanner with the same backtracking
order and the same `\b` (word characters `[A-Za-z0-9_]`).

Modules, in dependency order: `Text` (characters, radix, split/join, dedup), `Utils`
(random source, clamp, object pool, performance monitor), `Names` (`generateId`,
`generateVarName`), `Cipher` (XOR and octal), `Literals` (pass 1), `Renamer` (pass 2),
`DeadCode` (pass 3 and the opaque predicates), `Constants` (pass 4), `Assembly` (pass 5),
`Minifier` (pass 6), `Obfuscator` (options, the class, `obfuscate`, stats, `reset`).

## Model

| member | source | states |
|---|---|---|
| Utils.Pick | assets/js/core/utils.js:19-21 | `Random.int(min, max)` lies in [min, max], both ends included |
| Utils.RandomSource.Int | assets/js/core/utils.js:19-21 | `Random.int(min, max)` returns a value in [min, max], namely `Pick` of the next draw, and consumes exactly one draw |
| Utils.PickReachesEveryValue | assets/js/core/utils.js:19-21 | every value of [min, max] is produced by some draw, so no bound is unreachable |
| Utils.RandomSource.Choice | assets/js/core/utils.js:26-28 | `Random.choice` returns an element of its non-empty array and consumes one draw |
| Utils.RandomSource.Boolean | assets/js/core/utils.js:33-35 | `Random.boolean()` consumes one draw and is true exactly when that draw is odd |
| Utils.Clamp | assets/js/core/utils.js:125-127 | the result lies in [lo, hi] when lo <= hi, equals the value when it is already in range, is the nearer bound otherwise, and is `hi` when the bounds are crossed |
| Utils.ObjectPool.constructor | assets/js/core/utils.js:205-215 | a new pool holds `initialSize` fresh objects (10 when the size is not given) (none for a negative size) and nothing is active |
| Utils.ObjectPool.Get | assets/js/core/utils.js:217-226 | pops the last pooled object when there is one, otherwise creates one; either way it is appended to `active`, and the total grows by one only when the pool was empty |
| Utils.ObjectPool.Release | assets/js/core/utils.js:228-235 | removes the first occurrence of the object from `active` and appends it to `pool`; an object not active changes nothing; the multiset of all objects is kept |
| Utils.ObjectPool.ReleaseAll | assets/js/core/utils.js:237-243 | `active` ends empty and `pool` gains the old active objects in reverse order; the total is unchanged |
| Utils.PerformanceMonitor.constructor | assets/js/core/utils.js:55-61 | a new monitor shows 60 fps, has counted no frame, has an empty history capped at 60 entries, and starts timing at the time it is given |
| Utils.PerformanceMonitor.Update | assets/js/core/utils.js:63-80 | after a second or more the rounded rate is pushed and the history is cut to 60 entries; otherwise only the frame count moves; the frame count is at least 1 afterwards |
| Utils.PerformanceMonitor.AverageFps | assets/js/core/utils.js:86-90 | 60 for an empty history, otherwise a value between the smallest and the largest recorded rate |
| Utils.RoundDiv | assets/js/core/utils.js:68 | `Math.round(a / b)` for b > 0: the unique r with r - 1/2 <= a/b < r + 1/2 |
| Names.IdAt | assets/js/core/obfuscator.js:29-37 | `generateId(length)` is a letter followed by word characters, `length` characters long (one when `length < 1`) |
| Names.GenerateId | assets/js/core/obfuscator.js:29-37 | the loop builds exactly `IdAt` of the draws and consumes one draw per character |
| Names.IdReachable | assets/js/core/obfuscator.js:29-37 | every identifier made of a letter and word characters is produced by some draws |
| Names.VarNameAt | assets/js/core/obfuscator.js:42-54 | every name `generateVarName` can return is an identifier of 4 to 12 characters |
| Names.GenerateVarName | assets/js/core/obfuscator.js:42-54 | the template choice and its own draws produce exactly `VarNameAt` |
| Names.VarNameStart | assets/js/core/obfuscator.js:43-50 | every generated name starts with `_` or one of the look-alike letters `l`, `I`, `O`, `o` |
| Cipher.XorCodeInvolution | assets/js/core/obfuscator.js:245-249 | XOR with the same key in [0, 255] twice gives back the character code |
| Cipher.XorCodeBounds | assets/js/core/obfuscator.js:245-249 | with a key below 256, codes below 256 stay below 256 and codes below 512 stay below 512 |
| Cipher.XorStringInvolution | assets/js/core/obfuscator.js:245-249 | XOR-ing a whole literal twice with its key restores it |
| Cipher.XorWithKey | assets/js/core/obfuscator.js:246-249 | the character loop computes the XOR of every character with the key |
| Cipher.EncodeToOctal | assets/js/core/obfuscator.js:218-225 | the loop emits one escape per character, in order |
| Cipher.OctalEscapeShape | assets/js/core/obfuscator.js:218-225 | for a code below 512 the escape is a backslash and exactly three octal digits whose value is the code |
| Cipher.OctalRoundTrip | assets/js/core/obfuscator.js:218-225 | reading the octal groups back returns the string when all its codes are below 512, and the text is four characters per input character |
| Cipher.EntryRoundTrip | assets/js/core/obfuscator.js:245-253 | a table entry decodes (octal, then XOR with its key in [1, 255]) to the original literal |
| Literals.NextMatch | assets/js/core/obfuscator.js:234 | a match of the literal pattern opens and closes with the same quote and never spans a line |
| Literals.TableAt | assets/js/core/obfuscator.js:243-253 | one entry per distinct content, each with a key in [1, 255] and the encoding of that content |
| Literals.ExtractStrings | assets/js/core/obfuscator.js:240-257 | the `exec` loop builds `TableAt` of the distinct contents, in first-occurrence order, one draw per new content, with the index map of those contents |
| Literals.StringPass | assets/js/core/obfuscator.js:233-262 | step 1 as a whole equals `StringPassAt`: the table loop, then the decoder name, then the replacement |
| Literals.StringPoolCorrect | assets/js/core/obfuscator.js:233-262 | the rewritten code is the original with each literal replaced by `<decoder>(k)` and the text around the literals unchanged; each k names the table entry of its own literal's content (key in [1, 255], the encoding of that content), which decodes back to the content when its codes are below 512 |
| Literals.TableDistinct | assets/js/core/obfuscator.js:240-257 | the table holds no content twice and holds exactly the contents of the literals |
| Literals.MatchesFrom | assets/js/core/obfuscator.js:234-257 | the successive matches of the literal pattern are in order, do not overlap, and the i-th match holds the i-th content |
| Literals.SourceWeave | assets/js/core/obfuscator.js:234 | the code is the text around its matched literals woven with the literals themselves |
| Literals.ReplaceWeave | assets/js/core/obfuscator.js:259-262 | `code.replace` yields the same text around the literals woven with one call `<decoder>(k)` per literal, in order, where k is one more than the index of that literal's content |
| Literals.EscapedQuoteInside | assets/js/core/obfuscator.js:234 | an escaped quote does not end a literal |
| Literals.TrailingBackslashCloses | assets/js/core/obfuscator.js:234 | under backtracking a trailing `\"` closes the literal, leaving the backslash in its content |
| Literals.QuotesShareEntry | assets/js/core/obfuscator.js:234-243 | the same content under different quotes gets one table entry |
| Renamer.ReplaceWordTokensAfter | assets/js/core/obfuscator.js:283-284 | replacing `\bw\b` replaces exactly the whole-word tokens equal to w and leaves every other token as it was |
| Renamer.ReplaceWordAbsent | assets/js/core/obfuscator.js:283-284 | a name that is not a whole word of the code leaves it unchanged |
| Renamer.ReplaceWordRemoves | assets/js/core/obfuscator.js:283-284 | after the replacement the old name no longer occurs as a word, and the new one does if the old one did |
| Renamer.ReplaceWordInverse | assets/js/core/obfuscator.js:283-284 | when the new name was absent, replacing it back restores the code |
| Renamer.NextLocal | assets/js/core/obfuscator.js:266-270 | a match of the `local` pattern is an identifier after `local` and whitespace |
| Renamer.KeptNamesMembers | assets/js/core/obfuscator.js:272-275 | a name is kept exactly when it is not reserved and does not start with `_` |
| Renamer.CollectVariables | assets/js/core/obfuscator.js:266-276 | the collection loop builds the set of kept names in insertion order |
| Renamer.VariablesProps | assets/js/core/obfuscator.js:266-276 | collected variables are exactly the kept local names: identifiers, not starting with `_`, never the decoder's name, each once |
| Renamer.AssignAt | assets/js/core/obfuscator.js:279-282 | a name already mapped keeps its replacement and costs no draw; a new one gets a generated name |
| Renamer.RenameVarsMap | assets/js/core/obfuscator.js:278-285 | the variable map only grows: old entries keep their names, each collected variable gains an entry, nothing else is added, all values stay generated names |
| Renamer.RenameVarsTokens | assets/js/core/obfuscator.js:278-285 | when no replacement is itself a collected variable, the one-by-one replacements rename every occurrence of every variable through the final map at once and touch no other token |
| Renamer.NextFunction | assets/js/core/obfuscator.js:288-289 | a match of the `function` pattern is an identifier after `function`, found at or after `lastIndex` |
| Renamer.RenameFunctionsMap | assets/js/core/obfuscator.js:288-297 | the function map only grows, old entries keep their names and values stay generated names |
| Renamer.NoFunctionWithoutKeyword | assets/js/core/obfuscator.js:288-289 | without the word `function` in the code the scan finds nothing |
| Renamer.FunctionScanSkips | assets/js/core/obfuscator.js:288-297 | because `lastIndex` is carried over to the rewritten, shorter buffer, a later declaration can be skipped: in `function <20 letters>() function g()` only the first name is renamed |
| Renamer.LocalFunctionCaptured | assets/js/core/obfuscator.js:266-275 | in `local function f()` the collected variable is the keyword `function` |
| Renamer.LocalFunctionLosesKeyword | assets/js/core/obfuscator.js:266-297 | renaming that variable removes every `function` keyword, after which the function scan renames nothing |
| Renamer.VariablesCorrectedProps | assets/js/core/obfuscator.js:272 | with Lua keywords reserved, the collection is the original one minus the keywords |
| Renamer.LocalFunctionCorrected | assets/js/core/obfuscator.js:272 | with Lua keywords reserved, `local function f()` collects no variable |
| Renamer.FunctionRenamedCorrected | assets/js/core/obfuscator.js:288-297 | with the keyword left in place, the scan finds and renames `f` |
| DeadCode.LuaMod | assets/js/core/obfuscator.js:188 | Lua's `%` takes the divisor's sign: in [0, b) for b > 0 |
| DeadCode.OpaqueAt | assets/js/core/obfuscator.js:183-195 | every "false" predicate evaluates to false; every "true" one evaluates to true except possibly the product form; all candidates' numbers are drawn before the choice, ten draws for the true list and four for the false one |
| DeadCode.OpaquePredicate | assets/js/core/obfuscator.js:183-195 | the method renders exactly `OpaqueAt` and makes its draws |
| DeadCode.ChoosePred | assets/js/core/obfuscator.js:183-195 | the candidates' draws, then the choice, land on the condition and cursor `OpaqueAt` gives |
| DeadCode.OpaqueTrueCanBeFalse | assets/js/core/obfuscator.js:185 | the "always true" form `(5 * 2) > 10` is drawn by some stream and is false |
| DeadCode.OpaqueTrueCorrected | assets/js/core/obfuscator.js:185 | with `>=` in place of `>` the form is true for all draws |
| DeadCode.DeadAt | assets/js/core/obfuscator.js:124-149 | every dead statement declares only generated names, and the branch form's condition `v > v + 10` is false |
| DeadCode.GenerateDeadCode | assets/js/core/obfuscator.js:124-149 | the method renders exactly `DeadAt` of the draws |
| DeadCode.TableItems | assets/js/core/obfuscator.js:137 | the junk table has the drawn length and items in [1, 100] |
| DeadCode.WrapAt | assets/js/core/obfuscator.js:306 | a line is wrapped exactly when the coin is heads and the line is neither blank nor a `--` comment |
| DeadCode.JunkAt | assets/js/core/obfuscator.js:318 | junk follows a line exactly when the draw exceeds 70 and the line is not blank |
| DeadCode.LinePlanValid | assets/js/core/obfuscator.js:304-320 | every line plan respects those two rules |
| DeadCode.ExpandWrapped | assets/js/core/obfuscator.js:306-312 | a wrapped line becomes `if <pred> then`, the line, `else`, a dead statement, `end` |
| DeadCode.LineSurvives | assets/js/core/obfuscator.js:302-322 | every input line is present in the output at its position, with the wrapper lines around it when wrapped |
| DeadCode.PositionIncreasing | assets/js/core/obfuscator.js:302-322 | the input lines keep their order in the output |
| DeadCode.DeadCodePassLines | assets/js/core/obfuscator.js:301-323 | the joined output splits back into exactly the emitted lines, which contain every input line in order |
| DeadCode.InjectDeadCode | assets/js/core/obfuscator.js:301-323 | step 3 as a whole equals `DeadCodePassAt` |
| DeadCode.JunkAfterComment | assets/js/core/obfuscator.js:318 | a junk statement may follow a `--` comment line, which is never wrapped |
| Constants.FormValue | assets/js/core/obfuscator.js:332-339 | each template evaluates to n (the `bit32.bxor` form only for n < 2^32: `bit32.bxor` works modulo 2^32, so from 2^32 up line 338 yields n mod 2^32, and 4294967296 becomes 0), except the two subtraction templates which evaluate to n plus the difference of two independent draws |
| Constants.RenderReadsBack | assets/js/core/obfuscator.js:332-339 | each template prints its numbers in decimal that read back to the same values |
| Constants.MinusChangesValue | assets/js/core/obfuscator.js:333 | for some draws `(n + a) - b` is n - 1 |
| Constants.PlusMinusChangesValue | assets/js/core/obfuscator.js:335 | for some draws `(n + a - b)` is n - 1 |
| Constants.FormCorrectedValue | assets/js/core/obfuscator.js:332-339 | with one draw used for both operands, every template evaluates to n (for n < 2^32) |
| Constants.ConstantsIdentity | assets/js/core/obfuscator.js:327-329 | code whose integer literals are all at most 5 is returned unchanged, with no draw |
| Constants.ConstantsKeepLines | assets/js/core/obfuscator.js:327-341 | the pass keeps the number of lines |
| Constants.WrapConstants | assets/js/core/obfuscator.js:326-342 | step 4 as a whole equals `ConstantsAt` |
| Minifier.PiecesFill | assets/js/core/obfuscator.js:428-432 | the text splits into the gaps and the double-quoted spans and reassembles exactly |
| Minifier.ProtectStrings | assets/js/core/obfuscator.js:427-432 | the protection loop collects the spans in order and puts placeholder `k` for span `k` |
| Minifier.Minify | assets/js/core/obfuscator.js:427-453 | the minification method computes `MinifyText` |
| Minifier.RespaceAllCollapsed | assets/js/core/obfuscator.js:437-447 | the keyword re-spacing replaces change nothing once every whitespace run is a single space |
| Minifier.RestoreFill | assets/js/core/obfuscator.js:451-453 | restoring placeholders puts every span back in place when the gaps hold no marker |
| Minifier.MinGapSqueeze | assets/js/core/obfuscator.js:436-438 | the three whitespace passes together equal `Squeeze`, a one-pass scan: the whitespace on either side of an operator of `(){}[],;=<>+-*/~` disappears, and every other whitespace run, newlines included, becomes exactly one space |
| Minifier.MinifyKeepsSpans | assets/js/core/obfuscator.js:427-453 | every protected span comes back byte for byte and in order; the output is the spans in order interleaved with the `Squeeze`d gaps, the first and last gap trimmed, so the text between spans changes only in whitespace and no newline remains outside a span |
| Minifier.MinusPairJoins | assets/js/core/obfuscator.js:438 | `a - -b` minifies to `a--b`: the operator pass removes the space between two minus signs |
| Minifier.SqueezeCorrectedNoComment | assets/js/core/obfuscator.js:438 | with one space kept between two minus signs, a gap with no `--` minifies to text with no `--` |
| Assembly.BuildTable | assets/js/core/obfuscator.js:349-355 | the `forEach` loop writes the table with commas between entries only |
| Assembly.ReadTableText | assets/js/core/obfuscator.js:349-355 | the emitted `_S` table parses back to exactly the string table |
| Assembly.PoolEntriesReadable | assets/js/core/obfuscator.js:352 | no encoded entry contains a double quote, so the table's quoting is never broken |
| Assembly.WrapperTableReadsBack | assets/js/core/obfuscator.js:348-355 | with at least one literal the wrapper includes the table, and it reads back to the pass-1 table |
| Assembly.ControlAt | assets/js/core/obfuscator.js:398-408 | the loader's state is in [10000, 99999] and its guard value in [1000, 9999], so `state > exec` always holds |
| Assembly.WrapperAt | assets/js/core/obfuscator.js:345-423 | the decoder is present exactly when the table is non-empty, the probe exactly with `antiVM`, the loader exactly with `controlFlow` |
| Assembly.DecoderSection | assets/js/core/obfuscator.js:348-384 | the method emits the table and decoder of `DecoderStage` |
| Assembly.ProbeSection | assets/js/core/obfuscator.js:386-394 | the method emits the probe of `ProbeStage` |
| Assembly.ControlSection | assets/js/core/obfuscator.js:397-410 | the method emits the loader opening of `ControlStage` and returns the loader's name |
| Assembly.AssemblePrelude | assets/js/core/obfuscator.js:345-410 | everything before the code is `Prelude` of the drawn wrapper |
| Assembly.Assemble | assets/js/core/obfuscator.js:345-423 | step 5 as a whole is `Render` of `WrapperAt` |
| Assembly.PreludeHeader | assets/js/core/obfuscator.js:345 | the text before the code starts with the header comment |
| Assembly.RenderFrame | assets/js/core/obfuscator.js:345-423 | the wrapped code starts with the header, contains the transformed code intact right after the prelude, and ends with `end)(...)` |
| Assembly.LoaderCanRefuse | assets/js/core/obfuscator.js:397-418 | for some draws the loader's guard is `(5 * 2) > 10`, which is false, so the script runs into `error("Invalid state")` |
| Obfuscator.Resolve | assets/js/core/obfuscator.js:11-18 | each option given as a boolean is taken as is; absent, the first three default to on and the last three to off |
| Obfuscator.ResolveDefaults | assets/js/core/obfuscator.js:10-18 | `new LuauObfuscator()` renames, encodes and uses the loader, and adds no dead code, constant wrapping or anti-VM probe |
| Obfuscator.LuauObfuscator.constructor | assets/js/core/obfuscator.js:10-24 | the three maps start empty and `obfuscationId` is an 8-character `generateId` |
| Obfuscator.Complexity | assets/js/core/obfuscator.js:466 | the rounded percentage of output length over input length, absent for an empty input |
| Obfuscator.RenameStageAt | assets/js/core/obfuscator.js:265-298 | with `renameVariables` off, step 2 changes neither the code, the maps nor the draws |
| Obfuscator.LuauObfuscator.RenameVariables | assets/js/core/obfuscator.js:278-285 | the `forEach` loop over the fields equals `RenameVarsAt` and keeps every value a generated name |
| Obfuscator.LuauObfuscator.RenameFunctions | assets/js/core/obfuscator.js:288-297 | the `exec` loop over the rewritten buffer equals `RenameFunctionsAt` and terminates |
| Obfuscator.LuauObfuscator.RenameStage | assets/js/core/obfuscator.js:265-298 | step 2 on the object's maps equals `RenameStageAt` |
| Obfuscator.DeadCodeStage | assets/js/core/obfuscator.js:301-323 | with `deadCode` on the code and draws are those of `DeadCodePassAt`; with it off nothing changes |
| Obfuscator.ConstantsStage | assets/js/core/obfuscator.js:326-342 | with `wrapConstants` on the code and draws are those of `ConstantsAt`; with it off nothing changes |
| Obfuscator.Finish | assets/js/core/obfuscator.js:301-453 | dead code, constants, assembly and minification in turn produce `FinishAt`'s text and cursor |
| Obfuscator.ObfuscateAt | assets/js/core/obfuscator.js:458-468 | the stats report the input and output lengths, the sizes of the maps after the run and the number of table entries |
| Obfuscator.LuauObfuscator.Obfuscate | assets/js/core/obfuscator.js:230-468 | a run equals `ObfuscateAt` on the object's maps and leaves `stringMap` and `obfuscationId` alone |
| Obfuscator.LuauObfuscator.Reset | assets/js/core/obfuscator.js:475-480 | the three maps become empty and a new 8-character id is drawn |
| Obfuscator.ObfuscateMaps | assets/js/core/obfuscator.js:265-298 | across a run the maps only grow and keep every earlier replacement; with renaming on the variable map gains exactly the collected variables; with it off neither map changes |
| Obfuscator.ObfuscateCounts | assets/js/core/obfuscator.js:458-468 | `stringsEncoded` is the number of distinct literal contents; the complexity is absent exactly for empty input and otherwise the rounded percentage |
| Obfuscator.RunsAccumulate | assets/js/core/obfuscator.js:463-464 | `variablesRenamed` and `functionsRenamed` never decrease from one run to the next on the same object |

## Left out

- Emitted Lua semantics: the decoder text (obfuscator.js:363-383), the anti-VM `tick()` probe
  and the loader are modelled as text only. Their behaviour when run by Luau is not modelled.
  The decoder's `_c*8+(c-48)` loop does not match how Luau reads `\ddd` escapes, so its
  intended inverse is the spec function `Cipher.DecodeOctal` only.
- `executionTime` and `performance.now`: the clock is outside the model. `PerformanceMonitor`
  takes the current time as a parameter.
- Obfuscator.Complexity: computed exactly as a rational rounded half up. The source computes
  it in floating point and appends `%`. An empty input gives `Infinity%` in the source and
  `None` here.
- `encryptString` (btoa), `generateStringDecryptor`, `wrapConstant`, `generateAntiVM` and
  `generateInstructionTable` are never called from `obfuscate`. `options.encryptStrings` is
  resolved but never read: strings are always encoded.
- Characters are Unicode scalar values, one per JavaScript code unit. Astral characters
  (two code units) and lone surrogates are not modelled. The XOR stays inside a block of 256
  codes, so surrogate codes never arise from scalars.
- The `Random` float helpers, easing, colour, lerp and distance functions, `throttle`,
  `debounce` and the animation-frame shims in utils.js, and the UI files. They are drawing
  and timing code with no bearing on the obfuscator.
- `ObjectPool`'s `resetFn` is a callback on the object and is not modelled. The objects are
  values produced by `createFn` from a creation counter. `Release` finds the object by value,
  while `indexOf` (utils.js:229) compares references. The two agree only when `createFn`
  makes distinct objects distinct values, that is, when it is injective.
- Constants.WrapConstants: literals are read and printed as exact integers. The source
  uses JavaScript doubles, and from 2^52 up the two differ: `n + 0.5` loses its `.5` from
  2^52, `parseInt` rounds literals above 2^53 (so `n * 2` and `n * 3` are of the rounded
  value), and from 10^21 up template literals print exponent notation such as `1e+21`.
- Utils.RandomSource.Boolean: `Math.random() > 0.5` is modelled as the parity of the draw.
  Both values stay reachable, but the draw stream is an integer one, not a float.
- Cipher.OctalRoundTrip: proved for character codes below 512. A code of 512 or more gives
  four or more octal digits, and the three-digit reading no longer inverts it.
- Minifier.MinifyKeepsSpans: requires that the non-whitespace text outside the spans holds
  no `__STRING_`. This is stronger than the source needs. The restore step (obfuscator.js:451)
  only rewrites `__STRING_<digits>__`, so other text containing `__STRING_`, such as the
  identifier `__STRING_x`, comes back unchanged. Only a gap that spells
  `__STRING_<digits>__` after minifying is corrupted. It is replaced by a protected string,
  or by `undefined` for an index past the last one.
- Renamer.RenameVarsTokens: requires that no replacement name is itself a collected
  variable. A generated name that collides with a later variable is renamed again.

## Findings

| source | as written | input that shows it | evidently intended | confidence | as-written member | corrected member |
|---|---|---|---|---|---|---|
| assets/js/core/obfuscator.js:185 | `(a * b) > c` with a in [5, 20], b in [2, 8], c in [1, 10], in the "always true" list | a = 5, b = 2, c = 10: `(5 * 2) > 10` is false; as the loader's guard (407) the script then raises "Invalid state" | a predicate true for all draws, e.g. `>=` | high (not executed) | DeadCode.OpaqueTrueCanBeFalse, Assembly.LoaderCanRefuse | DeadCode.OpaqueTrueCorrected |
| assets/js/core/obfuscator.js:333 | `(${n + a} - ${b})` with a and b drawn independently | a = 10, b = 11 gives n - 1 | a value-preserving form: one draw for both | high (not executed) | Constants.MinusChangesValue | Constants.FormCorrectedValue |
| assets/js/core/obfuscator.js:335 | `(${n} + ${a} - ${b})` with a and b drawn independently | a = 5, b = 6 gives n - 1 | one draw for both | high (not executed) | Constants.PlusMinusChangesValue | Constants.FormCorrectedValue |
| assets/js/core/obfuscator.js:272 | the reserved list holds no Lua keywords | `local function f()` collects `function` as a variable, and every `function` keyword is then replaced | Lua keywords are never renamed | high (not executed) | Renamer.LocalFunctionCaptured, Renamer.LocalFunctionLosesKeyword | Renamer.VariablesCorrectedProps, Renamer.LocalFunctionCorrected, Renamer.FunctionRenamedCorrected |
| assets/js/core/obfuscator.js:438 | `\s*([(){}[\],;=<>+\-*/~])\s*` replaced by `$1` removes the whitespace between two minus operators | `a - -b` becomes `a--b`, which Lua reads as `a` followed by a comment running to the end of the one-line output | keep one space between two `-` | high (not executed) | Minifier.MinusPairJoins | Minifier.SqueezeCorrectedNoComment |
