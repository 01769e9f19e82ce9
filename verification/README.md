# Pattern validator of an einops-style rearrangement

This project is a Dafny model of the `Validator` class in `validators.py`.
The class takes an array and a pattern such as `"b (h w) c -> b c (h w)"`.
It checks that the pattern is well formed, that both sides name the same axes,
and that the pattern fits the array's rank. It then compiles the pattern into three maps:

- `input_tokens_mapping`: input name → axis index, or the ellipsis → a list of axis indices;
- `input_tokens_shape_mapping`: input name → that axis's size;
- `output_tokens_mapping`: output name → position in the output.

The array is represented by its shape (`seq<nat>`). Every stage is a pure function.
Every `raise` becomes an `Err`/`Fail` value of one `Error` datatype.
Stages are chained with `:-`, so the first failure aborts the rest, as an exception does.

Modules:

- `Results`: the `Result`/`Check` failure-compatible types.
- `PyStrings`: the Python string operations the code relies on, with their laws:
  - `str.isspace` and `strip`;
  - `split` on a separator and `join`;
  - `replace`;
  - `str(int)`.
- `PyLists`: the Python list operations the code relies on, with their laws:
  - `list.count`;
  - the filtering comprehension;
  - `set(...)`;
  - `range`.
- `Validators`: the class, one function per method, in the order `validate_and_return` runs them.
- `ValidatorProofs`: properties that relate several calls or need induction. These include:
  - where each input token is stored;
  - that the input map covers each axis exactly once;
  - that the output positions are `0 .. n-1`;
  - the order in which errors are reported.

Three functions come from `utils`, and that module is not part of this model:

- the character checker;
- the normaliser of parenthesised singletons;
- the tokenizer.

They are parameters, bundled in `Validators.Utils`. Lemmas that depend on how tokens look state that as a hypothesis:

- `PlainTokens`: no spaces and no parentheses, so every token is a single name and no group such as `(h w)` occurs;
- `NoSingletonLookalikes`: no name that starts with `singleton_`;
- `IgnoresOuterSpace`: the tokenizer gives the same tokens for a text and for the text stripped;
- after an ellipsis collapse, tokenizing the output string with its `...` deleted gives the output tokens less `"..."`.

## Model

| member | source | states |
|---|---|---|
| Validators.Size | validators.py:27 | the number of elements is zero exactly when some dimension is zero |
| Validators.IsEmptyArray | validators.py:27-28 | rejects, with the empty-array error, exactly the shapes with a zero dimension |
| Validators.ParsePattern | validators.py:38-43 | succeeds iff the pattern contains exactly one `->`; on success returns the stripped text before and after it; otherwise the malformed-pattern error |
| Validators.NewValidator | validators.py:4-14 | succeeds iff the array is non-empty, the characters are allowed and the cleaned pattern has exactly one arrow; the errors come in constructor order, and once the first two checks pass the only error is the malformed pattern; the stored pattern is the cleaned one; the stored halves are the stripped text before and after its only arrow, and the tokens are the tokenizer's output on those halves |
| Validators.StrippedOrder | validators.py:52 | the result is never empty and no name in it holds a space or a parenthesis |
| Validators.RemoveParens | validators.py:52 | `.replace("(", "").replace(")", "")` leaves no parenthesis and keeps every other character as often as it occurs |
| Validators.SplitPiecesClean | validators.py:52 | splitting a parenthesis-free text on spaces gives names without spaces or parentheses |
| ValidatorProofs.RemoveParensOfJoined | validators.py:52 | joining written tokens (names or parenthesised groups of names) with spaces and deleting the parentheses gives their names joined by spaces, groups opened in place |
| ValidatorProofs.StrippedOrderOfWritten | validators.py:45-52 | on written tokens, `stripped_order` gives their names in order, each group `(b c)` contributing its members where it stood |
| ValidatorProofs.StrippedOrderExample | validators.py:49 | `["a", "(b c)"]` gives `["a", "b", "c"]` |
| Validators.EllipsisChecker | validators.py:60-61 | fails iff `...` sits at two positions of the input tokens or of the output tokens |
| Validators.IdentifierMatchChecker | validators.py:69-87 | passes iff both sides are duplicate-free and name the same set; otherwise reports, in source order: input duplicate, output duplicate, names missing from the output (the exact set), names extra in the output (the exact set) |
| Validators.KeyAt | validators.py:149-161 | the dict key of a token: a name is its own key; the n-th `1` gets `singleton_` followed by a decimal numeral that reads back as n |
| Validators.Store | validators.py:157-161 | storing a key at an axis keeps the two maps consistent, adds exactly that key with the axis and its size, and leaves every other entry as it was |
| Validators.AssignIndices | validators.py:147-161 | the loop succeeds iff every remaining `1` sits on an axis of size one; on success the two maps stay consistent (same keys; each index has its axis's size; the ellipsis list is in both maps) |
| Validators.InputTokenMapper | validators.py:111-164 | succeeds iff the rank conditions hold and every `1` fits its axis; once the rank conditions hold, its only error is a misplaced `1`; the negative-width branch is unreachable |
| ValidatorProofs.InputRankErrors | validators.py:111-126 | several ellipses, a token count other than the rank (no ellipsis), and more explicit tokens than axes (one ellipsis) each give their own error, checked in that order |
| Validators.EmptyEllipsisChecker | validators.py:214-219 | an ellipsis with no axes is deleted from both maps and every other entry kept; the pattern becomes the old one with every `...` deleted, stripped, so it holds no `...` and no outer whitespace; otherwise nothing changes |
| Validators.CollapseKeepsWellFormed | validators.py:214-216 | deleting the empty ellipsis entry keeps the two maps consistent, and afterwards no empty ellipsis entry is left |
| Validators.AssignPositions | validators.py:187-203 | every stored position is below the number of output tokens, and no earlier key is lost |
| Validators.OutputTokensMapper | validators.py:182-205 | succeeds iff the (possibly collapsed) pattern still has exactly one arrow; takes the stripped output half and re-tokenizes the unstripped one; positions are below the token count |
| Validators.ValidateAndReturn | validators.py:226-237 | succeeds iff the ellipsis check, the identifier check and the input mapping succeed and the pattern after the ellipsis collapse still has exactly one arrow; the re-split error is reported iff only that last condition fails; otherwise the first failing stage's error is the pipeline's error; a success returns the array's shape and consistent input maps with no empty ellipsis entry |
| ValidatorProofs.ChecksPassIff | validators.py:226-228 | the checks before the re-split (no repeated ellipsis, identifier check, rank conditions, every `1` on an axis of size one) pass iff the first three stages succeed |
| ValidatorProofs.PipelineSucceeds | validators.py:226-237 | in terms of the tokens and the shape alone: the pipeline succeeds iff those checks pass and the pattern, with its `...` deleted and stripped after a collapse, has exactly one arrow; the re-split error is reported iff the checks pass and it has not |
| ValidatorProofs.CompiledOutputPositions | validators.py:182-205 | end to end, given the tokenizer hypotheses: on success the output map's keys are those of the output tokens (less `...` after a collapse), the last token with a key holds its own position, and with distinct keys the positions are exactly `0 .. n-1` |
| PyStrings.IsSpace | validators.py:40 | `str.isspace` holds for space, tab and newline and for none of the characters of the pattern syntax (`-`, `>`, `.`, parentheses, digits) |
| PyStrings.SkipSpace | validators.py:40 | the whitespace `strip` cuts in front is the longest whitespace run from the start |
| PyStrings.SkipSpaceBack | validators.py:40 | the whitespace `strip` cuts at the end is the longest whitespace run before the end |
| PyStrings.Strip | validators.py:40 | the result is a contiguous slice with only whitespace cut on either side, and has no outer whitespace |
| PyStrings.StripIs | validators.py:40 | `strip` is fixed by its cuts: whitespace before n and from m on, none at the ends of `s[n..m]`, means the result is `s[n..m]` |
| PyStrings.StripPadded | validators.py:219 | whitespace around a text does not change what `strip` gives |
| PyStrings.StripAroundSep | validators.py:38-40 | a separator without whitespace survives `strip` at its place, moved left by the whitespace cut in front, and what follows it is unchanged up to stripping |
| PyStrings.StripKeepsUniquePair | validators.py:219 | a two-character separator without whitespace that occurs once still occurs once after `strip` |
| PyStrings.Split | validators.py:39 | the list of pieces is never empty, and joining the pieces with the separator gives back the string |
| PyStrings.JoinAppend | validators.py:52 | `sep.join(a + b)` is `sep.join(a) + sep + sep.join(b)` for non-empty lists |
| PyStrings.JoinKeepsChars | validators.py:52 | every character of a piece is in the joined string |
| PyStrings.JoinOnlyChars | validators.py:52 | every character of the joined string comes from a piece or from the separator |
| PyStrings.SplitInTwo | validators.py:39 | for a two-character separator whose two characters differ: split gives two pieces iff the separator occurs exactly once, and the pieces are the text on either side |
| PyStrings.OnlyOccurrenceBetween | validators.py:39 | a two-character arrow placed between two arrow-free texts occurs there and nowhere else, so `split('->')` cuts only there |
| PyStrings.SplitJoinRoundTrip | validators.py:52 | splitting a join on a character that no part contains gives back the parts |
| PyStrings.Replace | validators.py:217 | replacing by a text no longer than the pattern never lengthens the string; what deleting `...` does is stated by the `RemoveEllipsis*` laws below |
| PyStrings.RemoveChar | validators.py:52 | `replace(c, '')` leaves no c and keeps every other character as often as it occurs |
| PyStrings.RemoveCharConcat | validators.py:52 | deleting one character works piece by piece over a concatenation |
| PyStrings.RemoveAbsentChar | validators.py:52 | deleting a character that does not occur changes nothing |
| PyStrings.NoEllipsisAfterRemoval | validators.py:217 | after `replace('...', '')` no `...` is left |
| PyStrings.RemoveEllipsisKeepsChars | validators.py:217 | `replace('...', '')` keeps every character other than `.` as often as it occurs |
| PyStrings.RemoveEllipsisConcat | validators.py:217 | deleting `...` works part by part when the second part does not start with a dot |
| PyStrings.RemoveEllipsisAfterDotless | validators.py:217 | a dot-free text in front is kept as it is |
| PyStrings.RemoveEllipsisStrip | validators.py:217-219 | deleting `...` and then stripping gives the same whether or not the text was stripped first |
| ValidatorProofs.CollapseAroundArrow | validators.py:217 | deleting the ellipses of `p0 -> p1` deletes them on either side and keeps the arrow |
| ValidatorProofs.CollapseIff | validators.py:135-141 | after a successful input mapping, the ellipsis entry is empty iff `...` is written and the explicit tokens take every axis |
| ValidatorProofs.CollapsedPatternIs | validators.py:214-219 | the pattern handed to the output stage is the constructor's pattern, with its `...` deleted and stripped exactly when the ellipsis collapses |
| ValidatorProofs.CollapseKeepsOneArrow | validators.py:217-219 | when the arrow holds the only `-` of the pattern, the collapsed pattern still has exactly one arrow, so the re-split succeeds |
| ValidatorProofs.CollapsedOutputString | validators.py:182-183 | after a collapse, the stripped output half of the new pattern is the old output string with its `...` deleted, stripped |
| ValidatorProofs.CollapsedOutputTokens | validators.py:182-184 | after a collapse and given the tokenizer hypotheses, the output stage succeeds and sees the constructor's output tokens less `...` |
| PyStrings.ParseNatToString | validators.py:157 | `str(n)` is a decimal numeral that reads back as n |
| PyStrings.NatToString | validators.py:157 | `str(n)` is a non-empty string of digits that starts with `0` only for zero |
| PyStrings.NatToStringInjective | validators.py:157 | different counters give different numerals |
| PyLists.Count | validators.py:60 | `count(x)` is positive iff x occurs |
| PyLists.Without | validators.py:72 | the filter drops every copy of the value and keeps the count of every other value |
| PyLists.WithoutConcat | validators.py:72 | the filter works piece by piece over a concatenation, so it keeps the remaining values in their order |
| PyLists.CountAboveOne | validators.py:60 | `count(x) > 1` iff x sits at two positions |
| PyLists.SetSizeIffDistinct | validators.py:75 | `len(set(xs)) == len(xs)` iff xs has no duplicates |
| PyLists.Range | validators.py:129 | `range(a, b)` lists a, a+1, …, b-1 |
| ValidatorProofs.SingletonKeyInjective | validators.py:157 | distinct singleton counters give distinct `singleton_<n>` keys |
| ValidatorProofs.AssignIndicesKeys | validators.py:149-161 | the loop adds exactly the keys of the remaining tokens |
| ValidatorProofs.AssignIndicesValues | validators.py:149-161 | the last token with a given key keeps its own axis; keys no remaining token has are untouched |
| ValidatorProofs.AssignIndicesFailure | validators.py:150-155 | a misplaced `1` is reported at the first such pair, with that axis's size and index |
| ValidatorProofs.FirstMisfitExists | validators.py:150-155 | if some remaining `1` sits on an axis whose size is not one, there is a first such pair |
| ValidatorProofs.SingletonMismatchReportsFirst | validators.py:147-155 | past the rank checks, the mapper reports the first misplaced `1` |
| ValidatorProofs.InputEllipsisEntry | validators.py:132-143 | the ellipsis, wherever it is written, takes the leading axes `[0, rank - explicit)` in both maps |
| ValidatorProofs.InputKeys | validators.py:128-161 | the index map holds the ellipsis, if written, plus the keys of the explicit tokens, and nothing else |
| ValidatorProofs.InputExplicitEntry | validators.py:149-161 | the k-th explicit token holds axis `d + k` and its size, unless a later token shares its key |
| ValidatorProofs.InputAxesPartition | validators.py:111-161 | with distinct keys, each axis is held by exactly one entry and no entry holds anything else |
| ValidatorProofs.StrippedOrderOfPlain | validators.py:52 | on plain tokens, the join/remove-parentheses/split gives the tokens back (`[""]` for none) |
| ValidatorProofs.NamesOfPlain | validators.py:69-73 | on plain tokens, the compared names are the tokens with the `1`s dropped |
| ValidatorProofs.GroupOfOnesHasNoNames | validators.py:45-52 | a group made only of `1`s has no names: `["(1 1)", "(1 1)"]` strips to four `1`s, and dropping the `1`s leaves nothing |
| ValidatorProofs.GroupsOfOnesPassIdentifierCheck | validators.py:69-87 | `(1 1) (1 1) -> (1 1) (1 1)` passes the identifier check, since neither side has a name left to compare |
| ValidatorProofs.GroupedTokensLeaveAxisUnowned | validators.py:111-164 | on shape `(1, 1)` the mapper stores both `(1 1)` tokens under one key holding axis 1, so the input map does not partition the axes: axis 0 has no owner |
| ValidatorProofs.EllipsisOnOneSideRejected | validators.py:69-87 | on tokens without spaces or parentheses (`PlainTokens`), an ellipsis written on only one side is rejected by the identifier check |
| ValidatorProofs.DistinctKeysOfNames | validators.py:72-75 | duplicate-free names, none spelled like a singleton key, give the explicit tokens distinct keys |
| ValidatorProofs.IdentifierCheckGivesDistinctKeys | validators.py:75-76 | on single-name tokens (no spaces, no parentheses), none starting with `singleton_`, once the identifier check passes the explicit input tokens have distinct keys, so no input entry is overwritten |
| ValidatorProofs.AssignPositionsKeys | validators.py:190-203 | the output loop adds exactly the keys of the remaining tokens |
| ValidatorProofs.AssignPositionsValues | validators.py:191-203 | the last output token with a given key holds its own position; other entries are untouched |
| ValidatorProofs.OutputPositions | validators.py:182-205 | the output map's keys are the token keys, and the last token with a key holds its own position |
| ValidatorProofs.OutputPositionsDistinct | validators.py:187-205 | with distinct keys, the positions are exactly `0 .. n-1`, one per key |
| ValidatorProofs.ResplitWithoutCollapse | validators.py:182-184 | re-splitting the constructor's pattern succeeds and restores the same output string; with a tokenizer that ignores outer whitespace, also the same tokens |
| ValidatorProofs.CollapseKeepsPartition | validators.py:214-216 | dropping an empty ellipsis entry keeps the one-owner-per-axis property |
| ValidatorProofs.CompiledInputCoversEachAxisOnce | validators.py:226-237 | end to end, on input tokens that are single names (no spaces, no parentheses) and do not start with `singleton_`, the returned input map gives each axis of the array exactly one owner |
| ValidatorProofs.DuplicateReportedBeforeRank | validators.py:226-228 | on tokens without spaces or parentheses, with no repeated `...` on either side and no repeated input name, a repeated output name is reported as such whatever the array's rank, because the identifier check runs before the input mapper |
| ValidatorProofs.EllipsisTakesLeadingAxes | validators.py:132-143 | `a ... b` on any rank-5 array: `...` ↦ `[0, 1, 2]` in both maps, `a` ↦ 3, `b` ↦ 4 |
| ValidatorProofs.SingletonExamples | validators.py:149-161 | `1 a` on shape (1, 5) maps `singleton_1` ↦ 0 and `a` ↦ 1 in the index map, and to sizes 1 and 5 in the shape map |
| ValidatorProofs.SingletonMismatchExample | validators.py:150-155 | `1 a` on shape (2, 5) fails at axis 0, whose size is 2 |

Points where the code's behaviour is easy to misread:

- **Ellipsis axes.** The code gives the ellipsis the leading axes `[0, rank - k)` whatever its position (lines 135-142).
  - So `a ... b` on a rank-5 array maps `...` to `[0, 1, 2]` and `a` to 3 (`EllipsisTakesLeadingAxes`).
  - The index of `...` in the tokens is computed (line 134) but never used.
- **Shape map for the ellipsis.** `input_tokens_shape_mapping['...']` holds the index list, not the sizes (line 143).
- **Singleton key collision.** A user name spelled `singleton_1` is stored under the same dict key as the first `1`, and whichever comes later overwrites the other.
  - `KeyAt` models this.
  - `InputAxesPartition` and `CompiledInputCoversEachAxisOnce` assume names that do not look like singleton keys.
- **Output stage.** The output stage re-splits the pattern (line 182) and re-tokenizes the unstripped output half (line 184).
  - It fails with an unpacking error if the pattern no longer holds exactly one `->`.
  - That can only happen after the ellipsis collapse has rewritten the pattern (`PipelineSucceeds`).
  - When the arrow holds the pattern's only `-`, the collapse keeps it (`CollapseKeepsOneArrow`).
- **Collapse on both sides.** `replace('...', '')` runs on the whole pattern (line 217), so it also deletes `...` from the output side. The output map then numbers the output tokens less `...` (`CompiledOutputPositions`).

## Left out

- `to_numpy_array` and the array contents: the array is represented by its shape. Its `size` is the product of the shape.
- `unexpected_chars_checker`, `clean_singletons_in_parentheses` and `_tokenize` live in utils, which is not part of this model. They are function parameters (`Validators.Utils`). A failure of the character checker is the `DisallowedCharacter` error. The normaliser and the tokenizer are total functions here, so errors they may raise are not modelled.
- The `**kwargs` stored by the constructor: nothing reads them.
- The exact text of the error messages. Each raise is an `Error` variant carrying the values the message interpolates.
- Instance mutation: the fields the methods overwrite are returned as new values.
  - `empty_ellipsis_checker` gives the new pattern and maps.
  - `output_tokens_mapper` gives the new output string and tokens.
- The ellipsis entry is modelled as a list-valued `Val`, so `len()` in line 214 only ever applies to a list. The `del` in lines 215-216 cannot raise `KeyError` because both maps always share their keys (`WellFormed`).
- `Validators.AssignPositions`: its own contract states only the bound and that no key is lost. What it stores is stated by `ValidatorProofs.AssignPositionsKeys` and `ValidatorProofs.AssignPositionsValues`.
- Dict insertion order: the maps are Dafny `map`s, which have no order. What each key holds is modelled; the order in which Python would list the keys is not.
- `ValidatorProofs.CompiledOutputPositions`: stated under the tokenizer hypotheses listed above, because the tokenizer is not part of this model.
- `Validators.ValidateAndReturn`: its own contract says nothing about the output map beyond success; the positions it holds are stated by `ValidatorProofs.CompiledOutputPositions`.
- `ValidatorProofs.CompiledInputCoversEachAxisOnce`: stated only for input tokens that are single names (no spaces, no parentheses) and that do not start with `singleton_`. The tokenizer does yield groups such as `(h w)` (validators.py:49), and for them the property can fail. Example: `(1 1)` on both sides with shape `(1, 1)` passes the identifier check, because the names it compares drop every `1` (`GroupsOfOnesPassIdentifierCheck`). The mapper then stores one key `(1 1)` for axis 1, and axis 0 has no owner (`GroupedTokensLeaveAxisUnowned`). A grouped token takes one axis in `input_tokens_mapper` but stands for several names in `stripped_order`; the model does not cover that mismatch.
