/** The `Validator` of validators.py: it compiles an einops-style pattern
    such as `"a b c -> c b a"` against the shape of an array into index maps.

    The Python class keeps its intermediate results in instance fields and
    mutates them stage after stage; here each stage is a pure function and
    the state is threaded explicitly, in the order `validate_and_return`
    runs the stages. Every `raise` is an `Err`/`Fail` value of `Error`. */
module Validators {
  import opened Results
  import opened PyStrings
  import opened PyLists

  const Arrow: string := "->"
  const Ellipsis: string := "..."
  /** The singleton token: an axis of size one, written as the literal 1. */
  const One: string := "1"
  const SingletonPrefix: string := "singleton_"

  /** A value stored in the mappings: one int, or a list of ints (the
      ellipsis entry). */
  datatype Val = Int(n: nat) | List(ns: seq<nat>)

  /** One variant per `raise` of the validator, in source order, plus the
      error of the character checker of utils and the `ValueError` of the
      unpacking at validators.py:182 (`PatternResplitFailed`). */
  datatype Error =
    | EmptyArray                                     // size == 0
    | DisallowedCharacter                            // raised by the character checker of utils
    | MalformedPattern                               // not exactly one "->"
    | TooManyEllipses                                // "..." twice on one side
    | DuplicateInInput(inputStr: string)             // a name twice on the input side
    | DuplicateInOutput(outputStr: string)           // a name twice on the output side
    | MissingInOutput(names: set<string>)            // input names absent from the output
    | ExtraInOutput(names: set<string>)              // output names absent from the input
    | MultipleEllipsesInInput                        // the mapper's own ellipsis re-check
    | TokenCountMismatch(tokens: nat, rank: nat)     // no ellipsis and #tokens != rank
    | TooManyExplicitTokens(explicit: nat, rank: nat)// ellipsis and #explicit > rank
    | EllipsisUnderflow                              // negative ellipsis width
    | SingletonSizeMismatch(size: nat, index: nat)   // a "1" on an axis whose size is not 1
    | PatternResplitFailed                           // the collapsed pattern no longer splits in two

  /** The collaborators imported from utils: the character checker, the
      normaliser of parenthesised singletons and the tokenizer. Their code
      is not part of this model, so they are parameters. */
  datatype Utils = Utils(
    allowedChars: string -> bool,
    cleanSingletons: string -> string,
    tokenize: string -> seq<string>)

  /** The state the constructor leaves in the instance fields. The array is
      represented by its shape. */
  datatype Validator = Validator(
    shape: seq<nat>,
    pattern: string,
    inputStr: string,
    outputStr: string,
    inputTokens: seq<string>,
    outputTokens: seq<string>)

  /** `input_tokens_mapping` and `input_tokens_shape_mapping`. */
  datatype InputMaps = InputMaps(indices: map<string, Val>, sizes: map<string, Val>)

  /** What `output_tokens_mapper` leaves behind: the refreshed output string,
      the re-tokenized output side and `output_tokens_mapping`. */
  datatype OutputStage = OutputStage(outputStr: string, tokens: seq<string>, positions: map<string, nat>)

  /** The tuple returned by `validate_and_return` (the array as its shape). */
  datatype Compiled = Compiled(
    shape: seq<nat>,
    inputMapping: map<string, Val>,
    inputShapeMapping: map<string, Val>,
    outputMapping: map<string, nat>)

  // ---------------------------------------------------------------------
  // Construction

  /** Number of elements of an array of this shape (numpy's `size`); a
      rank-0 array has one element. */
  function Size(shape: seq<nat>): (n: nat)
    ensures n == 0 <==> exists i :: 0 <= i < |shape| && shape[i] == 0
  {
    if |shape| == 0 then 1
    else
      var rest := Size(shape[1..]);
      assert forall i :: 0 <= i < |shape[1..]| ==> shape[1..][i] == shape[i + 1];
      shape[0] * rest
  }

  /** `_is_empty_array`: rejects exactly the shapes with a zero dimension. */
  function IsEmptyArray(shape: seq<nat>): (r: Check<Error>)
    ensures r.Fail? <==> exists i :: 0 <= i < |shape| && shape[i] == 0
    ensures r.Fail? ==> r.error == EmptyArray
  {
    if Size(shape) == 0 then Fail(EmptyArray) else Pass
  }

  /** `_parse_pattern`: succeeds iff the pattern holds exactly one `"->"`,
      and returns the whitespace-stripped text on either side of it. */
  function ParsePattern(pattern: string): (r: Result<(string, string), Error>)
    ensures r.Ok? <==> exists i :: UniqueOccurrence(pattern, Arrow, i)
    ensures r.Err? ==> r.error == MalformedPattern
    ensures forall i :: UniqueOccurrence(pattern, Arrow, i) ==>
              r == Ok((Strip(pattern[..i]), Strip(pattern[i + 2..])))
  {
    SplitInTwo(pattern, Arrow);
    var parts := Split(pattern, Arrow);
    if |parts| != 2 then Err(MalformedPattern) else Ok((Strip(parts[0]), Strip(parts[1])))
  }

  /** `Validator.__init__`: checks the array and the characters, normalises
      the pattern, splits it and tokenizes both halves. */
  function NewValidator(shape: seq<nat>, pattern: string, utils: Utils): (r: Result<Validator, Error>)
    ensures r.Ok? <==>
              && Size(shape) != 0
              && utils.allowedChars(pattern)
              && exists i :: UniqueOccurrence(utils.cleanSingletons(pattern), Arrow, i)
    ensures Size(shape) == 0 ==> r == Err(EmptyArray)
    ensures Size(shape) != 0 && !utils.allowedChars(pattern) ==> r == Err(DisallowedCharacter)
    ensures r.Ok? ==>
              && r.value.shape == shape
              && r.value.pattern == utils.cleanSingletons(pattern)
              && r.value.inputTokens == utils.tokenize(r.value.inputStr)
              && r.value.outputTokens == utils.tokenize(r.value.outputStr)
              && NoOuterSpace(r.value.inputStr) && NoOuterSpace(r.value.outputStr)
    ensures r.Ok? ==> forall i :: UniqueOccurrence(r.value.pattern, Arrow, i) ==>
              && r.value.inputStr == Strip(r.value.pattern[..i])
              && r.value.outputStr == Strip(r.value.pattern[i + 2..])
    ensures Size(shape) != 0 && utils.allowedChars(pattern) && r.Err? ==> r.error == MalformedPattern
  {
    var emptiness := IsEmptyArray(shape);
    :- emptiness;
    :- if utils.allowedChars(pattern) then Pass else Fail(DisallowedCharacter);
    var cleaned := utils.cleanSingletons(pattern);
    var halves :- ParsePattern(cleaned);
    Ok(Validator(shape, cleaned, halves.0, halves.1, utils.tokenize(halves.0), utils.tokenize(halves.1)))
  }

  // ---------------------------------------------------------------------
  // Checks on the token sequences

  /** `stripped_order`: joins the tokens with single spaces, deletes every
      parenthesis and splits on single spaces again, so a group token such as
      `"(b c)"` contributes its member names. No resulting name holds a space
      or a parenthesis. */
  function StrippedOrder(d: seq<string>): (r: seq<string>)
    ensures |r| >= 1
    ensures forall k :: 0 <= k < |r| ==> ' ' !in r[k] && '(' !in r[k] && ')' !in r[k]
  {
    var noParens := RemoveParens(Join(d, " "));
    SplitPiecesClean(noParens);
    Split(noParens, " ")
  }

  /** `.replace("(", "").replace(")", "")`: every parenthesis deleted,
      every other character kept. */
  function RemoveParens(s: string): (r: string)
    ensures '(' !in r && ')' !in r
    ensures forall c :: c != '(' && c != ')' ==> multiset(r)[c] == multiset(s)[c]
  {
    var noOpen := Replace(s, "(", "");
    var r := Replace(noOpen, ")", "");
    RemoveChar(s, '(');
    RemoveChar(noOpen, ')');
    assert multiset(r)['('] == multiset(noOpen)['('] == 0;
    r
  }

  /** The pieces of a paren-free string split on spaces hold no space and
      no parenthesis. */
  lemma SplitPiecesClean(s: string)
    requires '(' !in s && ')' !in s
    ensures forall k :: 0 <= k < |Split(s, " ")| ==>
              ' ' !in Split(s, " ")[k] && '(' !in Split(s, " ")[k] && ')' !in Split(s, " ")[k]
  {
    var r := Split(s, " ");
    SplitPiecesAvoidSep(s, " ");
    JoinKeepsChars(r, " ");
    forall k | 0 <= k < |r|
      ensures ' ' !in r[k] && '(' !in r[k] && ')' !in r[k]
    {
      CharContains(r[k], ' ');
    }
  }

  /** `ellipsis_checker`: fails iff `"..."` sits at two positions of the
      input or of the output tokens. */
  function EllipsisChecker(v: Validator): (r: Check<Error>)
    ensures r.Fail? <==> Repeats(v.inputTokens, Ellipsis) || Repeats(v.outputTokens, Ellipsis)
    ensures r.Fail? ==> r.error == TooManyEllipses
  {
    CountAboveOne(v.inputTokens, Ellipsis);
    CountAboveOne(v.outputTokens, Ellipsis);
    if Count(v.inputTokens, Ellipsis) > 1 || Count(v.outputTokens, Ellipsis) > 1 then
      Fail(TooManyEllipses)
    else
      Pass
  }

  /** The names the identifier check compares on the input side: the
      paren-stripped tokens with every `"1"` dropped (`"..."` is kept). */
  function InputNames(v: Validator): seq<string> {
    Without(StrippedOrder(v.inputTokens), One)
  }

  /** The same for the output side. */
  function OutputNames(v: Validator): seq<string> {
    Without(StrippedOrder(v.outputTokens), One)
  }

  /** `identifier_match_checker`: a duplicate name on the input side, then on
      the output side, then names missing from the output, then names extra
      in the output are reported, in that order; it passes iff both sides
      are duplicate-free and name the same set. */
  function IdentifierMatchChecker(v: Validator): (r: Check<Error>)
    ensures r.Pass? <==>
              && NoDuplicates(InputNames(v))
              && NoDuplicates(OutputNames(v))
              && Elems(InputNames(v)) == Elems(OutputNames(v))
    ensures !NoDuplicates(InputNames(v)) ==> r == Fail(DuplicateInInput(v.inputStr))
    ensures NoDuplicates(InputNames(v)) && !NoDuplicates(OutputNames(v)) ==>
              r == Fail(DuplicateInOutput(v.outputStr))
    ensures NoDuplicates(InputNames(v)) && NoDuplicates(OutputNames(v)) &&
            !(Elems(InputNames(v)) <= Elems(OutputNames(v))) ==>
              r == Fail(MissingInOutput(Elems(InputNames(v)) - Elems(OutputNames(v))))
    ensures NoDuplicates(InputNames(v)) && NoDuplicates(OutputNames(v)) &&
            Elems(InputNames(v)) < Elems(OutputNames(v)) ==>
              r == Fail(ExtraInOutput(Elems(OutputNames(v)) - Elems(InputNames(v))))
  {
    var ins := InputNames(v);
    var outs := OutputNames(v);
    SetSizeIffDistinct(ins);
    SetSizeIffDistinct(outs);
    var missingInOutput := Elems(ins) - Elems(outs);
    var extraInOutput := Elems(outs) - Elems(ins);
    assert missingInOutput == {} ==> Elems(ins) <= Elems(outs) by {
      if !(Elems(ins) <= Elems(outs)) {
        var name :| name in Elems(ins) && name !in Elems(outs);
        assert name in missingInOutput;
      }
    }
    if |Elems(ins)| != |ins| then Fail(DuplicateInInput(v.inputStr))
    else if |Elems(outs)| != |outs| then Fail(DuplicateInOutput(v.outputStr))
    else if missingInOutput != {} then Fail(MissingInOutput(missingInOutput))
    else if extraInOutput != {} then Fail(ExtraInOutput(extraInOutput))
    else Pass
  }

  // ---------------------------------------------------------------------
  // Input mapping

  /** The key `"singleton_" + str(n)` given to the n-th `"1"` token. */
  function SingletonKey(n: nat): string {
    SingletonPrefix + NatToString(n)
  }

  /** The key under which the k-th token of `toks` is stored: the token
      itself, or `singleton_<n>` when it is the n-th `"1"` from the left.
      A user name spelled like `singleton_1` is stored under the same key as
      the first `"1"`, and the later of the two overwrites the earlier, as
      in the Python dict. */
  function KeyAt(toks: seq<string>, k: nat): (key: string)
    requires k < |toks|
    ensures toks[k] != One ==> key == toks[k]
    ensures toks[k] == One ==>
              && StartsWith(key, SingletonPrefix)
              && AllDigits(key[|SingletonPrefix|..])
              && ParseDecimal(key[|SingletonPrefix|..]) == Count(toks[..k + 1], One)
  {
    if toks[k] == One then
      var n := Count(toks[..k + 1], One);
      ParseNatToString(n);
      assert SingletonKey(n)[|SingletonPrefix|..] == NatToString(n);
      SingletonKey(n)
    else
      toks[k]
  }

  /** The two mappings agree: the same keys; a key mapped to index `i` has
      size `shape[i]`; the ellipsis entry holds the same list in both (the
      code stores its index list, not sizes, in the shape map); every index
      is an axis of `shape`. */
  predicate WellFormed(shape: seq<nat>, m: InputMaps) {
    && m.indices.Keys == m.sizes.Keys
    && forall key :: key in m.indices ==>
         match m.indices[key]
         case Int(i) => i < |shape| && m.sizes[key] == Int(shape[i])
         case List(ns) => m.sizes[key] == m.indices[key] && forall n :: n in ns ==> n < |shape|
  }

  /** Stores `key` at axis `index` in both maps, as lines 157-158 and
      160-161 do; this keeps the maps well formed. */
  function Store(shape: seq<nat>, acc: InputMaps, key: string, index: nat): (r: InputMaps)
    requires index < |shape| && WellFormed(shape, acc)
    ensures WellFormed(shape, r)
    ensures r.indices.Keys == acc.indices.Keys + {key}
    ensures r.indices[key] == Int(index) && r.sizes[key] == Int(shape[index])
    ensures forall k :: k in acc.indices && k != key ==> r.indices[k] == acc.indices[k]
  {
    InputMaps(acc.indices[key := Int(index)], acc.sizes[key := Int(shape[index])])
  }

  /** Every `"1"` among `toks[j..]` is paired with an axis of size one. */
  predicate SingletonsFit(shape: seq<nat>, toks: seq<string>, offset: nat, j: nat)
    requires offset + |toks| == |shape|
  {
    forall k :: j <= k < |toks| && toks[k] == One ==> shape[offset + k] == 1
  }

  /** The loop of `input_token_mapper` over `zip(non_ellipsis_tokens,
      array_shape_indices)`, from pair `j` on. The rank checks make both
      lists equally long, so the pairs are `(toks[k], offset + k)`; `ones`
      is the running `singleton_count`. It fails at the first `"1"` whose
      axis is not of size one, and otherwise keeps the maps well formed. */
  function AssignIndices(shape: seq<nat>, toks: seq<string>, offset: nat, j: nat, ones: nat, acc: InputMaps)
    : (r: Result<InputMaps, Error>)
    requires offset + |toks| == |shape| && j <= |toks|
    requires ones == Count(toks[..j], One)
    requires WellFormed(shape, acc)
    ensures r.Ok? <==> SingletonsFit(shape, toks, offset, j)
    ensures r.Ok? ==> WellFormed(shape, r.value)
    ensures r.Err? ==> r.error.SingletonSizeMismatch?
    decreases |toks| - j
  {
    if j == |toks| then
      Ok(acc)
    else
      var index := offset + j;
      assert toks[..j + 1] == toks[..j] + [toks[j]];
      if toks[j] == One then
        if shape[index] != 1 then
          Err(SingletonSizeMismatch(shape[index], index))
        else
          AssignIndices(shape, toks, offset, j + 1, ones + 1, Store(shape, acc, SingletonKey(ones + 1), index))
      else
        AssignIndices(shape, toks, offset, j + 1, ones, Store(shape, acc, toks[j], index))
  }

  /** The rank conditions `input_token_mapper` checks before assigning:
      at most one ellipsis; without it, exactly one token per axis; with it,
      no more explicit tokens than axes. */
  predicate RankFits(rank: nat, tokens: seq<string>) {
    && Count(tokens, Ellipsis) <= 1
    && (Count(tokens, Ellipsis) == 0 ==> |tokens| == rank)
    && (Count(tokens, Ellipsis) == 1 ==> |tokens| - 1 <= rank)
  }

  /** `ellipsis_dims`: the axes left for the ellipsis once every explicit
      token has one. The code's difference can be negative; it is only used
      once the mapper has ruled that out, so here it stops at zero. */
  function EllipsisDims(shape: seq<nat>, tokens: seq<string>): nat {
    var explicit := Without(tokens, Ellipsis);
    if |explicit| <= |shape| then |shape| - |explicit| else 0
  }

  /** The maps `input_token_mapper` starts its loop from: just the
      ellipsis entry, mapped to the leading `ellipsis_dims` axes in both
      maps, when there is an ellipsis. */
  function StartMaps(shape: seq<nat>, tokens: seq<string>): InputMaps {
    var ellipsisMapping := Range(0, EllipsisDims(shape, tokens));
    if Ellipsis in tokens then InputMaps(map[Ellipsis := List(ellipsisMapping)], map[Ellipsis := List(ellipsisMapping)])
    else InputMaps(map[], map[])
  }

  /** `input_token_mapper`. The ellipsis, wherever it stands, takes the
      leading axes `[0, rank - k)` for `k` explicit tokens; the explicit
      tokens take the remaining axes in order. (The position of `"..."` is
      computed by the code but never used.) */
  function InputTokenMapper(shape: seq<nat>, tokens: seq<string>): (r: Result<InputMaps, Error>)
    ensures r.Ok? <==>
              && RankFits(|shape|, tokens)
              && SingletonsFit(shape, Without(tokens, Ellipsis), |shape| - (|tokens| - Count(tokens, Ellipsis)), 0)
    ensures r.Ok? ==> WellFormed(shape, r.value)
    ensures RankFits(|shape|, tokens) && r.Err? ==> r.error.SingletonSizeMismatch?
    ensures r != Err(EllipsisUnderflow)
  {
    var ellipsisCount := Count(tokens, Ellipsis);
    var explicit := Without(tokens, Ellipsis);
    var rank := |shape|;
    if ellipsisCount > 1 then
      Err(MultipleEllipsesInInput)
    else if ellipsisCount == 0 && |tokens| != rank then
      Err(TokenCountMismatch(|tokens|, rank))
    else if ellipsisCount == 1 && |explicit| > rank then
      Err(TooManyExplicitTokens(|explicit|, rank))
    else if Ellipsis in tokens then
      if rank < |explicit| then
        Err(EllipsisUnderflow)
      else
        assert explicit[..0] == [] && EllipsisDims(shape, tokens) == |shape| - (|tokens| - ellipsisCount);
        AssignIndices(shape, explicit, EllipsisDims(shape, tokens), 0, 0, StartMaps(shape, tokens))
    else
      assert explicit[..0] == [] && explicit == tokens;
      AssignIndices(shape, explicit, 0, 0, 0, StartMaps(shape, tokens))
  }

  // ---------------------------------------------------------------------
  // Ellipsis collapse

  /** The ellipsis was mapped to no axis at all. */
  predicate EmptyEllipsis(m: InputMaps) {
    Ellipsis in m.indices && m.indices[Ellipsis] == List([])
  }

  /** `empty_ellipsis_checker`: when the ellipsis covers no axis, its entry
      leaves both maps and every `"..."` leaves the (whole) pattern, which is
      then stripped; otherwise nothing changes. */
  function EmptyEllipsisChecker(pattern: string, m: InputMaps): (r: (string, InputMaps))
    ensures EmptyEllipsis(m) ==>
              && r.0 == Strip(Replace(pattern, Ellipsis, ""))
              && r.1 == InputMaps(m.indices - {Ellipsis}, m.sizes - {Ellipsis})
              && !Contains(r.0, Ellipsis)
              && NoOuterSpace(r.0)
    ensures !EmptyEllipsis(m) ==> r == (pattern, m)
  {
    if EmptyEllipsis(m) then
      var newPattern := Replace(pattern, Ellipsis, "");
      var stripped := Strip(newPattern);
      NoEllipsisAfterRemoval(pattern);
      StripKeepsAbsence(newPattern, Ellipsis);
      (stripped, InputMaps(m.indices - {Ellipsis}, m.sizes - {Ellipsis}))
    else
      (pattern, m)
  }

  /** The collapse keeps the two maps well formed and leaves no ellipsis
      entry mapped to an empty list. */
  lemma CollapseKeepsWellFormed(shape: seq<nat>, pattern: string, m: InputMaps)
    requires WellFormed(shape, m)
    ensures WellFormed(shape, EmptyEllipsisChecker(pattern, m).1)
    ensures !EmptyEllipsis(EmptyEllipsisChecker(pattern, m).1)
  {
  }

  // ---------------------------------------------------------------------
  // Output mapping

  /** The loop of `output_tokens_mapper` from token `j` on: token `k` gets
      position `k` (the code's `current_index` advances once per token), a
      `"1"` under its `singleton_<n>` key. Every position is below the
      number of tokens. */
  function AssignPositions(toks: seq<string>, j: nat, ones: nat, acc: map<string, nat>): (r: map<string, nat>)
    requires j <= |toks| && ones == Count(toks[..j], One)
    requires forall key :: key in acc ==> acc[key] < j
    ensures forall key :: key in r ==> r[key] < |toks|
    ensures acc.Keys <= r.Keys
    decreases |toks| - j
  {
    if j == |toks| then
      acc
    else
      assert toks[..j + 1] == toks[..j] + [toks[j]];
      if toks[j] == One then
        AssignPositions(toks, j + 1, ones + 1, acc[SingletonKey(ones + 1) := j])
      else
        AssignPositions(toks, j + 1, ones, acc[toks[j] := j])
  }

  /** `output_tokens_mapper`: splits the (possibly collapsed) pattern on
      `"->"` again, which fails unless there is exactly one arrow, keeps the
      stripped output half, re-tokenizes the unstripped half and assigns
      positions. */
  function OutputTokensMapper(pattern: string, tokenize: string -> seq<string>): (r: Result<OutputStage, Error>)
    ensures r.Ok? <==> exists i :: UniqueOccurrence(pattern, Arrow, i)
    ensures r.Err? ==> r.error == PatternResplitFailed
    ensures forall i :: UniqueOccurrence(pattern, Arrow, i) ==>
              && r.Ok?
              && r.value.outputStr == Strip(pattern[i + 2..])
              && r.value.tokens == tokenize(pattern[i + 2..])
    ensures r.Ok? ==> forall key :: key in r.value.positions ==> r.value.positions[key] < |r.value.tokens|
  {
    SplitInTwo(pattern, Arrow);
    var parts := Split(pattern, Arrow);
    if |parts| != 2 then
      Err(PatternResplitFailed)
    else
      var tokens := tokenize(parts[1]);
      assert tokens[..0] == [];
      Ok(OutputStage(Strip(parts[1]), tokens, AssignPositions(tokens, 0, 0, map[])))
  }

  // ---------------------------------------------------------------------
  // The pipeline

  /** `validate_and_return`: the stages in their fixed order, the first
      failure aborting the rest. In the source `_tokenize` is one module
      function: `tokenize` must be the same tokenizer that built `v`
      (`utils.tokenize` of `NewValidator`). */
  function ValidateAndReturn(v: Validator, tokenize: string -> seq<string>): (r: Result<Compiled, Error>)
    ensures r.Ok? <==>
              && EllipsisChecker(v).Pass?
              && IdentifierMatchChecker(v).Pass?
              && InputTokenMapper(v.shape, v.inputTokens).Ok?
              && exists i :: UniqueOccurrence(EmptyEllipsisChecker(v.pattern, InputTokenMapper(v.shape, v.inputTokens).value).0, Arrow, i)
    ensures r == Err(PatternResplitFailed) <==>
              && EllipsisChecker(v).Pass?
              && IdentifierMatchChecker(v).Pass?
              && InputTokenMapper(v.shape, v.inputTokens).Ok?
              && !exists i :: UniqueOccurrence(EmptyEllipsisChecker(v.pattern, InputTokenMapper(v.shape, v.inputTokens).value).0, Arrow, i)
    ensures EllipsisChecker(v).Fail? ==> r == Err(TooManyEllipses)
    ensures EllipsisChecker(v).Pass? && IdentifierMatchChecker(v).Fail? ==>
              r == Err(IdentifierMatchChecker(v).error)
    ensures r != Err(MultipleEllipsesInInput) && r != Err(EllipsisUnderflow)
    ensures EllipsisChecker(v).Pass? && IdentifierMatchChecker(v).Pass? && InputTokenMapper(v.shape, v.inputTokens).Err? ==>
              r == Err(InputTokenMapper(v.shape, v.inputTokens).error)
    ensures r.Ok? ==>
              && r.value.shape == v.shape
              && WellFormed(v.shape, InputMaps(r.value.inputMapping, r.value.inputShapeMapping))
              && !EmptyEllipsis(InputMaps(r.value.inputMapping, r.value.inputShapeMapping))
  {
    var ellipses := EllipsisChecker(v);
    :- ellipses;
    :- IdentifierMatchChecker(v);
    var maps :- InputTokenMapper(v.shape, v.inputTokens);
    var collapsed := EmptyEllipsisChecker(v.pattern, maps);
    CollapseKeepsWellFormed(v.shape, v.pattern, maps);
    var output :- OutputTokensMapper(collapsed.0, tokenize);
    Ok(Compiled(v.shape, collapsed.1.indices, collapsed.1.sizes, output.positions))
  }
}
