/** Properties of the validator model that relate several calls or need an
    induction: where every input token lands, that the axes are covered
    exactly once, where every output token lands, and what the pipeline
    reports first. */
module ValidatorProofs {
  import opened Results
  import opened PyStrings
  import opened PyLists
  import opened Validators

  // ---------------------------------------------------------------------
  // Vocabulary

  /** No later token of `toks` is stored under the same key as token `k`,
      so token `k`'s entry is the one the dict keeps. */
  predicate LastKey(toks: seq<string>, k: nat)
    requires k < |toks|
  {
    forall k' :: k < k' < |toks| ==> KeyAt(toks, k') != KeyAt(toks, k)
  }

  /** All tokens are stored under different keys. */
  predicate DistinctKeys(toks: seq<string>) {
    forall k1, k2 :: 0 <= k1 < k2 < |toks| ==> KeyAt(toks, k1) != KeyAt(toks, k2)
  }

  /** Axis `i` is held by the entry of `key`. */
  ghost predicate Owns(indices: map<string, Val>, key: string, i: nat) {
    key in indices &&
    match indices[key]
    case Int(n) => n == i
    case List(ns) => i in ns
  }

  /** Some entry holds axis `i`. */
  ghost predicate HasOwner(indices: map<string, Val>, i: nat) {
    exists key :: Owns(indices, key, i)
  }

  /** The entries of `indices` split the axes `0 .. rank-1` among them:
      each axis is held by exactly one entry and no entry holds any other
      number. */
  ghost predicate Partitions(indices: map<string, Val>, rank: nat) {
    && (forall i: nat :: i < rank ==> HasOwner(indices, i))
    && (forall key, i: nat :: Owns(indices, key, i) ==> i < rank)
    && (forall key1, key2, i: nat :: Owns(indices, key1, i) && Owns(indices, key2, i) ==> key1 == key2)
  }

  /** Tokens that are single names: no spaces and no parenthesised groups.
      The tokenizer also yields groups such as `(b c)`; lemmas that need
      single names state this as a hypothesis. */
  predicate PlainTokens(toks: seq<string>) {
    forall k :: 0 <= k < |toks| ==> ' ' !in toks[k] && '(' !in toks[k] && ')' !in toks[k]
  }

  /** No token is spelled like a synthetic singleton key. */
  predicate NoSingletonLookalikes(toks: seq<string>) {
    forall t :: t in toks ==> !StartsWith(t, SingletonPrefix)
  }

  /** The tokenizer ignores the whitespace around its argument. */
  ghost predicate IgnoresOuterSpace(tokenize: string -> seq<string>) {
    forall s :: tokenize(s) == tokenize(Strip(s))
  }

  // ---------------------------------------------------------------------
  // Keys

  /** Different singleton counters give different keys. */
  lemma SingletonKeyInjective(a: nat, b: nat)
    ensures SingletonKey(a) == SingletonKey(b) ==> a == b
  {
    NatToStringInjective(a, b);
    assert SingletonKey(a)[|SingletonPrefix|..] == NatToString(a);
    assert SingletonKey(b)[|SingletonPrefix|..] == NatToString(b);
  }

  /** No key is the ellipsis: explicit tokens exclude it and singleton keys
      start with `singleton_`. */
  lemma KeyIsNotEllipsis(toks: seq<string>, k: nat)
    requires k < |toks| && Ellipsis !in toks
    ensures KeyAt(toks, k) != Ellipsis
  {
    if toks[k] == One {
      assert KeyAt(toks, k)[0] == 's';
    }
  }

  // ---------------------------------------------------------------------
  // Input mapping

  /** The keys the tokens from position `j` on are stored under. */
  function KeysFrom(toks: seq<string>, j: nat): set<string> {
    set k | j <= k < |toks| :: KeyAt(toks, k)
  }

  /** The keys from `j` on are the key of token `j` and those after it. */
  lemma KeysFromStep(toks: seq<string>, j: nat)
    requires j < |toks|
    ensures KeysFrom(toks, j) == {KeyAt(toks, j)} + KeysFrom(toks, j + 1)
  {
  }

  /** Moving one key from the pending keys to the stored ones keeps their union. */
  lemma UnionShift<T>(all: set<T>, before: set<T>, after: set<T>, pending: set<T>, rest: set<T>, x: T)
    requires all == after + rest && after == before + {x} && pending == {x} + rest
    ensures all == before + pending
  {
  }

  /** One step of the assignment loop: pair `j` is stored under its key. */
  lemma AssignIndicesStep(
    shape: seq<nat>, toks: seq<string>, offset: nat, j: nat, ones: nat, acc: InputMaps)
    requires offset + |toks| == |shape| && j < |toks|
    requires ones == Count(toks[..j], One)
    requires WellFormed(shape, acc)
    requires toks[j] == One ==> shape[offset + j] == 1
    ensures var ones' := if toks[j] == One then ones + 1 else ones;
            && ones' == Count(toks[..j + 1], One)
            && AssignIndices(shape, toks, offset, j, ones, acc) ==
                 AssignIndices(shape, toks, offset, j + 1, ones', Store(shape, acc, KeyAt(toks, j), offset + j))
  {
    assert toks[..j + 1] == toks[..j] + [toks[j]];
    assert multiset(toks[..j + 1]) == multiset(toks[..j]) + multiset{toks[j]};
    if toks[j] == One {
      assert KeyAt(toks, j) == SingletonKey(ones + 1);
      assert AssignIndices(shape, toks, offset, j, ones, acc) ==
               AssignIndices(shape, toks, offset, j + 1, ones + 1, Store(shape, acc, SingletonKey(ones + 1), offset + j));
    } else {
      assert KeyAt(toks, j) == toks[j];
      assert AssignIndices(shape, toks, offset, j, ones, acc) ==
               AssignIndices(shape, toks, offset, j + 1, ones, Store(shape, acc, toks[j], offset + j));
    }
  }

  /** The assignment loop adds exactly the keys of the remaining tokens. */
  lemma {:induction false} AssignIndicesKeys(
    shape: seq<nat>, toks: seq<string>, offset: nat, j: nat, ones: nat, acc: InputMaps, m: InputMaps)
    requires offset + |toks| == |shape| && j <= |toks|
    requires ones == Count(toks[..j], One)
    requires WellFormed(shape, acc)
    requires AssignIndices(shape, toks, offset, j, ones, acc) == Ok(m)
    ensures m.indices.Keys == acc.indices.Keys + KeysFrom(toks, j)
    decreases |toks| - j
  {
    if j == |toks| {
      assert m == acc;
      assert KeysFrom(toks, j) == {};
    } else {
      assert SingletonsFit(shape, toks, offset, j);
      AssignIndicesStep(shape, toks, offset, j, ones, acc);
      var ones' := if toks[j] == One then ones + 1 else ones;
      var acc' := Store(shape, acc, KeyAt(toks, j), offset + j);
      AssignIndicesKeys(shape, toks, offset, j + 1, ones', acc', m);
      KeysFromStep(toks, j);
      UnionShift(m.indices.Keys, acc.indices.Keys, acc'.indices.Keys, KeysFrom(toks, j), KeysFrom(toks, j + 1), KeyAt(toks, j));
    }
  }

  /** The entry of a key no remaining token is stored under is untouched,
      and the last remaining token with a key leaves its own axis there. */
  lemma {:induction false} AssignIndicesValues(
    shape: seq<nat>, toks: seq<string>, offset: nat, j: nat, ones: nat, acc: InputMaps, m: InputMaps)
    requires offset + |toks| == |shape| && j <= |toks|
    requires ones == Count(toks[..j], One)
    requires WellFormed(shape, acc)
    requires AssignIndices(shape, toks, offset, j, ones, acc) == Ok(m)
    ensures forall key :: key in acc.indices && key !in KeysFrom(toks, j) ==> key in m.indices && m.indices[key] == acc.indices[key]
    ensures forall k :: j <= k < |toks| && LastKey(toks, k) ==>
              KeyAt(toks, k) in m.indices && m.indices[KeyAt(toks, k)] == Int(offset + k)
    decreases |toks| - j
  {
    if j == |toks| {
      assert m == acc;
    } else {
      assert SingletonsFit(shape, toks, offset, j);
      AssignIndicesStep(shape, toks, offset, j, ones, acc);
      var key := KeyAt(toks, j);
      var ones' := if toks[j] == One then ones + 1 else ones;
      var acc' := Store(shape, acc, key, offset + j);
      AssignIndicesValues(shape, toks, offset, j + 1, ones', acc', m);
      KeysFromStep(toks, j);
      forall k | j <= k < |toks| && LastKey(toks, k)
        ensures KeyAt(toks, k) in m.indices && m.indices[KeyAt(toks, k)] == Int(offset + k)
      {
        if k == j {
          assert key !in KeysFrom(toks, j + 1);
        }
      }
    }
  }

  /** Past the rank checks, `input_token_mapper` is its loop run from the
      start maps, at offset `EllipsisDims`. */
  lemma InputTokenMapperIsLoop(shape: seq<nat>, tokens: seq<string>)
    requires RankFits(|shape|, tokens)
    ensures EllipsisDims(shape, tokens) + |Without(tokens, Ellipsis)| == |shape|
    ensures Ellipsis !in tokens ==> EllipsisDims(shape, tokens) == 0
    ensures Without(tokens, Ellipsis)[..0] == []
    ensures WellFormed(shape, StartMaps(shape, tokens))
    ensures InputTokenMapper(shape, tokens) ==
              AssignIndices(shape, Without(tokens, Ellipsis), EllipsisDims(shape, tokens), 0, 0, StartMaps(shape, tokens))
  {
    var explicit := Without(tokens, Ellipsis);
    assert explicit[..0] == [];
    if Ellipsis in tokens {
      assert Count(tokens, Ellipsis) == 1;
    } else {
      assert Count(tokens, Ellipsis) == 0;
    }
  }

  /** Each rank violation gets its own error, checked in the code's order:
      several ellipses, then (without one) a token count other than the
      rank, then (with one) more explicit tokens than axes. */
  lemma InputRankErrors(shape: seq<nat>, tokens: seq<string>)
    ensures Count(tokens, Ellipsis) > 1 ==> InputTokenMapper(shape, tokens) == Err(MultipleEllipsesInInput)
    ensures Count(tokens, Ellipsis) == 0 && |tokens| != |shape| ==>
              InputTokenMapper(shape, tokens) == Err(TokenCountMismatch(|tokens|, |shape|))
    ensures Count(tokens, Ellipsis) == 1 && |tokens| - 1 > |shape| ==>
              InputTokenMapper(shape, tokens) == Err(TooManyExplicitTokens(|tokens| - 1, |shape|))
  {
  }

  /** A successful `input_token_mapper` is its loop run from the start maps. */
  lemma InputTokenMapperOk(shape: seq<nat>, tokens: seq<string>, m: InputMaps)
    requires InputTokenMapper(shape, tokens) == Ok(m)
    ensures RankFits(|shape|, tokens)
    ensures EllipsisDims(shape, tokens) + |Without(tokens, Ellipsis)| == |shape|
    ensures Without(tokens, Ellipsis)[..0] == []
    ensures WellFormed(shape, StartMaps(shape, tokens))
    ensures AssignIndices(shape, Without(tokens, Ellipsis), EllipsisDims(shape, tokens), 0, 0, StartMaps(shape, tokens)) == Ok(m)
  {
    InputTokenMapperIsLoop(shape, tokens);
  }

  /** One entry of well-formed maps: an index has its axis's size, a list
      is stored in both maps. */
  lemma WellFormedEntry(shape: seq<nat>, m: InputMaps, key: string)
    requires WellFormed(shape, m) && key in m.indices
    ensures key in m.sizes
    ensures m.indices[key].Int? ==> m.indices[key].n < |shape| && m.sizes[key] == Int(shape[m.indices[key].n])
    ensures m.indices[key].List? ==> m.sizes[key] == m.indices[key]
  {
  }

  /** An entry of well-formed maps that holds axis `i` holds its size too. */
  lemma WellFormedAxis(shape: seq<nat>, m: InputMaps, key: string, i: nat)
    requires WellFormed(shape, m) && key in m.indices && m.indices[key] == Int(i)
    ensures i < |shape| && key in m.sizes && m.sizes[key] == Int(shape[i])
  {
  }

  /** The ellipsis of the input, wherever it stands, gets the leading axes
      `[0, d)` in both maps, `d` being the axes the explicit tokens leave;
      without an ellipsis the explicit tokens take every axis. */
  lemma InputEllipsisEntry(shape: seq<nat>, tokens: seq<string>, m: InputMaps)
    requires InputTokenMapper(shape, tokens) == Ok(m)
    ensures EllipsisDims(shape, tokens) + |Without(tokens, Ellipsis)| == |shape|
    ensures Ellipsis !in tokens ==> EllipsisDims(shape, tokens) == 0
    ensures Ellipsis in tokens ==>
              && Ellipsis in m.indices
              && m.indices[Ellipsis] == List(Range(0, EllipsisDims(shape, tokens)))
              && m.sizes[Ellipsis] == List(Range(0, EllipsisDims(shape, tokens)))
  {
    var explicit := Without(tokens, Ellipsis);
    InputTokenMapperIsLoop(shape, tokens);
    KeysAreNotEllipsis(explicit);
    AssignIndicesValues(shape, explicit, EllipsisDims(shape, tokens), 0, 0, StartMaps(shape, tokens), m);
    if Ellipsis in tokens {
      WellFormedEntry(shape, m, Ellipsis);
    }
  }

  /** The index map holds the ellipsis (if written) and the keys of the
      explicit tokens, nothing else. */
  lemma InputKeys(shape: seq<nat>, tokens: seq<string>, m: InputMaps)
    requires InputTokenMapper(shape, tokens) == Ok(m)
    ensures m.indices.Keys == StartMaps(shape, tokens).indices.Keys + KeysFrom(Without(tokens, Ellipsis), 0)
    ensures StartMaps(shape, tokens).indices.Keys == if Ellipsis in tokens then {Ellipsis} else {}
  {
    InputTokenMapperIsLoop(shape, tokens);
    AssignIndicesKeys(shape, Without(tokens, Ellipsis), EllipsisDims(shape, tokens), 0, 0, StartMaps(shape, tokens), m);
  }

  /** The k-th explicit token, when no later one shares its key, holds axis
      `d + k` and size `shape[d + k]`. */
  lemma InputExplicitEntry(shape: seq<nat>, tokens: seq<string>, m: InputMaps, k: nat)
    requires InputTokenMapper(shape, tokens) == Ok(m)
    requires k < |Without(tokens, Ellipsis)| && LastKey(Without(tokens, Ellipsis), k)
    ensures KeyAt(Without(tokens, Ellipsis), k) in m.indices
    ensures m.indices[KeyAt(Without(tokens, Ellipsis), k)] == Int(EllipsisDims(shape, tokens) + k)
    ensures EllipsisDims(shape, tokens) + k < |shape|
    ensures m.sizes[KeyAt(Without(tokens, Ellipsis), k)] == Int(shape[EllipsisDims(shape, tokens) + k])
  {
    InputTokenMapperOk(shape, tokens, m);
    LoopEntry(shape, Without(tokens, Ellipsis), EllipsisDims(shape, tokens), StartMaps(shape, tokens), m, k);
  }

  /** The assignment loop run from the start leaves the k-th token, when no
      later one shares its key, at axis `offset + k` with that axis's size. */
  lemma LoopEntry(shape: seq<nat>, toks: seq<string>, offset: nat, start: InputMaps, m: InputMaps, k: nat)
    requires offset + |toks| == |shape| && toks[..0] == [] && WellFormed(shape, start)
    requires AssignIndices(shape, toks, offset, 0, 0, start) == Ok(m)
    requires k < |toks| && LastKey(toks, k)
    ensures KeyAt(toks, k) in m.indices && m.indices[KeyAt(toks, k)] == Int(offset + k)
    ensures offset + k < |shape| && m.sizes[KeyAt(toks, k)] == Int(shape[offset + k])
  {
    var key := KeyAt(toks, k);
    assert key in m.indices && m.indices[key] == Int(offset + k) by {
      AssignIndicesValues(shape, toks, offset, 0, 0, start, m);
    }
    WellFormedAxis(shape, m, key, offset + k);
  }

  /** No token of a sequence without `"..."` is stored under `"..."`. */
  lemma KeysAreNotEllipsis(toks: seq<string>)
    requires Ellipsis !in toks
    ensures Ellipsis !in KeysFrom(toks, 0)
  {
    forall k | 0 <= k < |toks|
      ensures KeyAt(toks, k) != Ellipsis
    {
      KeyIsNotEllipsis(toks, k);
    }
  }

  /** The first `"1"` on an axis of size other than one, pairs before it
      all fitting. */
  predicate FirstMisfit(shape: seq<nat>, toks: seq<string>, offset: nat, j: nat, k: nat)
    requires offset + |toks| == |shape|
  {
    && j <= k < |toks| && toks[k] == One && shape[offset + k] != 1
    && forall k' :: j <= k' < k && toks[k'] == One ==> shape[offset + k'] == 1
  }

  /** The loop fails at the first misplaced `"1"` among the remaining pairs
      and reports that axis's size and index. */
  lemma {:induction false} AssignIndicesFailure(
    shape: seq<nat>, toks: seq<string>, offset: nat, j: nat, ones: nat, acc: InputMaps, k: nat)
    requires offset + |toks| == |shape| && j <= |toks|
    requires ones == Count(toks[..j], One)
    requires WellFormed(shape, acc)
    requires FirstMisfit(shape, toks, offset, j, k)
    ensures AssignIndices(shape, toks, offset, j, ones, acc) == Err(SingletonSizeMismatch(shape[offset + k], offset + k))
    decreases |toks| - j
  {
    if j < k {
      assert toks[j] == One ==> shape[offset + j] == 1;
      AssignIndicesStep(shape, toks, offset, j, ones, acc);
      var ones' := if toks[j] == One then ones + 1 else ones;
      assert FirstMisfit(shape, toks, offset, j + 1, k);
      AssignIndicesFailure(shape, toks, offset, j + 1, ones', Store(shape, acc, KeyAt(toks, j), offset + j), k);
    }
  }

  /** A misplaced `"1"` among the remaining pairs means there is a first one. */
  lemma {:induction false} FirstMisfitExists(shape: seq<nat>, toks: seq<string>, offset: nat, j: nat)
    requires offset + |toks| == |shape| && j <= |toks|
    requires !SingletonsFit(shape, toks, offset, j)
    ensures exists k :: FirstMisfit(shape, toks, offset, j, k)
    decreases |toks| - j
  {
    if toks[j] == One && shape[offset + j] != 1 {
      assert FirstMisfit(shape, toks, offset, j, j);
    } else {
      var k0 :| j <= k0 < |toks| && toks[k0] == One && shape[offset + k0] != 1;
      assert k0 != j;
      assert !SingletonsFit(shape, toks, offset, j + 1);
      FirstMisfitExists(shape, toks, offset, j + 1);
      var k: nat :| FirstMisfit(shape, toks, offset, j + 1, k);
      assert FirstMisfit(shape, toks, offset, j, k);
    }
  }

  /** With the rank checks passed, a misplaced `"1"` is reported at the
      first explicit token where it happens, with that axis's size. */
  lemma SingletonMismatchReportsFirst(shape: seq<nat>, tokens: seq<string>, k: nat)
    requires RankFits(|shape|, tokens)
    requires FirstMisfit(shape, Without(tokens, Ellipsis), EllipsisDims(shape, tokens), 0, k)
    ensures InputTokenMapper(shape, tokens) ==
              Err(SingletonSizeMismatch(shape[EllipsisDims(shape, tokens) + k], EllipsisDims(shape, tokens) + k))
  {
    InputTokenMapperIsLoop(shape, tokens);
    LoopFailure(shape, tokens, k, StartMaps(shape, tokens));
  }

  /** The assignment loop run from well-formed start maps fails at the
      first misplaced `"1"`. */
  lemma LoopFailure(shape: seq<nat>, tokens: seq<string>, k: nat, start: InputMaps)
    requires RankFits(|shape|, tokens)
    requires FirstMisfit(shape, Without(tokens, Ellipsis), EllipsisDims(shape, tokens), 0, k)
    requires WellFormed(shape, start)
    ensures AssignIndices(shape, Without(tokens, Ellipsis), EllipsisDims(shape, tokens), 0, 0, start) ==
              Err(SingletonSizeMismatch(shape[EllipsisDims(shape, tokens) + k], EllipsisDims(shape, tokens) + k))
  {
    var explicit, offset := Without(tokens, Ellipsis), EllipsisDims(shape, tokens);
    ExplicitTokensFit(shape, tokens);
    assert explicit[..0] == [] && Count(explicit[..0], One) == 0;
    AssignIndicesFailure(shape, explicit, offset, 0, 0, start, k);
  }

  /** Past the rank checks, the explicit tokens and the ellipsis axes
      together take every axis. */
  lemma ExplicitTokensFit(shape: seq<nat>, tokens: seq<string>)
    requires RankFits(|shape|, tokens)
    ensures EllipsisDims(shape, tokens) + |Without(tokens, Ellipsis)| == |shape|
  {
    if Ellipsis in tokens {
      assert Count(tokens, Ellipsis) == 1;
    } else {
      assert Count(tokens, Ellipsis) == 0;
    }
  }

  /** With distinct keys, what each key of the index map holds: the
      ellipsis its leading axes, every other key the axis of its token. */
  lemma InputEntryOfKey(shape: seq<nat>, tokens: seq<string>, m: InputMaps, key: string)
    requires InputTokenMapper(shape, tokens) == Ok(m)
    requires DistinctKeys(Without(tokens, Ellipsis))
    requires key in m.indices
    ensures key == Ellipsis ==> m.indices[key] == List(Range(0, EllipsisDims(shape, tokens)))
    ensures key != Ellipsis ==>
              exists k :: (0 <= k < |Without(tokens, Ellipsis)| &&
                           key == KeyAt(Without(tokens, Ellipsis), k) &&
                           m.indices[key] == Int(EllipsisDims(shape, tokens) + k))
  {
    var explicit := Without(tokens, Ellipsis);
    InputKeys(shape, tokens, m);
    KeysAreNotEllipsis(explicit);
    InputEllipsisEntry(shape, tokens, m);
    if key != Ellipsis {
      var k :| 0 <= k < |explicit| && key == KeyAt(explicit, k);
      assert LastKey(explicit, k);
      InputExplicitEntry(shape, tokens, m, k);
    }
  }

  /** With distinct keys every axis `0 .. rank-1` is held by exactly one
      entry of the index map, and no entry holds anything else. */
  lemma InputAxesPartition(shape: seq<nat>, tokens: seq<string>, m: InputMaps)
    requires InputTokenMapper(shape, tokens) == Ok(m)
    requires DistinctKeys(Without(tokens, Ellipsis))
    ensures Partitions(m.indices, |shape|)
  {
    forall i: nat | i < |shape|
      ensures HasOwner(m.indices, i)
    {
      AxisHasOwner(shape, tokens, m, i);
    }
    forall key, i: nat | Owns(m.indices, key, i)
      ensures i < |shape|
    {
      OwnerOfAxis(shape, tokens, m, key, i);
    }
    forall key1, key2, i: nat | Owns(m.indices, key1, i) && Owns(m.indices, key2, i)
      ensures key1 == key2
    {
      OwnerOfAxis(shape, tokens, m, key1, i);
      OwnerOfAxis(shape, tokens, m, key2, i);
    }
  }

  /** With distinct keys every axis has an owner: the ellipsis for the
      leading `d` axes, the token at `i - d` after. */
  lemma AxisHasOwner(shape: seq<nat>, tokens: seq<string>, m: InputMaps, i: nat)
    requires InputTokenMapper(shape, tokens) == Ok(m)
    requires DistinctKeys(Without(tokens, Ellipsis))
    requires i < |shape|
    ensures HasOwner(m.indices, i)
  {
    var explicit := Without(tokens, Ellipsis);
    var d := EllipsisDims(shape, tokens);
    InputEllipsisEntry(shape, tokens, m);
    if i < d {
      assert Range(0, d)[i] == i;
      assert Owns(m.indices, Ellipsis, i);
    } else {
      assert LastKey(explicit, i - d);
      InputExplicitEntry(shape, tokens, m, i - d);
      assert Owns(m.indices, KeyAt(explicit, i - d), i);
    }
  }

  /** With distinct keys the owner of an axis is determined by the axis:
      the ellipsis for the leading `d` axes, the token at `i - d` after. */
  lemma OwnerOfAxis(shape: seq<nat>, tokens: seq<string>, m: InputMaps, key: string, i: nat)
    requires InputTokenMapper(shape, tokens) == Ok(m)
    requires DistinctKeys(Without(tokens, Ellipsis))
    requires Owns(m.indices, key, i)
    ensures i < |shape|
    ensures key == Ellipsis <==> i < EllipsisDims(shape, tokens)
    ensures key != Ellipsis ==> key == KeyAt(Without(tokens, Ellipsis), i - EllipsisDims(shape, tokens))
  {
    var explicit := Without(tokens, Ellipsis);
    var d := EllipsisDims(shape, tokens);
    InputEllipsisEntry(shape, tokens, m);
    InputEntryOfKey(shape, tokens, m, key);
    OwnerOfEntry(m.indices, explicit, d, |shape|, key, i);
  }

  /** The owner of an axis in a map laid out as `input_token_mapper`
      leaves it: the ellipsis holds `[0, d)`, every other key the axis
      `d + k` of its token k. */
  lemma OwnerOfEntry(indices: map<string, Val>, explicit: seq<string>, d: nat, rank: nat, key: string, i: nat)
    requires d + |explicit| == rank
    requires Owns(indices, key, i)
    requires key == Ellipsis ==> indices[key] == List(Range(0, d))
    requires key != Ellipsis ==>
               exists k :: 0 <= k < |explicit| && key == KeyAt(explicit, k) && indices[key] == Int(d + k)
    ensures i < rank
    ensures key == Ellipsis <==> i < d
    ensures key != Ellipsis ==> key == KeyAt(explicit, i - d)
  {
    if key == Ellipsis {
      var n :| 0 <= n < |Range(0, d)| && Range(0, d)[n] == i;
    } else {
      var k :| 0 <= k < |explicit| && key == KeyAt(explicit, k) && indices[key] == Int(d + k);
      assert i == d + k;
    }
  }

  // ---------------------------------------------------------------------
  // Identifier check

  /** With plain tokens `stripped_order` gives the tokens back (and `[""]`
      for no tokens, as `"".split(" ")` does). */
  lemma StrippedOrderOfPlain(d: seq<string>)
    requires PlainTokens(d)
    ensures StrippedOrder(d) == if |d| == 0 then [""] else d
  {
    var joined := Join(d, " ");
    if |d| == 0 {
      assert joined == "";
    } else {
      forall c | c in joined
        ensures c != '(' && c != ')'
      {
        JoinOnlyChars(d, " ", c);
      }
      CharContains(joined, '(');
      ReplaceAbsent(joined, "(", "");
      CharContains(joined, ')');
      ReplaceAbsent(joined, ")", "");
      SplitJoinRoundTrip(d, ' ');
    }
  }

  /** On plain tokens the names the identifier check compares are the
      tokens without `"1"`; for no tokens they are `[""]`. So every other
      name occurs as often among the names as among the tokens. */
  lemma NamesOfPlain(d: seq<string>)
    requires PlainTokens(d)
    ensures |d| > 0 ==> Without(StrippedOrder(d), One) == Without(d, One)
    ensures |d| == 0 ==> Without(StrippedOrder(d), One) == [""]
    ensures forall t :: t != One && t != "" ==> Count(Without(StrippedOrder(d), One), t) == Count(d, t)
  {
    StrippedOrderOfPlain(d);
    if |d| == 0 {
      assert Without(StrippedOrder(d), One) == [""];
    }
  }

  /** A token as the identifier check reads it: a name, or a group of
      names in parentheses such as `(b c)`. */
  datatype Written = Name(name: string) | Group(members: seq<string>)

  /** The text of a written token: a group is its members joined by single
      spaces, in parentheses. */
  function Render(w: Written): string {
    match w
    case Name(n) => n
    case Group(ns) => "(" + Join(ns, " ") + ")"
  }

  /** The names a written token stands for. */
  function Members(w: Written): seq<string> {
    match w
    case Name(n) => [n]
    case Group(ns) => ns
  }

  /** The texts of a sequence of written tokens. */
  function RenderAll(ws: seq<Written>): (ts: seq<string>)
    ensures |ts| == |ws| && forall k :: 0 <= k < |ws| ==> ts[k] == Render(ws[k])
  {
    if |ws| == 0 then [] else [Render(ws[0])] + RenderAll(ws[1..])
  }

  /** The names of a sequence of written tokens, groups opened in place. */
  function Flatten(ws: seq<Written>): seq<string> {
    if |ws| == 0 then [] else Members(ws[0]) + Flatten(ws[1..])
  }

  /** Names free of spaces and parentheses; no empty group. */
  predicate PlainWritten(ws: seq<Written>) {
    forall k :: 0 <= k < |ws| ==> |Members(ws[k])| >= 1 && PlainTokens(Members(ws[k]))
  }

  /** Deleting parentheses works piece by piece over a concatenation. */
  lemma RemoveParensConcat(a: string, b: string)
    ensures RemoveParens(a + b) == RemoveParens(a) + RemoveParens(b)
  {
    RemoveCharConcat(a, b, '(');
    RemoveCharConcat(Replace(a, "(", ""), Replace(b, "(", ""), ')');
  }

  /** A text without parentheses is kept as it is. */
  lemma RemoveParensAbsent(s: string)
    requires '(' !in s && ')' !in s
    ensures RemoveParens(s) == s
  {
    RemoveAbsentChar(s, '(');
    RemoveAbsentChar(s, ')');
  }

  /** The joined names of plain tokens hold no parenthesis. */
  lemma JoinedPlainHasNoParens(ns: seq<string>)
    requires PlainTokens(ns)
    ensures '(' !in Join(ns, " ") && ')' !in Join(ns, " ")
  {
    if '(' in Join(ns, " ") {
      JoinOnlyChars(ns, " ", '(');
    }
    if ')' in Join(ns, " ") {
      JoinOnlyChars(ns, " ", ')');
    }
  }

  /** Deleting the parentheses of one written token leaves its names
      joined by spaces. */
  lemma RemoveParensOfWritten(w: Written)
    requires |Members(w)| >= 1 && PlainTokens(Members(w))
    ensures RemoveParens(Render(w)) == Join(Members(w), " ")
  {
    JoinedPlainHasNoParens(Members(w));
    match w
    case Name(n) =>
      RemoveParensAbsent(n);
    case Group(ns) =>
      var joined := Join(ns, " ");
      RemoveParensConcat("(" + joined, ")");
      RemoveParensConcat("(", joined);
      RemoveParensAbsent(joined);
      assert RemoveParens("(") == "" && RemoveParens(")") == "";
  }

  /** Joining written tokens and deleting the parentheses gives their
      names joined by spaces. */
  lemma {:induction false} RemoveParensOfJoined(ws: seq<Written>)
    requires |ws| >= 1 && PlainWritten(ws)
    ensures RemoveParens(Join(RenderAll(ws), " ")) == Join(Flatten(ws), " ")
    ensures |Flatten(ws)| >= 1 && PlainTokens(Flatten(ws))
    decreases |ws|
  {
    var first := Members(ws[0]);
    RemoveParensOfWritten(ws[0]);
    if |ws| == 1 {
      assert Flatten(ws) == first + [] == first;
    } else {
      var rest := ws[1..];
      assert PlainWritten(rest) by {
        forall k | 0 <= k < |rest|
          ensures |Members(rest[k])| >= 1 && PlainTokens(Members(rest[k]))
        {
          assert rest[k] == ws[k + 1];
        }
      }
      RemoveParensOfJoined(rest);
      assert RenderAll(ws)[1..] == RenderAll(rest);
      var head := Render(ws[0]);
      var tail := Join(RenderAll(rest), " ");
      RemoveParensConcat(head + " ", tail);
      RemoveParensConcat(head, " ");
      RemoveParensAbsent(" ");
      JoinAppend(first, Flatten(rest), " ");
      assert Flatten(ws) == first + Flatten(rest);
      PlainConcat(first, Flatten(rest));
    }
  }

  /** Plain token sequences stay plain when concatenated. */
  lemma PlainConcat(a: seq<string>, b: seq<string>)
    requires PlainTokens(a) && PlainTokens(b)
    ensures PlainTokens(a + b)
  {
    forall k | 0 <= k < |a + b|
      ensures ' ' !in (a + b)[k] && '(' !in (a + b)[k] && ')' !in (a + b)[k]
    {
      if k >= |a| {
        assert (a + b)[k] == b[k - |a|];
      }
    }
  }

  /** `stripped_order` opens groups in place: on written tokens it gives
      their names, a group `(b c)` contributing `b` and `c`. */
  lemma StrippedOrderOfWritten(ws: seq<Written>)
    requires |ws| >= 1 && PlainWritten(ws)
    ensures StrippedOrder(RenderAll(ws)) == Flatten(ws)
  {
    RemoveParensOfJoined(ws);
    SplitJoinRoundTrip(Flatten(ws), ' ');
  }

  /** The example of the docstring: `["a", "(b c)"]` gives `["a", "b", "c"]`. */
  lemma StrippedOrderExample()
    ensures StrippedOrder(["a", "(b c)"]) == ["a", "b", "c"]
  {
    var ws := [Name("a"), Group(["b", "c"])];
    assert ["b", "c"][1..] == ["c"];
    assert Join(["b", "c"], " ") == "b c";
    assert Render(ws[1]) == "(b c)";
    assert RenderAll(ws) == ["a", "(b c)"];
    assert Flatten(ws) == ["a"] + (["b", "c"] + []);
    StrippedOrderOfWritten(ws);
  }

  /** A group made only of `1`s has no names: `["(1 1)", "(1 1)"]` strips to
      four `1`s, and the identifier comparison drops them all. */
  lemma GroupOfOnesHasNoNames()
    ensures StrippedOrder(["(1 1)", "(1 1)"]) == [One, One, One, One]
    ensures Without(StrippedOrder(["(1 1)", "(1 1)"]), One) == []
  {
    var ws := [Group([One, One]), Group([One, One])];
    GroupOfOnesWritten(ws);
    StrippedOrderOfWritten(ws);
    assert Count([One, One, One, One], One) == 4;
  }

  /** Two written groups `(1 1)`: how they render and what they hold. */
  lemma GroupOfOnesWritten(ws: seq<Written>)
    requires ws == [Group([One, One]), Group([One, One])]
    ensures |ws| >= 1 && PlainWritten(ws)
    ensures RenderAll(ws) == ["(1 1)", "(1 1)"]
    ensures Flatten(ws) == [One, One, One, One]
  {
    OneGroupOfOnes(ws[0]);
    OneGroupOfOnes(ws[1]);
    GroupsOfOnesFlatten(ws);
  }

  /** Opening both groups `(1 1)` gives four `1`s. */
  lemma GroupsOfOnesFlatten(ws: seq<Written>)
    requires ws == [Group([One, One]), Group([One, One])]
    ensures Flatten(ws) == [One, One, One, One]
  {
    assert ws[1..][1..] == [] && Flatten(ws[1..][1..]) == [];
    assert Flatten(ws[1..]) == [One, One] + [];
  }

  /** The group `(1 1)`: its text and its two plain members. */
  lemma OneGroupOfOnes(g: Written)
    requires g == Group([One, One])
    ensures Render(g) == "(1 1)"
    ensures Members(g) == [One, One] && |Members(g)| >= 1 && PlainTokens(Members(g))
  {
    assert [One, One][1..] == [One];
    assert Join([One, One], " ") == "1 1";
  }

  /** `(1 1) (1 1) -> (1 1) (1 1)` passes the identifier check: neither side
      has a name left once the `1`s are dropped. */
  lemma GroupsOfOnesPassIdentifierCheck()
    ensures IdentifierMatchChecker(Validator([1, 1], "(1 1) (1 1) -> (1 1) (1 1)", "(1 1) (1 1)",
              "(1 1) (1 1)", ["(1 1)", "(1 1)"], ["(1 1)", "(1 1)"])).Pass?
  {
    GroupOfOnesHasNoNames();
  }

  /** Grouped tokens fall outside `CompiledInputCoversEachAxisOnce`: on a
      `(1, 1)` array the mapper stores both `(1 1)` tokens under one key
      holding axis 1, so axis 0 has no owner. */
  lemma GroupedTokensLeaveAxisUnowned()
    ensures InputTokenMapper([1, 1], ["(1 1)", "(1 1)"]).Ok?
    ensures !Partitions(InputTokenMapper([1, 1], ["(1 1)", "(1 1)"]).value.indices, 2)
  {
    var toks := ["(1 1)", "(1 1)"];
    GroupExampleKeys();
    assert SingletonsFit([1, 1], toks, 0, 0);
    var m := InputTokenMapper([1, 1], toks).value;
    InputKeys([1, 1], toks, m);
    InputExplicitEntry([1, 1], toks, m, 1);
    assert m.indices == map["(1 1)" := Int(1)];
    assert !HasOwner(m.indices, 0);
  }

  /** Both `(1 1)` tokens are stored under their own text; the second is the
      last with that key. */
  lemma GroupExampleKeys()
    ensures Without(["(1 1)", "(1 1)"], Ellipsis) == ["(1 1)", "(1 1)"]
    ensures Count(["(1 1)", "(1 1)"], Ellipsis) == 0
    ensures KeyAt(["(1 1)", "(1 1)"], 0) == "(1 1)" && KeyAt(["(1 1)", "(1 1)"], 1) == "(1 1)"
    ensures LastKey(["(1 1)", "(1 1)"], 1)
    ensures KeysFrom(["(1 1)", "(1 1)"], 0) == {"(1 1)"}
  {
    var toks := ["(1 1)", "(1 1)"];
    assert toks[..1] == ["(1 1)"] && toks[..2] == toks;
    KeysFromStep(toks, 0);
    KeysFromStep(toks, 1);
    assert KeysFrom(toks, 2) == {};
  }

  /** An ellipsis written on one side only is rejected by the identifier
      comparison, which drops `"1"` but keeps `"..."`. */
  lemma EllipsisOnOneSideRejected(v: Validator)
    requires PlainTokens(v.inputTokens) && PlainTokens(v.outputTokens)
    requires (Ellipsis in v.inputTokens) != (Ellipsis in v.outputTokens)
    ensures IdentifierMatchChecker(v).Fail?
  {
    NamesOfPlain(v.inputTokens);
    NamesOfPlain(v.outputTokens);
    assert Count(InputNames(v), Ellipsis) == Count(v.inputTokens, Ellipsis);
    assert Count(OutputNames(v), Ellipsis) == Count(v.outputTokens, Ellipsis);
    assert (Ellipsis in Elems(InputNames(v))) != (Ellipsis in Elems(OutputNames(v)));
  }

  /** Token `k` of the explicit tokens is a token of the input. */
  lemma ExplicitTokenIsInput(tokens: seq<string>, k: nat)
    requires k < |Without(tokens, Ellipsis)|
    ensures Without(tokens, Ellipsis)[k] in tokens
  {
    var t := Without(tokens, Ellipsis)[k];
    assert t in multiset(Without(tokens, Ellipsis));
  }

  /** Two `"1"` tokens get different counters, hence different keys. */
  lemma SingletonKeysDiffer(toks: seq<string>, k1: nat, k2: nat)
    requires k1 < k2 < |toks| && toks[k1] == One && toks[k2] == One
    ensures KeyAt(toks, k1) != KeyAt(toks, k2)
  {
    var c1 := Count(toks[..k1 + 1], One);
    var c2 := Count(toks[..k2 + 1], One);
    assert toks[..k2 + 1] == toks[..k1 + 1] + toks[k1 + 1..k2 + 1];
    assert toks[k1 + 1..k2 + 1][k2 - k1 - 1] == One;
    SingletonKeyInjective(c1, c2);
  }

  /** Distinct names, none spelled like a singleton key, give distinct
      keys to the explicit tokens. */
  lemma DistinctKeysOfNames(toks: seq<string>)
    requires NoDuplicates(Without(toks, One))
    requires NoSingletonLookalikes(toks)
    ensures DistinctKeys(Without(toks, Ellipsis))
  {
    var explicit := Without(toks, Ellipsis);
    NoDuplicatesCount(Without(toks, One));
    forall k1, k2 | 0 <= k1 < k2 < |explicit|
      ensures KeyAt(explicit, k1) != KeyAt(explicit, k2)
    {
      var t1, t2 := explicit[k1], explicit[k2];
      if t1 == One && t2 == One {
        SingletonKeysDiffer(explicit, k1, k2);
      } else if t1 == One || t2 == One {
        var k := if t1 == One then k2 else k1;
        ExplicitTokenIsInput(toks, k);
        assert !StartsWith(explicit[k], SingletonPrefix);
        var c := Count(explicit[..(if t1 == One then k1 else k2) + 1], One);
        assert SingletonKey(c)[..|SingletonPrefix|] == SingletonPrefix;
      } else {
        assert t1 != Ellipsis;
        assert Count(explicit, t1) == Count(toks, t1) == Count(Without(toks, One), t1);
        CountAboveOne(explicit, t1);
      }
    }
  }

  /** Once the identifier check has passed on plain tokens that do not look
      like singleton keys, all explicit input tokens have distinct keys:
      names are not repeated and the singleton counter never repeats. */
  lemma IdentifierCheckGivesDistinctKeys(v: Validator)
    requires IdentifierMatchChecker(v).Pass?
    requires PlainTokens(v.inputTokens) && NoSingletonLookalikes(v.inputTokens)
    ensures DistinctKeys(Without(v.inputTokens, Ellipsis))
  {
    if |v.inputTokens| > 0 {
      NamesOfPlain(v.inputTokens);
      DistinctKeysOfNames(v.inputTokens);
    }
  }

  // ---------------------------------------------------------------------
  // Output mapping

  /** One step of the output loop: token `j` gets position `j` under its key. */
  lemma AssignPositionsStep(toks: seq<string>, j: nat, ones: nat, acc: map<string, nat>)
    requires j < |toks| && ones == Count(toks[..j], One)
    requires forall key :: key in acc ==> acc[key] < j
    ensures var ones' := if toks[j] == One then ones + 1 else ones;
            && ones' == Count(toks[..j + 1], One)
            && AssignPositions(toks, j, ones, acc) == AssignPositions(toks, j + 1, ones', acc[KeyAt(toks, j) := j])
  {
    assert toks[..j + 1] == toks[..j] + [toks[j]];
  }

  /** The output loop adds exactly the keys of the remaining tokens. */
  lemma {:induction false} AssignPositionsKeys(toks: seq<string>, j: nat, ones: nat, acc: map<string, nat>)
    requires j <= |toks| && ones == Count(toks[..j], One)
    requires forall key :: key in acc ==> acc[key] < j
    ensures AssignPositions(toks, j, ones, acc).Keys == acc.Keys + KeysFrom(toks, j)
    decreases |toks| - j
  {
    if j == |toks| {
      assert KeysFrom(toks, j) == {};
    } else {
      AssignPositionsStep(toks, j, ones, acc);
      var ones' := if toks[j] == One then ones + 1 else ones;
      var acc' := acc[KeyAt(toks, j) := j];
      AssignPositionsKeys(toks, j + 1, ones', acc');
      KeysFromStep(toks, j);
      UnionShift(AssignPositions(toks, j + 1, ones', acc').Keys, acc.Keys, acc'.Keys,
                 KeysFrom(toks, j), KeysFrom(toks, j + 1), KeyAt(toks, j));
    }
  }

  /** The output loop leaves the entry of a key no remaining token has
      alone, and gives the last remaining token with a key its own position. */
  lemma {:induction false} AssignPositionsValues(toks: seq<string>, j: nat, ones: nat, acc: map<string, nat>)
    requires j <= |toks| && ones == Count(toks[..j], One)
    requires forall key :: key in acc ==> acc[key] < j
    ensures forall key :: key in acc && key !in KeysFrom(toks, j) ==>
              key in AssignPositions(toks, j, ones, acc) && AssignPositions(toks, j, ones, acc)[key] == acc[key]
    ensures forall k :: j <= k < |toks| && LastKey(toks, k) ==>
              KeyAt(toks, k) in AssignPositions(toks, j, ones, acc) && AssignPositions(toks, j, ones, acc)[KeyAt(toks, k)] == k
    decreases |toks| - j
  {
    if j < |toks| {
      AssignPositionsStep(toks, j, ones, acc);
      var key := KeyAt(toks, j);
      var ones' := if toks[j] == One then ones + 1 else ones;
      var acc' := acc[key := j];
      var r := AssignPositions(toks, j + 1, ones', acc');
      assert AssignPositions(toks, j, ones, acc) == r;
      AssignPositionsValues(toks, j + 1, ones', acc');
      KeysFromStep(toks, j);
      forall other | other in acc && other !in KeysFrom(toks, j)
        ensures other in r && r[other] == acc[other]
      {
        assert other != key && other !in KeysFrom(toks, j + 1) && acc'[other] == acc[other];
      }
      forall k | j <= k < |toks| && LastKey(toks, k)
        ensures KeyAt(toks, k) in r && r[KeyAt(toks, k)] == k
      {
        if k == j {
          assert key !in KeysFrom(toks, j + 1) && acc'[key] == j;
        }
      }
    }
  }

  /** A successful output stage holds the loop's map over its tokens. */
  lemma OutputTokensMapperIsLoop(pattern: string, tokenize: string -> seq<string>, out: OutputStage)
    requires OutputTokensMapper(pattern, tokenize) == Ok(out)
    ensures out.tokens[..0] == []
    ensures out.positions == AssignPositions(out.tokens, 0, 0, map[])
  {
    assert out.tokens[..0] == [];
  }

  /** `output_tokens_mapper` stores the keys of the re-tokenized output
      tokens and nothing else, and the last token with a key holds its own
      position (a `"1"` under `singleton_<n>` for the n-th `"1"`). */
  lemma OutputPositions(pattern: string, tokenize: string -> seq<string>, out: OutputStage)
    requires OutputTokensMapper(pattern, tokenize) == Ok(out)
    ensures out.positions.Keys == KeysFrom(out.tokens, 0)
    ensures forall k :: 0 <= k < |out.tokens| && LastKey(out.tokens, k) ==>
              KeyAt(out.tokens, k) in out.positions && out.positions[KeyAt(out.tokens, k)] == k
  {
    OutputTokensMapperIsLoop(pattern, tokenize, out);
    LoopPositions(out.tokens);
  }

  /** The output loop run from the start stores the keys of the tokens and
      nothing else, and the last token with a key holds its own position. */
  lemma LoopPositions(toks: seq<string>)
    ensures AssignPositions(toks, 0, 0, map[]).Keys == KeysFrom(toks, 0)
    ensures forall k :: 0 <= k < |toks| && LastKey(toks, k) ==>
              KeyAt(toks, k) in AssignPositions(toks, 0, 0, map[]) && AssignPositions(toks, 0, 0, map[])[KeyAt(toks, k)] == k
  {
    assert toks[..0] == [];
    AssignPositionsKeys(toks, 0, 0, map[]);
    AssignPositionsValues(toks, 0, 0, map[]);
  }

  /** With distinct keys the output positions are exactly `0 .. n-1`, one
      per key. */
  lemma OutputPositionsDistinct(pattern: string, tokenize: string -> seq<string>, out: OutputStage)
    requires OutputTokensMapper(pattern, tokenize) == Ok(out)
    requires DistinctKeys(out.tokens)
    ensures out.positions.Values == Elems(Range(0, |out.tokens|))
    ensures forall key1, key2 :: key1 in out.positions && key2 in out.positions && key1 != key2 ==>
              out.positions[key1] != out.positions[key2]
  {
    OutputPositions(pattern, tokenize, out);
    DistinctKeysGivePositions(out.tokens, out.positions);
  }

  /** A map that gives each of distinctly keyed tokens its own position
      and has no other key is a bijection onto the positions. */
  lemma DistinctKeysGivePositions(toks: seq<string>, positions: map<string, nat>)
    requires DistinctKeys(toks)
    requires positions.Keys == KeysFrom(toks, 0)
    requires forall k :: 0 <= k < |toks| && LastKey(toks, k) ==> KeyAt(toks, k) in positions && positions[KeyAt(toks, k)] == k
    ensures positions.Values == Elems(Range(0, |toks|))
    ensures forall key1, key2 :: key1 in positions && key2 in positions && key1 != key2 ==>
              positions[key1] != positions[key2]
  {
    forall k | 0 <= k < |toks|
      ensures KeyAt(toks, k) in positions && positions[KeyAt(toks, k)] == k
    {
      assert LastKey(toks, k);
    }
    forall p | p in positions.Values
      ensures p in Elems(Range(0, |toks|))
    {
      var key :| key in positions && positions[key] == p;
      var k :| 0 <= k < |toks| && key == KeyAt(toks, k);
      assert Range(0, |toks|)[k] == p;
    }
    forall p | p in Elems(Range(0, |toks|))
      ensures p in positions.Values
    {
      var k :| 0 <= k < |toks| && Range(0, |toks|)[k] == p;
      assert positions[KeyAt(toks, k)] == p;
    }
    forall key1, key2 | key1 in positions && key2 in positions && key1 != key2
      ensures positions[key1] != positions[key2]
    {
      var k1 :| 0 <= k1 < |toks| && key1 == KeyAt(toks, k1);
      var k2 :| 0 <= k2 < |toks| && key2 == KeyAt(toks, k2);
    }
  }

  /** Without a collapse the output stage re-splits the pattern the
      constructor split, so it succeeds and refreshes the output string to
      the value the constructor stored. If the tokenizer ignores the
      whitespace around its argument, it also sees the same tokens. */
  lemma ResplitWithoutCollapse(shape: seq<nat>, pattern: string, utils: Utils, v: Validator)
    requires NewValidator(shape, pattern, utils) == Ok(v)
    ensures OutputTokensMapper(v.pattern, utils.tokenize).Ok?
    ensures OutputTokensMapper(v.pattern, utils.tokenize).value.outputStr == v.outputStr
    ensures IgnoresOuterSpace(utils.tokenize) ==>
              OutputTokensMapper(v.pattern, utils.tokenize).value.tokens == v.outputTokens
  {
    var i :| UniqueOccurrence(v.pattern, Arrow, i);
    assert ParsePattern(v.pattern) == Ok((v.inputStr, v.outputStr));
  }

  // ---------------------------------------------------------------------
  // Ellipsis collapse

  /** The input ellipsis covers no axis: it is written, and the explicit
      tokens already take every axis. */
  predicate Collapses(v: Validator) {
    Ellipsis in v.inputTokens && |Without(v.inputTokens, Ellipsis)| == |v.shape|
  }

  /** The pattern `output_tokens_mapper` splits again: without its ellipses
      and stripped after a collapse, the constructor's pattern otherwise. */
  function ResplitPattern(v: Validator): string {
    if Collapses(v) then Strip(Replace(v.pattern, Ellipsis, "")) else v.pattern
  }

  /** The output tokens the output mapping is expected to number: the
      written ones, less `"..."` after a collapse. */
  function ExpectedOutputTokens(v: Validator): seq<string> {
    if Collapses(v) then Without(v.outputTokens, Ellipsis) else v.outputTokens
  }

  /** After a successful input mapping the ellipsis entry is empty exactly
      when the ellipsis is written and the explicit tokens take every axis. */
  lemma CollapseIff(shape: seq<nat>, tokens: seq<string>, m: InputMaps)
    requires InputTokenMapper(shape, tokens) == Ok(m)
    ensures EmptyEllipsis(m) <==> Ellipsis in tokens && |Without(tokens, Ellipsis)| == |shape|
  {
    InputEllipsisEntry(shape, tokens, m);
    InputKeys(shape, tokens, m);
    KeysAreNotEllipsis(Without(tokens, Ellipsis));
    if Ellipsis in tokens {
      assert |Range(0, EllipsisDims(shape, tokens))| == EllipsisDims(shape, tokens);
    }
  }

  /** The pattern the empty-ellipsis check hands on is `ResplitPattern`. */
  lemma CollapsedPatternIs(v: Validator, m: InputMaps)
    requires InputTokenMapper(v.shape, v.inputTokens) == Ok(m)
    ensures EmptyEllipsisChecker(v.pattern, m).0 == ResplitPattern(v)
  {
    CollapseIff(v.shape, v.inputTokens, m);
  }

  /** Deleting the ellipses of `p0 -> p1` deletes them on either side of
      the arrow and keeps the arrow. */
  lemma CollapseAroundArrow(p0: string, p1: string)
    ensures Replace(p0 + Arrow + p1, Ellipsis, "") ==
              Replace(p0, Ellipsis, "") + Arrow + Replace(p1, Ellipsis, "")
  {
    assert p0 + Arrow + p1 == p0 + (Arrow + p1);
    RemoveEllipsisConcat(p0, Arrow + p1);
    RemoveEllipsisAfterDotless(Arrow, p1);
    ConcatAssoc(Replace(p0, Ellipsis, ""), Arrow, Replace(p1, Ellipsis, ""));
  }

  /** Without a `-` there is no arrow. */
  lemma NoDashNoArrow(s: string)
    requires '-' !in s
    ensures !Contains(s, Arrow)
  {
    forall j | 0 <= j <= |s|
      ensures !OccursAt(s, Arrow, j)
    {
      if j + 2 <= |s| {
        assert s[j..j + 2][0] == s[j];
      }
    }
  }

  /** Deleting `...` deletes no `-`. */
  lemma CollapseKeepsNoDash(s: string)
    requires '-' !in s
    ensures '-' !in Replace(s, Ellipsis, "")
  {
    RemoveEllipsisKeepsChars(s);
    assert multiset(Replace(s, Ellipsis, ""))['-'] == multiset(s)['-'];
  }

  /** When the arrow at `i` holds the only `-` of the pattern, deleting
      the ellipses and stripping keeps exactly one arrow, so the re-split
      of `output_tokens_mapper` succeeds after a collapse. */
  lemma CollapseKeepsOneArrow(pattern: string, i: nat)
    requires OccursAt(pattern, Arrow, i)
    requires '-' !in pattern[..i] && '-' !in pattern[i + 2..]
    ensures exists j :: UniqueOccurrence(Strip(Replace(pattern, Ellipsis, "")), Arrow, j)
  {
    var p0, p1 := pattern[..i], pattern[i + 2..];
    assert pattern == p0 + Arrow + p1;
    CollapseAroundArrow(p0, p1);
    CollapseKeepsNoDash(p0);
    CollapseKeepsNoDash(p1);
    OneArrowBetween(Replace(p0, Ellipsis, ""), Replace(p1, Ellipsis, ""));
  }

  /** Two dash-free halves around an arrow: the arrow is the only one, and
      stays the only one once the whole is stripped. */
  lemma OneArrowBetween(r0: string, r1: string)
    requires '-' !in r0 && '-' !in r1
    ensures exists j :: UniqueOccurrence(Strip(r0 + Arrow + r1), Arrow, j)
  {
    var r := r0 + Arrow + r1;
    NoDashNoArrow(r0);
    NoDashNoArrow(r1);
    OnlyOccurrenceBetween(r0, r1, Arrow);
    StripKeepsUniquePair(r, Arrow, |r0|);
    assert UniqueOccurrence(Strip(r), Arrow, |r0| - LeadingSpace(r));
  }

  /** After a collapse, the output half of the re-split pattern, stripped,
      is the constructor's output string with its ellipses deleted,
      stripped. */
  lemma CollapsedOutputString(pattern: string, i: nat, j: nat)
    requires OccursAt(pattern, Arrow, i)
    requires UniqueOccurrence(Strip(Replace(pattern, Ellipsis, "")), Arrow, j)
    ensures Strip(Strip(Replace(pattern, Ellipsis, ""))[j + 2..]) ==
              Strip(Replace(Strip(pattern[i + 2..]), Ellipsis, ""))
  {
    var p0, p1 := pattern[..i], pattern[i + 2..];
    assert pattern == p0 + Arrow + p1;
    CollapseAroundArrow(p0, p1);
    var r0, r1 := Replace(p0, Ellipsis, ""), Replace(p1, Ellipsis, "");
    assert Replace(pattern, Ellipsis, "") == r0 + Arrow + r1;
    AfterOnlyArrow(r0, r1, j);
    RemoveEllipsisStrip(p1);
  }

  /** When `r0 -> r1`, stripped, holds its arrow only at `j`, what follows
      `j`, stripped, is `r1` stripped. */
  lemma AfterOnlyArrow(r0: string, r1: string, j: nat)
    requires UniqueOccurrence(Strip(r0 + Arrow + r1), Arrow, j)
    ensures Strip(Strip(r0 + Arrow + r1)[j + 2..]) == Strip(r1)
  {
    var collapsed := r0 + Arrow + r1;
    StripAroundSep(r0, Arrow, r1);
    var at := |r0| - LeadingSpace(collapsed);
    assert OccursAt(Strip(collapsed), Arrow, at);
    assert j == at;
  }

  /** Such a tokenizer gives the same tokens for texts that strip alike. */
  lemma SameTokensWhenStrippedAlike(tokenize: string -> seq<string>, a: string, b: string)
    requires IgnoresOuterSpace(tokenize) && Strip(a) == Strip(b)
    ensures tokenize(a) == tokenize(b)
  {
    assert tokenize(a) == tokenize(Strip(a)) && tokenize(b) == tokenize(Strip(b));
  }

  /** After a collapse the output stage tokenizes the collapsed output
      half. If the tokenizer ignores surrounding whitespace and drops just
      the `"..."` tokens when the ellipses are deleted from its input, it
      sees the constructor's output tokens less `"..."`. */
  lemma CollapsedOutputTokens(shape: seq<nat>, pattern: string, utils: Utils, v: Validator)
    requires NewValidator(shape, pattern, utils) == Ok(v)
    requires Collapses(v)
    requires exists j :: UniqueOccurrence(ResplitPattern(v), Arrow, j)
    requires IgnoresOuterSpace(utils.tokenize)
    requires utils.tokenize(Replace(v.outputStr, Ellipsis, "")) == Without(v.outputTokens, Ellipsis)
    ensures OutputTokensMapper(ResplitPattern(v), utils.tokenize).Ok?
    ensures OutputTokensMapper(ResplitPattern(v), utils.tokenize).value.tokens == Without(v.outputTokens, Ellipsis)
  {
    var i :| UniqueOccurrence(v.pattern, Arrow, i);
    var j :| UniqueOccurrence(ResplitPattern(v), Arrow, j);
    var collapsed := ResplitPattern(v);
    var half := collapsed[j + 2..];
    assert OutputTokensMapper(collapsed, utils.tokenize).value.tokens == utils.tokenize(half);
    assert Strip(half) == Strip(Replace(v.outputStr, Ellipsis, "")) by {
      CollapsedOutputString(v.pattern, i, j);
    }
    SameTokensWhenStrippedAlike(utils.tokenize, half, Replace(v.outputStr, Ellipsis, ""));
  }

  // ---------------------------------------------------------------------
  // The pipeline

  /** End to end: when the whole compilation succeeds on plain input tokens
      that do not look like singleton keys, every axis of the array is held
      by exactly one entry of the returned input mapping, and by nothing
      outside the array. */
  lemma CompiledInputCoversEachAxisOnce(v: Validator, tokenize: string -> seq<string>, c: Compiled)
    requires ValidateAndReturn(v, tokenize) == Ok(c)
    requires PlainTokens(v.inputTokens) && NoSingletonLookalikes(v.inputTokens)
    ensures Partitions(c.inputMapping, |v.shape|)
  {
    assert EllipsisChecker(v).Pass? && IdentifierMatchChecker(v).Pass?;
    var m := InputTokenMapper(v.shape, v.inputTokens).value;
    var collapsed := EmptyEllipsisChecker(v.pattern, m);
    assert c.inputMapping == collapsed.1.indices;
    IdentifierCheckGivesDistinctKeys(v);
    InputAxesPartition(v.shape, v.inputTokens, m);
    CollapseKeepsPartition(v.pattern, m, |v.shape|);
  }

  /** What `validate_and_return` checks before it re-splits the pattern:
      neither side repeats the ellipsis, the identifier check passes, the
      rank fits and every `"1"` sits on an axis of size one. */
  predicate ChecksPass(v: Validator) {
    && !Repeats(v.inputTokens, Ellipsis) && !Repeats(v.outputTokens, Ellipsis)
    && IdentifierMatchChecker(v).Pass?
    && RankFits(|v.shape|, v.inputTokens)
    && SingletonsFit(v.shape, Without(v.inputTokens, Ellipsis),
                     |v.shape| - (|v.inputTokens| - Count(v.inputTokens, Ellipsis)), 0)
  }

  /** The checks before the re-split pass exactly when the ellipsis check,
      the identifier check and the input mapping succeed. */
  lemma ChecksPassIff(v: Validator)
    ensures ChecksPass(v) <==>
              && EllipsisChecker(v).Pass? && IdentifierMatchChecker(v).Pass?
              && InputTokenMapper(v.shape, v.inputTokens).Ok?
  {
    var once := !Repeats(v.inputTokens, Ellipsis) && !Repeats(v.outputTokens, Ellipsis);
    var fits := && RankFits(|v.shape|, v.inputTokens)
                && SingletonsFit(v.shape, Without(v.inputTokens, Ellipsis),
                                 |v.shape| - (|v.inputTokens| - Count(v.inputTokens, Ellipsis)), 0);
    assert EllipsisChecker(v).Pass? == once;
    assert InputTokenMapper(v.shape, v.inputTokens).Ok? == fits;
    assert ChecksPass(v) == (once && IdentifierMatchChecker(v).Pass? && fits);
  }

  /** `validate_and_return` succeeds exactly when the checks before the
      re-split pass and the pattern re-split after a possible collapse holds
      exactly one arrow; when only the last of these fails, the re-split
      error is what it reports. */
  lemma PipelineSucceeds(v: Validator, tokenize: string -> seq<string>)
    ensures ValidateAndReturn(v, tokenize).Ok? <==>
              ChecksPass(v) && exists i :: UniqueOccurrence(ResplitPattern(v), Arrow, i)
    ensures ValidateAndReturn(v, tokenize) == Err(PatternResplitFailed) <==>
              ChecksPass(v) && !exists i :: UniqueOccurrence(ResplitPattern(v), Arrow, i)
  {
    ChecksPassIff(v);
    var m := InputTokenMapper(v.shape, v.inputTokens);
    if m.Ok? {
      CollapsedPatternIs(v, m.value);
    }
  }

  /** End to end: when the compilation succeeds, the output mapping holds
      the keys of the expected output tokens and nothing else, the last
      token with a key holds its own position, and with distinct keys the
      positions are exactly `0 .. n-1`. The expected tokens are the
      constructor's output tokens, less `"..."` after a collapse; this
      takes a tokenizer that ignores surrounding whitespace and, after a
      collapse, drops just the `"..."` tokens when the ellipses are
      deleted from its input. */
  lemma CompiledOutputPositions(shape: seq<nat>, pattern: string, utils: Utils, v: Validator, c: Compiled)
    requires NewValidator(shape, pattern, utils) == Ok(v)
    requires ValidateAndReturn(v, utils.tokenize) == Ok(c)
    requires IgnoresOuterSpace(utils.tokenize)
    requires Collapses(v) ==> utils.tokenize(Replace(v.outputStr, Ellipsis, "")) == Without(v.outputTokens, Ellipsis)
    ensures c.outputMapping.Keys == KeysFrom(ExpectedOutputTokens(v), 0)
    ensures forall k :: 0 <= k < |ExpectedOutputTokens(v)| && LastKey(ExpectedOutputTokens(v), k) ==>
              && KeyAt(ExpectedOutputTokens(v), k) in c.outputMapping
              && c.outputMapping[KeyAt(ExpectedOutputTokens(v), k)] == k
    ensures DistinctKeys(ExpectedOutputTokens(v)) ==>
              c.outputMapping.Values == Elems(Range(0, |ExpectedOutputTokens(v)|))
  {
    var m := InputTokenMapper(v.shape, v.inputTokens).value;
    CollapsedPatternIs(v, m);
    var collapsed := ResplitPattern(v);
    var out := OutputTokensMapper(collapsed, utils.tokenize).value;
    assert c.outputMapping == out.positions;
    if Collapses(v) {
      CollapsedOutputTokens(shape, pattern, utils, v);
    } else {
      ResplitWithoutCollapse(shape, pattern, utils, v);
    }
    assert out.tokens == ExpectedOutputTokens(v);
    OutputPositions(collapsed, utils.tokenize, out);
    if DistinctKeys(out.tokens) {
      OutputPositionsDistinct(collapsed, utils.tokenize, out);
    }
  }

  /** Dropping an ellipsis entry that holds no axis keeps a partition. */
  lemma CollapseKeepsPartition(pattern: string, m: InputMaps, rank: nat)
    requires Partitions(m.indices, rank)
    ensures Partitions(EmptyEllipsisChecker(pattern, m).1.indices, rank)
  {
    var indices := m.indices;
    var r := EmptyEllipsisChecker(pattern, m).1.indices;
    forall key, i: nat
      ensures Owns(r, key, i) <==> Owns(indices, key, i)
    {
      if EmptyEllipsis(m) && key == Ellipsis {
        assert !Owns(indices, key, i);
      }
    }
    forall i: nat | i < rank
      ensures HasOwner(r, i)
    {
      assert HasOwner(indices, i);
      var key :| Owns(indices, key, i);
      assert Owns(r, key, i);
    }
  }

  /** The stages run in a fixed order: a name repeated on the output side
      (with the input side in order) is reported as such whatever the array,
      even one whose rank the input mapping would reject. */
  lemma DuplicateReportedBeforeRank(v: Validator, tokenize: string -> seq<string>)
    requires PlainTokens(v.inputTokens) && PlainTokens(v.outputTokens)
    requires !Repeats(v.inputTokens, Ellipsis) && !Repeats(v.outputTokens, Ellipsis)
    requires NoDuplicates(Without(v.inputTokens, One))
    requires !NoDuplicates(Without(v.outputTokens, One))
    ensures ValidateAndReturn(v, tokenize) == Err(DuplicateInOutput(v.outputStr))
  {
    NamesOfPlain(v.inputTokens);
    NamesOfPlain(v.outputTokens);
  }

  // ---------------------------------------------------------------------
  // Worked examples

  /** `"a ... b"` on any rank-5 array: the ellipsis takes the leading axes
      0, 1, 2 and its shape entry is that index list; `a` and `b` take the
      last two axes and their sizes. */
  lemma EllipsisTakesLeadingAxes(shape: seq<nat>)
    requires |shape| == 5
    ensures InputTokenMapper(shape, ["a", "...", "b"]) ==
              Ok(InputMaps(map["..." := List([0, 1, 2]), "a" := Int(3), "b" := Int(4)],
                           map["..." := List([0, 1, 2]), "a" := Int(shape[3]), "b" := Int(shape[4])]))
  {
    var tokens := ["a", "...", "b"];
    var explicit := ["a", "b"];
    ExampleExplicit();
    ExampleKeys();
    ExampleKeySet();
    assert Range(0, 3) == [0, 1, 2];
    assert SingletonsFit(shape, explicit, 3, 0);
    var m := InputTokenMapper(shape, tokens).value;
    InputEllipsisEntry(shape, tokens, m);
    InputKeys(shape, tokens, m);
    InputExplicitEntry(shape, tokens, m, 0);
    InputExplicitEntry(shape, tokens, m, 1);
    assert m.indices.Keys == {"...", "a", "b"};
    assert m.sizes.Keys == {"...", "a", "b"};
  }

  /** The explicit tokens of `a ... b` are `a` and `b`. */
  lemma ExampleExplicit()
    ensures Without(["a", "...", "b"], Ellipsis) == ["a", "b"]
    ensures Count(["a", "...", "b"], Ellipsis) == 1
  {
  }

  /** `a` and `b` are each stored under their own name. */
  lemma ExampleKeys()
    ensures KeyAt(["a", "b"], 0) == "a" && KeyAt(["a", "b"], 1) == "b"
    ensures LastKey(["a", "b"], 0) && LastKey(["a", "b"], 1)
  {
    var explicit := ["a", "b"];
    assert explicit[..1] == ["a"] && explicit[..2] == explicit;
  }

  /** The keys of `a` and `b` are just those two names. */
  lemma ExampleKeySet()
    ensures KeysFrom(["a", "b"], 0) == {"a", "b"}
  {
    var explicit := ["a", "b"];
    ExampleKeys();
    KeysFromStep(explicit, 0);
    KeysFromStep(explicit, 1);
    assert KeysFrom(explicit, 2) == {};
  }

  /** `"1 a"` on shape `(1, 5)` maps `singleton_1` to axis 0 and `a` to
      axis 1. */
  lemma SingletonExamples()
    ensures InputTokenMapper([1, 5], ["1", "a"]) ==
              Ok(InputMaps(map["singleton_1" := Int(0), "a" := Int(1)], map["singleton_1" := Int(1), "a" := Int(5)]))
  {
    var tokens := ["1", "a"];
    ExampleTokens();
    var empty := InputMaps(map[], map[]);
    InputTokenMapperIsLoop([1, 5], tokens);
    assert StartMaps([1, 5], tokens) == empty;
    AssignIndicesStep([1, 5], tokens, 0, 0, 0, empty);
    var acc1 := Store([1, 5], empty, "singleton_1", 0);
    AssignIndicesStep([1, 5], tokens, 0, 1, 1, acc1);
    var acc2 := Store([1, 5], acc1, "a", 1);
    assert AssignIndices([1, 5], tokens, 0, 2, 1, acc2) == Ok(acc2);
    assert acc2 == InputMaps(map["singleton_1" := Int(0), "a" := Int(1)], map["singleton_1" := Int(1), "a" := Int(5)]);
  }

  /** `"1 a"` on shape `(2, 5)` fails at axis 0, whose size is 2. */
  lemma SingletonMismatchExample()
    ensures InputTokenMapper([2, 5], ["1", "a"]) == Err(SingletonSizeMismatch(2, 0))
  {
    var tokens := ["1", "a"];
    ExampleTokens();
    InputTokenMapperIsLoop([2, 5], tokens);
    assert StartMaps([2, 5], tokens) == InputMaps(map[], map[]);
  }

  /** The tokens `1 a`: no ellipsis, and the `1` is keyed `singleton_1`. */
  lemma ExampleTokens()
    ensures Ellipsis !in ["1", "a"] && Count(["1", "a"], Ellipsis) == 0
    ensures Without(["1", "a"], Ellipsis) == ["1", "a"]
    ensures KeyAt(["1", "a"], 0) == "singleton_1" && KeyAt(["1", "a"], 1) == "a"
  {
    var tokens := ["1", "a"];
    assert tokens[..1] == ["1"];
    assert NatToString(1) == "1";
  }
}
