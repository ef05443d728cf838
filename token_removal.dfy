/** Removal of unwanted tokens and of their embedding rows after a subword
    distillation (`_remove_tokens_and_embeddings` in
    model2vec/distill/distillation.py).

    The regular-expression engine and the `tokenizers` library are not part of
    this model: compiling a pattern, removing tokens from a backend tokenizer
    and asking a backend tokenizer for its size are parameters (a
    `TokenizerLibrary`), and an embedding row is of any type `R`. */
module TokenRemoval {
  import opened Wrappers
  import VocabularyCleaning

  /** A fast tokenizer: its backend and the token-to-id map `get_vocab()` returns. */
  datatype Tokenizer<B> = Tokenizer(backend: B, vocab: map<string, nat>)

  /** The library calls the source makes, taken as given: `re.compile` (None
      for a pattern it refuses; the compiled pattern answers `match`),
      `remove_tokens`, and `get_vocab_size` on a backend tokenizer. */
  datatype TokenizerLibrary<!B> = TokenizerLibrary(
    compile: string -> Option<string -> bool>,
    removeTokens: (B, seq<string>) -> B,
    vocabSize: B -> nat)

  datatype RemovalError =
    | InvalidPattern(pattern: string)    // `re.error`, raised again as ValueError
    | UnknownToken(token: string)        // `KeyError` from `vocab[token]`
    | RemovesEverything                  // every vocabulary entry would go
    | RowIndexOutOfBounds                // `IndexError` from `np.delete`

  /** The new backend tokenizer and embedding matrix. */
  datatype Removal<B, R> = Removal(backend: B, embeddings: seq<R>)

  /** Python truthiness of the optional pattern: given and non-empty. */
  predicate Active(pattern: Option<string>)
  {
    pattern.Some? && pattern.value != ""
  }

  /** The positions of the tokens the pattern matches, ascending. */
  function MatchIndices(tokens: seq<string>, matches: string -> bool): (r: seq<nat>)
    ensures forall k :: 0 <= k < |r| ==> r[k] < |tokens| && matches(tokens[r[k]])
    ensures forall i :: 0 <= i < |tokens| && matches(tokens[i]) ==> i in r
    ensures forall j, k :: 0 <= j < k < |r| ==> r[j] < r[k]
    decreases |tokens|
  {
    if tokens == [] then []
    else
      var n := |tokens| - 1;
      var front := MatchIndices(tokens[..n], matches);
      assert forall k :: 0 <= k < |front| ==> tokens[front[k]] == tokens[..n][front[k]];
      front + (if matches(tokens[n]) then [n] else [])
  }

  /** `r` holds the tokens at the matched positions of `tokens`, in order. */
  ghost predicate AtMatchIndices(tokens: seq<string>, matches: string -> bool, r: seq<string>)
  {
    && |r| == |MatchIndices(tokens, matches)|
    && (forall k :: 0 <= k < |r| ==> r[k] == tokens[MatchIndices(tokens, matches)[k]])
  }

  /** `r` holds each matched token as often as `tokens` does, and nothing else. */
  ghost predicate CountsMatches(tokens: seq<string>, matches: string -> bool, r: seq<string>)
  {
    forall t :: multiset(r)[t] == if matches(t) then multiset(tokens)[t] else 0
  }

  /** Appending the last token when it matches extends the matched positions
      of the other tokens to the matched positions of all. */
  lemma MatchingStepPositions(tokens: seq<string>, matches: string -> bool, front: seq<string>)
    requires tokens != []
    requires AtMatchIndices(tokens[..|tokens| - 1], matches, front)
    ensures AtMatchIndices(tokens, matches,
      front + (if matches(tokens[|tokens| - 1]) then [tokens[|tokens| - 1]] else []))
  {
    var n := |tokens| - 1;
    var before := tokens[..n];
    var fi := MatchIndices(before, matches);
    var idx := MatchIndices(tokens, matches);
    var r := front + (if matches(tokens[n]) then [tokens[n]] else []);
    assert idx == fi + (if matches(tokens[n]) then [n] else []);
    forall k | 0 <= k < |r|
      ensures r[k] == tokens[idx[k]]
    {
      if k < |front| {
        assert r[k] == front[k] == before[fi[k]];
      }
    }
  }

  /** Appending the last token when it matches extends the counts of the
      matches of the other tokens to the counts of the matches of all. */
  lemma MatchingStepCounts(tokens: seq<string>, matches: string -> bool, front: seq<string>)
    requires tokens != []
    requires CountsMatches(tokens[..|tokens| - 1], matches, front)
    ensures CountsMatches(tokens, matches,
      front + (if matches(tokens[|tokens| - 1]) then [tokens[|tokens| - 1]] else []))
  {
    var n := |tokens| - 1;
    var last := if matches(tokens[n]) then [tokens[n]] else [];
    SplitLast(tokens);
    assert multiset(front + last) == multiset(front) + multiset(last);
  }

  /** A non-empty sequence is its front followed by its last element, and so
      are its elements counted with multiplicity. */
  lemma SplitLast<T>(s: seq<T>)
    requires s != []
    ensures s == s[..|s| - 1] + [s[|s| - 1]]
    ensures multiset(s) == multiset(s[..|s| - 1]) + multiset{s[|s| - 1]}
  {
    assert s == s[..|s| - 1] + [s[|s| - 1]];
  }

  /** `[x for x in tokens if regex.match(x)]`: the tokens the pattern matches,
      every occurrence of each, in their order in `tokens`. */
  function Matching(tokens: seq<string>, matches: string -> bool): (r: seq<string>)
    ensures |r| <= |tokens|
    ensures |r| == |MatchIndices(tokens, matches)|
    ensures forall k :: 0 <= k < |r| ==> r[k] == tokens[MatchIndices(tokens, matches)[k]]
    ensures forall t :: t in r <==> t in tokens && matches(t)
    decreases |tokens|
  {
    if tokens == [] then []
    else
      var n := |tokens| - 1;
      var front := Matching(tokens[..n], matches);
      MatchingStepPositions(tokens, matches, front);
      front + (if matches(tokens[n]) then [tokens[n]] else [])
  }

  /** Each token the pattern matches is kept as often as it occurs, and no
      other token is kept. */
  lemma {:induction false} MatchingCounts(tokens: seq<string>, matches: string -> bool)
    ensures forall t :: multiset(Matching(tokens, matches))[t] == if matches(t) then multiset(tokens)[t] else 0
    decreases |tokens|
  {
    if tokens != [] {
      var n := |tokens| - 1;
      MatchingCounts(tokens[..n], matches);
      MatchingStepCounts(tokens, matches, Matching(tokens[..n], matches));
    }
  }

  /** Looking every token up in the vocabulary, failing at the first unknown one. */
  function LookupIds(vocab: map<string, nat>, toks: seq<string>): (r: Result<seq<nat>, string>)
    ensures r.Success? <==> forall k :: 0 <= k < |toks| ==> toks[k] in vocab
    ensures r.Success? ==> |r.value| == |toks| && forall k :: 0 <= k < |toks| ==> r.value[k] == vocab[toks[k]]
    ensures r.Failure? ==> exists k :: 0 <= k < |toks| && toks[k] == r.error && r.error !in vocab &&
                                      forall j :: 0 <= j < k ==> toks[j] in vocab
  {
    if toks == [] then Success([])
    else if toks[0] !in vocab then
      Failure(toks[0])
    else match LookupIds(vocab, toks[1..])
      case Success(ids) => Success([vocab[toks[0]]] + ids)
      case Failure(t) =>
        var k :| 0 <= k < |toks[1..]| && toks[1..][k] == t && t !in vocab &&
                 forall j :: 0 <= j < k ==> toks[1..][j] in vocab;
        assert toks[k + 1] == t && forall j :: 0 <= j < k + 1 ==> toks[j] in vocab;
        Failure(t)
  }

  /** The row indices below `n` that are not in `ids`, ascending. */
  function Survivors(n: nat, ids: set<nat>): (r: seq<nat>)
    ensures forall k :: 0 <= k < |r| ==> r[k] < n && r[k] !in ids
    ensures forall i :: 0 <= i < n && i !in ids ==> i in r
    ensures forall j, k :: 0 <= j < k < |r| ==> r[j] < r[k]
  {
    if n == 0 then [] else Survivors(n - 1, ids) + (if n - 1 in ids then [] else [n - 1])
  }

  /** `np.delete(rows, ids, axis=0)`: the rows whose index is not in `ids`,
      in their original order. */
  function DeleteRows<R>(rows: seq<R>, ids: set<nat>): (r: seq<R>)
    ensures |r| == |Survivors(|rows|, ids)|
    ensures forall k :: 0 <= k < |r| ==> r[k] == rows[Survivors(|rows|, ids)[k]]
  {
    if rows == [] then []
    else
      var n := |rows| - 1;
      var front := DeleteRows(rows[..n], ids);
      assert Survivors(|rows|, ids) == Survivors(n, ids) + (if n in ids then [] else [n]);
      front + (if n in ids then [] else [rows[n]])
  }

  /** The indices in `ids` below `n`. */
  ghost function Below(ids: set<nat>, n: nat): set<nat>
  {
    set i | i in ids && i < n
  }

  lemma BelowStep(ids: set<nat>, n: nat)
    requires n > 0
    ensures |Below(ids, n)| == |Below(ids, n - 1)| + (if n - 1 in ids then 1 else 0)
  {
    if n - 1 in ids {
      assert Below(ids, n) == Below(ids, n - 1) + {n - 1};
    } else {
      assert Below(ids, n) == Below(ids, n - 1);
    }
  }

  /** The number of surviving indices is `n` minus the number of indices
      below `n` that are deleted. */
  lemma {:induction false} SurvivorsCount(n: nat, ids: set<nat>)
    ensures |Survivors(n, ids)| + |Below(ids, n)| == n
  {
    if n > 0 {
      SurvivorsCount(n - 1, ids);
      BelowStep(ids, n);
    }
  }

  /** When every index is in range, exactly one row goes per distinct index. */
  lemma DeleteRowsCount<R>(rows: seq<R>, ids: set<nat>)
    requires forall i :: i in ids ==> i < |rows|
    ensures |DeleteRows(rows, ids)| == |rows| - |ids|
  {
    SurvivorsCount(|rows|, ids);
    assert Below(ids, |rows|) == ids;
  }

  /** The set of the ids in `ids`. */
  function IdSet(ids: seq<nat>): set<nat>
  {
    set i | i in ids
  }

  /** The ids of the tokens of `wrong` that the vocabulary knows. */
  ghost function IdsOf(vocab: map<string, nat>, wrong: seq<string>): set<nat>
  {
    set t | t in wrong && t in vocab :: vocab[t]
  }

  /** Every token of `wrong` is in the vocabulary. */
  predicate AllKnown(vocab: map<string, nat>, wrong: seq<string>)
  {
    forall t :: t in wrong ==> t in vocab
  }

  /** Every token of `wrong` is in the vocabulary with the id of a row of a
      matrix with `rows` rows. */
  predicate AllInRange(vocab: map<string, nat>, wrong: seq<string>, rows: nat)
  {
    forall t :: t in wrong ==> t in vocab && vocab[t] < rows
  }

  /** The part of the removal step after matching: look the matched tokens
      up, refuse to empty the vocabulary, remove the tokens from the backend
      tokenizer and, if it shrank, their rows from the matrix. */
  function RemoveMatched<B, R>(
    lib: TokenizerLibrary<B>,
    tokenizer: Tokenizer<B>,
    wrong: seq<string>,
    embeddings: seq<R>
  ): (r: Result<Removal<B, R>, RemovalError>)
    ensures r.Failure? ==> r.error.UnknownToken? || r.error.RemovesEverything? || r.error.RowIndexOutOfBounds?
    // An unknown matched token fails the lookup.
    ensures r.Failure? && r.error.UnknownToken? <==> !AllKnown(tokenizer.vocab, wrong)
    ensures r.Failure? && r.error.UnknownToken? ==> r.error.token in wrong && r.error.token !in tokenizer.vocab
    // As many ids as the vocabulary has entries are refused.
    ensures r.Failure? && r.error.RemovesEverything? <==>
      AllKnown(tokenizer.vocab, wrong) && |wrong| == |tokenizer.vocab|
    // An id past the last row fails the deletion, which only runs if the tokenizer shrank.
    ensures r.Failure? && r.error.RowIndexOutOfBounds? <==>
      AllKnown(tokenizer.vocab, wrong) && |wrong| != |tokenizer.vocab| &&
      lib.vocabSize(lib.removeTokens(tokenizer.backend, wrong)) != lib.vocabSize(tokenizer.backend) &&
      !AllInRange(tokenizer.vocab, wrong, |embeddings|)
    // When the call succeeds, and what it returns.
    ensures r.Success? <==>
      AllKnown(tokenizer.vocab, wrong) && |wrong| != |tokenizer.vocab| &&
      (lib.vocabSize(lib.removeTokens(tokenizer.backend, wrong)) == lib.vocabSize(tokenizer.backend) ||
       AllInRange(tokenizer.vocab, wrong, |embeddings|))
    ensures r.Success? ==> r.value.backend == lib.removeTokens(tokenizer.backend, wrong)
    ensures r.Success? && lib.vocabSize(r.value.backend) == lib.vocabSize(tokenizer.backend) ==>
      r.value.embeddings == embeddings
    ensures r.Success? && lib.vocabSize(r.value.backend) != lib.vocabSize(tokenizer.backend) ==>
      AllInRange(tokenizer.vocab, wrong, |embeddings|) &&
      r.value.embeddings == DeleteRows(embeddings, IdsOf(tokenizer.vocab, wrong))
  {
    match LookupIds(tokenizer.vocab, wrong)
    case Failure(t) => Failure(UnknownToken(t))
    case Success(ids) =>
      if |ids| == |tokenizer.vocab| then Failure(RemovesEverything)
      else
        var newBackend := lib.removeTokens(tokenizer.backend, wrong);
        if lib.vocabSize(newBackend) == lib.vocabSize(tokenizer.backend) then
          Success(Removal(newBackend, embeddings))
        else if exists i :: i in ids && i >= |embeddings| then
          assert !AllInRange(tokenizer.vocab, wrong, |embeddings|) by {
            var i :| i in ids && i >= |embeddings|;
            var k :| 0 <= k < |ids| && ids[k] == i;
            assert wrong[k] in wrong;
          }
          Failure(RowIndexOutOfBounds)
        else
          assert IdSet(ids) == IdsOf(tokenizer.vocab, wrong) by {
            forall i | i in IdSet(ids) ensures i in IdsOf(tokenizer.vocab, wrong) {
              var k :| 0 <= k < |ids| && ids[k] == i;
              assert wrong[k] in wrong;
            }
          }
          assert AllInRange(tokenizer.vocab, wrong, |embeddings|) by {
            forall t | t in wrong ensures t in tokenizer.vocab && tokenizer.vocab[t] < |embeddings| {
              var k :| 0 <= k < |wrong| && wrong[k] == t;
              assert ids[k] in ids;
            }
          }
          Success(Removal(newBackend, DeleteRows(embeddings, IdSet(ids))))
  }

  /** The source's removal step. Every error path of the source is a `Failure`. */
  function RemoveTokensAndEmbeddings<B, R>(
    lib: TokenizerLibrary<B>,
    tokenizer: Tokenizer<B>,
    pattern: Option<string>,
    tokens: seq<string>,
    embeddings: seq<R>
  ): (r: Result<Removal<B, R>, RemovalError>)
    // Without a pattern nothing is touched.
    ensures !Active(pattern) ==> r == Success(Removal(tokenizer.backend, embeddings))
    // A pattern the regular-expression engine refuses, and only such a pattern, is an error.
    ensures r.Failure? && r.error.InvalidPattern? <==> Active(pattern) && lib.compile(pattern.value).None?
    ensures r.Failure? && r.error.InvalidPattern? ==> r.error.pattern == pattern.value
    // A matched token missing from the vocabulary, and only that, fails the lookup.
    ensures r.Failure? && r.error.UnknownToken? <==>
      Active(pattern) && lib.compile(pattern.value).Some? &&
      exists t :: t in tokens && lib.compile(pattern.value).value(t) && t !in tokenizer.vocab
    ensures r.Failure? && r.error.UnknownToken? ==>
      Active(pattern) && lib.compile(pattern.value).Some? &&
      r.error.token in tokens && lib.compile(pattern.value).value(r.error.token) &&
      r.error.token !in tokenizer.vocab
    // Removing as many ids as the vocabulary has entries is refused.
    ensures r.Failure? && r.error.RemovesEverything? <==>
      Active(pattern) && lib.compile(pattern.value).Some? &&
      var wrong := Matching(tokens, lib.compile(pattern.value).value);
      AllKnown(tokenizer.vocab, wrong) && |wrong| == |tokenizer.vocab|
    // An id past the last row fails the deletion, which only runs if the tokenizer shrank.
    ensures r.Failure? && r.error.RowIndexOutOfBounds? <==>
      Active(pattern) && lib.compile(pattern.value).Some? &&
      var wrong := Matching(tokens, lib.compile(pattern.value).value);
      AllKnown(tokenizer.vocab, wrong) && |wrong| != |tokenizer.vocab| &&
      lib.vocabSize(lib.removeTokens(tokenizer.backend, wrong)) != lib.vocabSize(tokenizer.backend) &&
      !AllInRange(tokenizer.vocab, wrong, |embeddings|)
    // Otherwise the call succeeds: the matched tokens leave the tokenizer ...
    ensures r.Success? <==>
      !Active(pattern) ||
      (lib.compile(pattern.value).Some? &&
       var wrong := Matching(tokens, lib.compile(pattern.value).value);
       AllKnown(tokenizer.vocab, wrong) && |wrong| != |tokenizer.vocab| &&
       (lib.vocabSize(lib.removeTokens(tokenizer.backend, wrong)) == lib.vocabSize(tokenizer.backend) ||
        AllInRange(tokenizer.vocab, wrong, |embeddings|)))
    ensures r.Success? && Active(pattern) ==>
      lib.compile(pattern.value).Some? &&
      r.value.backend == lib.removeTokens(tokenizer.backend, Matching(tokens, lib.compile(pattern.value).value))
    // ... the matrix is untouched when the tokenizer did not shrink ...
    ensures r.Success? && lib.vocabSize(r.value.backend) == lib.vocabSize(tokenizer.backend) ==>
      r.value.embeddings == embeddings
    // ... and otherwise loses exactly the rows of the matched tokens' ids.
    ensures r.Success? && lib.vocabSize(r.value.backend) != lib.vocabSize(tokenizer.backend) ==>
      Active(pattern) && lib.compile(pattern.value).Some? &&
      var wrong := Matching(tokens, lib.compile(pattern.value).value);
      AllInRange(tokenizer.vocab, wrong, |embeddings|) &&
      r.value.embeddings == DeleteRows(embeddings, IdsOf(tokenizer.vocab, wrong))
  {
    if !Active(pattern) then Success(Removal(tokenizer.backend, embeddings))
    else match lib.compile(pattern.value)
      case None => Failure(InvalidPattern(pattern.value))
      case Some(matches) => RemoveMatched(lib, tokenizer, Matching(tokens, matches), embeddings)
  }

  /** Filtering keeps distinct tokens distinct. */
  lemma {:induction false} MatchingDistinct(tokens: seq<string>, matches: string -> bool)
    requires VocabularyCleaning.Distinct(tokens)
    ensures VocabularyCleaning.Distinct(Matching(tokens, matches))
    decreases |tokens|
  {
    if tokens != [] {
      var n := |tokens| - 1;
      assert VocabularyCleaning.Distinct(tokens[..n]);
      MatchingDistinct(tokens[..n], matches);
      assert tokens[n] !in tokens[..n];
    }
  }

  /** A sequence without repeats has as many elements as it has members. */
  lemma {:induction false} DistinctCardinality(s: seq<string>)
    requires VocabularyCleaning.Distinct(s)
    ensures |set t | t in s| == |s|
  {
    if s != [] {
      var prefix := s[..|s| - 1];
      var last := s[|s| - 1];
      DistinctCardinality(prefix);
      assert last !in prefix;
      assert (set t | t in s) == (set t | t in prefix) + {last} by {
        assert s == prefix + [last];
      }
    }
  }

  /** The guard against removing everything, for a token list without
      repeats: whenever the removal step succeeds with a pattern, some
      vocabulary entry is not removed. */
  lemma SomeTokenSurvives<B, R>(
    lib: TokenizerLibrary<B>,
    tokenizer: Tokenizer<B>,
    pattern: Option<string>,
    tokens: seq<string>,
    embeddings: seq<R>)
    requires VocabularyCleaning.Distinct(tokens)
    requires Active(pattern) && lib.compile(pattern.value).Some?
    requires RemoveTokensAndEmbeddings(lib, tokenizer, pattern, tokens, embeddings).Success?
    ensures exists t :: t in tokenizer.vocab && t !in Matching(tokens, lib.compile(pattern.value).value)
  {
    var wrong := Matching(tokens, lib.compile(pattern.value).value);
    assert AllKnown(tokenizer.vocab, wrong) && |wrong| != |tokenizer.vocab|;
    MatchingDistinct(tokens, lib.compile(pattern.value).value);
    UnlistedEntryExists(tokenizer.vocab, wrong);
  }

  /** Fewer distinct known tokens than vocabulary entries leave an entry out. */
  lemma UnlistedEntryExists(vocab: map<string, nat>, wrong: seq<string>)
    requires VocabularyCleaning.Distinct(wrong)
    requires AllKnown(vocab, wrong) && |wrong| != |vocab|
    ensures exists t :: t in vocab && t !in wrong
  {
    DistinctCardinality(wrong);
    var removed := set t | t in wrong;
    assert removed <= vocab.Keys;
    assert |removed| != |vocab.Keys|;
    var rest := vocab.Keys - removed;
    assert vocab.Keys == removed + rest;
    assert removed !! rest;
    assert |rest| > 0;
    var t :| t in rest;
  }

  /** Why `SomeTokenSurvives` needs distinct tokens: the guard counts matches,
      not distinct ids, so with a token listed twice a pattern that matches it
      passes the guard and removes the whole one-entry vocabulary, and the
      matrix loses its only row. */
  lemma RepeatedTokenPassesGuard<B, R>(lib: TokenizerLibrary<B>, backend: B, pattern: string, w: string, row: R)
    requires pattern != "" && lib.compile(pattern).Some? && lib.compile(pattern).value(w)
    requires lib.vocabSize(lib.removeTokens(backend, [w, w])) != lib.vocabSize(backend)
    ensures RemoveTokensAndEmbeddings(lib, Tokenizer(backend, map[w := 0]), Some(pattern), [w, w], [row])
         == Success(Removal(lib.removeTokens(backend, [w, w]), []))
  {
    var tokenizer := Tokenizer(backend, map[w := 0]);
    var matches := lib.compile(pattern).value;
    TwiceMatched(w, matches);
    TwiceListedRemoved(lib, backend, w, row);
    assert RemoveTokensAndEmbeddings(lib, tokenizer, Some(pattern), [w, w], [row])
        == RemoveMatched(lib, tokenizer, Matching([w, w], matches), [row]);
  }

  /** The matched list of the one-entry vocabulary, listed twice, passes the guard. */
  lemma TwiceListedRemoved<B, R>(lib: TokenizerLibrary<B>, backend: B, w: string, row: R)
    requires lib.vocabSize(lib.removeTokens(backend, [w, w])) != lib.vocabSize(backend)
    ensures RemoveMatched(lib, Tokenizer(backend, map[w := 0]), [w, w], [row])
         == Success(Removal(lib.removeTokens(backend, [w, w]), []))
  {
    assert AllInRange(map[w := 0], [w, w], 1);
    OnlyRowDeleted(w, row);
  }

  /** A matched token listed twice is matched twice. */
  lemma TwiceMatched(w: string, matches: string -> bool)
    requires matches(w)
    ensures Matching([w, w], matches) == [w, w]
  {
    assert [w, w][..1] == [w] && [w][..0] == [];
  }

  /** Deleting the id of the only vocabulary entry empties a one-row matrix. */
  lemma OnlyRowDeleted<R>(w: string, row: R)
    ensures DeleteRows([row], IdsOf(map[w := 0], [w, w])) == []
  {
    var ids := IdsOf(map[w := 0], [w, w]);
    assert w in [w, w] && 0 in ids;
    assert Survivors(1, ids) == [];
  }
}
