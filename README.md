# model2vec distillation bookkeeping, in Dafny

model2vec distils a sentence-transformer into a static embedding model: it
embeds every token of the model's tokenizer (and, optionally, of a custom
vocabulary) once, then post-processes the matrix. This project models the
bookkeeping around that distillation in `model2vec/distill/distillation.py`,
not the numerics:

- `VocabularyCleaning` (`vocabulary_cleaning.dfy`): `_clean_vocabulary`, the
  loop that drops empty tokens, repeated tokens and tokens the subword
  vocabulary already has. It is a method with a `for` loop, a `seen` set and
  the two counters the source logs, proved against `FirstOccurrences`, a
  declarative reference definition. Lemmas about that definition give the
  promised properties: no empty token, no subword token, no repeats, exactly
  the eligible tokens, in the order of their first occurrences, and
  idempotence.
- `ParameterValidation` (`parameter_validation.dfy`): `_validate_parameters`,
  which reconciles the deprecated `apply_zipf` flag with `sif_coefficient`
  and rejects invalid combinations. Each `ValueError` is a `Failure`. The
  function's contract gives, for each error, exactly the inputs that raise it,
  and says which coefficient a successful call returns.
- `TokenRemoval` (`token_removal.dfy`): `_remove_tokens_and_embeddings`. It
  selects the tokens a pattern matches and looks up their ids. It refuses to
  remove as many ids as the vocabulary has entries. It removes the tokens from
  the tokenizer and, if the tokenizer shrank, deletes their rows from the
  matrix. `np.delete` is modelled by `DeleteRows`, whose contract says the
  result holds exactly the rows whose index is not deleted, in their original
  order.
- `PcaResolution` (`pca_resolution.dfy`): the `pca_dims` branch of
  `_post_process_embeddings`. It turns `"auto"` and requests above the column
  count into the column count, and skips PCA when that dimension is not below
  the row count.

The regular-expression engine and the `tokenizers` library calls
(`re.compile`, `remove_tokens`, `get_vocab_size`) are parameters of the
removal step, bundled in `TokenRemoval.TokenizerLibrary`. The tokenizer's
`get_vocab()` is a `map<string, nat>` and an embedding row is of any type.
Floating-point coefficients are `real`s.

The guard against removing everything compares the number of matched tokens,
repeats included, with the size of the vocabulary. The token list comes from
`create_output_embeddings_from_model`, which is not part of this model, so
whether it can hold a repeated token is not known here. If the list has no
repeats, the guard keeps at least one vocabulary entry (`SomeTokenSurvives`
takes that as its assumption). If a token is listed twice, a pattern can pass
the guard and still empty the vocabulary (`RepeatedTokenPassesGuard`).

The error raised by that guard is meant to quote the pattern. Its message is a
plain string rather than an f-string, so it shows the literal text
`{token_remove_pattern}` instead. The model's `RemovesEverything` error
therefore carries no pattern.

Where the docstring of `_validate_parameters` disagrees with its code, the
model follows the code. The docstring lists `ValueError`s for the PCA
dimension, duplicate tokens, the regex and an empty vocabulary; the code
raises none of them. It also describes the coefficient as `>= 0`, while the
code requires it to be strictly positive.

## Model

| member | source | states |
|---|---|---|
| `VocabularyCleaning.CleanVocabulary` | model2vec/distill/distillation.py:348-370 | the loop returns `FirstOccurrences` of its input: no empty token, no subword token, no repeat, exactly the non-empty non-subword input tokens, in first-occurrence order; the empty-token counter counts the empty strings, and the two counters plus the output length add up to the input length |
| `VocabularyCleaning.FirstOccurrencesMembership` | model2vec/distill/distillation.py:355-363 | a token is in the cleaned vocabulary if and only if it is non-empty, not a subword token and in the input |
| `VocabularyCleaning.FirstOccurrencesClean` | model2vec/distill/distillation.py:356-363 | the cleaned vocabulary holds no empty string, no subword token, and no token twice |
| `VocabularyCleaning.FirstOccurrencesOrder` | model2vec/distill/distillation.py:355-363 | the cleaned tokens come in the order of their first occurrences in the input, so the output is an order-preserving subsequence taken at first occurrences |
| `VocabularyCleaning.FirstOccurrencesIdempotent` | model2vec/distill/distillation.py:355-363 | cleaning a cleaned vocabulary again changes nothing |
| `VocabularyCleaning.CleanInputUnchanged` | model2vec/distill/distillation.py:355-363 | a vocabulary with no empty token, no subword token and no repeat is returned unchanged |
| `ParameterValidation.ValidateParameters` | model2vec/distill/distillation.py:161-214 | raises for an out-of-range coefficient exactly when `apply_zipf` is not False and the given coefficient is outside (0, 1); raises when subwords are dropped and the vocabulary is `None` (an empty list passes); raises for a non-empty vocabulary with a BPE or Unigram tokenizer; on success the coefficient is in (0, 1) or absent, is `None` when `apply_zipf` is False, is 1e-4 when `apply_zipf` is True and none was given, and is otherwise the given one |
| `ParameterValidation.ZipfOffIgnoresCoefficient` | model2vec/distill/distillation.py:194-200 | with `apply_zipf` False the coefficient argument has no effect on the outcome, and success returns `None` |
| `ParameterValidation.SubwordDistillationAccepted` | model2vec/distill/distillation.py:198-214 | a subword distillation without a vocabulary or the deprecated flag and with a usable coefficient succeeds and keeps the coefficient |
| `TokenRemoval.MatchIndices` | model2vec/distill/distillation.py:228 | the positions of the matched tokens are ascending, in range, matched, and include every matched position |
| `TokenRemoval.Matching` | model2vec/distill/distillation.py:228 | the matched tokens are the input tokens at the ascending positions of the matches, so the input order is kept and none is added; a token is matched if and only if it is in the input and the pattern matches it |
| `TokenRemoval.MatchingCounts` | model2vec/distill/distillation.py:228 | each token the pattern matches is kept as often as it occurs in the input, and no other token is kept |
| `TokenRemoval.LookupIds` | model2vec/distill/distillation.py:231 | the lookup succeeds if and only if every token is in the vocabulary, and then yields each token's id in order; otherwise it fails at the first unknown token |
| `TokenRemoval.Survivors` | model2vec/distill/distillation.py:246 | the surviving row indices are ascending, in range, not deleted, and include every index in range that is not deleted |
| `TokenRemoval.DeleteRows` | model2vec/distill/distillation.py:246 | the result holds the surviving rows, each equal to the input row at its surviving index, in their original order |
| `TokenRemoval.DeleteRowsCount` | model2vec/distill/distillation.py:246 | when every deleted index is in range, exactly one row goes per distinct index |
| `TokenRemoval.RemoveMatched` | model2vec/distill/distillation.py:229-249 | with the matched tokens given, each error arises exactly on its own inputs. An unknown matched token fails the lookup. Removal is refused when all are known and there are as many as vocabulary entries. An out-of-range id fails only when the tokenizer shrank. The call succeeds exactly in the remaining cases: the tokens leave the tokenizer, and the matrix is unchanged if the tokenizer did not shrink and otherwise loses exactly the rows of the matched ids |
| `TokenRemoval.RemoveTokensAndEmbeddings` | model2vec/distill/distillation.py:217-249 | without a pattern the backend tokenizer and matrix come back untouched. Each error arises exactly on its own inputs: an invalid pattern; a matched token missing from the vocabulary; as many matched tokens as vocabulary entries; a matched id past the last row when the tokenizer shrank. Otherwise the call succeeds, removes the matched tokens from the tokenizer, and the matrix loses exactly their rows in order, or nothing if the tokenizer did not shrink |
| `TokenRemoval.SomeTokenSurvives` | model2vec/distill/distillation.py:233-237 | for a token list without repeats, a successful removal with a pattern leaves some vocabulary entry unmatched |
| `TokenRemoval.UnlistedEntryExists` | model2vec/distill/distillation.py:233-237 | a list of known tokens without repeats, whose length differs from the vocabulary size, leaves some vocabulary entry out |
| `TokenRemoval.RepeatedTokenPassesGuard` | model2vec/distill/distillation.py:231-246 | for any library whose pattern matches a token and whose tokenizer shrinks when the token is removed, listing that token twice lets removal from the one-entry vocabulary pass the guard and succeed, and the matrix loses its only row |
| `PcaResolution.EffectiveDims` | model2vec/distill/distillation.py:309-317 | the effective dimension never exceeds the column count; `"auto"` and requests above the column count become the column count; other requests are kept |
| `PcaResolution.ResolvePca` | model2vec/distill/distillation.py:308-322 | no plan exactly when `pca_dims` is `None`; PCA is fitted only with the effective dimension, which is at most the column count and below the row count; it is skipped when that dimension is at least the row count |
| `PcaResolution.PcaRunsExactly` | model2vec/distill/distillation.py:308-322 | PCA runs if and only if it is requested and the requested dimension, capped at the column count, is below the row count |
| `PcaResolution.WideMatrixSkipsPca` | model2vec/distill/distillation.py:309-321 | with no more rows than columns, `"auto"` or a request of at least the column count skips PCA at the column count |

## Left out

- `distill` and the body of `distill_from_model` (model and tokenizer loading, device selection, concatenating the vocabulary embeddings, the config dict, the model-card lookup, building the `StaticModel`): these are network, file-system and library calls around the modelled helpers.
- `create_output_embeddings_from_model`, `create_output_embeddings_from_model_and_tokens` and `select_optimal_device`: forward passes and device selection; `model2vec/distill/inference.py` and `model2vec/distill/utils.py` are not part of this model.
- `remove_tokens`, `add_tokens` and `preprocess_vocabulary`: `model2vec/distill/tokenizer.py` is not part of this model; `remove_tokens` and the backend's vocabulary size are parameters of the removal step, and the others are not called by the modelled helpers.
- The PCA fit and the SIF/Zipf reweighting in `_post_process_embeddings`: floating-point numerics over arrays. Only the decision whether and with which dimension to fit is modelled; whether scikit-learn accepts that dimension (a negative int, a fraction of 1 or more) is not.
- Regular expressions: compiling a pattern and `match` are the `compile` parameter; which strings a pattern matches is not modelled.
- Logging: `CleanVocabulary` returns the two counters the source logs instead of logging them; the warnings of the other helpers are not modelled.
- Floating point: coefficients and `pca_dims` fractions are reals, so NaN, infinities and rounding do not arise, and 1e-4 is exact. The range check rejects a NaN or infinite coefficient. A NaN `pca_dims` fails both comparisons of the post-processing, so PCA is skipped without a warning; `ResolvePca` does not cover that case.
- The texts of the error messages are not modelled; `RemovesEverything` carries no pattern, because the source's message does not interpolate it.
- The tokenizer kind: the `isinstance` test on the backend model is the `TokenizerModel` enumeration.
- TokenRemoval.RemoveTokensAndEmbeddings: the `IndexError` from `np.delete` for an id past the last row is `RowIndexOutOfBounds` without the offending index, and numpy's negative indices do not arise because vocabulary ids are natural numbers.
