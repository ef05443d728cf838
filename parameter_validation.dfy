/** Validation of the distillation parameters (`_validate_parameters` in
    model2vec/distill/distillation.py).

    The deprecated `apply_zipf` flag is first reconciled with the SIF
    coefficient; the resulting coefficient must lie strictly between 0 and 1;
    a custom vocabulary is required when subword tokens are dropped, and is
    refused for BPE and Unigram tokenizers. */
module ParameterValidation {
  import opened Wrappers

  /** The kind of model behind the backend tokenizer. Only BPE and Unigram are
      singled out by the validation. */
  datatype TokenizerModel = WordPiece | Bpe | Unigram | WordLevel

  datatype ParameterError =
    | SifOutOfRange(coefficient: real)  // the coefficient is not in (0, 1)
    | VocabularyRequired                // no subwords and no vocabulary
    | VocabularyUnsupported(model: TokenizerModel)

  /** The coefficient used when `apply_zipf` is set but no coefficient is given (1e-4). */
  const DefaultSifCoefficient: real := 0.0001

  /** A coefficient the SIF weighting accepts: none at all, or one in (0, 1). */
  predicate ValidCoefficient(sif: Option<real>)
  {
    sif.None? || 0.0 < sif.value < 1.0
  }

  /** Python truthiness of the optional vocabulary: given and non-empty. */
  predicate HasVocabulary(vocabulary: Option<seq<string>>)
  {
    vocabulary.Some? && |vocabulary.value| > 0
  }

  /** The source's validation, step by step: reconcile, then the range check,
      then the two vocabulary checks, first failure wins.

      The contract restates the decision table flat: which error arises on
      exactly which inputs, and which coefficient a successful call returns. */
  function ValidateParameters(
    model: TokenizerModel,
    vocabulary: Option<seq<string>>,
    applyZipf: Option<bool>,
    sif: Option<real>,
    useSubword: bool
  ): (r: Result<Option<real>, ParameterError>)
    // The coefficient is rejected exactly when one is given, the flag does
    // not switch weighting off, and it lies outside (0, 1).
    ensures r.Failure? && r.error.SifOutOfRange? <==>
      applyZipf != Some(false) && sif.Some? && !(0.0 < sif.value < 1.0)
    ensures r.Failure? && r.error.SifOutOfRange? ==> r.error.coefficient == sif.value
    // Without subwords a vocabulary must be given; an empty list is enough.
    ensures r.Failure? && r.error.VocabularyRequired? <==>
      ValidCoefficient(if applyZipf == Some(false) then None else sif) &&
      !useSubword && vocabulary.None?
    // A non-empty vocabulary is refused for BPE and Unigram tokenizers.
    ensures r.Failure? && r.error.VocabularyUnsupported? <==>
      ValidCoefficient(if applyZipf == Some(false) then None else sif) &&
      HasVocabulary(vocabulary) && (model == Bpe || model == Unigram)
    ensures r.Failure? && r.error.VocabularyUnsupported? ==> r.error.model == model
    // What a successful call returns.
    ensures r.Success? ==> ValidCoefficient(r.value)
    ensures r.Success? && applyZipf == Some(false) ==> r.value == None
    ensures r.Success? && applyZipf == Some(true) && sif.None? ==> r.value == Some(DefaultSifCoefficient)
    ensures r.Success? && (applyZipf.None? || sif.Some?) && applyZipf != Some(false) ==> r.value == sif
  {
    var coefficient :=
      if applyZipf.Some? then
        if applyZipf.value && sif.None? then Some(DefaultSifCoefficient)
        else if !applyZipf.value then None
        else sif
      else sif;
    if coefficient.Some? && !(0.0 < coefficient.value < 1.0) then
      Failure(SifOutOfRange(coefficient.value))
    else if !useSubword && vocabulary.None? then
      Failure(VocabularyRequired)
    else if HasVocabulary(vocabulary) && (model == Bpe || model == Unigram) then
      Failure(VocabularyUnsupported(model))
    else
      Success(coefficient)
  }

  /** With `apply_zipf` false the coefficient passed in has no effect at all. */
  lemma ZipfOffIgnoresCoefficient(
    model: TokenizerModel, vocabulary: Option<seq<string>>, sif: Option<real>, useSubword: bool)
    ensures ValidateParameters(model, vocabulary, Some(false), sif, useSubword)
         == ValidateParameters(model, vocabulary, Some(false), None, useSubword)
    ensures ValidateParameters(model, vocabulary, Some(false), sif, useSubword).Success? ==>
            ValidateParameters(model, vocabulary, Some(false), sif, useSubword).value == None
  {
  }

  /** A subword-only distillation with a usable coefficient and without the
      deprecated flag always passes, and keeps its coefficient. */
  lemma SubwordDistillationAccepted(model: TokenizerModel, sif: Option<real>)
    requires ValidCoefficient(sif)
    ensures ValidateParameters(model, None, None, sif, true) == Success(sif)
  {
  }
}
