/** How many principal components the post-processing of the embedding
    matrix asks for, and whether it runs PCA at all (the `pca_dims` branch of
    `_post_process_embeddings` in model2vec/distill/distillation.py). Only the
    decision is modelled; the fit itself is not. */
module PcaResolution {

  /** The `pca_dims` argument: `None`, `"auto"`, an int (a number of
      components) or a float (a fraction of explained variance). */
  datatype PcaDims = NoPca | Auto | Components(n: int) | Variance(fraction: real)

  /** What the post-processing does with the matrix. */
  datatype PcaPlan =
    | NotRequested         // `pca_dims` is None
    | TooFewRows(dims: PcaDims) // the effective dimension is not below the row count
    | Fit(dims: PcaDims)   // PCA runs with this effective dimension

  /** The number a resolved dimension is compared with, as Python compares
      ints and floats. */
  function Magnitude(d: PcaDims): real
    requires d.Components? || d.Variance?
  {
    if d.Components? then d.n as real else d.fraction
  }

  /** `"auto"` and any request above the column count become the column
      count; any other request is kept. */
  function EffectiveDims(d: PcaDims, columns: nat): (e: PcaDims)
    requires d != NoPca
    ensures e.Components? || e.Variance?
    ensures Magnitude(e) <= columns as real
    ensures d != Auto && Magnitude(d) <= columns as real ==> e == d
    ensures d == Auto || Magnitude(d) > columns as real ==> e == Components(columns)
  {
    var requested := if d == Auto then Components(columns) else d;
    if Magnitude(requested) > columns as real then Components(columns) else requested
  }

  /** The decision of the post-processing. The source tests `pca_dims <=
      shape[1]` once more before fitting; for a real-valued dimension that
      test always holds after clamping, which the bound on a fitted dimension
      below records. */
  function ResolvePca(d: PcaDims, rows: nat, columns: nat): (p: PcaPlan)
    ensures p == NotRequested <==> d == NoPca
    ensures p != NotRequested ==> p.dims == EffectiveDims(d, columns)
    ensures p.Fit? ==> Magnitude(p.dims) <= columns as real && Magnitude(p.dims) < rows as real
    ensures p.TooFewRows? ==> Magnitude(p.dims) >= rows as real
  {
    if d == NoPca then NotRequested
    else
      var e := EffectiveDims(d, columns);
      if Magnitude(e) >= rows as real then TooFewRows(e)
      else Fit(e)
  }

  /** PCA runs exactly when it is requested and the requested dimension,
      capped at the column count, is below the row count. */
  lemma PcaRunsExactly(d: PcaDims, rows: nat, columns: nat)
    ensures ResolvePca(d, rows, columns).Fit? <==>
      d != NoPca &&
      (if d == Auto || Magnitude(d) > columns as real then columns < rows
       else Magnitude(d) < rows as real)
  {
  }

  /** A matrix with at least as many columns as rows is never reduced by
      `"auto"` or by any request of the column count or more. */
  lemma WideMatrixSkipsPca(d: PcaDims, rows: nat, columns: nat)
    requires rows <= columns
    requires d == Auto || (d.Components? && d.n >= columns)
    ensures ResolvePca(d, rows, columns) == TooFewRows(Components(columns))
  {
  }
}
