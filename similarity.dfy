/**
 * The similarity measure the matcher compares embeddings with. Cosine
 * similarity is computed in `f32` with a square root, which the model does
 * not reproduce: every operation takes the measure as a parameter, and the
 * two guards the implementation has are stated as a predicate on it.
 */
module Similarity {

  import opened Domain

  type Similarity = (Embedding, Embedding) -> real

  /** The sum of squares of the components: zero exactly when the magnitude is. */
  function SquaredNorm(v: Embedding): real
  {
    if v == [] then 0.0 else SquaredNorm(v[..|v| - 1]) + v[|v| - 1] * v[|v| - 1]
  }

  /**
   * The guards of the cosine similarity: 0 when the lengths differ, and 0 when
   * either vector has zero magnitude.
   */
  ghost predicate CosineGuards(sim: Similarity)
  {
    forall a: Embedding, b: Embedding {:trigger sim(a, b)} ::
      (|a| != |b| || SquaredNorm(a) == 0.0 || SquaredNorm(b) == 0.0) ==> sim(a, b) == 0.0
  }
}
