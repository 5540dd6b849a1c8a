/**
 * Reference-benchmark leakage: a segment is flagged when its highest cosine
 * similarity to any reference embedding reaches the threshold.  The sentence
 * encoder and the cosine computation are external collaborators and enter the
 * model as functions.
 */
module ReferenceComparison {
  import opened Wrappers

  /** An embedding vector. */
  type Embedding = seq<real>

  /** The default leakage threshold of `check_reference_similarity`. */
  const DEFAULT_THRESHOLD: real := 0.9

  datatype ReferenceError =
    | MissingReferenceModel  // ValueError: no model to encode the segment
    | EmptyScores            // `max()` of an empty score tensor

  /** The largest element of a non-empty sequence of scores. */
  function Max(scores: seq<real>): (m: real)
    requires scores != []
    ensures forall i :: 0 <= i < |scores| ==> scores[i] <= m
    ensures exists i :: 0 <= i < |scores| && scores[i] == m
  {
    if |scores| == 1 then scores[0]
    else
      var rest := Max(scores[1..]);
      if scores[0] >= rest then scores[0] else rest
  }

  /**
   * check_reference_similarity: fails when no reference model is given,
   * before any encoding; otherwise encodes the segment, scores it against
   * every reference embedding, and returns the maximum score together with
   * the inclusive threshold test.
   */
  function CheckReferenceSimilarity(
    segment: string,
    refEmbeddings: seq<Embedding>,
    threshold: real := DEFAULT_THRESHOLD,
    refModel: Option<string -> Embedding> := None,
    cosSim: (Embedding, seq<Embedding>) -> seq<real>
  ): (r: Result<(real, bool), ReferenceError>)
    ensures refModel.None? ==> r == Err(MissingReferenceModel)
    ensures refModel.Some? ==>
      var scores := cosSim(refModel.value(segment), refEmbeddings);
      && (scores == [] <==> r == Err(EmptyScores))
      && (r.Ok? ==>
            && (forall i :: 0 <= i < |scores| ==> scores[i] <= r.value.0)
            && (exists i :: 0 <= i < |scores| && scores[i] == r.value.0)
            && (r.value.1 <==> exists i :: 0 <= i < |scores| && scores[i] >= threshold))
  {
    if refModel.None? then Err(MissingReferenceModel)
    else
      var segmentEmbedding := refModel.value(segment);
      var cosScores := cosSim(segmentEmbedding, refEmbeddings);
      if cosScores == [] then Err(EmptyScores)
      else
        var maxSim := Max(cosScores);
        Ok((maxSim, maxSim >= threshold))
  }

  /** A score below the threshold everywhere means no flag; a score at or above it anywhere means a flag. */
  lemma FlagIffSomeScoreReaches(scores: seq<real>, threshold: real)
    requires scores != []
    ensures Max(scores) >= threshold <==> exists i :: 0 <= i < |scores| && scores[i] >= threshold
    ensures (forall i :: 0 <= i < |scores| ==> scores[i] < threshold) ==> Max(scores) < threshold
  {
  }

  /** Adding one more reference score never lowers the maximum and never clears a flag. */
  lemma MaxGrows(scores: seq<real>, extra: real, threshold: real)
    requires scores != []
    ensures Max(scores) <= Max(scores + [extra])
    ensures Max(scores) >= threshold ==> Max(scores + [extra]) >= threshold
  {
    var s := scores + [extra];
    assert forall i :: 0 <= i < |scores| ==> s[i] == scores[i];
  }

  /** A reference whose score is 1 (the query itself) is flagged for every threshold up to 1. */
  lemma IdenticalReferenceFlags(scores: seq<real>, threshold: real := DEFAULT_THRESHOLD)
    requires exists i :: 0 <= i < |scores| && scores[i] == 1.0
    requires threshold <= 1.0
    ensures Max(scores) >= threshold
  {
  }
}
