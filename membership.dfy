/**
 * The membership-inference decision: a query is inferred to be a member of
 * the indexed corpus when the similarity of its nearest neighbour reaches the
 * threshold.  The nearest-neighbour search itself is an external collaborator;
 * the model takes the distances it returns, nearest first.
 */
module MembershipInference {
  import opened Wrappers

  /** The default decision threshold of `is_member`. */
  const DEFAULT_THRESHOLD: real := 0.85

  /** `distances[0]` on an empty distance row raises IndexError. */
  datatype MembershipError = IndexError

  /** is_member: the sample counts as a member when its similarity is at least the threshold. */
  function IsMember(similarityScore: real, threshold: real := DEFAULT_THRESHOLD): (b: bool)
    ensures similarityScore == threshold ==> b
    ensures similarityScore < threshold ==> !b
  {
    similarityScore >= threshold
  }

  /** Cosine similarity from cosine distance. */
  function Similarity(distance: real): real {
    1.0 - distance
  }

  /**
   * membership_inference: the similarity of the first (nearest) returned
   * neighbour, judged against the default threshold.
   */
  function MembershipInference(distances: seq<real>): (r: Result<bool, MembershipError>)
    ensures distances == [] <==> r == Err(IndexError)
    ensures r.Ok? ==> (r.value <==> distances[0] <= 1.0 - DEFAULT_THRESHOLD)
  {
    if distances == [] then Err(IndexError)
    else Ok(IsMember(Similarity(distances[0])))
  }

  /** A higher score never turns a member into a non-member. */
  lemma MemberMonotone(s: real, s': real, threshold: real)
    requires IsMember(s, threshold) && s' >= s
    ensures IsMember(s', threshold)
  {
  }

  /** With the default threshold, membership means a nearest distance of at most 0.15. */
  lemma DefaultMembershipDistance(distances: seq<real>)
    requires distances != []
    ensures MembershipInference(distances) == Ok(distances[0] <= 0.15)
  {
  }

  /** An exact duplicate (distance 0, similarity 1) is a member. */
  lemma ExactDuplicateIsMember(distances: seq<real>)
    requires distances != [] && distances[0] == 0.0
    ensures Similarity(distances[0]) == 1.0
    ensures MembershipInference(distances) == Ok(true)
  {
  }

  /**
   * With distances in ascending order, the first neighbour has the largest
   * similarity, so the decision uses the best similarity among the neighbours.
   */
  lemma NearestIsMostSimilar(distances: seq<real>)
    requires distances != []
    requires forall i, j :: 0 <= i <= j < |distances| ==> distances[i] <= distances[j]
    ensures forall i :: 0 <= i < |distances| ==> Similarity(distances[i]) <= Similarity(distances[0])
    ensures MembershipInference(distances) == Ok(exists i :: 0 <= i < |distances| && IsMember(Similarity(distances[i]), DEFAULT_THRESHOLD))
  {
  }
}
