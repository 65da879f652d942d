/** The outcome of a traversal between two vertices. */
module TraversalResults {
  /** `success` says whether the target was reached; `results` lists the vertices passed
      through, source first and target last, and is empty on failure. */
  datatype TraversalResult<V> = TraversalResult(success: bool, results: seq<V>)

  /** The shared result of every unsuccessful traversal. */
  function Failure<V>(): (r: TraversalResult<V>)
    ensures !r.success && |r.results| == 0
  {
    TraversalResult(false, [])
  }

  /** A successful traversal through `results`. */
  function Complete<V>(results: seq<V>): (r: TraversalResult<V>)
    ensures r.success && r.results == results
  {
    TraversalResult(true, results)
  }
}
