/** Order-preserving selections out of a sequence. */
module Seqs {

  /** `idx` lists positions below `n` in strictly increasing order: picking
      those positions out of a sequence of length `n` keeps their order. */
  ghost predicate Increasing(idx: seq<nat>, n: nat)
  {
    && (forall k :: 0 <= k < |idx| ==> idx[k] < n)
    && (forall k, l :: 0 <= k < l < |idx| ==> idx[k] < idx[l])
  }

  /** Picking one more position, past all picked ones. */
  lemma IncreasingSnoc(idx: seq<nat>, n: nat)
    requires Increasing(idx, n)
    ensures Increasing(idx + [n], n + 1)
  {
  }

  /** The picked positions stay valid in a longer sequence. */
  lemma IncreasingWiden(idx: seq<nat>, n: nat)
    requires Increasing(idx, n)
    ensures Increasing(idx, n + 1)
  {
  }
}
