/**
  The recommendation service the core calls. Its ranking is external: the stub
  answers each `(id, k)` with a fixed list and records every call made to it.
*/
module Recommendation {
  import opened Store
  import opened Frames

  class Recommender {
    /** The list `get_similar_articles(id, k)` returns for each argument pair. */
    const ranking: (Id, nat) -> seq<RecItem>
    /** Every call made so far, oldest first. */
    var calls: seq<(Id, nat)>

    constructor (ranking: (Id, nat) -> seq<RecItem>)
      ensures this.ranking == ranking && calls == []
    {
      this.ranking := ranking;
      calls := [];
    }

    /** `get_similar_articles(id, k)`. */
    method GetSimilarArticles(id: Id, k: nat) returns (items: seq<RecItem>)
      modifies this
      ensures items == ranking(id, k)
      ensures calls == old(calls) + [(id, k)]
    {
      items := ranking(id, k);
      calls := calls + [(id, k)];
    }
  }
}
