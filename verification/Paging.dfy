/** Email/query in pages. */
module Paging {
  const PAGE_SIZE := 256

  const I32_MAX := 0x7FFF_FFFF

  /** The page an unchanged result list gives from a position, under a limit the server honours (section 5.5 of RFC 8620). */
  function Page<T>(results: seq<T>, position: nat): seq<T> {
    if |results| <= position then []
    else if |results| < position + PAGE_SIZE then results[position..]
    else results[position..position + PAGE_SIZE]
  }

  /** The server serves that list. */
  ghost predicate Serves<T>(serve: nat -> seq<T>, results: seq<T>) {
    forall position: nat :: serve(position) == Page(results, position)
  }

  /**
   Ask for pages until one is short. The whole list comes back in order, with no gap and no repeat, after one request
   per full page and a last one that is short or empty.
   */
  method PageQueryIds<T>(serve: nat -> seq<T>, ghost results: seq<T>) returns (all: seq<T>, requests: nat)
    requires Serves(serve, results)
    requires |results| <= I32_MAX
    ensures all == results
    ensures requests == |results| / 256 + 1
  {
    all, requests := [], 0;
    var position := 0;
    while true
      invariant position <= |results| && all == results[..position]
      invariant position == requests * PAGE_SIZE
      decreases |results| - position
    {
      var page := serve(position);
      all, requests := all + page, requests + 1;
      if |page| < PAGE_SIZE { break; }
      // The program adds in 32 bits; the sum stays in range.
      assert position + |page| <= I32_MAX;
      position := position + |page|;
    }
  }
}
