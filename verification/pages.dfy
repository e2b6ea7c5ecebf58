/**
  The paginated retrieval of the filtered screen: up to 20 sequential
  requests of 40 results each, at offsets 0, 40, 80, ..., appending each
  page's items (or nothing, when the page has no `items`) until at least
  800 results have been gathered or the 20 requests are used up. Any failed
  request aborts the whole cycle; the results gathered so far are
  discarded with the local array that holds them.

  The remote service is a function from the `startIndex` offset to the
  response it gives for the current category.
 */
module Pages {
  import opened Books

  const MaxPages: nat := 20
  const PageSize: nat := 40
  const ResultCeiling: nat := 800

  /** The items the first `n` requests contribute, in request order. */
  function Gathered(fetch: nat -> PageResponse, n: nat): seq<Item>
    decreases n
  {
    if n == 0 then [] else Gathered(fetch, n - 1) + PageItems(fetch((n - 1) * PageSize))
  }

  /** None of the first `n` requests failed. */
  predicate Succeeded(fetch: nat -> PageResponse, n: nat) {
    forall k :: 0 <= k < n ==> fetch(k * PageSize).Page?
  }

  /** The loop test held before each of the first `n` requests. */
  predicate BelowCeilingBefore(fetch: nat -> PageResponse, n: nat) {
    forall m :: 0 <= m < n ==> |Gathered(fetch, m)| < ResultCeiling
  }

  /** What a completed cycle reports: the gathered items, or `None` when a
      request threw, and how many requests were issued. */
  datatype LoopOutcome = LoopOutcome(result: Option<seq<Item>>, requests: nat)

  /** The `while (results.length < 800 && i < 20)` loop from iteration `i`
      with `acc` gathered so far. */
  function Loop(fetch: nat -> PageResponse, i: nat, acc: seq<Item>): (r: LoopOutcome)
    requires i <= MaxPages
    ensures i <= r.requests <= MaxPages
    ensures r.result.Some? ==>
      && acc <= r.result.value
      && (r.requests == MaxPages || |r.result.value| >= ResultCeiling)
    ensures r.result.None? ==> i < r.requests && fetch((r.requests - 1) * PageSize).RequestFailed?
    decreases MaxPages - i
  {
    if |acc| < ResultCeiling && i < MaxPages then
      match fetch(i * PageSize)
      case RequestFailed => LoopOutcome(None, i + 1)
      case Page(_) => Loop(fetch, i + 1, acc + PageItems(fetch(i * PageSize)))
    else
      LoopOutcome(Some(acc), i)
  }

  /** The whole retrieval, which ends as `Describes` says. */
  function FetchAll(fetch: nat -> PageResponse): (r: LoopOutcome)
    ensures Describes(fetch, r)
  {
    LoopSpec(fetch, 0, []);
    Loop(fetch, 0, [])
  }

  /** The loop as the source writes it, recording the offset of every
      request it issues. */
  method FetchPages(fetch: nat -> PageResponse) returns (result: Option<seq<Item>>, offsets: seq<nat>)
    ensures 1 <= |offsets| <= MaxPages
    ensures forall k :: 0 <= k < |offsets| ==> offsets[k] == k * PageSize
    ensures result == FetchAll(fetch).result && |offsets| == FetchAll(fetch).requests
    ensures Describes(fetch, LoopOutcome(result, |offsets|))
  {
    var results: seq<Item> := [];
    var i: nat := 0;
    offsets := [];
    while |results| < ResultCeiling && i < MaxPages
      invariant i <= MaxPages
      invariant |offsets| == i
      invariant forall k :: 0 <= k < i ==> offsets[k] == k * PageSize
      invariant Loop(fetch, i, results) == FetchAll(fetch)
      invariant i == 0 ==> results == []
      decreases MaxPages - i
    {
      var response := fetch(i * PageSize);
      offsets := offsets + [i * PageSize];
      if response.RequestFailed? {
        return None, offsets;
      }
      results := results + PageItems(response);
      i := i + 1;
    }
    result := Some(results);
  }

  /** The characterisation of a completed retrieval: between 1 and 20
      requests; success exactly when none of them failed, with the
      concatenation of their items in request order, stopping at the first
      point where 800 results were reached or 20 requests were made; on
      failure the last request issued is the one that failed, and every
      earlier one succeeded. */
  predicate Describes(fetch: nat -> PageResponse, o: LoopOutcome) {
    && 1 <= o.requests <= MaxPages
    && BelowCeilingBefore(fetch, o.requests)
    && (o.result.Some? <==> Succeeded(fetch, o.requests))
    && (o.result.Some? ==>
          && o.result.value == Gathered(fetch, o.requests)
          && (o.requests == MaxPages || |o.result.value| >= ResultCeiling))
    && (o.result.None? ==>
          && Succeeded(fetch, o.requests - 1)
          && fetch((o.requests - 1) * PageSize).RequestFailed?)
  }

  /** The loop from iteration `i` onwards, given that it reached `i` with
      every earlier request successful. */
  lemma {:induction false} LoopSpec(fetch: nat -> PageResponse, i: nat, acc: seq<Item>)
    requires i <= MaxPages
    requires acc == Gathered(fetch, i)
    requires Succeeded(fetch, i) && BelowCeilingBefore(fetch, i)
    ensures i <= Loop(fetch, i, acc).requests
    ensures Describes(fetch, Loop(fetch, i, acc))
    decreases MaxPages - i
  {
    if |acc| < ResultCeiling && i < MaxPages {
      var response := fetch(i * PageSize);
      if response.Page? {
        var acc' := acc + PageItems(response);
        assert acc' == Gathered(fetch, i + 1);
        assert BelowCeilingBefore(fetch, i + 1);
        assert Succeeded(fetch, i + 1);
        LoopSpec(fetch, i + 1, acc');
      }
    }
  }

  /** A page without items adds nothing but still costs a request: when no
      page has items, the loop makes all 20 requests and returns nothing. */
  lemma {:induction false} EmptyPagesUseEveryRequest(fetch: nat -> PageResponse)
    requires forall offset: nat :: fetch(offset) == Page(None)
    ensures FetchAll(fetch) == LoopOutcome(Some([]), MaxPages)
  {
    forall n: nat ensures Gathered(fetch, n) == [] {
      GatheredNothing(fetch, n);
    }
  }

  lemma {:induction false} GatheredNothing(fetch: nat -> PageResponse, n: nat)
    requires forall offset: nat :: fetch(offset) == Page(None)
    ensures Gathered(fetch, n) == []
    decreases n
  {
    if n > 0 {
      GatheredNothing(fetch, n - 1);
    }
  }
}
