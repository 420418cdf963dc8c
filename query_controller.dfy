/**
 * The query resource: search by a query body or by priority. The searches
 * themselves run in the repository, outside this model, so they are passed
 * in as functions.
 */
module QueryControllers {
  import opened Wrappers
  import opened Items
  import opened QueryRequests
  import opened ActionResults

  const PriorityMessage: string := "Priority has to be an integer between 1 and 5."
  const LimitMessage: string := "Limit cannot be less then 1."

  /** The answer to a search result: 404 when it is empty, otherwise 200 with exactly the items found. */
  function Found(result: seq<Item>): (r: ActionResult)
    ensures r == NotFound <==> |result| == 0
    ensures r != NotFound ==> r == OkItems(result) && |r.items| > 0
  {
    if |result| == 0 then NotFound else OkItems(result)
  }

  /**
   * `POST api/query`: a body that fails its annotations is refused before
   * any search; otherwise the matches of `findByQuery`, or 404.
   */
  function Post(request: QueryRequest, findByQuery: QueryRequest -> seq<Item>): (r: ActionResult)
    ensures r == InvalidModelState <==> !QueryRequests.Valid(request)
    ensures QueryRequests.Valid(request) ==> (r == NotFound <==> |findByQuery(request)| == 0)
    ensures QueryRequests.Valid(request) && |findByQuery(request)| > 0 ==> r == OkItems(findByQuery(request))
  {
    if !QueryRequests.Valid(request) then InvalidModelState else Found(findByQuery(request))
  }

  /**
   * `GET api/query/priority/{priority}?limit=`: a priority outside 1..5 is
   * refused first, then a limit below 1; an absent limit is accepted. Otherwise
   * the matches of `findByPriority`, or 404.
   */
  function Get(priority: int, limit: Option<int>, findByPriority: (int, Option<int>) -> seq<Item>): (r: ActionResult)
    ensures r == BadRequest(PriorityMessage) <==> !(1 <= priority <= 5)
    ensures r == BadRequest(LimitMessage) <==> 1 <= priority <= 5 && limit.Some? && limit.value < 1
    ensures r == BadRequest(PriorityMessage) || r == BadRequest(LimitMessage) || r == NotFound
         || r == OkItems(findByPriority(priority, limit))
    ensures r == NotFound <==> 1 <= priority <= 5 && (limit.None? || limit.value >= 1) && |findByPriority(priority, limit)| == 0
    ensures 1 <= priority <= 5 && (limit.None? || limit.value >= 1) && |findByPriority(priority, limit)| > 0 ==>
              r == OkItems(findByPriority(priority, limit))
  {
    if priority < 1 || priority > 5 then BadRequest(PriorityMessage)
    else if limit.Some? && limit.value <= 0 then BadRequest(LimitMessage)
    else Found(findByPriority(priority, limit))
  }

  /** A refused request never depends on what the search would have found. */
  lemma RefusalIndependentOfSearch(request: QueryRequest, priority: int, limit: Option<int>,
                                   q1: QueryRequest -> seq<Item>, q2: QueryRequest -> seq<Item>,
                                   p1: (int, Option<int>) -> seq<Item>, p2: (int, Option<int>) -> seq<Item>)
    ensures !QueryRequests.Valid(request) ==> Post(request, q1) == Post(request, q2)
    ensures Get(priority, limit, p1).BadRequest? ==> Get(priority, limit, p1) == Get(priority, limit, p2)
  {
  }

  /** A request without a limit is searched with no limit. */
  lemma AbsentLimitSearched(priority: int, findByPriority: (int, Option<int>) -> seq<Item>)
    requires 1 <= priority <= 5 && |findByPriority(priority, None)| > 0
    ensures Get(priority, None, findByPriority) == OkItems(findByPriority(priority, None))
  {
  }

  /** A query body that leaves the limit out (so it binds to 0) is refused, whatever else it says. */
  lemma MissingLimitRefused(request: QueryRequest, findByQuery: QueryRequest -> seq<Item>)
    requires request.limit == 0
    ensures Post(request, findByQuery) == InvalidModelState
  {
  }
}
