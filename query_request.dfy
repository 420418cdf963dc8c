/** The body of a query request. */
module QueryRequests {
  import opened Wrappers
  import opened Annotations

  /** Optional filters (dates as day numbers) and a limit that is an `int`, so it is 0 when the body omits it. */
  datatype QueryRequest = QueryRequest(
    name: Option<string>,
    progressFrom: Option<int>,
    progressTo: Option<int>,
    dueDateFrom: Option<int>,
    dueDateTo: Option<int>,
    limit: int)

  /**
   * Name of at most 100 characters, progress bounds in 0..100 when present,
   * limit in 1..int.MaxValue (`[Required]` on an `int` holds of every value).
   */
  predicate Valid(request: QueryRequest)
    ensures Valid(request) ==> 1 <= request.limit && (request.name.None? || |request.name.value| <= 100)
    ensures request.progressFrom == Some(Int32Min) || request.progressTo == Some(Int32Max) ==> !Valid(request)
  {
    && MaxLength(request.name, 100)
    && InRangeOrNull(request.progressFrom, 0, 100)
    && InRangeOrNull(request.progressTo, 0, 100)
    && InRange(request.limit, 1, Int32Max)
  }

  /** Every filter may be left out; only the limit has to be given. */
  lemma OnlyLimitRequired(limit: int)
    ensures Valid(QueryRequest(None, None, None, None, None, limit)) <==> 1 <= limit <= Int32Max
  {
  }

  /** Extreme progress bounds and no limit: invalid on every count. */
  lemma ExtremeBoundsWithoutLimitInvalid(name: string, from: int, to: int)
    ensures !Valid(QueryRequest(Some(name), Some(Int32Min), Some(Int32Max), Some(from), Some(to), 0))
    ensures !InRangeOrNull(Some(Int32Min), 0, 100) && !InRangeOrNull(Some(Int32Max), 0, 100)
  {
  }

  /** Nothing orders the bounds: a "from" above the "to" is accepted. */
  lemma BoundsNeedNoOrder(from: int, to: int, limit: int)
    requires 0 <= to < from <= 100 && 1 <= limit <= Int32Max
    ensures Valid(QueryRequest(None, Some(from), Some(to), None, None, limit))
  {
  }
}
