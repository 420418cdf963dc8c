/** The body of a create request. */
module CreateItemRequests {
  import opened Wrappers
  import opened Annotations

  /** Property initialiser of `Priority`: the value a body that omits it gets. */
  const DefaultPriority: int := 5

  datatype CreateItemRequest = CreateItemRequest(title: Option<string>, priority: int, progress: int, dueDate: int)

  /** Required title of at most 100 characters, priority 1..5, progress 0..100; the due date is free. */
  predicate Valid(request: CreateItemRequest)
    ensures Valid(request) ==> request.title.Some? && 1 <= |request.title.value| <= 100
    ensures request.title.Some? && (forall k :: 0 <= k < |request.title.value| ==> IsWhiteSpace(request.title.value[k])) ==> !Valid(request)
  {
    && Required(request.title)
    && MaxLength(request.title, 100)
    && InRange(request.priority, 1, 5)
    && InRange(request.progress, 0, 100)
  }

  /**
   * The request bound from a body that leaves `Priority` out: it takes the
   * initialiser 5, which the range accepts, so validity rests on the other fields.
   */
  function OmittingPriority(title: Option<string>, progress: int, dueDate: int): (r: CreateItemRequest)
    ensures r.priority == 5 && r.title == title && r.progress == progress && r.dueDate == dueDate
    ensures Valid(r) <==> Required(title) && MaxLength(title, 100) && InRange(progress, 0, 100)
  {
    CreateItemRequest(title, DefaultPriority, progress, dueDate)
  }

  /** The due date never makes a request invalid. */
  lemma DueDateUnconstrained(request: CreateItemRequest, dueDate: int)
    ensures Valid(request) <==> Valid(request.(dueDate := dueDate))
  {
  }
}
