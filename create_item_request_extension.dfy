/** Mapping a create request to a new entity. */
module CreateItemRequestExtension {
  import opened Items
  import opened CreateItemRequests

  /** `ToItem`: copies the four request fields; `Id` stays at its default 0. */
  function ToItem(request: CreateItemRequest): (item: Item)
    ensures item.id == 0
    ensures item.title == request.title && item.progress == request.progress
    ensures item.dueDate == request.dueDate && item.priority == request.priority
  {
    Item(0, request.title, request.priority, request.progress, request.dueDate)
  }

  /** A request passes validation exactly when the item made from it does. */
  lemma ToItemValid(request: CreateItemRequest)
    ensures CreateItemRequests.Valid(request) <==> Items.Valid(ToItem(request))
  {
  }
}
