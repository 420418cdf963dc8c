/** The HTTP results the controllers hand back. */
module ActionResults {
  import opened Items

  datatype ActionResult =
    | OkItems(items: seq<Item>)          // 200 with an array body
    | OkItem(item: Item)                 // 200 with one item
    | Created(routeId: int, item: Item)  // 201, pointing at the item's own route
    | NoContent                          // 204
    | NotFound                           // 404
    | InvalidModelState                  // 400 carrying the model-state errors
    | BadRequest(message: string)        // 400 carrying a message
}
