/**
 * The item resource: list, fetch, replace, create and delete, over the
 * repository. An action marked for model validation answers
 * `InvalidModelState` without running when its bound argument fails its
 * annotations.
 */
module ItemsControllers {
  import opened Wrappers
  import opened Items
  import opened CreateItemRequests
  import opened CreateItemRequestExtension
  import opened Repository
  import opened ActionResults

  class ItemsController {
    const repository: ItemRepository

    constructor (repository: ItemRepository)
      ensures this.repository == repository
    {
      this.repository := repository;
    }

    /** `GET api/items`: every stored item. */
    method Get() returns (r: ActionResult)
      requires repository.Valid()
      ensures r.OkItems? && IsSnapshot(r.items, repository.items)
    {
      var items := repository.List();
      r := OkItems(items);
    }

    /** `GET api/items/{id}`: the item stored under `id`, or 404. */
    method GetById(id: int) returns (r: ActionResult)
      requires repository.Valid()
      ensures r == NotFound <==> id !in repository.items
      ensures id in repository.items ==> r == OkItem(repository.items[id])
    {
      var item := repository.Find(id);
      r := if item.None? then NotFound else OkItem(item.value);
    }

    /** `PUT api/items`: overwrite the stored item with `item`'s id, 204; 404 when there is none. */
    method Put(item: Item) returns (r: ActionResult)
      requires repository.Valid()
      modifies repository
      ensures repository.Valid()
      ensures !Items.Valid(item) ==> r == InvalidModelState && repository.items == old(repository.items)
      ensures Items.Valid(item) && item.id !in old(repository.items) ==>
                r == NotFound && repository.items == old(repository.items)
      ensures Items.Valid(item) && item.id in old(repository.items) ==>
                r == NoContent && repository.items == old(repository.items)[item.id := item]
    {
      if !Items.Valid(item) {
        return InvalidModelState;
      }
      var updated := repository.Update(item);
      r := if updated.None? then NotFound else NoContent;
    }

    /**
     * `POST api/items`: store the item made from `request` under a fresh
     * id, 201 with that id as the route; the stored item passes the item's
     * own annotations.
     */
    method Post(request: CreateItemRequest) returns (r: ActionResult)
      requires repository.Valid()
      modifies repository
      ensures repository.Valid()
      ensures !CreateItemRequests.Valid(request) ==> r == InvalidModelState && repository.items == old(repository.items)
      ensures CreateItemRequests.Valid(request) ==>
                && r.Created? && r.routeId == r.item.id
                && r.item.id != 0 && r.item.id !in old(repository.items)
                && r.item == ToItem(request).(id := r.item.id)
                && Items.Valid(r.item)
                && repository.items == old(repository.items)[r.item.id := r.item]
    {
      if !CreateItemRequests.Valid(request) {
        return InvalidModelState;
      }
      var item := repository.Add(ToItem(request));
      ToItemValid(request);
      r := Created(item.id, item);
    }

    /** `DELETE api/items/{id}`: remove the item stored under `id` and return it; 404 when there is none. */
    method Delete(id: int) returns (r: ActionResult)
      requires repository.Valid()
      modifies repository
      ensures repository.Valid()
      ensures id !in old(repository.items) ==> r == NotFound && repository.items == old(repository.items)
      ensures id in old(repository.items) ==>
                r == OkItem(old(repository.items)[id]) && repository.items == old(repository.items) - {id}
    {
      var item := repository.Find(id);
      if item.None? {
        return NotFound;
      }
      var removed := repository.Remove(item.value);
      r := OkItem(item.value);
    }
  }

  /** What a client sees across requests: a created item can be fetched by its route id, and is gone once deleted. */
  method CreateFetchDelete(controller: ItemsController, request: CreateItemRequest)
    requires controller.repository.Valid() && CreateItemRequests.Valid(request)
    modifies controller.repository
  {
    var created := controller.Post(request);
    var fetched := controller.GetById(created.routeId);
    assert fetched == OkItem(created.item);
    var deleted := controller.Delete(created.routeId);
    assert deleted == OkItem(created.item);
    fetched := controller.GetById(created.routeId);
    assert fetched == NotFound;
    deleted := controller.Delete(created.routeId);
    assert deleted == NotFound;
  }
}
