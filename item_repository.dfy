/**
 * The item store: the repository over the item table, with the table as a
 * map from id to item and the identity generator as a counter.
 */
module Repository {
  import opened Wrappers
  import opened Items

  /**
   * `s` lists the items of `m`, each exactly once, in some order: what a
   * read of the whole table returns.
   */
  ghost predicate IsSnapshot(s: seq<Item>, m: map<int, Item>)
  {
    && (forall j :: 0 <= j < |s| ==> s[j].id in m && m[s[j].id] == s[j])
    && (forall id :: id in m ==> exists j :: 0 <= j < |s| && s[j].id == id)
    && (forall j, k :: 0 <= j < k < |s| ==> s[j].id != s[k].id)
  }

  /** Some element of a non-empty set of keys (the table enumerates its rows in no promised order). */
  method AnyKey(keys: set<int>) returns (key: int)
    requires keys != {}
    ensures key in keys
  {
    if forall k :: k !in keys {
      assert false;
    }
    key :| key in keys;
  }

  class ItemRepository {
    /** The item table, keyed by `Id`. */
    var items: map<int, Item>
    /** Next value of the table's identity column. */
    var nextId: int

    /** Every entry is stored under its own id, and ids are positive and below the next identity value. */
    ghost predicate Valid()
      reads this
    {
      && 0 < nextId
      && forall id :: id in items ==> 0 < id < nextId && items[id].id == id
    }

    constructor ()
      ensures Valid() && items == map[]
    {
      items := map[];
      nextId := 1;
    }

    /** `List`: every stored item, each once, in no promised order. */
    method List() returns (snapshot: seq<Item>)
      requires Valid()
      ensures IsSnapshot(snapshot, items)
    {
      snapshot := [];
      var pending := items.Keys;
      while pending != {}
        invariant pending <= items.Keys
        invariant forall j :: 0 <= j < |snapshot| ==>
                    snapshot[j].id in items && snapshot[j].id !in pending && items[snapshot[j].id] == snapshot[j]
        invariant forall id :: id in items && id !in pending ==> exists j :: 0 <= j < |snapshot| && snapshot[j].id == id
        invariant forall j, k :: 0 <= j < k < |snapshot| ==> snapshot[j].id != snapshot[k].id
        decreases pending
      {
        var key := AnyKey(pending);
        ghost var before := snapshot;
        snapshot := snapshot + [items[key]];
        pending := pending - {key};
        forall other | other in items && other !in pending
          ensures exists j :: 0 <= j < |snapshot| && snapshot[j].id == other
        {
          if other == key {
            assert snapshot[|before|].id == other;
          } else {
            var j :| 0 <= j < |before| && before[j].id == other;
            assert snapshot[j].id == other;
          }
        }
      }
    }

    /** `Find`: the item stored under `id`, or `None` (null) when there is none. */
    method Find(id: int) returns (r: Option<Item>)
      requires Valid()
      ensures r.Some? <==> id in items
      ensures r.Some? ==> r.value.id == id && r.value == items[id]
    {
      r := if id in items then Some(items[id]) else None;
    }

    /**
     * `Update`: when an item is stored under `item.id`, overwrite its title,
     * progress, due date and priority and return it; otherwise return `None`
     * and change nothing.
     */
    method Update(item: Item) returns (r: Option<Item>)
      requires Valid()
      modifies this
      ensures Valid() && nextId == old(nextId)
      ensures r.None? <==> item.id !in old(items)
      ensures r.None? ==> items == old(items)
      ensures r.Some? ==> r.value == item && items == old(items)[item.id := item]
    {
      var saved := Find(item.id);
      if saved.None? {
        return None;
      }
      var updated := saved.value.(title := item.title, progress := item.progress,
                                  dueDate := item.dueDate, priority := item.priority);
      items := items[item.id := updated];
      r := Some(updated);
    }

    /** `Add`: store `item` under a fresh, non-zero id from the identity column, ignoring its own id. */
    method Add(item: Item) returns (r: Item)
      requires Valid()
      modifies this
      ensures Valid()
      ensures r.id != 0 && r.id !in old(items)
      ensures r == item.(id := r.id)
      ensures items == old(items)[r.id := r]
    {
      r := item.(id := 0);
      r := r.(id := nextId);
      nextId := nextId + 1;
      items := items[r.id := r];
    }

    /** `Remove`: delete the entry stored under `item.id` and hand the item back. */
    method Remove(item: Item) returns (r: Item)
      requires Valid() && item.id in items
      modifies this
      ensures Valid() && nextId == old(nextId)
      ensures r == item
      ensures items == old(items) - {item.id}
    {
      items := items - {item.id};
      r := item;
    }
  }

  /** The repository accepts any field values: an item with priority 0 can be stored and updated. */
  method UpdateStoresUncheckedFields()
  {
    var repository := new ItemRepository();
    var seeded := repository.Add(Item(0, Some("Original"), 0, 0, 0));
    assert !Items.Valid(seeded);
    var updated := repository.Update(Item(seeded.id, Some("Updated"), 5, 100, 1000));
    assert updated == Some(Item(seeded.id, Some("Updated"), 5, 100, 1000));
    var found := repository.Find(seeded.id);
    assert found == updated;
    var removed := repository.Remove(updated.value);
    found := repository.Find(seeded.id);
    assert found.None?;
  }
}
