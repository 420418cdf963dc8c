/** The to-do item entity. */
module Items {
  import opened Wrappers
  import opened Annotations

  /**
   * A to-do item. `id` is the store key; `dueDate` is the day number of the
   * due date (its `.Date`, time of day dropped). `title` is `None` for `null`.
   */
  datatype Item = Item(id: int, title: Option<string>, priority: int, progress: int, dueDate: int)

  /** The annotations of the entity: a required title of at most 100 characters, priority 1..5, progress 0..100. */
  predicate Valid(item: Item)
    ensures Valid(item) ==> item.title.Some? && 1 <= |item.title.value| <= 100
    ensures item.title.Some? && (forall k :: 0 <= k < |item.title.value| ==> IsWhiteSpace(item.title.value[k])) ==> !Valid(item)
  {
    && Required(item.title)
    && MaxLength(item.title, 100)
    && InRange(item.priority, 1, 5)
    && InRange(item.progress, 0, 100)
  }

  /** Progress above 99: both maintenance sweeps treat such an item as finished. */
  predicate Finished(item: Item)
  {
    item.progress > 99
  }
}
