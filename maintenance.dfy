/**
 * How the two background sweeps relate. The host runs both over the same
 * table; whole sweeps of one and of the other can come in either order.
 */
module Maintenance {
  import opened Items
  import opened TaskCollector
  import opened TaskMarker

  /** Marking never changes whether an item is collectable: it touches only unfinished items. */
  lemma MarkedKeepsCollectable(item: Item, today: int, threshold: int)
    ensures Collectable(Marked(item, today), threshold) <==> Collectable(item, threshold)
  {
  }

  /** A collector sweep and a marker sweep give the same table in either order. */
  lemma SweepsCommute(m: map<int, Item>, today: int, threshold: int)
    ensures Collected(MarkAll(m, today), threshold) == MarkAll(Collected(m, threshold), today)
  {
    forall id | id in m
      ensures id in Collected(MarkAll(m, today), threshold) <==> id in Collected(m, threshold)
    {
      MarkedKeepsCollectable(m[id], today, threshold);
    }
    assert Collected(MarkAll(m, today), threshold).Keys == MarkAll(Collected(m, threshold), today).Keys;
  }
}
