/**
 * The collector: a background loop that, once per sweep, reads the whole
 * table and removes every finished item whose priority is above the
 * configured threshold.
 */
module TaskCollector {
  import opened Wrappers
  import opened Items
  import opened Repository
  import opened Configuration

  /** The sweep's filter: priority strictly above the threshold and progress above 99. */
  predicate Collectable(item: Item, threshold: int)
    ensures Collectable(item, threshold) ==> item.progress >= 100 && item.priority >= threshold + 1
  {
    item.priority > threshold && Finished(item)
  }

  /** The table after one sweep: what is left once every collectable entry is gone. */
  function Collected(m: map<int, Item>, threshold: int): (r: map<int, Item>)
    ensures r.Keys <= m.Keys
    ensures forall id :: id in r ==> r[id] == m[id] && !Collectable(r[id], threshold)
  {
    map id | id in m && !Collectable(m[id], threshold) :: m[id]
  }

  /** An entry is removed exactly when it is collectable; nothing else is touched. */
  lemma CollectedRemovesExactly(m: map<int, Item>, threshold: int, id: int)
    requires id in m
    ensures id !in Collected(m, threshold) <==> Collectable(m[id], threshold)
  {
  }

  /** Unfinished items always survive, whatever their priority and the threshold. */
  lemma UnfinishedSurvive(m: map<int, Item>, threshold: int)
    ensures forall id :: id in m && !Finished(m[id]) ==> id in Collected(m, threshold)
  {
  }

  /** A second sweep over an unchanged table removes nothing more. */
  lemma CollectedIdempotent(m: map<int, Item>, threshold: int)
    ensures Collected(Collected(m, threshold), threshold) == Collected(m, threshold)
  {
  }

  /** A higher threshold keeps at least what a lower one keeps. */
  lemma ThresholdMonotone(m: map<int, Item>, low: int, high: int)
    requires low <= high
    ensures Collected(m, low).Keys <= Collected(m, high).Keys
  {
    forall id | id in Collected(m, low)
      ensures id in Collected(m, high)
    {
      assert !Collectable(m[id], high);
    }
  }

  /** With the largest threshold the options allow, a table of valid items is left as it is. */
  lemma HighestThresholdKeepsValidItems(m: map<int, Item>)
    requires forall id :: id in m ==> Items.Valid(m[id])
    ensures Collected(m, 5) == m
  {
    forall id | id in m
      ensures id in Collected(m, 5)
    {
      assert !Collectable(m[id], 5);
    }
  }

  /**
   * With the default threshold 1, a finished item of priority 1 is kept:
   * a sweep does not remove every item with progress 100.
   */
  lemma FinishedPriorityOneKept(title: string, dueDate: int)
    ensures var m := map[1 := Item(1, Some(title), 1, 100, dueDate), 2 := Item(2, Some(title), 2, 100, dueDate)];
            Collected(m, Default().minPriorityThreshold) == map[1 := m[1]]
  {
    var m := map[1 := Item(1, Some(title), 1, 100, dueDate), 2 := Item(2, Some(title), 2, 100, dueDate)];
    assert Collectable(m[2], 1);
  }

  /**
   * One sweep: read every item, then remove each one that is collectable.
   * The table ends up as `Collected` of the table the sweep started from.
   */
  method Sweep(repository: ItemRepository, options: TaskCollectorOptions)
    requires repository.Valid() && Configuration.Valid(options)
    modifies repository
    ensures repository.Valid() && repository.nextId == old(repository.nextId)
    ensures repository.items == Collected(old(repository.items), options.minPriorityThreshold)
  {
    var threshold := options.minPriorityThreshold;
    var items := repository.List();
    ghost var before := repository.items;
    var i := 0;
    while i < |items|
      invariant 0 <= i <= |items|
      invariant repository.Valid() && repository.nextId == old(repository.nextId)
      invariant repository.items.Keys <= before.Keys
      invariant forall id :: id in repository.items ==> repository.items[id] == before[id]
      invariant forall j :: 0 <= j < i ==> (items[j].id in repository.items <==> !Collectable(items[j], threshold))
      invariant forall j :: i <= j < |items| ==> items[j].id in repository.items
    {
      if Collectable(items[i], threshold) {
        var removed := repository.Remove(items[i]);
      }
      i := i + 1;
    }
    forall id | id in before
      ensures id in repository.items <==> !Collectable(before[id], threshold)
    {
      var j :| 0 <= j < |items| && items[j].id == id;
    }
    assert repository.items.Keys == Collected(before, threshold).Keys;
    assert forall id :: id in repository.items ==> repository.items[id] == Collected(before, threshold)[id];
  }

  /**
   * The background loop: sweep until cancellation is requested.
   * `cancellation[k]` is whether cancellation has been requested when the
   * loop tests it for the k-th time; `sweeps` is the number of sweeps run.
   */
  method Execute(repository: ItemRepository, options: TaskCollectorOptions, cancellation: seq<bool>)
    returns (sweeps: nat)
    requires repository.Valid() && Configuration.Valid(options) && true in cancellation
    modifies repository
    ensures sweeps < |cancellation| && cancellation[sweeps]
    ensures forall k :: 0 <= k < sweeps ==> !cancellation[k]
    ensures repository.Valid()
    ensures sweeps == 0 ==> repository.items == old(repository.items)
    ensures sweeps > 0 ==> repository.items == Collected(old(repository.items), options.minPriorityThreshold)
  {
    sweeps := 0;
    while !cancellation[sweeps]
      invariant sweeps < |cancellation| && true in cancellation[sweeps..]
      invariant forall k :: 0 <= k < sweeps ==> !cancellation[k]
      invariant repository.Valid()
      invariant sweeps == 0 ==> repository.items == old(repository.items)
      invariant sweeps > 0 ==> repository.items == Collected(old(repository.items), options.minPriorityThreshold)
      decreases |cancellation| - sweeps
    {
      Sweep(repository, options);
      if sweeps > 0 {
        CollectedIdempotent(old(repository.items), options.minPriorityThreshold);
      }
      assert cancellation[sweeps..] == [cancellation[sweeps]] + cancellation[sweeps + 1..];
      sweeps := sweeps + 1;
    }
  }
}
