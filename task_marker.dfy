/**
 * The marker: a background loop that, once per sweep, reads the whole table
 * and re-prioritises every unfinished item by its due date relative to
 * today. Dates are day numbers (the date part of a `DateTime`).
 */
module TaskMarker {
  import opened Items
  import opened Repository

  /** An item as one sweep leaves it, given today's day number. */
  function Marked(item: Item, today: int): (r: Item)
    ensures r == item.(priority := r.priority)
    ensures Finished(item) ==> r == item
  {
    if Finished(item) then item
    else if item.dueDate < today then item.(priority := 1)
    else if item.dueDate == today then item.(priority := 2)
    else if item.dueDate == today + 1 then item.(priority := 3)
    else item
  }

  /** The priority rules the marker promises for unfinished items. */
  predicate FollowsRules(item: Item, today: int)
  {
    !Finished(item) ==>
      && (item.dueDate < today ==> item.priority == 1)
      && (item.dueDate == today ==> item.priority == 2)
      && (item.dueDate == today + 1 ==> item.priority == 3)
  }

  /**
   * A marked item follows the rules, and marking changes an item only when
   * it does not follow them already.
   */
  lemma MarkedFollowsRules(item: Item, today: int)
    ensures FollowsRules(Marked(item, today), today)
    ensures FollowsRules(item, today) <==> Marked(item, today) == item
  {
  }

  /** For an unfinished item due by tomorrow, the new priority does not depend on the old one. */
  lemma OldPriorityForgotten(item: Item, priority: int, today: int)
    requires !Finished(item) && item.dueDate <= today + 1
    ensures Marked(item, today).priority == Marked(item.(priority := priority), today).priority
  {
  }

  /** Marking keeps an item valid: every priority it assigns is within 1..5. */
  lemma MarkedKeepsValid(item: Item, today: int)
    requires Items.Valid(item)
    ensures Items.Valid(Marked(item, today))
  {
  }

  /** The table after one sweep. */
  function MarkAll(m: map<int, Item>, today: int): (r: map<int, Item>)
    ensures r.Keys == m.Keys
    ensures forall id :: id in r ==> r[id] == m[id].(priority := r[id].priority)
  {
    map id | id in m :: Marked(m[id], today)
  }

  /** After a sweep, every unfinished item follows the rules (what the marker's own tests check). */
  lemma MarkAllFollowsRules(m: map<int, Item>, today: int)
    ensures forall id :: id in MarkAll(m, today) ==> FollowsRules(MarkAll(m, today)[id], today)
  {
    forall id | id in m
      ensures FollowsRules(MarkAll(m, today)[id], today)
    {
      MarkedFollowsRules(m[id], today);
    }
  }

  /** A table of valid items stays valid through a sweep; in particular every priority stays within 1..5. */
  lemma MarkAllKeepsValid(m: map<int, Item>, today: int)
    requires forall id :: id in m ==> Items.Valid(m[id])
    ensures forall id :: id in MarkAll(m, today) ==> Items.Valid(MarkAll(m, today)[id])
  {
    forall id | id in m
      ensures Items.Valid(MarkAll(m, today)[id])
    {
      MarkedKeepsValid(m[id], today);
    }
  }

  /**
   * Priorities stay within 1..5 through a sweep, whatever the other fields
   * hold (the table itself enforces no ranges).
   */
  lemma MarkAllKeepsPriorityRange(m: map<int, Item>, today: int)
    requires forall id :: id in m ==> 1 <= m[id].priority <= 5
    ensures forall id :: id in MarkAll(m, today) ==> 1 <= MarkAll(m, today)[id].priority <= 5
  {
    forall id | id in m
      ensures 1 <= MarkAll(m, today)[id].priority <= 5
    {
      assert MarkAll(m, today)[id] == Marked(m[id], today);
    }
  }

  /** A second sweep on the same day changes nothing. */
  lemma MarkAllIdempotent(m: map<int, Item>, today: int)
    ensures MarkAll(MarkAll(m, today), today) == MarkAll(m, today)
  {
    forall id | id in m
      ensures MarkAll(MarkAll(m, today), today)[id] == MarkAll(m, today)[id]
    {
      MarkedFollowsRules(m[id], today);
    }
  }

  /** The table after one sweep per day of `days`, in order. */
  function MarkRuns(m: map<int, Item>, days: seq<int>): (r: map<int, Item>)
    ensures r.Keys == m.Keys
  {
    if |days| == 0 then m else MarkAll(MarkRuns(m, days[..|days| - 1]), days[|days| - 1])
  }

  /** Any number of sweeps on one and the same day leave the table as a single sweep does. */
  lemma {:induction false} MarkRunsSameDay(m: map<int, Item>, days: seq<int>, today: int)
    requires |days| > 0 && forall k :: 0 <= k < |days| ==> days[k] == today
    ensures MarkRuns(m, days) == MarkAll(m, today)
  {
    if |days| > 1 {
      MarkRunsSameDay(m, days[..|days| - 1], today);
      MarkAllIdempotent(m, today);
    } else {
      assert days[..0] == [];
    }
  }

  /**
   * One sweep: read every item and update the priority of each unfinished
   * one that is overdue, due today or due tomorrow. The table ends up as
   * `MarkAll` of the table the sweep started from.
   */
  method Sweep(repository: ItemRepository, today: int)
    requires repository.Valid()
    modifies repository
    ensures repository.Valid() && repository.nextId == old(repository.nextId)
    ensures repository.items == MarkAll(old(repository.items), today)
  {
    var items := repository.List();
    ghost var before := repository.items;
    var i := 0;
    while i < |items|
      invariant 0 <= i <= |items|
      invariant repository.Valid() && repository.nextId == old(repository.nextId)
      invariant repository.items.Keys == before.Keys
      invariant forall j :: 0 <= j < i ==> repository.items[items[j].id] == Marked(items[j], today)
      invariant forall j :: i <= j < |items| ==> repository.items[items[j].id] == items[j]
    {
      var item := items[i];
      if item.progress <= 99 {
        if item.dueDate < today {
          var updated := repository.Update(item.(priority := 1));
        } else if item.dueDate == today {
          var updated := repository.Update(item.(priority := 2));
        } else if item.dueDate == today + 1 {
          var updated := repository.Update(item.(priority := 3));
        }
      }
      i := i + 1;
    }
    forall id | id in before
      ensures repository.items[id] == MarkAll(before, today)[id]
    {
      var j :| 0 <= j < |items| && items[j].id == id;
    }
  }

  /**
   * The background loop: sweep until cancellation is requested.
   * `cancellation[k]` is whether cancellation has been requested when the
   * loop tests it for the k-th time, and `days[k]` is today's day number
   * during the k-th sweep; `sweeps` is the number of sweeps run.
   */
  method Execute(repository: ItemRepository, cancellation: seq<bool>, days: seq<int>)
    returns (sweeps: nat)
    requires repository.Valid() && true in cancellation && |days| == |cancellation|
    modifies repository
    ensures sweeps < |cancellation| && cancellation[sweeps]
    ensures forall k :: 0 <= k < sweeps ==> !cancellation[k]
    ensures repository.Valid()
    ensures repository.items == MarkRuns(old(repository.items), days[..sweeps])
  {
    sweeps := 0;
    while !cancellation[sweeps]
      invariant sweeps < |cancellation| && true in cancellation[sweeps..]
      invariant forall k :: 0 <= k < sweeps ==> !cancellation[k]
      invariant repository.Valid()
      invariant repository.items == MarkRuns(old(repository.items), days[..sweeps])
      decreases |cancellation| - sweeps
    {
      Sweep(repository, days[sweeps]);
      assert days[..sweeps + 1][..sweeps] == days[..sweeps];
      assert cancellation[sweeps..] == [cancellation[sweeps]] + cancellation[sweeps + 1..];
      sweeps := sweeps + 1;
    }
  }
}
