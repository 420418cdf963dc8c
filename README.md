# To-do API core, modelled in Dafny

This project models the logic of a small ASP.NET to-do API, plus the
week-one command-line factoriser kept in the same repository.

- **Items.** An item has an id, a title, a priority, a progress and a due
  date. Data annotations make it valid when:
  - the title is present, not blank, and at most 100 characters long;
  - the priority is in 1..5;
  - the progress is in 0..100.

  An item is *finished* once its progress is above 99. Module `Items` holds
  this. The annotations are modelled once, in `Annotations`.
- **The item store.** `Repository.ItemRepository` is a class holding the
  table as `map<int, Item>` keyed by id, plus the next identity value.
  - `List` builds a snapshot of the table with a loop.
  - `Find` looks an item up.
  - `Update` overwrites title, progress, due date and priority of a stored
    item, or reports that none exists.
  - `Add` stores an item under a fresh id.
  - `Remove` deletes an entry.
- **Two background sweeps** over the store, each re-run until cancellation
  is requested:
  - The *collector* removes every finished item whose priority is above the
    configured threshold. See `TaskCollector`; the options are in
    `Configuration`.
  - The *marker* sets the priority of every unfinished item: 1 when overdue,
    2 when due today, 3 when due tomorrow. See `TaskMarker`.

  Each sweep is a method over the repository. It is proved to leave the
  table equal to a function of the table it started from (`Collected`,
  `MarkAll`). Properties are proved about those functions:
  - exactly the matching entries are removed or changed;
  - only the priority changes;
  - each sweep is idempotent;
  - the collector threshold is monotone;
  - the marker keeps items valid;
  - the two sweeps commute (`Maintenance`).
- **The controllers.**
  - `ItemsControllers.ItemsController` lists, fetches, replaces, creates and
    deletes items. Before `Put` and `Post` run, their argument is checked
    against its annotations.
  - `QueryControllers` answers searches by query body and by priority. The
    searches themselves are passed in as functions.
  - Results are the `ActionResults.ActionResult` datatype.
- **The factoriser** (`Factorization`).
  - `WheelFactorization` is the nested-loop method. It is proved equal to a
    recursive specification `Factors` that mirrors the loops.
  - About `Factors`, the model proves that the factors multiply back to the
    input, come out sorted with the twos first, and are all at least 2.
  - The loop bound `i * i < number` is strict. So for an odd prime `q`,
    `q * q` comes back as the single factor `[q * q]` (9 and 25, for
    instance), and `FactorizeArgumentNumber` then reports it as prime. The
    model keeps this behaviour as written.

Dates are day numbers, that is, the date part of a `DateTime`. "Today" is a
parameter of a sweep.

## Model

| member | source | states |
|---|---|---|
| Items.Valid | TodoApp.API/Data/Item.cs:12-20 | a valid item has a title of 1 to 100 characters, and a title made only of white space is invalid |
| CreateItemRequests.Valid | src/TodoApp.API/Messages/CreateItemRequest.cs:7-15 | a valid create request has a title of 1 to 100 characters, and a title made only of white space is invalid |
| CreateItemRequests.OmittingPriority | src/TodoApp.API/Messages/CreateItemRequest.cs:11-12 | a body that omits `Priority` gets 5, which the range accepts, so such a request is valid exactly when its title and progress are |
| CreateItemRequests.DueDateUnconstrained | src/TodoApp.API/Messages/CreateItemRequest.cs:17 | changing the due date never changes whether a create request is valid |
| CreateItemRequestExtension.ToItem | src/TodoApp.API/Extensions/CreateItemRequestExtension.cs:8-16 | the new item has id 0 and the request's title, progress, due date and priority |
| CreateItemRequestExtension.ToItemValid | TodoApp.API/Data/Item.cs:12-20 | a create request passes its annotations exactly when the item made from it passes the item's annotations |
| QueryRequests.Valid | src/TodoApp.API/Messages/QueryRequest.cs:8-23 | a valid query has a limit of at least 1 and a name of at most 100 characters when it has one; a progress bound of int.MinValue or int.MaxValue makes it invalid |
| QueryRequests.OnlyLimitRequired | src/TodoApp.API/Messages/QueryRequest.cs:8-23 | a query with every filter absent is valid exactly when its limit is in 1..int.MaxValue |
| QueryRequests.ExtremeBoundsWithoutLimitInvalid | src/TodoApp.API/Messages/QueryRequest.cs:11-23 | progress bounds int.MinValue and int.MaxValue each fail the range, and a query with them and no limit is invalid |
| QueryRequests.BoundsNeedNoOrder | src/TodoApp.API/Messages/QueryRequest.cs:11-15 | a query whose "from" progress exceeds its "to" progress is still valid |
| Configuration.Valid | src/TodoApp.API/Configuration/TaskCollectorOptions.cs:9-10 | the options are valid exactly when the threshold is within 1..5 |
| Configuration.RegisteredServices | src/TodoApp.API/Program.cs:20-22 | both the collector and the marker are registered as hosted services |
| Configuration.Default | src/TodoApp.API/Configuration/TaskCollectorOptions.cs:7-10 | unset options mean the collector flag is off, the sweep interval is 5000 and the threshold is 1, which is within the valid range |
| Configuration.EnableFlagIgnored | src/TodoApp.API/Program.cs:21-22 | both hosted services are registered whatever the enable flag says |
| Repository.ItemRepository.List | src/TodoApp.API/Data/ItemRepository.cs:14-17 | the result lists every stored item exactly once and nothing else |
| Repository.ItemRepository.Find | src/TodoApp.API/Data/ItemRepository.cs:19-22 | the item stored under the id, or none exactly when the id is absent |
| Repository.ItemRepository.Update | src/TodoApp.API/Data/ItemRepository.cs:24-39 | an absent id gives none and leaves the table as it was; a present id gets the new title, progress, due date and priority, and the stored item is returned; no other entry changes |
| Repository.ItemRepository.Add | src/TodoApp.API/Data/ItemRepository.cs:41-47 | the item's own id is ignored; it is stored under a fresh non-zero id and returned with that id; no other entry changes |
| Repository.ItemRepository.Remove | src/TodoApp.API/Data/ItemRepository.cs:49-54 | the entry is gone, every other entry is kept, and the item is returned |
| TaskCollector.Collectable | src/TodoApp.API/HostedServices/TaskCollector.cs:31 | a collectable item has progress 100 or more and a priority above the threshold |
| TaskCollector.Collected | src/TodoApp.API/HostedServices/TaskCollector.cs:31-34 | a sweep only removes: every surviving entry is unchanged and none of them is collectable |
| TaskCollector.CollectedRemovesExactly | src/TodoApp.API/HostedServices/TaskCollector.cs:31 | an entry is removed exactly when its priority is above the threshold and its progress is above 99 |
| TaskCollector.UnfinishedSurvive | src/TodoApp.API/HostedServices/TaskCollector.cs:31 | items with progress at most 99 are never removed |
| TaskCollector.CollectedIdempotent | src/TodoApp.API/HostedServices/TaskCollector.cs:29-34 | a second sweep with the same threshold removes nothing more |
| TaskCollector.ThresholdMonotone | src/TodoApp.API/HostedServices/TaskCollector.cs:31 | raising the threshold never removes more |
| TaskCollector.HighestThresholdKeepsValidItems | src/TodoApp.API/HostedServices/TaskCollector.cs:31 | with threshold 5, a table of valid items loses nothing |
| TaskCollector.FinishedPriorityOneKept | src/TodoApp.API/HostedServices/TaskCollector.cs:31 | with the default threshold, a finished item of priority 1 stays while one of priority 2 goes |
| TaskCollector.Sweep | src/TodoApp.API/HostedServices/TaskCollector.cs:26-35 | the table afterwards is `Collected` of the table before; the identity counter is untouched |
| TaskCollector.Execute | src/TodoApp.API/HostedServices/TaskCollector.cs:22-39 | sweeps run until the first requested cancellation; none starts after it; the table is left unchanged if there were no sweeps, otherwise as after one sweep |
| TaskMarker.Marked | src/TodoApp.API/HostedServices/TaskMarker.cs:29-46 | marking changes only the priority, and never touches a finished item |
| TaskMarker.MarkedFollowsRules | src/TodoApp.API/HostedServices/TaskMarker.cs:29-46 | a marked unfinished item has priority 1 when overdue, 2 when due today and 3 when due tomorrow; marking changes an item exactly when it breaks those rules |
| TaskMarker.OldPriorityForgotten | src/TodoApp.API/HostedServices/TaskMarker.cs:31-45 | for an unfinished item due by tomorrow, the new priority does not depend on the old one |
| TaskMarker.MarkedKeepsValid | src/TodoApp.API/HostedServices/TaskMarker.cs:33-43 | a valid item stays valid once marked |
| TaskMarker.MarkAll | src/TodoApp.API/HostedServices/TaskMarker.cs:27-46 | a sweep keeps the key set, and each entry keeps everything but its priority |
| TaskMarker.MarkAllFollowsRules | src/TodoApp.API/HostedServices/TaskMarker.cs:29-46 | after a sweep every unfinished item follows the three due-date rules |
| TaskMarker.MarkAllKeepsValid | src/TodoApp.API/HostedServices/TaskMarker.cs:29-46 | if every item was valid before a sweep (priority in 1..5 among the rest), every item is valid after it |
| TaskMarker.MarkAllKeepsPriorityRange | src/TodoApp.API/HostedServices/TaskMarker.cs:33-43 | if every priority was within 1..5 before a sweep, every priority is within 1..5 after it, whatever the other fields hold |
| TaskMarker.MarkAllIdempotent | src/TodoApp.API/HostedServices/TaskMarker.cs:29-46 | a second sweep on the same day changes nothing |
| TaskMarker.MarkRuns | src/TodoApp.API/HostedServices/TaskMarker.cs:22-50 | any run of sweeps keeps the key set |
| TaskMarker.MarkRunsSameDay | src/TodoApp.API/HostedServices/TaskMarker.cs:22-50 | several sweeps on the same day give the table one sweep gives |
| TaskMarker.Sweep | src/TodoApp.API/HostedServices/TaskMarker.cs:24-47 | the table afterwards is `MarkAll` of the table before, for that day |
| TaskMarker.Execute | src/TodoApp.API/HostedServices/TaskMarker.cs:20-51 | sweeps run until the first requested cancellation, and the table is the result of one sweep per elapsed tick, each on that tick's day |
| Maintenance.MarkedKeepsCollectable | src/TodoApp.API/HostedServices/TaskMarker.cs:29 | marking never changes whether an item is collectable |
| Maintenance.SweepsCommute | src/TodoApp.API/HostedServices/TaskCollector.cs:31 | collecting then marking gives the same table as marking then collecting |
| ItemsControllers.ItemsController.Get | src/TodoApp.API/Controllers/ItemsController.cs:20-24 | 200 with every stored item exactly once |
| ItemsControllers.ItemsController.GetById | src/TodoApp.API/Controllers/ItemsController.cs:26-31 | 404 exactly when the id is absent, otherwise 200 with the stored item |
| ItemsControllers.ItemsController.Put | src/TodoApp.API/Controllers/ItemsController.cs:33-39 | an invalid item gives 400 with no change; for a valid item, an absent id gives 404 with no change, and a present id gives 204 with the entry replaced |
| ItemsControllers.ItemsController.Post | src/TodoApp.API/Controllers/ItemsController.cs:41-47 | an invalid request gives 400 with no change; otherwise 201 carrying the stored item, which is `ToItem` of the request under a fresh id, is valid, and whose id is the route id |
| ItemsControllers.ItemsController.Delete | src/TodoApp.API/Controllers/ItemsController.cs:49-60 | an absent id gives 404 with no change; a present id gives 200 with the item it removed |
| QueryControllers.Found | TodoApp.API/Controllers/QueryController.cs:24 | 404 exactly when the search result is empty, otherwise 200 with exactly that result |
| QueryControllers.Post | TodoApp.API/Controllers/QueryController.cs:19-25 | 400 exactly when the body is invalid; for a valid body, 404 exactly when nothing matches, and a 200 carries exactly the matches |
| QueryControllers.Get | TodoApp.API/Controllers/QueryController.cs:27-42 | the priority message exactly when the priority is outside 1..5; the limit message exactly when the priority is fine and the limit is present and below 1; otherwise 404 exactly when nothing matches, or 200 with the matches |
| QueryControllers.RefusalIndependentOfSearch | TodoApp.API/Controllers/QueryController.cs:30-38 | a refused request gets the same answer whatever the search would return |
| QueryControllers.AbsentLimitSearched | TodoApp.API/Controllers/QueryController.cs:35-41 | a missing limit passes the guard, and the search runs with no limit |
| QueryControllers.MissingLimitRefused | TodoApp.API/Controllers/QueryController.cs:20-21 | a body that leaves out the limit is refused |
| Factorization.DivideOut | src/week01.cli/Program.cs:49-53 | the inner loop leaves a remainder between 1 and the number it started from |
| Factorization.TrialFrom | src/week01.cli/Program.cs:47-59 | the candidate loop from `i` on, then the last remainder when it is above 1 (its properties are stated by `TrialFromCorrect` and `TrialFromLast`) |
| Factorization.Factors | src/week01.cli/Program.cs:41-59 | the twos stage followed by the candidate loop from 3 (its properties are stated by `FactorsCorrect`, `TwosFirst` and `OddPrimeSquareIsOneFactor`) |
| Factorization.DivideOutCorrect | src/week01.cli/Program.cs:49-53 | dividing `d` out repeatedly yields only copies of `d`; what is left is no longer divisible by `d`; and the copies times the rest give the input |
| Factorization.TrialFromCorrect | src/week01.cli/Program.cs:47-59 | the odd-candidate stage, from a number with no divisor below its first candidate, yields sorted factors that are at least that candidate and multiply to the number |
| Factorization.TrialFromLast | src/week01.cli/Program.cs:56-59 | once the candidate's square reaches the remainder, the remainder (if above 1) is the last factor |
| Factorization.FactorsCorrect | src/week01.cli/Program.cs:38-61 | for an input of at least 1, the factors multiply back to it, are sorted, and are all at least 2 |
| Factorization.TwosFirst | src/week01.cli/Program.cs:41-54 | every 2 in the result comes before every other factor |
| Factorization.FactorsOfOne | src/week01.cli/Program.cs:38-61 | input 1 gives no factors |
| Factorization.OddSquareSkipped | src/week01.cli/Program.cs:47-54 | for an odd prime `q`, no odd candidate below `q` divides `q * q`, and the loop stops before trying `q` |
| Factorization.OddPrimeSquareIsOneFactor | src/week01.cli/Program.cs:47-59 | for an odd prime `q`, the square of `q` comes back as the single factor `q * q` |
| Factorization.NineAndTwentyFive | src/week01.cli/Program.cs:47-59 | 9 and 25 each come back as one factor |
| Factorization.WheelFactorization | src/week01.cli/Program.cs:38-62 | the loops compute `Factors` of the input, so the result multiplies back to the input, is sorted, and has no factor below 2 |
| Factorization.FactorizeArgumentNumber | src/week01.cli/Program.cs:16-33 | a non-number is rejected and so is a non-positive number; more than one factor is reported as the product, otherwise the number is reported as prime |

## Left out

- The asynchronous hosting machinery is not modelled: `BackgroundService` start and stop, `Task.Delay` between sweeps and the sweep interval. Cancellation is modelled as a sequence of flags that the loop head reads. A cancellation that arrives during the delay ends the loop at the same point.
- Concurrency is not modelled. HTTP handlers and the two sweeps running at the same time, and any lost update between them, are outside the model. Only whole sweeps are related, by `Maintenance.SweepsCommute`.
- Entity Framework Core is replaced by a map. This leaves out change tracking, `SaveChangesAsync`, the in-memory database and the context. Items are values, so the in-place edit of a tracked entity before `Update` is modelled as passing the edited copy.
- Repository.ItemRepository.List: the order of the result is left open, because the table promises no order.
- Repository.ItemRepository.Add: the identity counter is unbounded. It does not model running out of 32-bit ids.
- Repository.ItemRepository.Remove: it requires the id to be present. The sweeps and the controllers only remove entries they have just read.
- `FindByQuery` and `FindByPriority` are inputs of the query actions. The repository that implements them is not part of this model.
- `DateTime` is reduced to day numbers. "Today" is a parameter of each marker sweep, while the source reads the clock afresh for each comparison. A sweep that crosses midnight is not modelled.
- TaskCollector.Sweep, TaskCollector.Execute: they require the threshold to be in 1..5, as the options' annotation declares. The application never validates the options at startup, so a configured threshold outside that range would in fact be used as it is.
- Model binding and JSON are not modelled. The bound request is an input. An omitted query limit binds to 0 and an omitted create priority binds to 5.
- The switch that turns off the model-validation filter is not modelled; validation is always on.
- In the `Required` annotation, whitespace means the ASCII and Latin-1 whitespace characters only. String length counts characters, not UTF-16 code units.
- Factorization.WheelFactorization: integers are unbounded. It does not model 32-bit overflow of `i * i` near `int.MaxValue`.
- Factorization.FactorizeArgumentNumber: the outcome of `int.TryParse` is an input, and the console text is reduced to a `Report` value.
- The test-data generator, the database seeders, the request-body length middleware and the `week02.console` program are not part of this model.
- The collector's integration test expects every item with progress 100 to disappear. The code keeps finished items whose priority is at or below the threshold, so the model follows the code (`TaskCollector.FinishedPriorityOneKept`).
