# Taxi fleet dispatch — a Dafny model

This project models the dispatch core of the taxi fleet console program
(`ConsoleApp20/Program.cs`). It has three parts:

- the `Order` record: client name, destination, VIP flag, assigned flag;
- the `Driver`: `AssignOrder` makes the driver busy and then completes the
  order inline, so the driver is free again when the call returns;
- `TaxiService`: a roster of drivers in registration order and a queue of
  waiting orders. `CreateOrder` enqueues a new order and then runs
  `AssignOrders`. That loop repeats the same pass for as long as a driver is
  free and the queue is not empty:
  1. take the first unassigned order of the queue after a stable VIP-first sort;
  2. give it to the first free driver in roster order;
  3. rebuild the queue from the orders that are still unassigned.

Everything is modelled as pure functions over immutable values. The state is
`Service(drivers, queue)`. Drivers and orders are identified by their
position, not by object identity.

Files and modules:

- `seqs.dfy`: `Options` and `Seqs`. These hold `Option`, an order-preserving
  `Filter` (LINQ `Where`) and `IndicesWhere`, with their lemmas.
- `orders.dfy`: `Orders`, the order record and its constructor.
- `drivers.dfy`: `Drivers`, the driver record, `AssignOrder` and `CompleteOrder`.
- `selection.dfy`: `Selection`. It holds the choice of the next order and of
  the driver that serves it, each in two forms. The first form follows the
  source: the stable VIP-first view of the queue searched for the first
  pending order (`SortedChoice`), and the list of free drivers with its head
  taken (`FirstFree`). The second form is a direct scan (`SelectOrder`,
  `ScanFree`). Both forms are proved to meet an independent statement of
  the rule (`IsNextOrder`, `IsFirstFree`), and lemmas prove that the two
  forms always agree. The pass in `TaxiService` uses the direct scans.
- `taxi_service.dfy`: `TaxiService`. It holds the service state, `AddDriver`,
  one pass of the loop (`AssignStep`), `AssignOrders`, `CreateOrder`, and the
  lemmas about whole runs.
- `scenarios.dfy`: `Scenarios`, two worked runs on concrete states.

`AssignOrders` and `CreateOrder` also return a dispatch trace: one
`Assignment(driver, order)` record per `AssignOrder` call, in dispatch order.
Each record holds the order as it was handed over, still unassigned.

Two consequences of the code are worth stating on their own:

- `AssignOrder` completes the order before it returns
  (`ConsoleApp20/Program.cs:41-55`). The first free driver is therefore free
  again on every pass and receives every order of the run; there is no
  round-robin (`AssignOrdersUsesFirstFree`).
- `AssignOrder` checks neither that the driver is available nor that the
  order is pending, so `Drivers.AssignOrder` has no `requires`.

## Model

| member | source | states |
|---|---|---|
| Orders.NewOrder | ConsoleApp20/Program.cs:20-26 | A new order carries exactly the given client name, destination and VIP flag, and is not yet assigned. |
| Drivers.NewDriver | ConsoleApp20/Program.cs:32-39 | A new driver has the given name and starts out available. |
| Drivers.CompleteOrder | ConsoleApp20/Program.cs:49-55 | Completion leaves the driver available under the same name. The order comes back marked assigned, with its client, destination and VIP flag unchanged. |
| Drivers.AssignOrder | ConsoleApp20/Program.cs:41-47 | After the call the driver is available again and the order is marked assigned, with nothing else about it changed. An available driver comes back exactly as it was, so the busy state exists only inside the call. |
| TaxiService.AddDriver | ConsoleApp20/Program.cs:70-73 | The new driver sits at the end of the roster. Earlier drivers keep their positions and their order, and the queue is untouched. |
| TaxiService.AddDriverKeepsFirstFree | ConsoleApp20/Program.cs:70-73 | Adding a driver never changes which driver is first free, unless no driver was free before. In that case the new driver is first free if it is available, and no driver is free otherwise. |
| Selection.FreeDrivers | ConsoleApp20/Program.cs:86 | Every position on the free list holds an available driver. |
| Selection.FreeDriversExact | ConsoleApp20/Program.cs:86 | The free list holds every available driver, each once, in increasing roster order. |
| Selection.FirstFree | ConsoleApp20/Program.cs:96 | The head of the free list is None exactly when no driver is available. Otherwise it is an available driver with no available driver before it in the roster. |
| Selection.ScanFree | ConsoleApp20/Program.cs:86-96 | A scan from a roster position returns None exactly when no driver from there on is available. Otherwise it returns the first available one from there on. |
| Selection.FirstFreeMatchesScan | ConsoleApp20/Program.cs:86-96 | The head of the source's free list is the driver that a direct scan of the roster finds first. |
| Selection.VipFirst | ConsoleApp20/Program.cs:90-91 | The sorted view lists as many positions as the queue has orders, each a valid queue position. |
| Selection.VipFirstIsStableSort | ConsoleApp20/Program.cs:90-91 | The sorted view contains every queue position. It puts VIP orders before regular ones and keeps queue order within each priority, so it is a stable VIP-first sort. |
| Selection.FirstPending | ConsoleApp20/Program.cs:92 | Returns None exactly when every listed order is assigned. Otherwise it returns the place of a pending order, and every order listed before that place is assigned. |
| Selection.SortedChoice | ConsoleApp20/Program.cs:90-94 | The sort-then-search pipeline returns None exactly when no queued order is pending. Otherwise it returns the earliest pending VIP order if there is one, and the earliest pending order if there is not. |
| Selection.ScanPending | ConsoleApp20/Program.cs:90-92 | A scan for one priority returns None exactly when no order of that priority is pending from the start position on. Otherwise it returns the earliest such pending order. |
| Selection.SelectOrder | ConsoleApp20/Program.cs:90-94 | The direct scan returns None exactly when no queued order is pending. Otherwise it returns the earliest pending VIP order if there is one, and the earliest pending order if there is not. |
| Selection.NextOrderUnique | ConsoleApp20/Program.cs:90-92 | At most one queue position satisfies the selection rule, so the rule fully determines the dispatcher's choice. |
| Selection.SelectOrderMatchesSort | ConsoleApp20/Program.cs:90-94 | The direct scan and the source's sort-then-search pipeline always pick the same order. |
| TaxiService.Rebuild | ConsoleApp20/Program.cs:98 | The rebuilt queue holds only unassigned orders and is no longer than before. |
| TaxiService.RebuildRemovesServed | ConsoleApp20/Program.cs:98 | In a fully pending queue, marking one order assigned and rebuilding removes exactly that order. The remaining orders keep their relative order. |
| TaxiService.ServeFacts | ConsoleApp20/Program.cs:96-98 | Serving an order with an available driver leaves the roster unchanged. The rebuilt queue is strictly shorter, and for a fully pending queue it is the old queue minus the served order. |
| TaxiService.AssignStep | ConsoleApp20/Program.cs:88-99 | A pass happens exactly when some driver is free and some queued order is pending. For a fully pending queue, a pass happens exactly when a driver is free and the queue is non-empty, so the `order == null` break is never reached. The pass serves the order the selection rule picks, using the first free driver. It leaves the roster unchanged, and the queue strictly shorter and fully pending. |
| TaxiService.AssignOrders | ConsoleApp20/Program.cs:84-101 | The loop terminates and returns the roster unchanged. With no free driver it changes nothing. A fully pending queue stays fully pending, and the loop exits with an empty queue or with no free driver. |
| TaxiService.AssignOrdersConserves | ConsoleApp20/Program.cs:88-100 | Start from a fully pending queue. Every order ends up in exactly one of two places: the dispatch log or the queue left behind. None is lost and none is dispatched twice. |
| TaxiService.AssignOrdersUsesFirstFree | ConsoleApp20/Program.cs:96-99 | Every dispatch of a run goes to the first free driver in roster order. There is no round-robin. |
| TaxiService.PassTakesFront | ConsoleApp20/Program.cs:90-98 | For a fully pending queue, the served order is the head of the listing "VIP orders oldest first, then regular orders oldest first". The rest of that listing is the listing of the queue that remains. |
| TaxiService.DispatchOrder | ConsoleApp20/Program.cs:88-100 | Start from a fully pending queue with a driver free. The run empties the queue. It dispatches all VIP orders in insertion order, then all regular orders in insertion order. |
| TaxiService.CreateOrder | ConsoleApp20/Program.cs:75-82 | The roster comes back unchanged. With no free driver, the only change is the new order appended to the queue, and nothing is dispatched. With a free driver and a fully pending queue, the queue ends empty. A fully pending queue stays fully pending. |
| TaxiService.CreateOrderDispatchOrder | ConsoleApp20/Program.cs:75-82 | Start with a driver free. CreateOrder dispatches every VIP order of the queue, the new order included, oldest first. It then dispatches every regular order, oldest first. |
| TaxiService.InitialValid | ConsoleApp20/Program.cs:65-66 | The service as constructed, with no drivers and an empty queue, satisfies the between-calls invariant: no queued order is assigned and every driver is available. |
| TaxiService.ValidPreserved | ConsoleApp20/Program.cs:68-82 | Between calls, no queued order is assigned and every driver is available. AddDriver with a new driver and CreateOrder keep this invariant. After CreateOrder the queue is empty unless the roster is. |
| Scenarios.FirstDriverServes | ConsoleApp20/Program.cs:75-100 | With drivers A and B free, a regular order goes to A. A is free again afterwards and the queue is empty. |
| Scenarios.VipOvertakesEarlierRegular | ConsoleApp20/Program.cs:75-100 | A regular order waits while there is no driver. After a driver joins, a later VIP order is dispatched before the earlier regular order. |

## Left out

- Console output and input are left out: every `Console.WriteLine`, the `Run` menu loop, `ShowDriverStatus`, and the `Main` setup with its UTF-8 output encoding (`ConsoleApp20/Program.cs:103-169`). They hold no dispatch decisions.
- The `OrderCreated` and `OrderAssigned` event invocations are left out, and so is `UnsubscribeEvents`. These are callbacks to subscribers the model cannot see. Nothing subscribes to `OrderAssigned`, and `UnsubscribeEvents` clears it after every completion, so that event delivers nothing. The dispatch trace returned by `AssignOrders` is not a model of either event.
- The C# default `isVip = false` is left out. `Orders.NewOrder` and `TaxiService.CreateOrder` always take the flag explicitly.
- Null references are left out. `AddDriver` accepts a null `Driver` (`ConsoleApp20/Program.cs:70-73`), and the next `AssignOrders` then throws a `NullReferenceException` on `d.IsAvailable` (`ConsoleApp20/Program.cs:86`). That happens after `CreateOrder` has already enqueued the order and raised `OrderCreated`, so from then on every `CreateOrder` throws. A Dafny `Driver` is a value and cannot be null, so this failure path is not modelled.
- Object identity and aliasing of `Order` and `Driver` references are left out. Orders and drivers are values identified by their position in the queue or the roster. Two equal orders in the queue are still distinct entries.
- The first free driver is looked up on every pass. The code builds `freeDrivers` before the loop and rebuilds it at the end of each pass. The two give the same list at the point of each check, because nothing else changes the roster in between.
- `Driver.IsAvailable` is a public setter, so outside code could change a driver's availability between calls. The model has no operation for this. `AddDriver` accepts any driver value, including an unavailable one, and `TaxiService.ValidPreserved` is stated for drivers built by `NewDriver`.
- The program has no concurrency, locking, asynchronous completion, cancellation or input validation, so none is modelled.
