# Delivery platform core, modelled in Dafny

This project models the core of a delivery platform. The backend is a Django
application: customers post orders, couriers accept and deliver them, and a
route planner builds a courier's tour. The frontend is a React application
with four pages and dialogs. The model covers:

- **Route planning** (`backend/logistics/optimizer.py`, `backend/logistics/services.py`,
  `backend/orders/optimization.py`):
  - three 0/1 knapsack solvers:
    - a dynamic-programming table;
    - a depth-first branch and bound with a 10000 g cap;
    - a breadth-first branch and bound with a fractional bound;
  - greedy geographic clustering of the pending orders;
  - the choice of the three stores nearest a cluster;
  - two nearest-neighbour tours;
  - the assembly of the stop list of an optimised route, with its totals.
- **The order life cycle** (`backend/orders/views.py`, `backend/orders/models.py`,
  `backend/accounts/models.py`): the five statuses, the weight of an order,
  accept (with the per-order and the total capacity check), status update,
  cancel, and the three order lists.
- **Route activation** (`backend/logistics/views.py`): which routes a user
  sees, the error mapping of route calculation, and activation and
  deactivation with the bulk update of the orders on the route.
- **Sign-up** (`backend/accounts/serializers.py`): the role-dependent
  required fields, the per-field errors, and the forced capacity.
- **Frontend logic**:
  - the customer's basket and its weight;
  - the courier's capacity arithmetic, accept button and expanded rows;
  - the sign-up form predicate, the error-message assembly and the
    authentication gateway;
  - the route list updates and the confirmation dialog of the route page.

Distances and travel times are opaque. A function parameter stands for them:
`dist: (Point, Point) -> real` where the source uses the haversine formula,
and `leg: (Point, Point) -> Leg` (kilometres and minutes) where it asks the
routing service. Floating-point and decimal numbers are exact `real`s. The
database is the class `Tables.Database`, which holds the order and route
tables as sequences with unique keys. The clock is a parameter `now`.

The code is imperative where the source is. The knapsack table is a pair of
`array2`s filled row by row, and the searches and tours are `while` loops.
Request handlers are methods that modify the `Database`. The sign-up
validation walks the four profile fields, and the error assembly walks the
entries of the error body. Pure helpers and the React state updates are
functions.

## Model

| member | source | states |
|---|---|---|
| Common.Strip | backend/accounts/serializers.py:67 | `str.strip()`: the result is empty or neither starts nor ends with white space |
| Common.StripProperties | backend/accounts/serializers.py:67-70 | the stripped text is a slice of the input with only white space cut on either side; it is empty exactly when the input is all white space; stripping twice is stripping once |
| MinBy.MinByList | backend/logistics/optimizer.py:57 | `min(remaining, key=...)` on a list: returns an index whose key is least, and the first such index |
| MinBy.MinBySet | backend/logistics/services.py:136-144 | `min(unvisited, key=...)` on a set: returns a member whose key is least; which one among ties is left open, as set order is |
| Sorting.SortBy | backend/logistics/services.py:113 | `list.sort(key=...)`: the result is sorted by the key and is a permutation of the input |
| Sorting.InsertSorted | backend/logistics/services.py:113 | inserting into a sorted list keeps it sorted, which is the step of the sort's proof |
| Sorting.InsertWithKey | backend/logistics/services.py:113 | inserting into a sorted list places the new element after every element of equal key |
| Sorting.SortByStable | backend/logistics/services.py:113 | the sort is stable: for every key, the elements with that key appear in the result in their input order |
| Sorting.WithKeyPrefix | backend/logistics/services.py:114 | the first elements of a list hold, for each key, a prefix of the elements with that key |
| Optimizer.OrderDistanceKm | backend/logistics/optimizer.py:14-20 | the trip length is not negative for a distance that is not negative, and is never shorter than the direct courier-to-customer leg when the distance obeys the triangle inequality |
| Optimizer.PartialRestaurantIsIgnored | backend/logistics/optimizer.py:17-20 | a restaurant missing either coordinate is ignored: the trip is the direct courier-to-customer distance |
| Optimizer.KnapsackMaxProfit | backend/logistics/optimizer.py:23-48 | no items gives `[]`; the result is a subsequence of the items in their order; its weight is at most `W`; its profit is `dp[n][W]`, and no subset within `W` has more profit |
| Optimizer.FillRow | backend/logistics/optimizer.py:31-39 | filling row `i` makes the `dp` and `keep` cells of that row the best profit and the take decision, and leaves every other row unchanged |
| Optimizer.WalkBack | backend/logistics/optimizer.py:41-48 | walking back from `(n, W)` through `keep` gives the reconstruction of the optimal table |
| Optimizer.ReconIsSubsequence | backend/logistics/optimizer.py:41-48 | the reconstructed list is the items picked by a mask, in input order |
| Optimizer.ReconFeasibleAndBest | backend/logistics/optimizer.py:31-48 | the reconstruction fits in the capacity and its profit is the table's value |
| Optimizer.BestIsOptimal | backend/logistics/optimizer.py:31-39 | every subset of the first `i` items within capacity `w` has at most the table's profit |
| Optimizer.TiesPreferExclusion | backend/logistics/optimizer.py:35-39 | when taking an item only ties with skipping it, the item is skipped and the table value is the one without it |
| Optimizer.NearestNeighborRoute | backend/logistics/optimizer.py:51-61 | the route is a permutation of the point indices, `[]` for no points, and each step goes to the nearest remaining point (the first in index order on a tie) |
| Optimizer.NearestStepHolds | backend/logistics/optimizer.py:57-60 | appending the chosen nearest index keeps every step of the route a nearest step |
| ClusteringService.ClusterClients | backend/logistics/services.py:53-87 | no orders give no clusters; every order lies in exactly one cluster; each cluster starts with the lowest unused index; later members have larger indices and lie within `max_distance_km` of the seed; every unused order within reach is taken |
| ClusteringService.GrowCluster | backend/logistics/services.py:63-83 | the inner loop adds, in index order, exactly the unused later orders within reach of the seed, and marks them used |
| ClusteringService.ClustersSplitOrders | backend/logistics/services.py:57-87 | the concatenated clusters are a permutation of the orders |
| ClusteringService.AllUsed | backend/logistics/services.py:63-85 | once every index is used, the members are a permutation of all indices |
| StoreSelectionService.FindOptimalStores | backend/logistics/services.py:94-114 | an empty cluster gives `[]`; otherwise the result has `min(3, stores)` stores of the table, no store more often than it is listed, ascending by distance to the cluster's mean point, none farther than a store left out, and among stores at one distance the first ones of the table in table order |
| StoreSelectionService.StoreDistances | backend/logistics/services.py:108-110 | the loop pairs every store, in order, with its distance to the centre |
| StoreSelectionService.NearestFirst | backend/logistics/services.py:113-114 | the first three of the sorted pairs are the nearest stores, in ascending order |
| StoreSelectionService.FirstOfEachDistance | backend/logistics/services.py:113-114 | the stores of the first sorted pairs are taken at most as often as listed and, for each distance, are the first stores of the table at that distance, in table order |
| StoreSelectionService.ChosenAreNearest | backend/logistics/services.py:113-114 | the stores of the first three sorted pairs meet every promise of `find_optimal_stores` |
| TspSolver.SolveTsp | backend/logistics/services.py:121-149 | up to two locations give the identity order; otherwise the route is a permutation of all indices starting at 0, each step the nearest unvisited index |
| TspSolver.NearestStepKept | backend/logistics/services.py:135-147 | appending the nearest unvisited index keeps every step a nearest step |
| KnapsackSolver.Bound | backend/logistics/services.py:168-181 | the loop computes the greedy fill: the current value plus every later item that still fits |
| KnapsackSolver.GreedyBound | backend/logistics/services.py:168-181 | `bound(i, w, v)`: the current value at or over capacity, otherwise the value after adding, in order, every later item that still fits |
| KnapsackSolver.NothingFitsWhenFull | backend/logistics/services.py:176-179 | with positive weights, a full knapsack takes no further item |
| KnapsackSolver.GreedyChildKeepsBound | backend/logistics/services.py:193-205 | the first child the search visits (take the item if it fits, else skip it) has its parent's bound, so the bound is constant along the greedy path |
| KnapsackSolver.GreedyFillAtLeastValue | backend/logistics/services.py:176-181 | the greedy fill never lowers the current value |
| KnapsackSolver.GreedyBoundAtLeastCurrent | backend/logistics/services.py:168-181 | the bound is at least the current value when no value is negative |
| KnapsackSolver.GreedyBoundUnderestimates | backend/logistics/services.py:168-181 | on four concrete items the bound after skipping the first item is 1 while a completion worth 8 exists, so the bound is not an upper bound |
| KnapsackSolver.Backtrack | backend/logistics/services.py:183-204 | the search only ever records a feasible selection whose value is the sum of its items, and never lowers the best value |
| KnapsackSolver.SolveKnapsack | backend/logistics/services.py:158-216 | the selected ids are those of a selection that fits in 10000, in input order, and `total_value` is its value; the value is 0 exactly when nothing is selected; nothing is selected when no value is positive; with positive weights the value is at least the greedy fill of the empty knapsack; `total_weight` sums the items whose id is selected, and is at most 10000 when ids are unique |
| KnapsackSolver.ExtendSelection | backend/logistics/services.py:197-204 | taking or skipping item `i` extends the selection, its ids, weight and value accordingly |
| KnapsackSolver.LeafRecord | backend/logistics/services.py:186-189 | a leaf that fits and has positive value is a valid record |
| KnapsackSolver.NonPositiveValues | backend/logistics/services.py:186-189 | with no positive value no selection is worth more than 0 |
| KnapsackSolver.WeightOfIdsCongruent | backend/logistics/services.py:208-210 | the total weight depends only on which ids are selected |
| KnapsackSolver.IdsOfSelect | backend/logistics/services.py:198 | an id is selected exactly when an item carrying it is taken |
| KnapsackSolver.WeightOfSelectedIds | backend/logistics/services.py:208-210 | with unique ids, the weight summed by id equals the weight of the selection |
| KnapsackSolver.NothingSelected | backend/logistics/services.py:206 | skipping every item selects nothing |
| RouteOptimizationService.PendingUnassigned | backend/logistics/services.py:233-236 | the orders kept are exactly the pending orders without a courier, and their keys stay unique |
| RouteOptimizationService.OrderedAt | backend/logistics/services.py:287-315 | entry `k` has sequence `k` and the `k`-th stop of the tour; the last entry has distance and time 0 |
| RouteOptimizationService.AssembleStops | backend/logistics/services.py:283-315 | the loop produces one entry per tour index, each as described by `OrderedAt`, and the totals are the sums of the leg distances and times |
| RouteOptimizationService.TotalDistanceNonNegative | backend/logistics/services.py:298 | the total distance is not negative when leg distances are not |
| RouteOptimizationService.StoreStopsHaveNoClient | backend/logistics/services.py:260-267 | store stops carry no order |
| RouteOptimizationService.ClientStopsCarryOrders | backend/logistics/services.py:269-276 | the client stops of a cluster carry its orders' keys, in order |
| RouteOptimizationService.AppendStoreStops | backend/logistics/services.py:260-267 | one store stop is appended per chosen store, in order |
| RouteOptimizationService.AppendClientStops | backend/logistics/services.py:269-277 | one client stop is appended per order of the cluster, and the order is recorded as selected |
| RouteOptimizationService.Layout | backend/logistics/services.py:245-277 | the stop list starts with the depot |
| RouteOptimizationService.AddClusterStops | backend/logistics/services.py:257-277 | appending the stores `find_optimal_stores` picks for the next cluster, then its client stops, keeps the stop list equal to the layout (depot, then per cluster its chosen stores and its clients) and the selected orders equal to the clusters so far |
| RouteOptimizationService.BuildStops | backend/logistics/services.py:245-277 | the stop list is exactly the depot, then for every cluster the stores `find_optimal_stores` returns for it and its client stops, in cluster order; the selected orders are the clusters concatenated |
| RouteOptimizationService.LayoutClients | backend/logistics/services.py:257-277 | the client stops of the layout carry the clusters' order keys, in order |
| RouteOptimizationService.LayoutStores | backend/logistics/services.py:257-267 | every store stop of the layout is a store of the table |
| RouteOptimizationService.TourKeepsClients | backend/logistics/services.py:280-315 | reordering the stops along the tour keeps the multiset of order keys on client stops |
| RouteOptimizationService.EachOrderOnce | backend/logistics/services.py:233-277 | with unique keys, every pending order's key appears exactly once among the route's client stops |
| RouteOptimizationService.StoredShape | backend/logistics/services.py:332-349 | the stored stops start at the depot, are numbered from 1, each records the leg to the next stop (0 for the last), and store stops name stores of the list |
| RouteOptimizationService.ClusterPending | backend/logistics/services.py:242 | the clusters are those `cluster_clients` builds with its 3 km default: a partition of the pending orders, each seeded at the first unplaced order and taking exactly the unplaced later orders within 3 km of the seed |
| RouteOptimizationService.StoredFollowTour | backend/logistics/services.py:287-349 | stored stop `k` is the planned stop at the tour's `k`-th index |
| RouteOptimizationService.EachStopOnce | backend/logistics/services.py:280-349 | stops stored along a tour are the planned stops, each exactly once |
| RouteOptimizationService.TourStops | backend/logistics/services.py:280-349 | there is a nearest-neighbour tour over the planned stops' locations (the result of `solve_tsp`) such that stored stop `k` is the planned stop at its `k`-th index; so every planned stop is stored exactly once; the stored stops have the route shape, keep the client order keys, the total distance is the sum of the stored distances, and the total time is the minutes of the legs between consecutive stops |
| RouteOptimizationService.PlanRoute | backend/logistics/services.py:241-349 | the new route belongs to the courier and is inactive; its clusters are those `cluster_clients` builds with its 3 km default; its stops follow the nearest-neighbour tour over the layout of those clusters, with the stores `find_optimal_stores` picks for each; it visits every pending order exactly once; its profit is the sum of their offers; its distance is the sum of its legs; its time is the minutes of the legs between consecutive stops |
| RouteOptimizationService.CalculateOptimalRoute | backend/logistics/services.py:223-351 | with no pending unassigned order it raises "Aucune commande disponible" and stores nothing; otherwise it appends one route with a fresh key, whose stops follow the nearest-neighbour tour over the depot, then for each cluster `cluster_clients` builds (3 km reach) the stores `find_optimal_stores` picks and the cluster's clients, covering every such order once, with its distance and time taken from its legs; orders are never changed |
| OrdersOptimization.FillAtLeast | backend/orders/optimization.py:28-36 | the greedy-plus-fractional fill is at least the node's profit |
| OrdersOptimization.FillAtMost | backend/orders/optimization.py:28-36 | the fill is at most the node's profit plus the value of all later items |
| OrdersOptimization.BoundBrackets | backend/orders/optimization.py:25-37 | a node at or over capacity has bound 0; otherwise the bound lies between the node's profit and its profit plus all remaining values |
| OrdersOptimization.Bound | backend/orders/optimization.py:25-37 | `compute_bound`: 0 at or over capacity; otherwise the profit plus the later items that fit whole, in order, plus the fitting fraction of the first that does not |
| OrdersOptimization.ComputeBound | backend/orders/optimization.py:25-37 | the while loop computes the bound |
| OrdersOptimization.Expand | backend/orders/optimization.py:59-83 | one step keeps the best feasible selection found and yields at most two children one level down |
| OrdersOptimization.BranchAndBound | backend/orders/optimization.py:49-83 | the search ends with taken indices in ascending order whose weight fits the capacity, and `max_profit` is their value: 0 when empty, positive otherwise |
| OrdersOptimization.WorkConcat | backend/orders/optimization.py:58-83 | the work left in a queue is the sum over its parts, which bounds the loop |
| OrdersOptimization.WorkOfChildren | backend/orders/optimization.py:74-83 | two children one level down have at most twice the work of a node at that level |
| OrdersOptimization.Branching | backend/orders/optimization.py:58-83 | popping a node and appending its children strictly lowers the work left, so the loop ends |
| OrdersOptimization.Extend | backend/orders/optimization.py:66-68 | appending an index adds its value to the sum |
| OrdersOptimization.AsWrittenKeyRaises | backend/orders/optimization.py:44-47 | as written, the sort key of a stored order never yields a value: a Decimal offer over a float weight is a TypeError, over the int 0 of an order without lines a division error |
| OrdersOptimization.CorrectedKeyIsRatio | backend/orders/optimization.py:44-47 | with the offer converted to a float, the key of an order of positive weight is its offer over its weight, the ratio the model's sort uses |
| OrdersOptimization.MakeItems | backend/orders/optimization.py:44 | one item per order: its index, offer and estimated weight |
| OrdersOptimization.SortedItems | backend/orders/optimization.py:44-47 | after the sort, the items still describe the orders, are distinct, and all have positive weight |
| OrdersOptimization.MapBack | backend/orders/optimization.py:86-88 | the orders picked by the best indices are distinct orders of the input, and their weight and offer sums are those of the search |
| OrdersOptimization.FirstByRatio | backend/orders/optimization.py:44-47 | the first item after the sort is an order of greatest offer/weight ratio |
| OrdersOptimization.KnapsackBranchAndBound | backend/orders/optimization.py:39-89 | no orders give `[]`; the result is distinct orders of the input; when non-empty its weight fits the capacity and its offers sum to more than 0; when the first order of the ratio sort fits and its offer is positive, the result is non-empty and worth at least that offer |
| OrdersOptimization.PointsOf | backend/orders/optimization.py:94-98 | the points are each order's client location and its store location when it has one, and there is one when there is an order |
| OrdersOptimization.CollectPoints | backend/orders/optimization.py:94-98 | the loop collects exactly those points |
| OrdersOptimization.TspNearestNeighbor | backend/orders/optimization.py:91-114 | no orders give `[courier]`; the path starts at the courier and then visits every collected point exactly once, each time the nearest remaining one |
| OrdersOptimization.NearestKept | backend/orders/optimization.py:107-112 | appending the nearest remaining point keeps the path free of repeats and every step a nearest step |
| OrderModels.StatusChoices | backend/orders/models.py:8-13 | there are exactly five statuses with distinct stored strings, and parsing a stored string gives its status back |
| OrderModels.NewOrderItem | backend/orders/models.py:46 | a line created without a quantity has quantity 1 |
| OrderModels.NewOrder | backend/orders/models.py:20-31 | a new order is pending, has no courier, no delivery time and no restaurant or store |
| OrderModels.EstimatedWeightKg | backend/orders/models.py:36-37 | `estimated_weight_kg()`: the sum over the lines of quantity times unit weight, a missing unit weight counting 0 |
| OrderModels.EstimatedWeightNonNegative | backend/orders/models.py:36-37 | an order without lines weighs 0; unit weights that are not negative give a weight that is not negative |
| OrderModels.MissingUnitWeightAddsNothing | backend/orders/models.py:37 | a line whose unit weight is missing adds nothing, wherever it sits |
| AccountModels.RoleValueRoundTrip | backend/accounts/models.py:7-9 | parsing a role's stored string gives the role back, and no other string parses to it |
| AccountModels.NewUser | backend/accounts/models.py:11-16 | a new user is a customer with capacity 10, empty phone and CNE, and no location |
| AccountModels.IsCourier | backend/accounts/models.py:20-21 | `is_courier()`: the role is COURIER |
| AccountModels.IsCourierIffCourierRole | backend/accounts/models.py:20-21 | `is_courier()` holds exactly for the COURIER role |
| Tables.FindBy | backend/orders/views.py:64 | the lookup of an order or a route by key finds the row with that key, or reports that none has it |
| Tables.NextRouteId | backend/logistics/services.py:320 | a new route's key is above every key in use |
| OrderViews.Filter | backend/orders/views.py:25 | the filtered list holds exactly the orders that pass |
| OrderViews.PendingOrders | backend/orders/views.py:21-25 | a non-courier gets `[]`; a courier gets exactly the pending orders |
| OrderViews.ActiveOrders | backend/orders/views.py:32-42 | a non-courier gets `[]`; a courier gets exactly their own assigned or picked-up orders |
| OrderViews.CompletedOrders | backend/orders/views.py:49-56 | a non-courier gets `[]`; a courier gets exactly their own delivered orders |
| OrderViews.CurrentWeightIsActiveList | backend/orders/views.py:75-79 | the load the accept check sums is the weight of the courier's active list |
| OrderViews.FilterSum | backend/orders/views.py:75-79 | summing a weight that is zero off the filter equals summing the filtered list |
| OrderViews.AcceptKeepsCapacity | backend/orders/views.py:75-93 | an accept that passes the total check leaves the courier's active load within capacity |
| OrderViews.AcceptOrder | backend/orders/views.py:62-93 | 404 for an unknown key; then in order: 400 unless pending, 403 for a non-courier, 400 when the order alone is too heavy, 400 when the total would be; success sets courier, ASSIGNED and no delivery time, changes nothing else, and keeps the load within capacity |
| OrderViews.AllowedTarget | backend/orders/views.py:101-109 | only the strings DELIVERED and PICKED_UP are accepted targets |
| OrderViews.UpdateOrderStatus | backend/orders/views.py:99-116 | 404, then 403 for a non-courier, 403 for another courier's order, 400 for any other target; success sets the status whatever it was, with the delivery time set for DELIVERED and cleared otherwise |
| OrderViews.CancelOrder | backend/orders/views.py:122-135 | 403 for a non-courier first, then 404, 403 for another courier's order, 400 unless assigned or picked up; success puts the order back to pending without courier or delivery time |
| OrderViews.CancelReturnsToPending | backend/orders/views.py:122-135 | a cancelled order shows in the pending list and leaves the courier's active list |
| LogisticsViews.VisibleRoutes | backend/logistics/views.py:24-29 | a courier sees exactly their own routes; anyone else sees all |
| LogisticsViews.GetObject | backend/logistics/views.py:60 | a found route has the key asked for and is visible to the user |
| LogisticsViews.GetObjectMatchesQueryset | backend/logistics/views.py:24-29 | a route is found exactly when the visible list holds one with that key; for a courier it is their own |
| LogisticsViews.CalculateRouteResponse | backend/logistics/views.py:36-52 | a returned route gives 201; a value error gives 400 with its message; any other error gives 500 with its message at the end |
| LogisticsViews.CalculateRoute | backend/logistics/views.py:31-52 | the answer is 400 "Aucune commande disponible" exactly when no order is pending and unassigned, and 201 with the courier's new route appended exactly when one is; it is never a 404 |
| LogisticsViews.UpdateStopOrders | backend/logistics/views.py:75-83 | the update is applied to every order of a client stop and to no other order |
| LogisticsViews.ActivateRoute | backend/logistics/views.py:54-92 | 404 for a route the user cannot see; 400 when already active; 403 for another courier's route; these change nothing; success marks the route active and assigns every order on its client stops to the courier, whatever its status |
| LogisticsViews.DeactivateRoute | backend/logistics/views.py:94-129 | 404; 400 when not active; 403 for another courier's route; these change nothing; success marks the route inactive and returns every undelivered order on it to pending without courier |
| LogisticsViews.SaveRoute | backend/logistics/views.py:75 | saving replaces that route's row and nothing else |
| LogisticsViews.ActivateThenDeactivate | backend/logistics/views.py:75-120 | deactivating after activating leaves an order pending without courier |
| AccountSerializers.StripProfile | backend/accounts/serializers.py:59-77 | the loop stores each profile field stripped, leaves other entries alone, and records the message of each field left blank |
| AccountSerializers.Validate | backend/accounts/serializers.py:56-78 | the role defaults to CUSTOMER; a courier is refused exactly when a profile field is blank, with exactly those fields and their messages; accepted data has the fields stripped and capacity 10 for a courier, 0 otherwise |
| AccountSerializers.Create | backend/accounts/serializers.py:80-95 | a courier whose capacity is above 10 is refused with the capacity message; otherwise the user takes the username or the e-mail, and capacity 10 for a courier or 0 otherwise |
| AccountSerializers.ValidatedIsCreatable | backend/accounts/serializers.py:73-91 | data that passed validation is never refused by the capacity check, and a courier from it has no empty profile field |
| CustomerOrderPage.FindItem | frontend/src/pages/CustomerOrderPage.tsx:72 | the catalogue lookup finds an item with that id, or none exists |
| CustomerOrderPage.AddItem | frontend/src/pages/CustomerOrderPage.tsx:78-82 | after adding, the basket holds the id |
| CustomerOrderPage.AddItemProperties | frontend/src/pages/CustomerOrderPage.tsx:78-82 | adding an id already there changes nothing, a new id is appended with quantity 1, adding twice is adding once, and ids stay unique |
| CustomerOrderPage.UpdateQty | frontend/src/pages/CustomerOrderPage.tsx:84-86 | the basket keeps its length |
| CustomerOrderPage.UpdateQtyProperties | frontend/src/pages/CustomerOrderPage.tsx:84-86 | only the entries with that id change, to quantity `max(1, qty)`; ids and order are kept |
| CustomerOrderPage.RemoveItem | frontend/src/pages/CustomerOrderPage.tsx:88-90 | the result holds exactly the entries without that id, and it is the selection of `prev` by the mask of entries whose id differs, so order and repeats are kept |
| CustomerOrderPage.RemoveUndoesAdd | frontend/src/pages/CustomerOrderPage.tsx:78-90 | removing a newly added id gives the basket back |
| CustomerOrderPage.RemoveAbsent | frontend/src/pages/CustomerOrderPage.tsx:88-90 | removing an absent id changes nothing |
| CustomerOrderPage.AddItemWeight | frontend/src/pages/CustomerOrderPage.tsx:69-76 | an id the catalogue lacks adds no weight; a known item adds its unit weight |
| CustomerOrderPage.TotalWeight | frontend/src/pages/CustomerOrderPage.tsx:69-76 | `totalWeight`: 0 before the catalogue loads; otherwise each entry adds unit weight times quantity of the first catalogue item with its id, and an unknown id adds nothing |
| CustomerOrderPage.SubmitDisabled | frontend/src/pages/CustomerOrderPage.tsx:286 | the send button is disabled while phone, latitude, longitude or offer is empty, the basket is empty, or a request is pending |
| CustomerOrderPage.ResetBlocksSubmit | frontend/src/pages/CustomerOrderPage.tsx:58-64 | after the reset the form cannot be sent and weighs nothing, whether or not the catalogue has loaded |
| CourierDashboardPage.ToggleExpanded | frontend/src/pages/CourierDashboardPage.tsx:86-93 | the id's membership flips and no other id's changes |
| CourierDashboardPage.ToggleTwice | frontend/src/pages/CourierDashboardPage.tsx:86-93 | toggling twice gives the set back |
| CourierDashboardPage.Capacity | frontend/src/pages/CourierDashboardPage.tsx:282 | a user without capacity counts as capacity 0 |
| CourierDashboardPage.RemainingCapacity | frontend/src/pages/CourierDashboardPage.tsx:284 | the capacity left is never negative and is either 0 or capacity minus the load |
| CourierDashboardPage.PickedUpOfferedIffAssigned | frontend/src/pages/CourierDashboardPage.tsx:614 | the picked-up button shows exactly for the backend's ASSIGNED status |
| CourierDashboardPage.AcceptEnabledFits | frontend/src/pages/CourierDashboardPage.tsx:486-506 | an enabled accept on an order of known weight keeps the active load within capacity, and the order fits in what is left |
| CourierDashboardPage.TotalOffers | frontend/src/pages/CourierDashboardPage.tsx:272-289 | `totalPotential` and `completedTotal`: 0 before the list loads, otherwise the sum of the offers, an empty offer counting 0 |
| CourierDashboardPage.ActiveWeight | frontend/src/pages/CourierDashboardPage.tsx:277-280 | `activeWeight`: 0 before the list loads, otherwise the sum of the weights, a missing weight counting 0 |
| CourierDashboardPage.WouldExceed | frontend/src/pages/CourierDashboardPage.tsx:486 | `wouldExceed`: the order's known weight plus the active load is above capacity; a missing weight never exceeds |
| CourierDashboardPage.AcceptDisabled | frontend/src/pages/CourierDashboardPage.tsx:506 | the accept button is disabled while a request is pending or the order would exceed the capacity |
| CourierDashboardPage.AcceptDisabledIff | frontend/src/pages/CourierDashboardPage.tsx:486-506 | accept is disabled exactly while a request is pending or the known weight exceeds what is left; a missing weight never blocks |
| CourierDashboardPage.RemainingBounded | frontend/src/pages/CourierDashboardPage.tsx:277-284 | with weights that are not negative, what is left never exceeds the capacity, and a full load leaves 0 |
| CourierDashboardPage.EmptyOfferAddsNothing | frontend/src/pages/CourierDashboardPage.tsx:272-275 | an empty offer adds nothing to the total, wherever it sits |
| AuthDialogs.Reset | frontend/src/components/AuthDialogs.tsx:53-65 | the reset form is empty, with the initial role and no error |
| AuthDialogs.FixedRoleStays | frontend/src/components/AuthDialogs.tsx:48-61 | the role starts as the fixed role or CUSTOMER, the toggle cannot change a fixed role, an empty toggle value keeps the role, and a reset form cannot be sent |
| AuthDialogs.StartSubmit | frontend/src/components/AuthDialogs.tsx:72-88 | different passwords are refused with the mismatch message before any request; otherwise the request carries the form's e-mail, password and role |
| AuthDialogs.CanSubmit | frontend/src/components/AuthDialogs.tsx:117-122 | `canSubmit`: e-mail and both passwords given and equal, first name, last name and phone non-blank after `trim`, the CNE too for a courier, and no request in flight |
| AuthDialogs.SubmittableIsValid | frontend/src/components/AuthDialogs.tsx:117-122 | a form the button lets through is sent with its role and no capacity; the backend finds a courier field blank only when it holds a character Python strips and `trim` keeps |
| AuthDialogs.BlankOnlyInPython | frontend/src/components/AuthDialogs.tsx:117-122 | a text `trim` leaves non-empty and `strip` empties holds one of 0x1C-0x1F or NEL |
| AuthDialogs.SeparatorPassesButton | frontend/src/components/AuthDialogs.tsx:117-122 | a courier form whose first name is the single character 0x1C can be sent, and `validate` finds that field blank |
| AuthDialogs.FormatFieldErrors | frontend/src/components/AuthDialogs.tsx:94-105 | the loop builds the message of an object error body |
| AuthDialogs.NoMessagesIffNothingReadable | frontend/src/components/AuthDialogs.tsx:96-105 | the generic message appears exactly when no entry is a list or a text |
| AuthDialogs.MessagesKeepOrder | frontend/src/components/AuthDialogs.tsx:97-103 | the messages follow the entries' order |
| AuthDialogs.SubmitError | frontend/src/components/AuthDialogs.tsx:89-111 | the error after a failed sign-up: a non-empty text body as is, an object body's field messages or the generic field message, otherwise the error's message or the generic message |
| AuthDialogs.AfterSubmit | frontend/src/components/AuthDialogs.tsx:71-114 | after `handleSubmit` nothing is in flight and the typed fields are kept; different passwords show the mismatch message; a success sets `success` and clears the error; a failure shows its `SubmitError` |
| AuthDialogs.ErrorMessages | frontend/src/components/AuthDialogs.tsx:89-111 | a password mismatch shows its own message; a text body is shown as is; a single list entry reads `key: v1, v2` and a single text entry `key: v`; without a body the error's message or the generic one is shown |
| AuthDialogs.LoginEnabledSendsCredentials | frontend/src/components/AuthDialogs.tsx:213-220 | an enabled login sends both credentials, the e-mail as username |
| AuthDialogs.ShownFor | frontend/src/components/AuthDialogs.tsx:278-288 | a sign-up dialog is shown exactly in the two sign-up flows |
| AuthDialogs.GatewayFlows | frontend/src/components/AuthDialogs.tsx:273-286 | closing brings the choice back; each sign-up flow opens the dialog with its role fixed |
| CourierOptimizationPage.PageOpenIffCourier | frontend/src/pages/CourierOptimizationPage.tsx:66-75 | with a token, the page opens exactly for a courier; without a token or user it never does |
| CourierOptimizationPage.AfterCalculate | frontend/src/pages/CourierOptimizationPage.tsx:94-106 | a calculated route goes first in the list and is selected, the routes tab opens, and the success message is set |
| CourierOptimizationPage.ReplaceById | frontend/src/pages/CourierOptimizationPage.tsx:123 | the list keeps its length; entries with the id become the update and the others are unchanged |
| CourierOptimizationPage.ReplaceKeepsIds | frontend/src/pages/CourierOptimizationPage.tsx:123-143 | replacing by a route of the same id keeps the ids, is idempotent, and puts the update in the list when the id was there |
| CourierOptimizationPage.AfterActivate | frontend/src/pages/CourierOptimizationPage.tsx:115-126 | an activated route replaces the one with its id and is selected; the dialog closes with no route; the success message names the route |
| CourierOptimizationPage.AfterDeactivate | frontend/src/pages/CourierOptimizationPage.tsx:135-146 | the answer's `route`, or the answer itself, replaces the route with its id; nothing is selected; the dialog closes with no route |
| CourierOptimizationPage.ConfirmAction | frontend/src/pages/CourierOptimizationPage.tsx:363-373 | the confirm button sends nothing without a route, otherwise the activation or deactivation of the dialog's kind |
| CourierOptimizationPage.ConfirmFlow | frontend/src/pages/CourierOptimizationPage.tsx:302-374 | a card's button leads through the dialog to the request its label names; cancelling changes nothing else; after a success the dialog holds no route, so confirming does nothing |
| CourierOptimizationPage.CalculateThenActivate | frontend/src/pages/CourierOptimizationPage.tsx:102-126 | a calculated route is put first and selected, and activating it replaces only that entry |
| CourierOptimizationPage.BackendRefusalShown | frontend/src/pages/CourierOptimizationPage.tsx:108 | the backend's value-error message reaches the page after the prefix, word for word |

## Findings

| source | as written | input that shows it | evidently intended | confidence | as-written member | corrected member |
|---|---|---|---|---|---|---|
| backend/orders/optimization.py:44-47 | the sort key is `delivery_price_offer / estimated_weight_kg()`: a Decimal (decimal column) over a float (a sum of float products) | any non-empty list of stored orders, e.g. one order with one line: `Decimal / float` raises TypeError before the search starts | convert the offer with `float()`, as `backend/logistics/optimizer.py:33` does for its profits | high; not executed | OrdersOptimization.AsWrittenKeyRaises | OrdersOptimization.CorrectedKeyIsRatio |

## Left out

- The routing web service and the haversine formulas: distances are function parameters, not computed.
- Rounding to two decimals of the stored route totals and stop distances: values are kept exact.
- `estimated_arrival_time` and the JSON `delivery_order` column of a stored route: they depend on the clock or only repeat the stops.
- The `order_by` orderings of the list views and the ordering of a Python set: lists keep table order and a set's minimum among ties is left open.
- The scaling `int(x*10)` in `knapsack_max_profit`: the model takes the scaled integer weights.
- Optimizer.KnapsackMaxProfit: requires `W >= 0` and weights that are not negative, where the source would index outside its table.
- KnapsackSolver.SolveKnapsack: optimality is not stated, because the greedy `bound` can prune the best selection; the contract promises only that, with positive weights, the result is worth at least the greedy fill.
- OrdersOptimization.KnapsackBranchAndBound: models the corrected sort key (the offer as a float), because as written the key divides a Decimal by a float and raises TypeError for every stored order with lines (see Findings); it requires every order to have a positive weight, because even the corrected key divides by it; optimality is not stated, and the fractional bound is not proved to bound every completion.
- `KnapsackNode` is a value whose bound is computed before it is built, where the source sets the field afterwards.
- LogisticsViews.CalculateRouteResponse: the 500 branch takes any other error as a parameter, because the modelled service raises only the value error.
- Password validation, password hashing, JWT tokens and DRF's field-level checks: they belong to libraries.
- The persistence of the sign-up `create`: the model returns the user record.
- AuthDialogs.SubmittableIsValid: does not promise that the backend accepts every form the button lets through, because JavaScript's `trim` keeps the separators 0x1C-0x1F and NEL, which Python's `strip` removes; `AuthDialogs.SeparatorPassesButton` shows such a form.
- CourierDashboardPage.TotalOffers: an offer that is not a number (NaN in the source) is not modelled; the text is either empty or a number.
- Concurrency: requests are modelled as atomic and run one after another. The source takes no lock and opens no transaction. Two overlapping accepts can both pass the capacity check of `accept` and together exceed `capacity_kg`. So `OrderViews.AcceptKeepsCapacity` holds only for requests run one at a time. `CancelOrder`, `UpdateOrderStatus`, `ActivateRoute` and `CalculateOptimalRoute` also read and then write without a lock.
- The React rendering, queries, requests, geolocation and maps: each handler's success path is a function of the page state and the answer.
- The error paths of the route page's requests other than route calculation.
- Today's-deliveries filtering on the dashboard: it depends on the local clock and time zone.
