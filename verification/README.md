# LiftLogic dispatch engine in Dafny

LiftLogic is an elevator simulator with pluggable dispatch strategies. This
project models its dispatch engine and proves properties of the model.

- **Schedulers** (`src/scheduler/`) map a list of `ElevatorSnapshot`s and a
  list of `PendingRequest`s to a dictionary from elevator id to a list of
  floor targets. Three strategies are modelled: first-come-first-served
  (FCFS), the SCAN sweep, and destination dispatch. The registry builds a
  scheduler from its name.
- **Car, floor and passenger state** (`src/simulation/`): passengers with
  their derived direction and times, floors with two FIFO queues, the
  elevator's door and motion state machine, and the building's floor lookup,
  nearest-car pickup and snapshot.
- **Simulation rules** (`src/simulation/simulation.py`): the metrics
  tracker and its snapshot, the morning-rush windows, destination choice, the
  Poisson draw, fault/maintenance/restore commands, the metrics interval
  clamp and the clock of `step`/`run`.

Every operation is a pure function on immutable datatypes. Each mutating
Python method becomes a function returning the new state. Python
dictionaries become insertion-ordered association lists
(`Interface.Assignments`, `DestinationDispatch.Buckets`), because the order
of first insertion is observable in destination dispatch.

The strategies all pick "the first candidate after a stable sort by a tuple
key". That rule is modelled as the first minimal element under a
lexicographic `Keys.Key` (`Keys.IsFirstMin`, `Keys.ArgMin`). Travel times
are `Keys.Time`, either `Finite(real)` or `Infinite` (Python's
`float("inf")`). The square root in the triangular branch of
`estimate_travel_time` is a function parameter `root`. Car positions and
speeds are integers, so `int(round(position))` is the identity. Metrics are
computed over `real`, so the percentile index `(n - 1) * 0.95` is exact.

Modules, one file each:

- `wrappers.dfy`: `Option` and `Result`.
- `seqs.dfy`: filter, count, de-duplicated append, `list.remove`, and truncating division.
- `sorting.dfy`: stable insertion sort, and `sorted(set(...))`.
- `keys.dfy`: tuple keys and first minimum.
- `interface.dfy`: snapshots, requests and the assignment dictionary.
- `travel.dfy`: `estimate_travel_time` and `sort_requests_in_direction`.
- `fcfs.dfy`, `scan.dfy`, `dispatch.dfy`: the three strategies.
- `registry.dfy`: the scheduler registry.
- `passenger.dfy`, `floor.dfy`, `elevator.dfy`, `building.dfy`: the simulation classes.
- `metrics.dfy`: the metrics tracker.
- `arrivals.dfy`: the morning-rush windows, destination choice and the Poisson draw.
- `simulation.dfy`: operator commands and the clock of `step`/`run`.

## Model

| member | source | states |
|---|---|---|
| Interface.AvailableCapacity | src/scheduler/interface.py:21-23 | never negative; equals `capacity - load` when `load <= capacity` and 0 when `load >= capacity` |
| Interface.Candidates | src/scheduler/fcfs.py:31-33 | the candidates are exactly the cars that fit the riders, or, when none fits, exactly the cars with any room |
| Interface.UpdateSpec | src/scheduler/fcfs.py:24 | `setdefault(id, []).<change>` changes only the list under `id`, adds `id` at the end only when it is new, keeps ids duplicate-free, and changes the entry total by the change in that list's length |
| Interface.AppendSpec | src/scheduler/fcfs.py:24 | `setdefault(id, []).append(x)` puts `x` at the end of `id`'s list, leaves every other id's list alone and adds exactly one entry |
| Interface.AppendEntries | src/scheduler/fcfs.py:24 | an append adds exactly the appended floor to the multiset of all listed floors |
| Travel.EstimateTravelTime | src/scheduler/utils.py:17-22 | 0 at the target floor; infinite when the car has no cruise speed and is elsewhere; `distance / speed` when acceleration is not positive |
| Travel.TrapezoidalBranch | src/scheduler/utils.py:24-32 | when twice the cruise-up distance is shorter than the trip, the estimate is `2v/a + (distance - v²/a)/v` |
| Travel.TriangularBranch | src/scheduler/utils.py:24-28 | otherwise the estimate is twice the square root of `distance / a` |
| Travel.EstimateNonNegative | src/scheduler/utils.py:17-32 | every finite estimate is non-negative, provided the square root is |
| Travel.SortRequestsInDirection | src/scheduler/utils.py:35-39 | a permutation of the requests, ascending by origin for direction >= 0 and descending otherwise, with equal origins kept in input order |
| Fcfs.ServiceOrder | src/scheduler/fcfs.py:19-20 | requests are served oldest first, as a permutation of the input with ties kept in input order |
| Fcfs.ChooseElevator | src/scheduler/fcfs.py:28-35 | no car is chosen exactly when no car fits the riders and none has room; otherwise the choice is an eligible car of the list |
| Fcfs.ChooseElevatorMinimal | src/scheduler/fcfs.py:36-43 | the chosen car has a minimal (travel time, target count, direction mismatch) key among the eligible cars, and is the first such car in list order |
| Fcfs.UpdateSnapshot | src/scheduler/fcfs.py:45-72 | only cars with the chosen id change, and only by gaining the request's origin as a target if it was absent |
| Fcfs.UpdateKeepsCars | src/scheduler/fcfs.py:57-68 | snapshot updates keep every car's id, load and capacity, so available capacity is constant over the cycle |
| Fcfs.CycleTotal | src/scheduler/fcfs.py:20-25 | the cycle adds one entry for each request some car can take in one of the two tiers |
| Fcfs.SelectCallsTotal | src/scheduler/fcfs.py:12-26 | the result has distinct ids and exactly as many entries as there are serviceable requests |
| Fcfs.SelectCallsServesAll | src/scheduler/fcfs.py:19-26 | when some car has room, every request yields one entry |
| Fcfs.WorkingKeepsCars | src/scheduler/fcfs.py:20-25 | on every snapshot list the loop works on, the cars keep their ids and room, and some car is chosen for a request exactly when the request is serviceable on the input snapshots |
| Fcfs.CycleLists | src/scheduler/fcfs.py:20-25 | each car's list grows by the origins, in service order, of exactly the requests that car wins on the snapshots current at that request |
| Fcfs.CycleEntries | src/scheduler/fcfs.py:20-25 | the floors the cycle adds are, as a multiset, the origins of the serviceable requests |
| Fcfs.SelectCallsContents | src/scheduler/fcfs.py:12-26 | each car's list is the origins, oldest request first, of the requests it wins on the updated snapshots; a request is won by some car exactly when it is serviceable; all listed floors together are the multiset of origins of the serviceable requests |
| Fcfs.SelectCallsServesNone | src/scheduler/fcfs.py:31-35 | when no car has room and every request carries at least one rider, the result is empty |
| Fcfs.CycleIdsHaveRoom | src/scheduler/fcfs.py:20-25 | over the cycle, every id that receives an entry belongs to a car with room, for requests with at least one rider |
| Fcfs.NoRoomNoAssignment | src/scheduler/fcfs.py:31-33 | a car with zero available capacity never appears in the result, for requests with at least one rider |
| Scan.InPath | src/scheduler/scan.py:40-45 | an idle car accepts every request; a car going up accepts exactly origins at or above it; a car going down accepts exactly origins at or below it |
| Scan.SweepLeftovers | src/scheduler/scan.py:26-30 | a car with room removes exactly its in-path requests from the open list, leaving the others in order |
| Scan.SweepAssigns | src/scheduler/scan.py:26-29 | a car with room gets the origins of its whole path appended in sweep order, and no other list changes |
| Scan.SweepSize | src/scheduler/scan.py:26-29 | a sweep adds one entry per path request and no id other than the car's own |
| Scan.SweepNoRoom | src/scheduler/scan.py:27-28 | a car without room takes nothing and removes nothing |
| Scan.FirstPassStep | src/scheduler/scan.py:22-30 | each car's path is its in-path share of the still-open requests, ordered ascending when `direction or 1` is up and descending when it is down |
| Scan.FirstPassCounts | src/scheduler/scan.py:22-30 | entries made plus requests left equals requests seen; only cars with room get entries; with no room anywhere nothing changes |
| Scan.FirstPassEntries | src/scheduler/scan.py:22-30 | the floors listed by the sweeps plus the origins still open are, as a multiset, the origins of all requests |
| Scan.ClosestElevator | src/scheduler/scan.py:47-52 | no car is chosen exactly when no car has room; otherwise the choice is a car with room |
| Scan.ClosestElevatorMinimal | src/scheduler/scan.py:53-59 | the chosen car has a minimal (travel time + dwell, direction mismatch) key among cars with room, and is the first such car in list order |
| Scan.SecondPassCounts | src/scheduler/scan.py:33-37 | each leftover adds exactly one entry when some car has room and none otherwise, always to a car with room |
| Scan.SelectCallsCounts | src/scheduler/scan.py:12-38 | ids are distinct; the total is the number of requests when some car has room and 0 otherwise; every listed car has room |
| Scan.SecondPassLists | src/scheduler/scan.py:33-37 | each car's list grows by the origins, in order, of exactly the leftovers for which it is the closest car with room |
| Scan.SecondPassEntries | src/scheduler/scan.py:33-37 | with some car having room the leftovers' origins are all added; with none the assignments are unchanged |
| Scan.SelectCallsContents | src/scheduler/scan.py:12-38 | every car's list is its sweep list followed by the origins of the leftovers it is closest to; with room anywhere the listed floors are exactly the multiset of all origins, with none the result is empty |
| Seqs.AtLeastOne | src/scheduler/destination_dispatch.py:13-14 | `max(1, n)`: the argument when it is at least 1, and 1 otherwise; it clamps both the cluster size and the metrics interval |
| DestinationDispatch.DestinationBucket | src/scheduler/destination_dispatch.py:48-52 | 0 for no destinations; otherwise the bucket whose cluster-size interval holds the truncated mean |
| DestinationDispatch.BucketArithmetic | src/scheduler/destination_dispatch.py:48-52 | worked buckets for cluster size 3: [9] and [11] land in bucket 3, [8, 8] in bucket 2, [] in bucket 0 |
| DestinationDispatch.ClusterRequestsSpec | src/scheduler/destination_dispatch.py:39-46 | buckets appear in order of first occurrence, each holds exactly the requests of its bucket in input order, and none is empty |
| DestinationDispatch.BucketIndex | src/scheduler/destination_dispatch.py:39-46 | every bucket some request falls into is listed, with exactly that bucket's requests |
| DestinationDispatch.ClusterDestinationsSpec | src/scheduler/destination_dispatch.py:54-71 | empty for no destinations; otherwise strictly increasing, and every value lies between two of the destinations |
| DestinationDispatch.RunsIncreasing | src/scheduler/destination_dispatch.py:58-70 | closing runs of an increasing list gives increasing means, bounded by the run's first value and the list's last value |
| DestinationDispatch.ClusterSizeOne | src/scheduler/destination_dispatch.py:57-68 | with cluster size 1 every run is a single value, so the result is the sorted distinct destinations |
| DestinationDispatch.BestElevator | src/scheduler/destination_dispatch.py:73-83 | an empty bucket gets no car; otherwise no car is chosen exactly when no car fits the summed riders and none has room, and a chosen car is eligible |
| DestinationDispatch.BestElevatorMinimal | src/scheduler/destination_dispatch.py:84-93 | the chosen car has a minimal (travel to the truncated origin centroid + dwell, target count) key among the eligible cars, and is the first such car in list order |
| DestinationDispatch.SeedServes | src/scheduler/destination_dispatch.py:30-36 | after seeding, the list holds every origin of the bucket and every clustered destination of each request |
| DestinationDispatch.AssignNoDup | src/scheduler/destination_dispatch.py:25-36 | the loop keeps ids distinct and every assigned list duplicate-free |
| DestinationDispatch.AssignKeeps | src/scheduler/destination_dispatch.py:25-36 | a stop once in a car's list stays there for the rest of the loop |
| DestinationDispatch.AssignServes | src/scheduler/destination_dispatch.py:25-36 | the winner of every bucket ends up with all of the bucket's origins and clustered destinations |
| DestinationDispatch.SelectCallsSpec | src/scheduler/destination_dispatch.py:16-37 | ids are distinct, every list is duplicate-free, and every bucket's winner (chosen from the unchanged snapshots) serves the bucket |
| DestinationDispatch.SelectCallsOnlyWinners | src/scheduler/destination_dispatch.py:16-37 | every listed car won some bucket, and every floor on its list is an origin or a clustered destination stop of a request in a bucket that car won |
| DestinationDispatch.SelectCallsNoRoom | src/scheduler/destination_dispatch.py:22-28 | with no room in any car, and at least one rider per request, the result is empty |
| Registry.Lookup | src/scheduler/__init__.py:27 | the lookup fails exactly for unregistered names and otherwise returns the class registered under the name |
| Registry.GetScheduler | src/scheduler/__init__.py:26-30 | an unknown lower-cased name gives the error quoting the name and listing the registry; the call succeeds exactly for a registered name whose options its constructor accepts; the variant matches the name; `cluster_size` defaults to 3, is passed through when it is at least 1, and is at least 1 in any case |
| Registry.RegisteredNames | src/scheduler/__init__.py:19-23 | the registry holds exactly `fcfs`, `scan`, `destination_dispatch`, in that order |
| Registry.UnknownMessage | src/scheduler/__init__.py:28-29 | the error text for an unknown name is `Unknown scheduler '<name>'. Available: fcfs, scan, destination_dispatch` |
| Registry.CaseInsensitive | src/scheduler/__init__.py:27 | two names that agree after lower-casing build the same scheduler |
| Registry.RegisteredNamesBuild | src/scheduler/__init__.py:26-30 | every registered name, in any letter case, builds without options |
| Registry.SelectCalls | src/scheduler/interface.py:40-51 | whichever strategy is chosen, the returned dictionary has distinct ids |
| Passengers.NewPassenger | src/simulation/passenger.py:11-17 | a new rider has no boarding or alighting time |
| Passengers.Direction | src/simulation/passenger.py:19-22 | +1 exactly when the destination is above the origin, otherwise -1 (also for equal floors) |
| Passengers.RecordBoarding | src/simulation/passenger.py:24-25 | sets the boarding time and nothing else |
| Passengers.RecordAlighting | src/simulation/passenger.py:27-28 | sets the alighting time and nothing else |
| Passengers.WaitTime | src/simulation/passenger.py:30-34 | undefined exactly before boarding; otherwise arrival plus wait is the boarding time |
| Passengers.RideTime | src/simulation/passenger.py:36-40 | defined exactly when both times are set; then boarding plus ride is the alighting time |
| Passengers.Journey | src/simulation/passenger.py:24-40 | boarding at b and alighting at c give wait `b - arrival` and ride `c - b`, and neither record changes the direction |
| Floors.AddPassenger | src/simulation/floor.py:18-22 | the rider joins the back of the up queue exactly when going up, otherwise the back of the down queue; the other queue is unchanged |
| Floors.HasWaitingIffLen | src/simulation/floor.py:24-25 | a floor has waiting riders exactly when its length, up plus down, is positive |
| Floors.BoardPassengers | src/simulation/floor.py:27-32 | takes exactly `min(capacity, len(queue))` riders off the front of the queue for the direction, in FIFO order, and none for a non-positive capacity; the other queue is untouched |
| Floors.BoardConserves | src/simulation/floor.py:27-32 | the floor loses exactly the riders that board |
| Floors.FloorAt | src/simulation/building.py:21-24 | a floor is found exactly for an index inside the building, and it is the floor at that index |
| Elevators.NewElevator | src/simulation/elevator.py:17-28 | a new car is in service at floor 0 with doors closed, no targets and no riders |
| Elevators.Direction | src/simulation/elevator.py:33-41 | 0 with no targets; otherwise the sign of the head target minus the position |
| Elevators.AssignTarget | src/simulation/elevator.py:43-45 | the floor is afterwards a target; it is appended only when absent, so existing order is kept and no duplicate appears |
| Elevators.Move | src/simulation/elevator.py:85-95 | without targets the car stays; otherwise only the position and targets change |
| Elevators.MoveProgress | src/simulation/elevator.py:85-95 | within one step of the head target the car lands on it and pops it; otherwise it closes exactly one speed of the distance |
| Elevators.OpenDoors | src/simulation/elevator.py:97-99 | opening arms the timer to the dwell and clears the handled flag, and changes nothing else |
| Elevators.Alight | src/simulation/elevator.py:107-115 | the riders for this floor leave; the rest keep their order; each boarded leaver adds one ride sample, and throughput still counts ride samples |
| Elevators.Board | src/simulation/elevator.py:117-124 | every boarded rider gets the boarding time, in order, and adds one wait sample |
| Elevators.HandleStop | src/simulation/elevator.py:101-105 | at a floor the building lacks nothing happens; otherwise only the riders and targets of the car change |
| Elevators.HandleStopManifest | src/simulation/elevator.py:107-124 | the riders staying on come first in their old order, and the rider count never exceeds the larger of the capacity and the previous count |
| Elevators.HandleStopBoarding | src/simulation/elevator.py:117-124 | after the riders who stay on come exactly the riders who board, each stamped with the boarding time; those boarders are a front slice of the floor's queue for `direction or 1` |
| Elevators.HandleStopFloors | src/simulation/elevator.py:117-120 | the stop floor becomes what `board_passengers` leaves for `direction or 1` with the free space after alighting; every other floor is unchanged |
| Elevators.HandleStopWaits | src/simulation/elevator.py:121-123 | one wait sample is recorded per rider who boards |
| Elevators.RefreshTargetsSpec | src/simulation/elevator.py:126-129 | refreshing keeps the targets duplicate-free and adds every boarded rider's destination |
| Elevators.StopKeepsValid | src/simulation/elevator.py:107-129 | after alighting and boarding the riders are all boarded, targets stay duplicate-free, and each new rider's destination is a target |
| Elevators.HandleStopTargets | src/simulation/elevator.py:117-129 | a stop keeps the car valid, and every rider who boarded there has their destination among the targets |
| Elevators.HandleStopMetrics | src/simulation/elevator.py:107-115 | a stop records one ride sample per rider who gets off, and keeps throughput equal to the ride samples |
| Elevators.Step | src/simulation/elevator.py:47-72 | a car not in service is untouched; a step never changes the car's id, status, capacity, speed or dwell, or the number of floors |
| Elevators.IdleStepIsNoOp | src/simulation/elevator.py:63-72 | with doors closed and no targets a step changes nothing |
| Elevators.DoorTiming | src/simulation/elevator.py:51-57 | after the doors open with dwell `d`, running `max(d, 1)` ticks handles the stop exactly once, on the first tick, and leaves the doors closed; after `k < d` ticks the doors are still open with `d - k` left |
| Elevators.OpeningSteps | src/simulation/elevator.py:97-99 | `k` ticks after `_open_doors` the floors and metrics are those of one stop handling, and the timer has dropped by `k` |
| Elevators.OpeningArmsTimer | src/simulation/elevator.py:63-72 | a closed car that opens its doors arms the timer to the dwell, unhandled, and touches no floor or metric |
| Elevators.LastTargetKeepsDoorsClosed | src/simulation/elevator.py:68-72 | reaching and popping the last target, with no stop due, leaves the doors closed on that tick |
| Elevators.StepKeepsValid | src/simulation/elevator.py:47-72 | a step keeps targets duplicate-free and riders boarded, never exceeds the larger of capacity and the previous count, and keeps throughput equal to ride samples |
| Elevators.TriggerFault | src/simulation/elevator.py:131-134 | the car is faulted, with no targets and doors closed; nothing else changes |
| Elevators.StartMaintenance | src/simulation/elevator.py:136-139 | the car is in maintenance, with no targets and doors closed; nothing else changes |
| Elevators.RestoreService | src/simulation/elevator.py:141-142 | the car is in service; only the status changes |
| Elevators.OutOfServiceFrozen | src/simulation/elevator.py:48-49 | a faulted or maintained car does not move on a step, and the commands keep a car valid |
| Buildings.MakeBuilding | src/simulation/building.py:18-19 | `num_floors` empty floors numbered 0 upwards in order, none for a non-positive count |
| Buildings.GetFloorSpec | src/simulation/building.py:21-24 | in a fresh building a floor is found exactly for `0 <= n < num_floors`, and it is floor `n` |
| Buildings.SelectElevator | src/simulation/building.py:32-37 | no car exactly when none is in service; otherwise an in-service car minimal in (distance, target count), and the first such in list order |
| Buildings.RequestPickup | src/simulation/building.py:26-30 | the selected car gets the floor as a target when it is absent, and no other car or floor changes |
| Buildings.PickupSpec | src/simulation/building.py:26-30 | a pickup keeps every car valid, ignores the direction, and leaves the floor among the chosen car's targets |
| Buildings.Snapshot | src/simulation/building.py:39-53 | one waiting count (up plus down) per floor and one entry per car in order, with its id, position, targets and rider count |
| Buildings.ViewNames | src/simulation/building.py:47-48 | the door reads `open` exactly when open, and distinct statuses get distinct names |
| MetricsTracking.RecordWaitTime | src/simulation/simulation.py:40-42 | a wait sample is appended exactly when the rider's wait time is defined; ride samples and throughput are untouched |
| MetricsTracking.RecordRideTime | src/simulation/simulation.py:44-47 | a ride sample and one unit of throughput are added exactly when the ride time is defined |
| MetricsTracking.RecordingKeepsConsistent | src/simulation/simulation.py:40-47 | recording keeps throughput equal to the number of ride samples, and throughput never decreases |
| MetricsTracking.Average | src/simulation/simulation.py:49-52 | 0 for no samples; otherwise the mean times the sample count is the sum |
| MetricsTracking.AverageBetween | src/simulation/simulation.py:49-52 | the mean lies between any lower and upper bound of the samples |
| MetricsTracking.Sorted | src/simulation/simulation.py:57 | a non-decreasing permutation of the samples |
| MetricsTracking.Percentile | src/simulation/simulation.py:54-56 | 0 for no samples |
| MetricsTracking.PercentileBetween | src/simulation/simulation.py:54-65 | the percentile lies between any bounds of the samples, and between two of the samples |
| MetricsTracking.PercentileExact | src/simulation/simulation.py:61-62 | when `(n - 1) * q` is whole, the percentile is the sorted sample at that index, so it equals a sample |
| MetricsTracking.PercentileMedianOfThree | src/simulation/simulation.py:54-65 | the 50th percentile of three distinct samples in any order is the middle one |
| MetricsTracking.Snapshot | src/simulation/simulation.py:67-75 | carries the time step and throughput, with zero statistics for empty sample lists |
| MetricsTracking.SnapshotRideBounds | src/simulation/simulation.py:67-75 | the reported ride average and 95th percentile lie within the range of the ride samples |
| MetricsTracking.SnapshotWaitBounds | src/simulation/simulation.py:67-75 | the reported wait average and 95th percentile lie within the range of the wait samples |
| Arrivals.FirstActive | src/simulation/simulation.py:160 | none exactly when no window is active; otherwise the first active window in list order |
| Arrivals.BurstMultiplier | src/simulation/simulation.py:165-169 | 1.0 when no window is active, otherwise the first active window's multiplier |
| Arrivals.OtherFloors | src/simulation/simulation.py:159 | exactly the building's floors other than the origin, in increasing order |
| Arrivals.ChooseDestination | src/simulation/simulation.py:158-163 | the focus floor exactly when the first active window has one; otherwise a uniform choice among the other floors |
| Arrivals.Poisson | src/simulation/simulation.py:171-180 | 0 for a non-positive rate; otherwise at least -1, and less than the number of draws supplied |
| Arrivals.PoissonConsumes | src/simulation/simulation.py:174-180 | for a positive rate the loop multiplies in draws until the running product is at most `exp(-lam)` and returns one less than the number of draws taken: every earlier running product is above `exp(-lam)`; None exactly when every running product of the supplied draws stays above |
| Arrivals.RunningProductsStep | src/simulation/simulation.py:176-179 | the running products start at 1 and each is the previous one times the next draw, as `p *= random()` computes them |
| Arrivals.PoissonEdges | src/simulation/simulation.py:174-180 | when `exp(-lam)` is 1.0 (a tiny rate in floating point) the draw is -1; below 1.0 it is never negative |
| Simulation.GetElevator | src/simulation/simulation.py:190-194 | none exactly when no car has the id; otherwise the first car with it |
| Simulation.SendCommand | src/simulation/simulation.py:117-136 | an unknown id changes nothing; otherwise only the first car with the id receives the command |
| Simulation.CommandEffects | src/simulation/simulation.py:117-136 | cars with other ids are untouched; fault and maintenance take the car out of service with no targets and doors closed; restore puts it back in service |
| Simulation.NewSimulation | src/simulation/simulation.py:89-96 | a new simulation starts at time 0 with empty metrics; the metrics interval is the requested one when that is at least 1, and at least 1 in any case |
| Simulation.StepCars | src/simulation/simulation.py:106-107 | stepping every car keeps the number of cars and floors and each car's id and status |
| Simulation.Tick | src/simulation/simulation.py:106-112 | time advances by exactly 1, and metrics are emitted exactly on ticks divisible by the interval |
| Simulation.TickKeepsValid | src/simulation/simulation.py:106-112 | a tick keeps every car valid and throughput equal to ride samples, and an emitted snapshot carries the tick's time and throughput |
| Simulation.Run | src/simulation/simulation.py:99-101 | running for `duration` ticks advances the clock by `duration` |
| Simulation.RunEmissions | src/simulation/simulation.py:99-112 | one emission per tick divisible by the interval, so one per tick for interval 1 |
| Seqs.AddAllIfAbsent | src/simulation/elevator.py:129 | extending with the absent destinations yields exactly the old values plus the new ones, and adds no duplicate |
| Seqs.AddAllIfAbsentPrefix | src/simulation/elevator.py:129 | extending only appends: the old list is a prefix of the result |
| Seqs.RemoveFirst | src/scheduler/scan.py:30 | `list.remove` drops one copy of a present value and leaves a list without it unchanged |
| Seqs.TruncDiv | src/scheduler/destination_dispatch.py:51 | `int(a / n)` rounds toward zero for negative and non-negative sums alike |
| Seqs.TruncMeanBetween | src/scheduler/destination_dispatch.py:84-86 | the truncated mean lies between any bounds of the values |
| Sorting.SortBy | src/scheduler/fcfs.py:19 | Python's `sorted`: a permutation, ordered by the key, with equal keys in input order |
| Sorting.SortedSet | src/scheduler/destination_dispatch.py:57 | `sorted(set(...))`: strictly increasing, with exactly the input's values |
| Keys.KeyLtIsStrictTotal | src/scheduler/fcfs.py:36-42 | tuple comparison on keys is a strict total order |
| Keys.FirstMin | src/scheduler/fcfs.py:36-43 | the head of a stable sort: none exactly for an empty list, otherwise the first element with a minimal key |

## Left out

- `src/server/app.py`, `scripts/run_scenario.py`, `src/simulation/config.py` and `src/simulation/__init__.py`: a web server, a command-line script, default values and re-exports. None of them holds dispatch logic.
- Event hooks (`on_event`, `_emit`) are callbacks with no verifiable content. A metrics emission is returned as a `Simulation.MetricsEvent` instead.
- Randomness: `random.choice` in `_choose_destination` is returned as `Uniform(floors)`, the set it draws from. `Poisson` takes the value of `exp(-lam)` and the sequence of uniform draws as parameters.
- Arrivals.ChooseDestination: when the origin is the only floor, `random.choice` raises on the empty list. The model returns `Uniform([])` instead of an error.
- Arrivals.Poisson: returns None when the supplied draws run out before the loop stops. Termination of the Python loop and the float value of `exp` are not modelled.
- Arrivals.PoissonConsumes: the running product is exact `real` multiplication, so it does not model float rounding of `p *= random()`.
- `_generate_passenger_arrivals` and the call `self.building.dispatch(...)` in `Simulation.step` are not modelled. `dispatch` is not defined in `src/simulation/building.py`. `Simulation.Tick` models the rest of `step`: the car loop, the metrics emission and the clock.
- The square root in the triangular branch of `estimate_travel_time` is the parameter `root`. Only its non-negativity is assumed, in `Travel.EstimateNonNegative`.
- Floating point: car positions and speeds are integers, so `round` never meets a half. Metrics and snapshot fields are `real`, so there is no rounding in divisions or in the percentile index.
- Registry.Lower: `str.lower()` is modelled for ASCII letters only.
- Registry.GetScheduler: keyword arguments are limited to `cluster_size`. Any keyword passed to FCFS or SCAN is rejected the way Python's `TypeError` would reject it.
- `Building.num_floors` is not stored. The floor list is built from it, and every later lookup agrees with the list's length.
- `Passenger.metadata` is unused and left out, as is the `reason` argument of `trigger_fault`, which the car ignores.
- `Elevator.acceleration_floors_per_tick2` is never read by the car and is left out.
- The door state and its `_door_timer` and `_stop_handled` fields are one datatype, `Elevators.Door`. Both fields are reset on every opening.
- Fcfs.SelectCallsServesNone, Fcfs.NoRoomNoAssignment and DestinationDispatch.SelectCallsNoRoom require at least one rider per request. This follows the code: a request with `passenger_count <= 0` passes the first tier (`available_capacity >= passenger_count`), even for a car with no room. `Fcfs.SelectCallsTotal` states the exact count for every input.
