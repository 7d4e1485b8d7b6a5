# MyPrep in Dafny

A Dafny model of the interview-preparation repository MyPrep. It covers the ad-event aggregation engine,
which is the headline component, and the stand-alone sequential algorithms beside it. Each Java
component is one Dafny module in its own file. Stateful Java classes are Dafny classes whose
methods are proved against pure specification functions. Pure Java helpers are Dafny functions.

## Ad-event aggregation engine

- `wrappers.dfy` (`Wrappers`): `Option`, `Result`, and the Java exceptions the engine throws.
- `int_sets.dfy` (`IntSets`): the least element of a finite set of integers, and the ascending
  enumeration of such a set. These stand for the key order of a `TreeMap`.
- `ad_click.dfy` (`AdClick`): the single-threaded `AdClickSystem`.
  - The state is a `Store`: per ad, a history `date -> DailyCounter` and a seen set of
    `(timestamp, type)` keys.
  - `Ingest`/`IngestAll` specify batch ingestion with deduplication.
  - `HistoryBuckets` specifies the ascending per-day history.
  - `WindowSum`/`CappedAt` specify the rolling-window cap.
  - `Consistent` is the invariant that every history tallies its seen set.
- `ad_click_ttl.dfy` (`AdClickTtl`): the TTL variant. Before each batch it purges every bucket older
  than `today - RETENTION_DAYS` and appends a record per purged bucket to the persistent log.
  - `Purge`/`PurgeAd` specify the purge.
  - `PurgeLog` specifies the log it writes, for the order in which the ads are visited.
- `ad_click_concurrent.dfy` (`AdClickConcurrent`): the concurrent variant. Each public method is
  one atomic step, and the per-ad lock map is modelled as the set of ads that currently hold a lock.
  It reuses the specification functions of the other two variants.

Dates are integer day numbers. A timestamp is a pair `(date, nanoOfDay)`. Ad UUIDs are integers.
`LocalDate.now()` becomes a `today` parameter.

## Next palindrome

- `next_palindrome.dfy` (`NextPalindrome`): `nextPalindrome` for a positive integer string without
  leading zeros.
  - `NextPal` is the result, case by case: one digit, all nines, the mirror, or the mirror after
    the left half is incremented.
  - `Value` reads a digit string as a number.
  - `IsNextPalindrome` says what the result should be: the least palindrome strictly above the
    input. `NextPalIsNext` proves that `NextPal` meets it.
  - The methods keep the Java `char[]` code, and each is proved to compute its function.
- `next_palindrome_decimal.dfy` (`NextPalindromeDecimal`): `nextPalindromeWithDecimal`, which
  accepts at most one '.'.
  - A '.' at index `length / 2` is kept as the centre of the palindrome.
  - Any other '.' is dropped, and the digits go to the integer routine.
  - `NumLess` compares two decimal strings as numbers.
  - `NextDecimal` models the code as written. `NextDecimalFixed` is the corrected version described
    under Findings.

## Haunted house

- `haunted_house.dfy` (`HauntedHouse`): the largest group size k such that at least k people
  accept a group of k. Person i accepts k when `low_i + 1 <= k <= high_i + 1`.
  - `Support` counts the people accepting k. `LargestAtLeast` is the answer for a table of counts.
  - `Solution` is the O(n²) count with its early return.
  - `SolutionThree` builds the events, sorts them (`SortByPosition`), and sweeps them
    (`SweepEvents`). `SolutionFour` is the difference array.
  - Both running-sum versions compute `Net`: ranges started minus ranges ended. `NetIsSupport`
    shows that `Net` equals `Support` when every person has `low <= high`.

## Local minima

- `local_minima.dfy` (`LocalMinima`): `IsLocalMin` is the local-minimum test of both 1-D routines.
  - `AllLocalMinima` is the linear scan. `ALocalMinima` is the binary search. `LocalMinExists`
    shows that a least entry is always a local minimum.
  - `TwoDLocalMinima` is the best-first search on a grid. The queue is a sequence of `Point`
    values, and `poll` takes `FirstMin`: the first entry that is least by distance, then by
    value. The two loops over the four directions are the methods `CheckNeighbours` and
    `QueueNeighbours`. The search never returns null. The checked cells stay closed under
    in-grid neighbours up to the queue. If the queue ran out, a least checked cell would be
    a local minimum, and it would have been returned when it was checked (`ClosedHasLocalMin`).
  - `KLocalMinima` keeps a bounded max-heap. The heap is the sequence of its contents, and
    `Offer` is `add` followed by `poll` of a largest value. `KeepsSmallest` is the invariant:
    the heap holds the k smallest local-minimum values seen so far.

## Inverted index

`InvertedIndex/WithoutRoaringBitMap.java` keeps, for each lower-cased keyword, the ids of the messages that contain it. Ids are appended in arrival order. A single-keyword search returns that list, or the empty list. An AND search gathers one list per keyword and sorts the lists by size. It then intersects them from the smallest with a two-pointer merge, stopping as soon as the result is empty.

- `InvertedIndex.InvertedIndex` is a class whose `index` field is the keyword map.
- `IndexMessage` is proved equal to `AddAll` over the message's words. `AddAllPostings` says what that does to each list.
- `Intersect` is proved against multiset intersection. `CommonMembers` and `StrictIntersection` turn that into "exactly the common ids, ascending" for strictly increasing lists.
- `AddAllSorted` shows that increasing ids keep every list sorted. This is the condition under which `SearchMultiple` returns every common id.

## Longest stable window

- `n_stable.dfy` (`NStable`): `NStable.java` finds the longest contiguous window of the first n values in which any two values differ by at most m.
  - `IsLongest` is the specification. Every stable window is no longer than the answer, and some stable window has exactly that length (or the answer is 0).
  - `SolutionOne` to `SolutionThree` scan every window in row order, start then end. They share the scan invariant `Covers` and the step lemmas `ScanStep` and `NextStart`.
  - `SolutionFourth` slides a window. The `TreeMap` of value counts is a `multiset`. `Shrink` is its inner loop, and it keeps the multiset equal to the window's values.
  - `LongestUnique` shows that all four solutions return the same value.

## Content popularity

- `content_popularity.dfy` (`ContentPopularity`) models `ContentPopularity/followup1.java`. The class `PopularContent` keeps the id-to-popularity map and a bucket of ids per popularity, sorted by key.
  - `Bump` is the specification of one change. `Buckets` is the class invariant.
  - `Update` is proved to keep the invariant through `Detach` (leave the old bucket) and `Attach` (join the new one).
  - `BucketsDetermined` shows that the buckets are a function of the popularity map.
- `content_popularity_optimized.dfy` (`ContentPopularityOptimized`) models `ContentPopularity/followup2.java`. It stores only positive popularities, and it also keeps a count per popularity and the current maximum.
  - `MoveId` performs the first two steps of an update on the three maps as values.
  - `MaxStep` is the rule for the new maximum. `MaxMeaning` shows what the maximum says about the stored popularities.

## Commodity prices

`commodity_pricing.dfy` (`CommodityPricing`) models `CommodityPricing/follow1.java` and `CommodityPricing/follow2.java`. Each keeps a price per timestamp; upserting a timestamp that is already stored replaces its price.

- `RunningCommodityPrice` keeps a positive count per price, sorted by key. The invariant `Tally` says each count is the number of timestamps at that price, and `TallyDetermined` shows the counts are fixed by the prices.
- `RunningCommodityPriceOptimized` keeps counts that may stay at 0, plus a running maximum. `MaxOf` says the maximum is the largest current price, or `Integer.MIN_VALUE` while nothing is stored. The upsert is split into `RemoveOldPrice`, which takes out the old occurrence and rescans when needed, and the insertion of the new price.

## Closest common group

Four modules model `Employee/follow1.java`, `Employee/follow2.java` and `Employee/follow4.java`. An organisation maps each employee to the set of groups they belong to. The query takes a set of employees and looks for the closest group that contains all of them.

- `group_queries.dfy` (`GroupQueries`) holds what the first two share.
  - `LexLess` is `String.compareTo(...) < 0`. It is proved irreflexive, transitive, total on distinct strings, and asymmetric.
  - `CommonAncestors` intersects, employee by employee, the union of the ancestor sets of each employee's groups. It stops as soon as the intersection is empty.
  - `PickDeepest` scans the candidates for the greatest depth. Ties go to the lexicographically smallest id.
- `employee_tree.dfy` (`EmployeeTree`) is the single-parent hierarchy.
  - `Walk` follows parent links with a fuel bound.
  - The ancestors of a group are the chain of ids visited up to a root, or up to a parent id that was never registered. `Acyclic` states that every walk ends.
  - `Org` memoises the chains and sets each depth to the chain length minus one.
  - Reading the depth of an unregistered common ancestor throws in Java. Here it is the `NullPointerException` error result.
- `employee_dag.dfy` (`EmployeeDag`) lets a group have several parents.
  - A ghost rank map witnesses that there is no cycle.
  - `IsAnc`/`AncSet` are the reflexive-transitive closure of the parent links.
  - `Depth` is the longest parent path to a root. `DepthSpec` characterises it.
  - The memoised `ComputeAncestors` and `ComputeDepth` are proved equal to these.
- `employee_flat.dfy` (`EmployeeFlat`) has no subgroups. The answer is the lexicographically smallest group that holds every queried employee.

Each module's demo is proved to give the answer its source prints: A, R1, and then G1, G3 and null.

## Interval schedules

Two modules model `ScheduleInterval/FollowUpOneAnd2.java` and `ScheduleInterval/DynamicSchedulerFollowUpThreeAnd4.java`. An instant is an integer count of nanoseconds in UTC. A date is its epoch day number, so a day starts at its number times the length of a day. An interval is closed: both ends belong to it.

- `schedule_interval.dfy` (`ScheduleInterval`) builds a fixed schedule.
  - `CreateSchedule` alternates "on" and "off" periods of the given number of hours. It starts at the start of the first date and keeps the "on" ones, the last cut at the final nanosecond of the end date. `IsSchedule` describes the result slot by slot.
  - `ScheduleOrdered` shows a schedule is sorted and disjoint. On such a list the binary search `IsTimestampIncluded` gives exactly the answer of the linear scan `IsTimestampIncludedLinear`.
  - `Example` is the demo: 2023-10-01 to 2023-10-03 with 9-hour periods.
- `dynamic_scheduler.dfy` (`DynamicScheduling`) keeps intervals in a map from start to interval, which stands for the `TreeMap`. `floorEntry` and `ceilingEntry` become `FloorKey` and `CeilingKey` over the key set.
  - Adding an interval (`Merge`, split into `MergeFloor` and `MergeCeiling`) merges it with every stored interval that overlaps it or shares an end point with it. The active instants become the old ones plus the new interval's. `Separated` (a gap after every interval) is kept.
  - Removing an interval cuts it out of the floor interval only (`CutOut`). No instant becomes active, the floor interval's instants strictly inside the removed one stop being active, and every instant outside it stays active.
  - `IsActive` looks only at the floor interval. It is exact when no two stored intervals overlap.

## Tennis courts

Four modules model `ExpandingTennisClub/follow1.java` to `follow4.java`. A booking holds a court over the half-open span [start, finish). `Overlap(bs, t)` counts the bookings in use at instant t.

- `tennis_courts.dfy` (`TennisCourts`) holds what the follow-ups share.
  - `SortByStart` is a stable insertion sort; it stands for `bookings.sort(...)`.
  - `Issued(rs)` is the number of courts opened by the assignments rs, and `LastOn(rs, c)` is the last assignment to court c.
  - `AnyAssignmentNeeds` is the lower bound: any assignment that never puts two bookings in use at the same instant on one court uses at least `Overlap(bs, t)` courts.
- `tennis_assign.dfy` (`TennisAssign`) models `assignCourts` and `assignCourtsWithMaintenance`.
  - The heap is a map from court id to the time the court is next free. `Peek` returns a court whose free time is least.
  - `AssignedAt` states which court each booking takes: the heap's top if it is free by the start, otherwise a new court numbered one past those opened.
  - `AssignCourts` is the case with no maintenance. `AssignCourtsMinimal` shows it opens exactly the largest number of bookings in use at one instant. The first dry run says booking 4 reuses court 1, but at that point court 2 is free first (at 6, court 1 at 7). The code therefore gives booking 4 court 2, and `DemoCourts` states that.
- `tennis_durability.dfy` (`TennisDurability`) models `assignCourtsWithDurability`.
  - `CourtState` is a class whose objects `Take` updates in place. The heap maps each court id to its object.
  - `Replay` gives the value of every court's state after a list of assignments.
  - `ReplayCycle` shows that, with a durability of at least 2, a court goes to maintenance after exactly every durability-th booking on it.
- `tennis_sweep.dfy` (`TennisSweep`) models `minCourtsNeeded` and `isConflict`.
  - `MinCourtsNeeded` copies the starts and ends into arrays, sorts both in place and runs the sweep `Sweep`.
  - Reading `ends[j]` with j = n throws `ArrayIndexOutOfBoundsException`. The model returns that as an error. It happens exactly when some booking starts no earlier than every booking finishes.
  - `CountsAgree` shows the sweep's count equals the number of courts `assignCourts` opens.

## Meeting rooms

- `meeting_room.dfy` (`MeetingRoom`): `MeetingScheduler` as a class.
  - The busy priority queue is a sequence of `RoomSlot`s kept in order of end time, so its head is the slot a poll returns.
  - The available rooms and the log are sequences used as queues.
  - Ghost fields record the rooms given to the constructor, the rooms dropped by `CleanUpBusyRooms`, and every reservation made.
- `Reserved` specifies one reservation on values:
  - the slots due by the start give their rooms back, in polling order;
  - the head of the available rooms is then taken;
  - if no room is left, the reservation is refused and nothing changes.
- `Scheduled` is the invariant:
  - the busy queue is in order of end time;
  - every room is available, busy or dropped;
  - the log holds at most five reservations, the newest ones made.
- `CleanUpBusyRooms` polls stale slots and discards them. Their rooms are not returned to the available queue, so a scheduler can run out of rooms with no meeting running (`CleanUpExample`).
- The reservation UUID is an integer parameter `id`.

## Service discovery

- `service_discovery.dfy` (`ServiceDiscovery`): the build-order resolver.
  - The dependency map is a `Graph` value, and a missing key means no dependencies.
  - `DiscoverDFS`/`Discover` collect exactly the components the package reaches.
  - `BuildGraph` builds the reversed edges (dependency to dependent) and the in-degrees.
  - `InitQueue` and `Kahn` run Kahn's topological sort on them.
  - `DependencyResolver` returns the order, or a `RuntimeException` result.
  - The result is specified against paths in the graph: with no cycle below the package, the order lists every reachable component once, after all of its dependencies; otherwise the call fails.

## Parking lot

- `parking.dfy` (`Parking`): the multi-level lot.
  - Spots (`ParkingSpot`) hold at most one vehicle. A motorcycle fits any spot; a car or a bus needs a car spot.
  - A `Level` searches for the lowest run of consecutive free, fitting spots. A bus needs five, any other vehicle one.
  - `ParkingLot` tries its levels in order, files each ticket under its id and under the plate, and on `Unpark` frees the spots on the level that the first spot's id names.
  - The search is specified by `Lowest`, the least start of a run, and the lot's search by `FirstLevel`. Parking then unparking restores every spot and the active tickets.
- `parking_segments.dfy` (`ParkingSegments`): the optimised level, which keeps its free spots as an ordered map from segment start to segment length.
  - `Segments` states the map's shape: segments lie inside the level, are non-empty, and never touch.
  - `Allocate` and `Coalesce` are the map updates of `allocateSegment` and `mergeFreeSegment`. Both keep the shape and change the free indices by exactly the allocated or freed range.
  - `FirstFit` (the first segment long enough) is the lowest run of free spots. Allocating and then freeing the same range gives back the same map.
  - `SegmentLevel` keeps each spot free exactly when a segment covers it.

## Quad trees

- `quad_tree.dfy` (`QuadTree`): region quad trees of an integer image.
  - A leaf holds the value of a uniform region. A node splits its region into four quadrants.
  - The square builder halves the side. Its internal nodes hold -1.
  - The rectangular builder splits both sides at their midpoints. Its internal nodes hold 0.
  - `Uniform` is the specification of both `isUniform` loops.
  - `Cell` reads the value that a tree gives one cell when it is expanded the way `fill` does. `SquareCell` reads it the way the square builder halves sides.
  - Building a tree and then expanding or filling it reproduces the image. For the square builder this holds when the side is a power of two.

## Tournament draws

- `draw_generator.dfy` (`DrawGenerator`): knockout draws for a tennis tournament, where a smaller rank is a better player.
  - `Rounds` plays a draw round by round. Each adjacent pair is won by the better rank. A round of odd length above one reads past the end of the list and throws.
  - `FeasibleDraw` seeds a bracket by doubling. Each player p of a list of s players is followed by the opponent 2s - p + 1. This repeats until the list has n players. A size that never reaches n recurses without end, which is modelled as `StackOverflowError`.
  - `IsPowerOfTwo` is the 32-bit bit test `n & (n - 1) == 0`. `NextPow` is the smallest power of two that is at least n.
  - `DrawGeneral` pads the bracket to a power of two and writes each extra player as a bye (-1).
  - `AllDraws` lists every bracket obtained by recursively swapping the two halves of the draw.
  - `powers.dfy` (`PowersOfTwo`) holds the power-of-two predicate that this module shares with the quad trees.

## N-ary boundary walk

- `nary_walk.dfy` (`NaryWalk`): the walk of `NaryviewWalk.bfs` over an N-ary tree.
  - A `Tree` numbers its nodes 0..n-1 with the root 0, and lists each node's children in order. A child's id is above its parent's.
  - `BfsOrder` is the order in which a FIFO queue takes the nodes. `Depth` counts the edges up to the root.
  - `FirstDeepest` and `LastDeepest` are the first and last leaves of the largest depth in that order.
  - `Walk` climbs from the first deepest leaf to the root and descends to the last one, listing the root once.

## Number of islands

- `union_find.dfy` (`UnionFind`): the disjoint-set forest shared by the DSU terrains.
  - `parent` and `rank` are maps. `Forest` says every parent chain ends at a root, with ranks increasing strictly up the chain.
  - `Root` is the representative that `find` returns.
  - Lemmas show that path compression and union by rank (link the lower rank under the higher, and on a tie raise the new root's rank) keep the forest valid. Every element's representative is kept, except that the two joined classes merge.
  - `Dsu` is the `makeSet`/`find`/`union` object.
  - `PartitionCount` and `UnionStep` tie the forest to a graph: once every adjacent pair of land cells has been unioned, the representatives are exactly the connected components.
- `connectivity.dfy` (`Connectivity`): paths, connectivity and component counts over an arbitrary symmetric adjacency. A component count is the size of any set of pairwise unconnected representatives that reaches every node. It also shows that a bijection preserving adjacency preserves the count.
- `islands.dfy` (`Islands`): points, the four default directions and the neighbour lists built from a direction list. It also holds the loop invariants of `addLand`: the forest partitions the land into components, and `islandCount` is their number.
- The DSU terrains each count islands after every `addLand`. Each keeps the invariant that `islandCount` equals the number of components of the land under its adjacency:
  - `dsu_prod.dfy` (`DsuProd`): 2D points with the four directions;
  - `dsu3d.dfy` (`Dsu3D`): 3D points with a caller-given direction list; its `main` passes the six axis directions;
  - `configurable_terrain.dfy` (`ConfigurableTerrain`): a caller-given direction list;
  - `dsu_sparse.dfy` (`DsuSparse`): a map-backed forest;
  - `dsu_non_sparse.dfy` (`DsuNonSparse`): a bounded grid, a `terrain` array and an array-style forest indexed by `x * col + y`.
- The BFS counters count the components of the land under four-direction adjacency inside the grid:
  - `grid_bfs.dfy` (`GridBfs`) holds their shared invariants. A search from a start cell marks exactly the land reachable from it without passing through visited cells.
  - `sparse_bfs.dfy` (`SparseBfs`): a land set with a BFS over a queue.
  - `number_of_islands_bfs.dfy` (`NumberOfIslandsBfs`): an `int` grid holding 0 for water and 1 for land, a boolean `vis` array and a row-by-row scan.

## k-th largest in a search tree

- `binary_trees.dfy` (`BinaryTrees`): the shape of a binary tree of heap nodes.
  - `RevIn` is its reverse in-order: largest key first in a search tree.
  - The walk invariants (`Walk`, `Layout`, `Threaded`) are shared by both threaded traversals. They record the nodes visited so far, the threads in place and the subtrees still to visit.
- `morris.dfy` (`Morris`): `findKthLargest` as a reverse Morris traversal over mutable nodes.
  - The result is the k-th node of `RevIn`, or none when k is out of range.
  - Right links are never changed.
  - When nothing is found, every left link is restored.
- `threaded_bst.dfy` (`ThreadedBst`): `createLeftThreadedBST` and `kthLargest`.
  - Threading leaves the left links as they were. It chains the nodes through their right links in reverse in-order and marks every node as a thread.
  - `kthLargest` is modelled as written and also in a corrected form (see Findings).

## Model

| member | source | states |
|---|---|---|
| AdClick.SameSeenEvent | ADCLICKEVENT/sol.java:58-63 | two dedupe keys are equal exactly when their timestamps and types are equal |
| AdClick.DuplicateIsNoop | ADCLICKEVENT/sol.java:80-84 | an event whose key is already in its ad's seen set leaves the whole store unchanged |
| AdClick.FreshCountsOnce | ADCLICKEVENT/sol.java:86-97 | a new event adds its key to its ad's seen set, raises exactly one counter of its date by one (impressions or clicks by type), and leaves every other ad, date and seen set unchanged |
| AdClick.IngestConsistent | ADCLICKEVENT/sol.java:75-99 | ingestion keeps the invariant: both stores have the same ads, and per ad and date the counters equal the number of seen keys of that date and type |
| AdClick.IngestAllConsistent | ADCLICKEVENT/sol.java:75-99 | a whole batch keeps the same invariant |
| AdClick.TallyTotal | ADCLICKEVENT/sol.java:75-99 | under the invariant, impressions plus clicks over all buckets of an ad equals the size of its seen set |
| AdClick.IngestAllGrowsSeen | ADCLICKEVENT/sol.java:77-86 | seen sets only grow, and after a batch every event's key is in its ad's seen set |
| AdClick.ResubmitIsNoop | ADCLICKEVENT/sol.java:75-99 | ingesting the same batch a second time changes nothing |
| AdClick.HistoryBucketsSpec | ADCLICKEVENT/sol.java:105-110 | the history has one bucket per stored date, in strictly ascending date order, each carrying that date's counts |
| AdClick.ToBuckets | ADCLICKEVENT/sol.java:105-110 | one bucket per listed date, carrying that date's counters |
| AdClick.WindowCovers | ADCLICKEVENT/sol.java:121-127 | the window sum counts every day inside the window |
| AdClick.ImpressionsOnlyGrow | ADCLICKEVENT/sol.java:75-99 | after any batch no day of an ad has fewer impressions than before, and a known ad stays known |
| AdClick.ImpressionsKeepCap | ADCLICKEVENT/sol.java:121-128 | a batch of impressions only cannot lift a cap |
| AdClick.ClickInWindowUncaps | ADCLICKEVENT/sol.java:121-128 | a batch holding a click dated inside the window leaves the ad uncapped |
| AdClick.AdClickSystem.ConsumeAdEvents | ADCLICKEVENT/sol.java:75-99 | the new store is `IngestAll` of the old store and the batch, and the invariant is kept |
| AdClick.AdClickSystem.GetDailyAdEventHistory | ADCLICKEVENT/sol.java:100-111 | an unknown ad gives `IllegalArgumentException`; otherwise the result is the ascending history |
| AdClick.AdClickSystem.IsAdCappedAtDate | ADCLICKEVENT/sol.java:112-129 | an unknown ad gives `IllegalArgumentException`; otherwise the result is `CappedAt`: impressions in the closed window reach `IMPRESSION_LIMIT` and it holds no click |
| AdClick.SumWindow | ADCLICKEVENT/sol.java:117-127 | the day-by-day loop over the closed window computes `WindowSum`, a missing day counting zero |
| AdClickTtl.TakeBeforeSpec | ADCLICKEVENT/TTL.java:46-53 | the early-exit scan of an ascending key list yields, ascending, exactly the keys before the cutoff |
| AdClickTtl.ExpiredDaysSpec | ADCLICKEVENT/TTL.java:43-53 | the days collected for removal are, ascending, exactly the history's days before the cutoff |
| AdClickTtl.Records | ADCLICKEVENT/TTL.java:56-59 | one log record per removed day, in removal order, carrying the removed counter |
| AdClickTtl.PurgeSafety | ADCLICKEVENT/TTL.java:45-64 | after a purge no bucket is dated before the cutoff, no ad has an empty history, and every day at or after the cutoff keeps its counts |
| AdClickTtl.PurgeForgets | ADCLICKEVENT/TTL.java:61-64 | an ad survives a purge exactly when it had a day at or after the cutoff, and it keeps its seen set exactly when it keeps its history |
| AdClickTtl.PurgeKeepsFresh | ADCLICKEVENT/TTL.java:45-64 | an ad with nothing older than the cutoff keeps its history and seen set |
| AdClickTtl.Conservation | ADCLICKEVENT/TTL.java:56-59 | the counts left in a history plus the counts logged for it equal the counts before the purge |
| AdClickTtl.ExpiredRecordsSpec | ADCLICKEVENT/TTL.java:56-72 | the records logged for an ad are exactly its expired days, each once, oldest first, with their counters |
| AdClickTtl.PurgeLogOfAd | ADCLICKEVENT/TTL.java:40-72 | whatever order the ads are visited in, the log records of one ad are exactly that ad's expired records |
| AdClickTtl.PurgeAdsIsPurgeSet | ADCLICKEVENT/TTL.java:40 | purging the ads one by one in any order of the key snapshot gives the same store |
| AdClickTtl.PurgeSameAds | ADCLICKEVENT/TTL.java:61-64 | a purge keeps both stores on the same set of ads |
| AdClickTtl.IngestAllSameAds | ADCLICKEVENT/TTL.java:14-34 | ingestion keeps both stores on the same set of ads |
| AdClickTtl.ReplayAfterPurgeCounts | ADCLICKEVENT/TTL.java:61-64 | an event already counted is a no-op before the purge, but once its ad has been dropped the same event is counted again |
| AdClickTtl.CollectExpiredDays | ADCLICKEVENT/TTL.java:43-53 | the loop collects `ExpiredDays` of the history |
| AdClickTtl.AdClickSystemTtl.DumpExpiredDataToPersistentStore | ADCLICKEVENT/TTL.java:69-72 | appends one record to the log and changes nothing else |
| AdClickTtl.AdClickSystemTtl.RemoveAndPersist | ADCLICKEVENT/TTL.java:56-59 | the listed days leave the history and their records are appended to the log in list order |
| AdClickTtl.AdClickSystemTtl.PurgeAdData | ADCLICKEVENT/TTL.java:42-64 | the store becomes `PurgeAd` of the old one, and the log grows by the ad's expired records |
| AdClickTtl.AdClickSystemTtl.PurgeOldData | ADCLICKEVENT/TTL.java:38-66 | every ad of the key snapshot is visited once; the store becomes `Purge` of the old store, and the log grows by `PurgeLog` in that visiting order |
| AdClickTtl.AdClickSystemTtl.ConsumeAdEvents | ADCLICKEVENT/TTL.java:7-35 | the store becomes `IngestAll(Purge(old, today - RETENTION_DAYS), events)`: the purge happens before any event of the batch is ingested |
| AdClickTtl.AdClickSystemTtl.IngestBatch | ADCLICKEVENT/TTL.java:14-34 | the ingest loop gives `IngestAll` of the store and leaves the log alone |
| AdClickConcurrent.NothingExpired | ADCLICKEVENT/ConcurrentCode.java:253-254 | a history with no day before the cutoff is kept whole |
| AdClickConcurrent.PurgeEmptyAd | ADCLICKEVENT/ConcurrentCode.java:244-250 | purging an ad with an empty history drops it from both stores and logs nothing |
| AdClickConcurrent.PurgeUnexpiredAd | ADCLICKEVENT/ConcurrentCode.java:253-254 | purging an ad with no expired day changes nothing and logs nothing |
| AdClickConcurrent.FreshAdUnchanged | ADCLICKEVENT/ConcurrentCode.java:253-254 | an ad all of whose days are at or after the cutoff is left unchanged by the purge |
| AdClickConcurrent.WindowSkip | ADCLICKEVENT/ConcurrentCode.java:216 | days of the window with no bucket add nothing to the window sum |
| AdClickConcurrent.SubMapStep | ADCLICKEVENT/ConcurrentCode.java:216-220 | taking the least remaining key of the range view adds exactly that day's counters to the running window sum |
| AdClickConcurrent.LockProgressDone | ADCLICKEVENT/ConcurrentCode.java:240-270 | once all ads are visited, the ads holding a lock are exactly the ads left after the purge |
| AdClickConcurrent.ConcurrentAdClickSystem.ConsumeAdEvents | ADCLICKEVENT/ConcurrentCode.java:155-180 | the store becomes `IngestAll` of the old store, exactly as in the single-threaded version |
| AdClickConcurrent.ConcurrentAdClickSystem.ConsumeAdEvent | ADCLICKEVENT/ConcurrentCode.java:159-178 | one event: a key already seen is skipped, and otherwise the history and the date bucket are created on first use and one counter is raised |
| AdClickConcurrent.ConcurrentAdClickSystem.GetDailyAdEventHistory | ADCLICKEVENT/ConcurrentCode.java:186-199 | an unknown ad gives `IllegalArgumentException`; otherwise the result is the ascending history |
| AdClickConcurrent.ConcurrentAdClickSystem.IsAdCappedAtDate | ADCLICKEVENT/ConcurrentCode.java:205-223 | an unknown ad gives `IllegalArgumentException`; otherwise the result is `CappedAt`, as in the single-threaded version |
| AdClickConcurrent.ConcurrentAdClickSystem.SumSubMap | ADCLICKEVENT/ConcurrentCode.java:211-220 | summing the entries of the range view `[start, date]` in key order gives `WindowSum` |
| AdClickConcurrent.ConcurrentAdClickSystem.RemoveAndPersist | ADCLICKEVENT/ConcurrentCode.java:257-264 | the listed days leave the history, and each record is logged after its removal, in list order |
| AdClickConcurrent.ConcurrentAdClickSystem.PurgeAdData | ADCLICKEVENT/ConcurrentCode.java:240-273 | the store becomes `PurgeAd` of the old one; the ad keeps its lock exactly when it survives; the log grows by its expired records |
| AdClickConcurrent.ConcurrentAdClickSystem.DropAd | ADCLICKEVENT/ConcurrentCode.java:246-248 | the ad leaves the event store, the seen store and the lock map |
| AdClickConcurrent.ConcurrentAdClickSystem.ExpireDays | ADCLICKEVENT/ConcurrentCode.java:257-270 | expired days are removed and logged, and an ad left empty is dropped with its lock |
| AdClickConcurrent.ConcurrentAdClickSystem.PurgeOldData | ADCLICKEVENT/ConcurrentCode.java:235-275 | over the key snapshot the store becomes `Purge` of the old store, the lock map holds exactly the surviving ads, and the log grows by `PurgeLog` |
| AdClickConcurrent.ConcurrentAdClickSystem.ScheduledPurge | ADCLICKEVENT/ConcurrentCode.java:139-146 | one run of the scheduled purger purges with cutoff `today - RETENTION_DAYS` |
| Codec.FromToBE | codec/codec.java:94-95 | reading back the n big-endian bytes written for a value gives the value |
| Codec.SignedUnsigned | codec/codec.java:132 | the two's-complement bit pattern of a signed value reads back as the same signed value |
| Codec.GetPutInt | codec/codec.java:132 | `getInt` after `putInt` returns the written int, whatever bytes follow |
| Codec.GetPutLong | codec/codec.java:134 | `getLong` after `putLong` returns the written long, whatever bytes follow |
| Codec.EncodePart | codec/codec.java:89-126 | a null part is rejected with `IllegalArgumentException`; any other part becomes its tag, a 4-byte big-endian length equal to the payload size, then the payload |
| Codec.PayloadSizes | codec/codec.java:92-110 | INT32, INT64 and UUID payloads are exactly 4, 8 and 16 bytes |
| Codec.DecodePart | codec/codec.java:128-146 | an unknown tag is rejected with `IllegalArgumentException` |
| Codec.DecodeEncodedPart | codec/codec.java:128-146 | decoding the tag and payload of a part gives the part back: the same int, long or UUID, and byte-equal byte arrays and strings |
| Codec.EncodeAppend | codec/codec.java:37-49 | encoding is concatenative: the encoding of `a ++ b` is the encoding of `a` followed by that of `b`, and it fails if either fails |
| Codec.EncodeFails | codec/codec.java:41-45 | encoding fails exactly when some part is null, and then with `IllegalArgumentException` |
| Codec.EncodeLength | codec/codec.java:39-48 | the encoded length is the sum of the chunk lengths, 5 plus the payload size per part |
| Codec.DecodeRejectsLength | codec/codec.java:56-59 | a length field that is negative or exceeds the remaining bytes is rejected with `IllegalArgumentException` |
| Codec.DecodeRejectsTag | codec/codec.java:143-144 | a well-framed field with an unknown tag is rejected with `IllegalArgumentException` |
| Codec.DecodeEncode | codec/codec.java:37-65 | round trip: decoding the encoding of null-free parts gives back the same parts |
| Codec.DecodeEncodeOne | codec/codec.java:89-146 | round trip for a single part of each supported kind |
| Codec.Encode | codec/codec.java:37-49 | the two loops of `encode` (gather the chunks and their total, then copy them into a buffer of that size) compute `EncodeAll` |
| Codec.GatherChunks | codec/codec.java:39-45 | the chunks gathered concatenate to the encoding, or the loop stops with the first part's rejection |
| Codec.Pack | codec/codec.java:46-48 | the buffer of the summed size holds the chunks one after another |
| Codec.Decode | codec/codec.java:51-65 | the cursor loop of `decode` computes `DecodeAll`, including its buffer underflow and its rejections |
| Codec.ReadField | codec/codec.java:55-62 | one iteration of the cursor loop: a buffer too short for the length field underflows, a bad length is rejected, and otherwise the field's part is followed by the parts after it, or the part's own error is returned |
| Codec.DecodeAt | codec/codec.java:55-62 | reading one well-framed field at the cursor yields its part followed by the parts of the rest, or the part's own error |
| Codec.ShardOf | codec/codec.java:71-86 | `numShards <= 0` is rejected with `IllegalArgumentException`; otherwise the shard lies in `[0, numShards)` |
| Codec.ShardForKey | codec/codec.java:76-82 | the shift-and-or loop over the first 8 digest bytes, the sign mask and the modulus compute `ShardOf` |
| NextPalindrome.NextPalIsNext | NextPalindrome/NextGreaterPalindrome.java:3-43 | for a positive integer without leading zeros the result is a palindrome without leading zeros, strictly greater, and no such palindrome lies strictly between the two |
| NextPalindrome.NextSameLength | NextPalindrome/NextGreaterPalindrome.java:28-42 | for at least two digits, not all nines, the result has the same length and is the least same-length palindrome above the input, leading zeros allowed |
| NextPalindrome.NextPalAbove | NextPalindrome/NextGreaterPalindrome.java:14-42 | for any digit string the result is a digit string of larger value |
| NextPalindrome.NextPalPalindrome | NextPalindrome/NextGreaterPalindrome.java:14-42 | for any digit string the result reads the same both ways |
| NextPalindrome.NextOfNines | NextPalindrome/NextGreaterPalindrome.java:22-27 | for all nines, "1", n-1 zeros and "1" is the next palindrome |
| NextPalindrome.NextPalShapes | NextPalindrome/NextGreaterPalindrome.java:14-42 | a digit below 9 gives the next digit, all nines give "1", n-1 zeros and "1", and otherwise the length is kept |
| NextPalindrome.MirrorNext | NextPalindrome/NextGreaterPalindrome.java:31-35 | when the mirrored string is greater it is the next same-length palindrome |
| NextPalindrome.IncrementNext | NextPalindrome/NextGreaterPalindrome.java:39-42 | when the mirrored string is not greater, mirroring after the half is incremented gives the next same-length palindrome |
| NextPalindrome.CarryStaysInside | NextPalindrome/NextGreaterPalindrome.java:68-78 | when the mirror is not greater and the input is not all nines, the left half is not all nines, so the carry never reaches index -1 |
| NextPalindrome.PowerNotPalindrome | NextPalindrome/NextGreaterPalindrome.java:22-27 | 10^n is never a palindrome, so the all-nines answer skips nothing |
| NextPalindrome.LexValue | NextPalindrome/NextGreaterPalindrome.java:52-58 | on equal-length digit strings the character comparison agrees with the numeric order |
| NextPalindrome.IncDigitsValue | NextPalindrome/NextGreaterPalindrome.java:68-78 | incrementing a digit string that is not all nines adds one to its value |
| NextPalindrome.MirroredSpec | NextPalindrome/NextGreaterPalindrome.java:60-66 | the mirrored string is a palindrome that keeps the first half |
| NextPalindrome.PalindromeOfHalf | NextPalindrome/NextGreaterPalindrome.java:60-66 | a palindrome is determined by its first half: it is the mirror of any string sharing that half |
| NextPalindrome.AllNinesScan | NextPalindrome/NextGreaterPalindrome.java:47-50 | returns true exactly when every character is '9' |
| NextPalindrome.IsGreater | NextPalindrome/NextGreaterPalindrome.java:52-58 | returns true exactly when the first array is lexicographically greater than the prefix of the second |
| NextPalindrome.Mirror | NextPalindrome/NextGreaterPalindrome.java:60-66 | the array becomes the mirror of its old contents: each right-half position copies its left partner |
| NextPalindrome.IncrementMiddle | NextPalindrome/NextGreaterPalindrome.java:68-78 | the first half is incremented with carry and the rest is unchanged |
| NextPalindrome.OneZerosOne | NextPalindrome/NextGreaterPalindrome.java:23-26 | builds "1", n-1 zeros, "1" |
| NextPalindrome.NextPalindromeOf | NextPalindrome/NextGreaterPalindrome.java:3-43 | input not matching `[1-9]\d*` gives `IllegalArgumentException`; otherwise the result is `NextPal` |
| NextPalindrome.IncrementAndMirror | NextPalindrome/NextGreaterPalindrome.java:39-42 | incrementing the middle and mirroring gives the mirror of the input with its half incremented |
| NextPalindromeDecimal.DotIndex | NextPalindrome/NExtGReaterPAlindromeDEcimal.java:14 | the index of the first '.', or -1 exactly when there is none |
| NextPalindromeDecimal.RemoveTheDot | NextPalindrome/NExtGReaterPAlindromeDEcimal.java:22 | dropping the only '.' of a valid input joins the digit runs before and after it |
| NextPalindromeDecimal.CompareOrder | NextPalindrome/NExtGReaterPAlindromeDEcimal.java:70-73 | `compare` is positive exactly when the first string is longer, or as long and lexicographically greater, and zero exactly on equal strings |
| NextPalindromeDecimal.IncrementValue | NextPalindrome/NExtGReaterPAlindromeDEcimal.java:95-108 | `increment` adds one to the value; all nines grow by one digit, otherwise the length is kept |
| NextPalindromeDecimal.AroundDotPalindrome | NextPalindrome/NExtGReaterPAlindromeDEcimal.java:30 | `L + "." + reverse(L)` is a palindrome one character longer than twice `L`, with its '.' in the middle |
| NextPalindromeDecimal.CentredGreater | NextPalindrome/NExtGReaterPAlindromeDEcimal.java:27-36 | when the '.' is at index `length / 2` the result is greater than the input under `compare` |
| NextPalindromeDecimal.NextDecimalPalindrome | NextPalindrome/NExtGReaterPAlindromeDEcimal.java:10-37 | for every valid input the result is a valid decimal string that reads the same both ways |
| NextPalindromeDecimal.NextDecimalFixedAbove | NextPalindrome/NExtGReaterPAlindromeDEcimal.java:10-37 | with the even-length case corrected, the result is a valid decimal palindrome that is a strictly larger number than the input |
| NextPalindromeDecimal.EvenCentredBelow | NextPalindrome/NExtGReaterPAlindromeDEcimal.java:20-33 | as written, "12.5" gives "12.21", a smaller number |
| NextPalindromeDecimal.CompareArr | NextPalindrome/NExtGReaterPAlindromeDEcimal.java:74-79 | the loop returns the character difference at the first differing position, or 0 |
| NextPalindromeDecimal.NextIntegerPalindrome | NextPalindrome/NExtGReaterPAlindromeDEcimal.java:41-65 | the unvalidated integer routine computes `NextPal` |
| NextPalindromeDecimal.IncrementString | NextPalindrome/NExtGReaterPAlindromeDEcimal.java:95-108 | the carry loop from the last digit computes `Increment` |
| NextPalindromeDecimal.NextPalindromeWithDecimal | NextPalindrome/NExtGReaterPAlindromeDEcimal.java:10-37 | input not matching `[0-9]*\.?[0-9]+` gives `IllegalArgumentException`; otherwise the result is `NextDecimal` |
| HauntedHouse.LargestAtLeast | HauntedHouse/n2.java:116-132 | the result is the largest k in [1, top] whose count is at least k, or 0 when there is none |
| HauntedHouse.LargestUnique | HauntedHouse/n2.java:116-132 | that description determines the answer uniquely |
| HauntedHouse.Solution | HauntedHouse/n2.java:116-132 | the double loop, returning k as soon as the count for k reaches k, gives the largest k with at least k supporters, or 0 |
| HauntedHouse.SupportPrefix | HauntedHouse/n2.java:126-128 | the count over a prefix of the people never exceeds the full count, so the early return is sound |
| HauntedHouse.ExampleSupport | HauntedHouse/n2.java:90-96 | the example's supporter counts are 3, 5, 4, 3, 2 for k = 1 .. 5 |
| HauntedHouse.ExampleAnswer | HauntedHouse/n2.java:99-108 | the example's answer is 3 |
| HauntedHouse.NetIsSupport | HauntedHouse/nlogn.java:16-39 | when every person has low <= high, ranges started minus ranges ended at k equals the number of people accepting k |
| HauntedHouse.NetAgreesWithSupport | HauntedHouse/nlogn.java:16-39 | on such inputs, the sweep and the difference array give the answer of the O(n²) count |
| HauntedHouse.PairNet | HauntedHouse/nlogn.java:21-22 | a person's two events, +1 at low + 1 and -1 at high + 2, add that person's share to the running sum |
| HauntedHouse.NetAtAppend | HauntedHouse/nlogn.java:21-22 | the running sum of a concatenation of event lists is the sum of the two running sums |
| HauntedHouse.Insert | HauntedHouse/nlogn.java:24 | insertion adds exactly one event to the multiset of events |
| HauntedHouse.InsertSorted | HauntedHouse/nlogn.java:24 | insertion into a list sorted by position keeps it sorted |
| HauntedHouse.SortByPosition | HauntedHouse/nlogn.java:24 | the sort is a permutation of the events |
| HauntedHouse.SortSorted | HauntedHouse/nlogn.java:24 | the sort's result is sorted by position |
| HauntedHouse.SortNet | HauntedHouse/nlogn.java:24 | sorting leaves the running sum at every position unchanged |
| HauntedHouse.SortPositive | HauntedHouse/nlogn.java:24 | sorting keeps every position at 1 or above |
| HauntedHouse.NetAtPrefix | HauntedHouse/nlogn.java:29-33 | when the consumed events are exactly those at positions up to k, their deltas add up to the running sum at k |
| HauntedHouse.SweepSum | HauntedHouse/nlogn.java:30-33 | in a sorted list, once the events at k are consumed, every remaining event lies beyond k and the consumed deltas equal the running sum at k |
| HauntedHouse.AppendPerson | HauntedHouse/nlogn.java:18-23 | after each person's events are appended, the running sum at every k is the net count of the people so far |
| HauntedHouse.SortedEvents | HauntedHouse/nlogn.java:24 | the sorted events are sorted, at positions of 1 or above, and have the running sums of the people |
| HauntedHouse.SweepEvents | HauntedHouse/nlogn.java:26-38 | the sweep over sorted events returns the largest k in [1, n] whose running sum is at least k, or 0 |
| HauntedHouse.SolutionThree | HauntedHouse/nlogn.java:16-39 | with low >= 0 and high >= -1, the event sweep returns the largest k in [1, n] with net count at least k, or 0 |
| HauntedHouse.NetStep | HauntedHouse/n.java:63-64 | adding the difference entry at k to the running sum at k - 1 gives the running sum at k |
| HauntedHouse.NetZero | HauntedHouse/n.java:60-62 | with every range starting at 1 or later, the running sum at 0 is 0 |
| HauntedHouse.SolutionFour | HauntedHouse/n.java:52-70 | throws `ArrayIndexOutOfBoundsException` exactly when some person below n is missing or has low + 1 or high + 2 outside `diff` of size n + 3; otherwise it returns the largest k in [1, n] with net count at least k, or 0 |
| HauntedHouse.PrefixSweep | HauntedHouse/n.java:60-69 | the running sum of `diff` from index 1 returns the largest k in [1, n] whose net count is at least k, or 0 |
| HauntedHouse.ExampleNet | HauntedHouse/n.java:71-79 | the example gives 3 for the running-sum versions too |
| LocalMinima.AllLocalMinima | LocalMinima/LocalMinima.java:7-16 | the result is strictly ascending and holds exactly the indices i < n whose left neighbour (if any) is not smaller and whose right neighbour (if any) is not smaller |
| LocalMinima.ALocalMinima | LocalMinima/LocalMinima.java:18-34 | for n >= 1 the binary search returns a local minimum; it returns -1 only when n <= 0 |
| LocalMinima.LocalMinExists | LocalMinima/LocalMinima.java:18-34 | every non-empty range has a local minimum: a least entry is one |
| LocalMinima.Examples | LocalMinima/LocalMinima.java:93-95 | the local minima of [4, 8, 2, 10] are indices 0 and 2, and those of [7, 3, 5, 7, 9, 0, 2] are 1 and 5 |
| LocalMinima.FirstMin | LocalMinima/LocalMinima.java:49-57 | `poll` takes an entry that is least by distance, then by value |
| LocalMinima.CheckNeighbours | LocalMinima/LocalMinima.java:64-76 | the loop with its `break` is true exactly when no in-grid 4-neighbour is strictly below the value |
| LocalMinima.NeighboursAre | LocalMinima/LocalMinima.java:80-88 | the listed points are exactly the in-grid unvisited 4-neighbours of (r, c): each describes its own cell and carries its Manhattan distance from the start, and every such neighbour is listed |
| LocalMinima.QueueNeighbours | LocalMinima/LocalMinima.java:80-88 | the loop appends to the queue exactly the in-grid unvisited neighbours, in the DX/DY direction order, each with its Manhattan distance from the start (`Neighbours`) |
| LocalMinima.QueueOpen | LocalMinima/LocalMinima.java:80-88 | the queue becomes the old queue followed by exactly the in-grid unvisited neighbours in direction order (`Neighbours`), so every queued point is an old one or describes an in-grid unvisited cell |
| LocalMinima.Visit | LocalMinima/LocalMinima.java:62-88 | `vis` gains exactly the polled cell, which leaves the unvisited cells and is recorded as processed; the result tells whether no in-grid neighbour is smaller; a local minimum leaves the queue as it was, and otherwise exactly its in-grid unvisited neighbours are appended (`Neighbours`); the search invariant is kept |
| LocalMinima.Search | LocalMinima/LocalMinima.java:56-90 | from an in-grid start on a rectangular grid the search always returns a point, never null; the point describes its own cell and has no strictly smaller in-grid 4-neighbour; no cell is checked twice; the search terminates |
| LocalMinima.Poll | LocalMinima/LocalMinima.java:57 | `poll` takes the `FirstMin` entry and removes it; every other queued cell stays queued |
| LocalMinima.SearchStep | LocalMinima/LocalMinima.java:56-88 | one turn of the loop: either it returns a local minimum, or the full search invariant holds again and the unvisited cells or the queue shrink |
| LocalMinima.CheckFront | LocalMinima/LocalMinima.java:62-88 | an unseen polled cell is either returned as a local minimum, or it is checked and its neighbours are queued, and the search invariant holds with the cell among the checked ones |
| LocalMinima.Resume | LocalMinima/LocalMinima.java:79-88 | once a cell that is not a local minimum has queued its unvisited neighbours, the checked cells are again closed under in-grid neighbours up to the queue, none of them is a local minimum, and the start is checked or queued |
| LocalMinima.CheckedClosed | LocalMinima/LocalMinima.java:79-88 | queueing every unvisited neighbour of the newly checked cell keeps every in-grid neighbour of a checked cell checked or queued |
| LocalMinima.SkippedClosed | LocalMinima/LocalMinima.java:60-61 | skipping an already visited polled cell keeps every in-grid neighbour of a checked cell checked or queued |
| LocalMinima.ClosedHasLocalMin | LocalMinima/LocalMinima.java:56-90 | when the queue is empty, a least-valued checked cell has no smaller in-grid neighbour, so the loop cannot end with `return null` |
| LocalMinima.TwoDLocalMinima | LocalMinima/LocalMinima.java:48-91 | a start outside the grid, or an empty grid, throws `ArrayIndexOutOfBoundsException` at `arr[x][y]`, and only those do; otherwise a point is always returned, never null; it describes its own cell and has no strictly smaller in-grid 4-neighbour, and no cell is checked twice |
| LocalMinima.Offer | LocalMinima/KLocalMinima.java:48-50 | adding a value and polling when over `k` computes `Push` |
| LocalMinima.MaxIndex | LocalMinima/KLocalMinima.java:50 | the polled entry is a largest value of the heap |
| LocalMinima.RemoveAt | LocalMinima/KLocalMinima.java:50 | polling removes one copy of that value |
| LocalMinima.KeepAll | LocalMinima/KLocalMinima.java:48-49 | while the heap holds fewer than k values it holds all of them, and a push keeps that |
| LocalMinima.DropLargest | LocalMinima/KLocalMinima.java:48-50 | with k values held, pushing one and dropping the largest keeps the k smallest |
| LocalMinima.PushKeeps | LocalMinima/KLocalMinima.java:47-51 | one push-and-poll step keeps the k smallest of all pushed values |
| LocalMinima.MinimaStep | LocalMinima/KLocalMinima.java:43-51 | at a local minimum, the step keeps the heap invariant for one more index |
| LocalMinima.MinimaSkip | LocalMinima/KLocalMinima.java:43-47 | away from a local minimum nothing is pushed |
| LocalMinima.KLocalMinima | LocalMinima/KLocalMinima.java:39-54 | the result, as a multiset, holds the min(k, number of minima) smallest local-minimum values (none when k <= 0), and the input array is not modified |
| InvertedIndex.Words | InvertedIndex/WithoutRoaringBitMap.java:12-15 | the words are the non-empty maximal runs of word characters of the message |
| InvertedIndex.AddAllPostings | InvertedIndex/WithoutRoaringBitMap.java:14-21 | indexing appends the id to a word's list once per occurrence of the word, and adds no key for a word absent from the message |
| InvertedIndex.AddAllSorted | InvertedIndex/WithoutRoaringBitMap.java:20 | when ids arrive in increasing order, every posting list stays sorted |
| InvertedIndex.InvertedIndex.IndexMessage | InvertedIndex/WithoutRoaringBitMap.java:10-22 | the new index is the old one with the id appended to the list of every word of the lower-cased message, in order |
| InvertedIndex.InvertedIndex.SearchSingle | InvertedIndex/WithoutRoaringBitMap.java:26-31 | returns the list of the lower-cased keyword, or the empty list when it is absent |
| InvertedIndex.InvertedIndex.PostingLists | InvertedIndex/WithoutRoaringBitMap.java:39-42 | one list per keyword, each the keyword's posting list; all sorted when the index is |
| InvertedIndex.SortBySize | InvertedIndex/WithoutRoaringBitMap.java:45 | the sorted lists are a permutation of the gathered lists |
| InvertedIndex.IntersectAll | InvertedIndex/WithoutRoaringBitMap.java:48-54 | every id returned is in every list; for sorted lists the result is sorted and holds every id common to all lists, including after the early stop |
| InvertedIndex.InvertedIndex.SearchMultiple | InvertedIndex/WithoutRoaringBitMap.java:35-57 | no keywords give the empty list; every id returned is in every keyword's list; on a sorted index the result is sorted and holds every id common to all keywords |
| InvertedIndex.Intersect | InvertedIndex/WithoutRoaringBitMap.java:61-78 | every output id is in both lists; for sorted lists the output is sorted and is their multiset intersection |
| InvertedIndex.CommonMembers | InvertedIndex/WithoutRoaringBitMap.java:61-78 | a multiset intersection holds exactly the values present in both lists |
| InvertedIndex.StrictIntersection | InvertedIndex/WithoutRoaringBitMap.java:61-78 | for strictly increasing inputs the intersection is strictly increasing |
| InvertedIndex.ExampleQuery | InvertedIndex/WithoutRoaringBitMap.java:98-100 | "fatal" in messages 1, 3, 5 AND "disk" in messages 1 to 5 gives [1, 3, 5] |
| NStable.LongestUnique | NStable.java:98-171 | two lengths that both meet the longest-stable-window specification are equal, so the four solutions agree |
| NStable.LongestBounds | NStable.java:98-171 | n <= 0 gives 0; for m >= 0 and n >= 1 the answer lies in [1, n] |
| NStable.ScanStep | NStable.java:111-112 | examining one window keeps every scanned stable window covered and the answer attained |
| NStable.PairsWithin | NStable.java:102-110 | the pair loops report valid exactly when every two values of the window differ by at most m |
| NStable.SolutionOne | NStable.java:98-116 | returns the length of a longest stable window of the first n values |
| NStable.WindowMin | NStable.java:124-127 | the window minimum is at most every value of the window |
| NStable.WindowMax | NStable.java:124-127 | the window maximum is at least every value of the window |
| NStable.MinAt | NStable.java:125 | the window minimum is one of the window's values |
| NStable.MaxAt | NStable.java:126 | the window maximum is one of the window's values |
| NStable.StableSpan | NStable.java:128 | a window is stable exactly when its maximum minus its minimum is at most m |
| NStable.MinMax | NStable.java:122-127 | starting from Integer.MAX_VALUE and Integer.MIN_VALUE, the loop yields the window's minimum and maximum |
| NStable.RunningMinMax | NStable.java:142-143 | folding one more value into the running minimum and maximum gives those of the longer window |
| NStable.SolutionTwo | NStable.java:118-134 | returns the length of a longest stable window of the first n values |
| NStable.SolutionThree | NStable.java:136-150 | returns the length of a longest stable window of the first n values |
| NStable.LastKey | NStable.java:159 | returns the largest value in the window's multiset |
| NStable.FirstKey | NStable.java:159 | returns the least value in the window's multiset |
| NStable.KeySpan | NStable.java:159 | with the window's largest and least values, the window is stable exactly when they differ by at most m |
| NStable.UnstableGrows | NStable.java:156-159 | a window that is unstable stays unstable when it reaches one value further right |
| NStable.RemoveLeft | NStable.java:160-165 | decrementing or removing the count of the leftmost value leaves the multiset of the shorter window |
| NStable.Shrink | NStable.java:159-167 | after the inner loop the multiset is exactly the window's values, the window is stable, and no window ending at right and starting further left is stable |
| NStable.SlideStep | NStable.java:168 | keeping the larger of the answer and the current window covers every stable window ending at right |
| NStable.SolutionFourth | NStable.java:152-171 | returns the length of a longest stable window of the first n values |
| NStable.ExampleAnswer | NStable.java:17-90 | for [8, 2, 4, 7] and m = 4 the answer is 2 |
| ContentPopularity.Bump | ContentPopularity/followup1.java:66-83 | the id maps to old popularity plus delta when that is non-zero and is absent otherwise; other ids are unchanged; an absent id decreased is stored as -1 |
| ContentPopularity.BucketsDetermined | ContentPopularity/followup1.java:70-79 | two bucket maps consistent with the same popularity map are equal |
| ContentPopularity.BucketIsPreimage | ContentPopularity/followup1.java:70-79 | bucket p holds exactly the ids whose popularity is p |
| ContentPopularity.BucketKeys | ContentPopularity/followup1.java:70-79 | p is a bucket key exactly when some id has popularity p |
| ContentPopularity.Detach | ContentPopularity/followup1.java:70-74 | removing the id from its old bucket, dropping the bucket once empty, leaves every other id in its bucket and no bucket empty |
| ContentPopularity.Attach | ContentPopularity/followup1.java:76-83 | adding the id to the bucket of a non-zero new popularity restores the bucket invariant for the updated map |
| ContentPopularity.PopularContent.Update | ContentPopularity/followup1.java:65-84 | keeps the bucket invariant and leaves the popularity map as `Bump` describes |
| ContentPopularity.PopularContent.IncreasePopularity | ContentPopularity/followup1.java:57-59 | the update with delta +1 |
| ContentPopularity.PopularContent.DecreasePopularity | ContentPopularity/followup1.java:61-63 | the update with delta -1 |
| IntSets.LastKey | ContentPopularity/followup1.java:89 | returns the largest key of a non-empty key set |
| ContentPopularity.PopularContent.GetMostPopular | ContentPopularity/followup1.java:86-94 | -1 when no stored popularity is positive; otherwise an id with a positive popularity at least that of every id |
| ContentPopularity.Example | ContentPopularity/followup1.java:100-114 | the sample run yields 10, then 20, then -1 |
| ContentPopularityOptimized.BumpPositive | ContentPopularity/followup2.java:102-111 | the id maps to old popularity plus delta when that is positive and is removed otherwise; other ids are unchanged |
| ContentPopularityOptimized.MaxMeaning | ContentPopularity/followup2.java:130-133 | the maximum is 0 exactly when nothing is stored, and otherwise it is the largest popularity of any id |
| ContentPopularityOptimized.MaxStep | ContentPopularity/followup2.java:113-119 | a larger new popularity becomes the maximum; otherwise, unless the old maximum's key is gone, the maximum stays correct |
| ContentPopularityOptimized.CountDetach | ContentPopularity/followup2.java:93-100 | the count drops by one, reaches 0 exactly when the bucket empties, and the counts still match the bucket sizes |
| ContentPopularityOptimized.CountAttach | ContentPopularity/followup2.java:106-107 | adding an id to a bucket raises that count by one and keeps counts equal to bucket sizes |
| ContentPopularityOptimized.MoveId | ContentPopularity/followup2.java:92-111 | the new popularity map is `BumpPositive`; positivity, buckets and counts stay consistent; only the old key can go and only the new key can appear |
| ContentPopularityOptimized.PopularContentOptimized.Update | ContentPopularity/followup2.java:88-120 | keeps positivity, buckets, counts and the current maximum consistent, and leaves the popularity map as `BumpPositive` describes |
| ContentPopularityOptimized.PopularContentOptimized.IncreasePopularity | ContentPopularity/followup2.java:80-82 | the update with delta +1 |
| ContentPopularityOptimized.PopularContentOptimized.DecreasePopularity | ContentPopularity/followup2.java:84-86 | the update with delta -1 |
| ContentPopularityOptimized.PopularContentOptimized.RecomputeMax | ContentPopularity/followup2.java:122-128 | returns the largest key of the counts, or 0 when there is no positive key |
| ContentPopularityOptimized.PopularContentOptimized.GetMostPopular | ContentPopularity/followup2.java:130-133 | -1 when nothing is stored; otherwise an id of maximum popularity |
| ContentPopularityOptimized.Example | ContentPopularity/followup2.java:136-154 | the dry run yields 10, then 20, then -1 |
| CommodityPricing.RemoveCount | CommodityPricing/follow1.java:46-52 | taking a timestamp out lowers the count of its old price by one and no other count |
| CommodityPricing.AddCount | CommodityPricing/follow1.java:55-56 | storing a new timestamp raises the count of its price by one and no other count |
| CommodityPricing.TallyDetermined | CommodityPricing/follow1.java:39-40 | two count maps that both tally the same prices are equal |
| CommodityPricing.TallyRemove | CommodityPricing/follow1.java:45-52 | decrementing the old price, and removing it at count 1, tallies the other timestamps |
| CommodityPricing.TallyAdd | CommodityPricing/follow1.java:55-56 | adding one to the new price's count tallies the updated prices |
| CommodityPricing.RunningCommodityPrice.UpsertCommodityPrice | CommodityPricing/follow1.java:43-57 | the timestamp maps to the new price, other timestamps are unchanged, and every count stays positive and equal to the number of timestamps at that price |
| CommodityPricing.RunningCommodityPrice.GetMaxCommodityPrice | CommodityPricing/follow1.java:60-63 | -1 when nothing is stored, otherwise a current price at least every current price |
| CommodityPricing.Example | CommodityPricing/follow1.java:69-79 | the sample run yields 27, then 28 after timestamp 4 is re-priced |
| CommodityPricing.PositiveCount | CommodityPricing/follow2.java:58-64 | a price has a positive count exactly when some timestamp holds it |
| CommodityPricing.CountsRemove | CommodityPricing/follow2.java:38-40 | decrementing the old price's count, keeping a 0 count, gives the counts of the other timestamps |
| CommodityPricing.CountsAdd | CommodityPricing/follow2.java:49-50 | adding one to the new price's count gives the counts of the updated prices |
| CommodityPricing.MaxAfterRemove | CommodityPricing/follow2.java:42-45 | unless the timestamp held the last occurrence of the maximum, the maximum is still the largest price of the other timestamps |
| CommodityPricing.RecomputedIsMax | CommodityPricing/follow2.java:42-45 | the rescan result is the largest price of the other timestamps, or `Integer.MIN_VALUE` when there are none |
| CommodityPricing.MaxAfterInsert | CommodityPricing/follow2.java:52-55 | the larger of the running maximum and the new price is the maximum of the updated prices |
| CommodityPricing.RunningCommodityPriceOptimized.RemoveOldPrice | CommodityPricing/follow2.java:37-46 | prices unchanged; counts and maximum now describe the other timestamps |
| CommodityPricing.RunningCommodityPriceOptimized.UpsertCommodityPrice | CommodityPricing/follow2.java:35-56 | the timestamp maps to the new price, other timestamps are unchanged, the counts match, and the running maximum is the largest current price |
| CommodityPricing.RunningCommodityPriceOptimized.RecomputeMaxPrice | CommodityPricing/follow2.java:58-64 | the largest price with a positive count, or `Integer.MIN_VALUE` when there is none |
| CommodityPricing.RunningCommodityPriceOptimized.GetMaxCommodityPrice | CommodityPricing/follow2.java:66-69 | -1 when nothing is stored, otherwise the largest current price |
| GroupQueries.LexTransitive | Employee/follow1.java:133 | the `compareTo` order used for ties is transitive |
| GroupQueries.LexTotal | Employee/follow1.java:133 | two distinct ids are always ordered one way or the other, so ties are always broken |
| GroupQueries.LexAsymmetric | Employee/follow1.java:133 | no two ids precede each other |
| GroupQueries.DeepestUnique | Employee/follow1.java:129-137 | at most one candidate is deepest with the lexicographic tie break, so the answer does not depend on set iteration order |
| GroupQueries.BetterStep | Employee/follow1.java:133-134 | a candidate that replaces the best so far beats every candidate the old best beat |
| GroupQueries.PickDeepest | Employee/follow1.java:129-137 | the result is a candidate, no candidate is deeper, and none of equal depth precedes it lexicographically |
| GroupQueries.UnionOfAncestors | Employee/follow1.java:118-123 | the union holds exactly the ids memoised as ancestors of some group of the employee, a missing employee or group contributing nothing |
| GroupQueries.CommonAncestors | Employee/follow1.java:114-127 | the intersection holds exactly the ids in every queried employee's union, including when the loop stops early on an empty intersection |
| EmployeeTree.WalkMoreFuel | Employee/follow1.java:100-106 | a parent walk that ended is unchanged by more fuel |
| EmployeeTree.WalkFuelFree | Employee/follow1.java:100-106 | two ended walks from the same id are equal, so the chain is well defined |
| EmployeeTree.ChainIsWalk | Employee/follow1.java:100-106 | any ended walk from g is the chain of g |
| EmployeeTree.WalkLinks | Employee/follow1.java:100-106 | a chain starts at its id, each id is registered with the next as its parent, and it ends at a root or an unregistered id |
| EmployeeTree.WalkSameParents | Employee/follow1.java:100-106 | a walk depends only on the registered ids and their parents, so setting depths does not change chains |
| EmployeeTree.WalkStep | Employee/follow1.java:101-105 | a registered id with a parent has its own id followed by the parent's chain |
| EmployeeTree.ComputeAncestors | Employee/follow1.java:97-109 | a memo hit returns the stored set and leaves the memo alone; otherwise the result is the id's chain as a set and is memoised |
| EmployeeTree.MemoiseAll | Employee/follow1.java:89-91 | afterwards every registered group is memoised, old entries are kept, and new entries are the groups' chains |
| EmployeeTree.Org.AddGroup | Employee/follow1.java:82-84 | registers the id with its parent and depth -1 unless the id is taken, in which case nothing changes |
| EmployeeTree.Org.AddEmployeeToGroup | Employee/follow1.java:85-87 | adds the group to the employee's set, creating it when absent, and changes nothing else |
| EmployeeTree.Org.SetDepths | Employee/follow1.java:92-95 | each memoised group gets the size of its ancestor set minus one as depth; ids and parents are unchanged |
| EmployeeTree.Org.BuildAncestorsAndDepths | Employee/follow1.java:88-96 | every group is memoised with its chain, and its depth is the chain size minus one |
| EmployeeTree.Org.ClosestCommonGroup | Employee/follow1.java:112-138 | null exactly for no employees or no common ancestor; an unregistered common ancestor throws; otherwise a common ancestor of greatest depth, the lexicographically smallest among ties |
| EmployeeTree.DemoChains | Employee/follow1.java:144-149 | the demo tree has no cycle and the chains of D, E and B are D B A, E C A and B A |
| EmployeeTree.DemoCommon | Employee/follow1.java:151-153 | only A is an ancestor of a group of each of emp1, emp2 and emp3 |
| EmployeeTree.OnlyCandidate | Employee/follow1.java:112-138 | when exactly one registered id is common to the employees, the query returns it |
| EmployeeTree.Example | Employee/follow1.java:143-160 | the demo query returns A |
| EmployeeDag.AncRegistered | Employee/follow2.java:78-87 | every ancestor of a registered group is registered |
| EmployeeDag.AncUnfold | Employee/follow2.java:78-87 | the ancestors of g are g and the ancestors of each of its parents |
| EmployeeDag.AncOfRoot | Employee/follow2.java:80-82 | a group without parents is its own only ancestor |
| EmployeeDag.AncOfOneParent | Employee/follow2.java:80-84 | a group with one parent has itself and that parent's ancestors |
| EmployeeDag.AncOfTwoParents | Employee/follow2.java:80-84 | a group with two parents has itself and both parents' ancestors |
| EmployeeDag.MaxDepthOverSpec | Employee/follow2.java:91-96 | the longest path through a set of parents is at least one more than each one's depth and equals that for one of them |
| EmployeeDag.DepthSpec | Employee/follow2.java:89-97 | roots have depth 0; any other group has depth one more than its deepest parent |
| EmployeeDag.DepthUnique | Employee/follow2.java:89-97 | any value meeting that characterisation is the depth |
| EmployeeDag.ComputeAncestors | Employee/follow2.java:78-87 | the result is the group's ancestor set; the memo stays correct, keeps every entry and gains this group |
| EmployeeDag.ComputeDepth | Employee/follow2.java:89-97 | the result is the group's longest path to a root; the memo stays correct, keeps every entry and gains this group |
| EmployeeDag.MemoiseAncestors | Employee/follow2.java:69-71 | afterwards the ancestor memo is correct and holds exactly the old entries and every group |
| EmployeeDag.MemoiseDepths | Employee/follow2.java:72-75 | afterwards the depth memo is correct and holds exactly the old entries and every group |
| EmployeeDag.Register | Employee/follow2.java:57 | the id is registered and keeps its group if it had one; other groups are unchanged |
| EmployeeDag.Link | Employee/follow2.java:60-61 | exactly one parent link and its matching child link are added; groups not at either end are unchanged |
| EmployeeDag.AddLink | Employee/follow2.java:58-62 | both ids are registered, exactly the new link is added at both ends, and a symmetric link structure stays symmetric |
| EmployeeDag.Org.AddGroup | Employee/follow2.java:57 | registers the id without links unless it is taken; nothing else changes |
| EmployeeDag.Org.AddParent | Employee/follow2.java:58-62 | the groups become `AddLink` of the old ones and the links stay symmetric |
| EmployeeDag.Org.AddEmployeeToGroup | Employee/follow2.java:63-65 | adds the group to the employee's set and changes nothing else |
| EmployeeDag.Org.BuildMemo | Employee/follow2.java:67-76 | both memos stay correct and afterwards hold every group |
| EmployeeDag.Org.ClosestCommon | Employee/follow2.java:99-122 | null exactly for no employees or no common ancestor; otherwise a common ancestor of greatest memoised depth, the lexicographically smallest among ties |
| EmployeeDag.DemoRootAncestors | Employee/follow2.java:129-132 | in the demo, A has ancestors A, R1 and R2, and B has B and R1 |
| EmployeeDag.DemoUpperAncestors | Employee/follow2.java:129-134 | the demo DAG has no cycle, and A and B have those ancestors |
| EmployeeDag.DemoLowerAncestors | Employee/follow2.java:133-134 | C has ancestors C, A, R1 and R2, and D has D, B and R1 |
| EmployeeDag.DemoAncestors | Employee/follow2.java:128-137 | in the demo, C and D have the ancestors the source comments give |
| EmployeeDag.DemoCommon | Employee/follow2.java:136-137 | only R1 is common to e1 and e2 |
| EmployeeDag.Example | Employee/follow2.java:126-143 | the demo query returns R1 |
| EmployeeFlat.LexMin | Employee/follow4.java:55 | the result is in the set and precedes every other member |
| EmployeeFlat.Intersect | Employee/follow4.java:46-53 | the result holds exactly the groups shared by all queried employees, including when the loop stops early |
| EmployeeFlat.Org.AddGroupWithEmployees | Employee/follow4.java:40-42 | the group is added to the set of each listed employee and to no other |
| EmployeeFlat.Org.FindGroupContainingAll | Employee/follow4.java:43-55 | null exactly for no employees or no shared group; otherwise the lexicographically smallest shared group |
| EmployeeFlat.SmallestUnique | Employee/follow4.java:55 | a query result is the only shared group that precedes all others |
| EmployeeFlat.DemoBC | Employee/follow4.java:65 | G1 and G2 hold b and c, and G1 comes first |
| EmployeeFlat.DemoAD | Employee/follow4.java:66 | only G3 holds a and d |
| EmployeeFlat.Example | Employee/follow4.java:61-68 | the three demo queries give G1, G3 and null |
| ScheduleInterval.CreateSchedule | ScheduleInterval/FollowUpOneAnd2.java:27-50 | a period of no hours and an end date before the start date are rejected with IllegalArgumentException; otherwise the k-th interval starts 2k periods after the start of the first date, lasts one period cut at the last nanosecond of the end date, and there is one for every such start before that last nanosecond |
| ScheduleInterval.ScheduleCount | ScheduleInterval/FollowUpOneAnd2.java:40-48 | the loop stops at the first slot that starts at or after the last instant, so the kept slots are exactly those that start before it |
| ScheduleInterval.ScheduleOrdered | ScheduleInterval/FollowUpOneAnd2.java:37-48 | a schedule is non-empty interval by interval, each ends before the next starts, and all lie between the start of the first date and the last instant of the end date |
| ScheduleInterval.IsTimestampIncludedLinear | ScheduleInterval/FollowUpOneAnd2.java:53-59 | true exactly when some interval contains the timestamp, both ends included |
| ScheduleInterval.IsTimestampIncluded | ScheduleInterval/FollowUpOneAnd2.java:61-73 | true only when some interval contains the timestamp; on sorted disjoint intervals true exactly then, so it agrees with the linear scan |
| ScheduleInterval.Example | ScheduleInterval/main.java:1-27 | the 2023-10-01 to 2023-10-03 schedule with 9-hour periods includes 05:00 on Oct 1 and 07:00 on Oct 3, and not 12:00 on Oct 1 or 01:00 on Oct 4 |
| DynamicScheduling.FloorKey | ScheduleInterval/DynamicSchedulerFollowUpThreeAnd4.java:13 | absent exactly when every key exceeds x; otherwise the greatest key at most x |
| DynamicScheduling.CeilingKey | ScheduleInterval/DynamicSchedulerFollowUpThreeAnd4.java:23 | absent exactly when every key is below x; otherwise the least key at least x |
| DynamicScheduling.MergeFloor | ScheduleInterval/DynamicSchedulerFollowUpThreeAnd4.java:13-20 | removing the floor interval when it reaches the new one and widening the new one over it keeps the union of the stored and new instants, and keeps the rest separated |
| DynamicScheduling.MergeCeilingStep | ScheduleInterval/DynamicSchedulerFollowUpThreeAnd4.java:26-29 | absorbing a stored interval that starts inside the new one keeps the union of the stored and new instants |
| DynamicScheduling.MergeCeiling | ScheduleInterval/DynamicSchedulerFollowUpThreeAnd4.java:23-31 | after the loop the union is unchanged and every remaining interval at or after the merged one's start begins after its end |
| DynamicScheduling.AddFinish | ScheduleInterval/DynamicSchedulerFollowUpThreeAnd4.java:34 | storing the merged interval under its start gives the old instants plus the new interval's, keeps separation, and keeps non-empty intervals non-empty |
| DynamicScheduling.Merge | ScheduleInterval/DynamicSchedulerFollowUpThreeAnd4.java:10-35 | intervals stay keyed by their start; the active instants become the old ones plus the new interval's; separated intervals stay separated and non-empty ones non-empty |
| DynamicScheduling.DynamicScheduler.constructor | ScheduleInterval/DynamicSchedulerFollowUpThreeAnd4.java:4 | the scheduler starts with no intervals |
| DynamicScheduling.DynamicScheduler.AddInterval | ScheduleInterval/DynamicSchedulerFollowUpThreeAnd4.java:10-35 | the stored map keeps each interval under its start, its active instants become the old ones plus the new interval's, and separation and non-emptiness are preserved |
| DynamicScheduling.DynamicScheduler.RemoveInterval | ScheduleInterval/DynamicSchedulerFollowUpThreeAnd4.java:41-61 | nothing changes without a floor interval or when it does not overlap; otherwise only the floor interval is replaced by its non-empty parts before and after the removed one; no instant becomes active |
| DynamicScheduling.CutShrinks | ScheduleInterval/DynamicSchedulerFollowUpThreeAnd4.java:50-60 | every instant active after the cut was active before |
| DynamicScheduling.CutKeepsOrder | ScheduleInterval/DynamicSchedulerFollowUpThreeAnd4.java:50-60 | on separated non-empty intervals the cut leaves them keyed by start, non-empty and non-overlapping; the two parts may share an end point |
| DynamicScheduling.CutEffect | ScheduleInterval/DynamicSchedulerFollowUpThreeAnd4.java:41-61 | on separated intervals the floor interval's instants strictly inside the removed interval stop being active, and every active instant outside it stays active |
| DynamicScheduling.DynamicScheduler.IsActive | ScheduleInterval/DynamicSchedulerFollowUpThreeAnd4.java:67-72 | true only when some stored interval contains ts; on non-overlapping non-empty intervals true exactly then |
| TennisCourts.SortByStart | ExpandingTennisClub/follow1.java:58 | the result holds the same bookings, as a multiset, as the input |
| TennisCourts.SortSorted | ExpandingTennisClub/follow1.java:58 | the result is in non-decreasing order of start |
| TennisCourts.SortOverlap | ExpandingTennisClub/follow1.java:58 | sorting leaves the number of bookings in use at every instant unchanged |
| TennisCourts.AnyAssignmentNeeds | ExpandingTennisClub/follow1.java:29 | any assignment in which two bookings in use at the same instant never share a court uses at least as many courts as there are bookings in use at that instant |
| TennisCourts.Issued | ExpandingTennisClub/follow1.java:65-79 | the number of courts opened is never negative and no assignment names a larger court id |
| TennisAssign.Peek | ExpandingTennisClub/follow1.java:68 | absent exactly when the heap is empty; otherwise a court whose next free time is least |
| TennisAssign.AssignCourtsWithMaintenance | ExpandingTennisClub/follow2.java:17-39 | the bookings are sorted by start and each gets one assignment, in that order: the heap's top court when it is free by the start (free meaning last finish plus the maintenance time), otherwise a new court numbered one past those opened |
| TennisAssign.AssignCourts | ExpandingTennisClub/follow1.java:56-83 | the same loop with no maintenance time |
| TennisAssign.CourtIdsConsecutive | ExpandingTennisClub/follow1.java:76 | each assignment names a court already opened or the next id, and every court up to the number opened has at least one booking |
| TennisAssign.SameCourtApart | ExpandingTennisClub/follow2.java:26-34 | of two bookings on one court, the earlier one's finish plus the maintenance time is at most the later one's start |
| TennisAssign.NoOverlapOnCourt | ExpandingTennisClub/follow2.java:25-36 | the same for every pair of bookings on one court: no two overlap, maintenance included |
| TennisAssign.CourtsCoverOverlap | ExpandingTennisClub/follow1.java:67-80 | without maintenance, the courts opened are at least the bookings in use at any instant |
| TennisAssign.OverlapReachesCourts | ExpandingTennisClub/follow1.java:74-79 | when the last court is opened, as many bookings as courts are in use at that booking's start |
| TennisAssign.AssignCourtsMinimal | ExpandingTennisClub/follow1.java:56-83 | `assignCourts` opens exactly the largest number of bookings in use at one instant: no fewer courts can do |
| TennisAssign.DemoCourts | ExpandingTennisClub/follow1.java:85-96 | on the sample, bookings 1 to 4 get courts 1, 2, 1, 2, and 2 courts are opened |
| TennisAssign.DemoMaintenanceCourts | ExpandingTennisClub/follow2.java:41-50 | with maintenance 2, bookings 1 to 4 get courts 1, 2, 3, 1 |
| TennisAssign.Example | ExpandingTennisClub/follow1.java:85-96 | running both loops on the sample gives those assignments |
| TennisDurability.CourtState.constructor | ExpandingTennisClub/follow3.java:39-43 | the object holds the given id, next free time and count |
| TennisDurability.CourtState.Take | ExpandingTennisClub/follow3.java:62-70 | the count goes up by one; on reaching the durability the court is free at finish plus maintenance and the count restarts at 0, otherwise it is free at the finish; the id is unchanged |
| TennisDurability.Reuse | ExpandingTennisClub/follow3.java:61-73 | only the polled court's state changes, and it becomes its replayed state after the booking |
| TennisDurability.Open | ExpandingTennisClub/follow3.java:75-79 | a new object for the new court, with count 1 and free at the finish; the other courts are unchanged |
| TennisDurability.AssignNext | ExpandingTennisClub/follow3.java:59-81 | one iteration keeps the heap equal to the replayed states, court ids 1 to the number opened, and every assignment the one the loop makes |
| TennisDurability.AssignCourtsWithDurability | ExpandingTennisClub/follow3.java:46-83 | the bookings are sorted by start and each gets one assignment, in that order: the heap's top court when its next free time is at most the start, otherwise the next new court |
| TennisDurability.ReplayLast | ExpandingTennisClub/follow3.java:61-79 | the heap holds exactly the courts used; each count is non-negative, and a court is free at its last booking's finish, plus the maintenance time exactly when its count is 0 |
| TennisDurability.ReplayCycle | ExpandingTennisClub/follow3.java:61-79 | with durability at least 2, a court's count is its number of bookings modulo the durability, and it goes to maintenance after exactly the bookings that make that number a multiple of the durability |
| TennisDurability.CourtIdsConsecutive | ExpandingTennisClub/follow3.java:76 | the courts in the heap are exactly 1 to the number opened |
| TennisDurability.SameCourtApart | ExpandingTennisClub/follow3.java:61 | a court takes a booking only after its previous booking finished, and after the maintenance time too when its count of bookings is a multiple of a durability of at least 2 |
| TennisDurability.DemoCourts | ExpandingTennisClub/follow3.java:85-97 | with durability 2 and maintenance 3, (1–4) and (5–7) take court 1, which is then free only at 10, so (8–10) opens court 2 |
| TennisDurability.Example | ExpandingTennisClub/follow3.java:85-97 | running the loop on the dry run gives courts 1, 1, 2, and court 1 or 2 for (12–14) |
| TennisDurability.DurabilityOneNeverMaintained | ExpandingTennisClub/follow3.java:75-79 | with durability 1, bookings (1–4) and (4–6) both take court 1 with no maintenance between, and court 1's count is then 2 |
| TennisDurability.CycleFixedAt | ExpandingTennisClub/follow3.java:75-79 | when a new court's first booking is counted like any other, every durability of at least 1 sends a court to maintenance after exactly every durability-th booking |
| TennisDurability.ReplayFixedAgrees | ExpandingTennisClub/follow3.java:75-79 | that correction changes nothing for any durability other than 1 |
| TennisSweep.ConflictIffShared | ExpandingTennisClub/follow4.java:70-72 | for bookings that start before they finish, `isConflict` is true exactly when some instant is in both |
| TennisSweep.SortInts | ExpandingTennisClub/follow4.java:35-36 | the result holds the same values, as a multiset, as the input |
| TennisSweep.SortIntsSorted | ExpandingTennisClub/follow4.java:35-36 | the result is in ascending order |
| TennisSweep.SortCount | ExpandingTennisClub/follow4.java:35-36 | sorting leaves the count of values at most v unchanged |
| TennisSweep.SortInPlace | ExpandingTennisClub/follow4.java:35-36 | the array ends holding its old values in ascending order |
| TennisSweep.LoadIsOverlap | ExpandingTennisClub/follow4.java:41-50 | with start before finish, the bookings started by t less those finished by t are the bookings in use at t |
| TennisSweep.Dominates | ExpandingTennisClub/follow4.java:39-50 | the k-th smallest start is below the k-th smallest finish, so the end index never passes the start index |
| TennisSweep.LastFinishIff | ExpandingTennisClub/follow4.java:42 | the largest finish is at most the largest start exactly when some booking starts no earlier than every booking finishes |
| TennisSweep.Sweep | ExpandingTennisClub/follow4.java:38-52 | fails exactly when the largest end is at most the largest start; otherwise the result is non-negative and bounds, for every k, the k + 1 smallest starts less the ends up to the k-th start, and is 0 or equal to one of them |
| TennisSweep.SweepUpper | ExpandingTennisClub/follow4.java:41-50 | such a bound is at least the number of bookings in use at every instant |
| TennisSweep.SweepAttained | ExpandingTennisClub/follow4.java:41-50 | and it is reached at some booking's start, and is at most n |
| TennisSweep.MinCourtsNeeded | ExpandingTennisClub/follow4.java:25-53 | fails with an array index error exactly when some booking starts no earlier than every booking finishes; when every booking starts before it finishes, returns the largest number of bookings in use at one instant, at most n |
| TennisSweep.CountsAgree | ExpandingTennisClub/follow4.java:25-53 | the sweep's count equals the number of courts `assignCourts` opens |
| TennisSweep.DemoOverlap | ExpandingTennisClub/follow4.java:55-60 | on starts 1, 2, 5, 8 and ends 4, 6, 7, 9 at most two bookings are in use at once, and two are at instant 2 |
| TennisSweep.Example | ExpandingTennisClub/follow4.java:55-60 | the sweep returns 2 on that input |
| MeetingRoom.Offer | MeetingRoom.java:56 | offering a slot adds exactly that slot to the busy queue |
| MeetingRoom.OfferSorted | MeetingRoom.java:22-23 | offering keeps the busy queue in order of end time, so a poll returns a slot with the least end |
| MeetingRoom.DueBy | MeetingRoom.java:49 | the count of slots at the head of the queue that end by t: all of those end by t, and the next does not |
| MeetingRoom.DueByExactly | MeetingRoom.java:49-51 | in a queue ordered by end time, the slots polled are exactly those ending by t |
| MeetingRoom.PollDue | MeetingRoom.java:49-51 | the polling loop removes the slots due by t from the head and returns their rooms in polling order |
| MeetingRoom.Reserve | MeetingRoom.java:48-56 | the loops of `reserveRoom` compute `Reserved`: rooms due back join the available queue, then its head is taken until the end time, or none when it is empty |
| MeetingRoom.ReserveKeeps | MeetingRoom.java:49-56 | a reservation is refused exactly when no room is available and every busy meeting runs past the start; otherwise the queue stays ordered, every room stays accounted for, the number of rooms held is unchanged, and the room handed out is held by no meeting still running (when no room was given twice) |
| MeetingRoom.ReserveScheduled | MeetingRoom.java:48-63 | a reservation keeps the scheduler's invariant, and a refused one changes nothing |
| MeetingRoom.Log | MeetingRoom.java:58-61 | the log after a reservation holds the newest five of the old log plus the new reservation, in booking order |
| MeetingRoom.Newest | MeetingRoom.java:58-61 | the last min(n, size) elements, in order |
| MeetingRoom.CleanUpScheduled | MeetingRoom.java:64-68 | discarding the head slots that end before t keeps the invariant, with their rooms counted as dropped; those slots are exactly the ones ending before t |
| MeetingRoom.Stale | MeetingRoom.java:71-77 | the count of log entries at the head that ended before the cutoff: all of those did, and the next did not |
| MeetingRoom.DropStale | MeetingRoom.java:70-79 | the purge loop removes exactly those head entries |
| MeetingRoom.NewestFirstSpec | MeetingRoom.java:80-89 | `lastNMeeting` returns min(n, log size) reservations, none for n ≤ 0, the i-th being the i-th newest in the log |
| MeetingRoom.NewestFirstHistory | MeetingRoom.java:80-89 | as the log is the tail of all reservations made, the result is the start of all reservations, newest first |
| MeetingRoom.MeetingScheduler.constructor | MeetingRoom.java:27-30 | the available queue is the given list; nothing is busy or logged |
| MeetingRoom.MeetingScheduler.ReserveRoom | MeetingRoom.java:48-63 | the new busy queue and available rooms are those of `Reserved`; a refusal is `IllegalStateException` and leaves the log unchanged; otherwise the reservation holds the room, start and end, and the log is the newest five reservations; the invariant holds |
| MeetingRoom.MeetingScheduler.CleanUpBusyRooms | MeetingRoom.java:64-68 | the busy slots ending before the current time are removed and their rooms dropped; the remaining slots all end at or after it; the available queue and the log are unchanged |
| MeetingRoom.MeetingScheduler.PurgeLogQueue | MeetingRoom.java:70-79 | the log loses exactly its head entries that ended before the current time less the retention period of 2; the rooms are unchanged |
| MeetingRoom.MeetingScheduler.LastNMeeting | MeetingRoom.java:80-89 | returns the log's newest min(n, size) reservations, newest first |
| MeetingRoom.DemoThird | MeetingRoom.java:48-56 | with rooms A and B after 1-3 and 2-4, a meeting 3-5 takes A back, as A's meeting ended at 3 |
| MeetingRoom.DemoLog | MeetingRoom.java:58-89 | three reservations enter the log in turn; the two newest are returned newest first; purging at 6 drops only the one that ended at 3 |
| MeetingRoom.RefusedExample | MeetingRoom.java:52-54 | with one room, a second overlapping meeting is refused with `IllegalStateException` |
| MeetingRoom.CleanUpExample | MeetingRoom.java:64-68 | after cleaning up the only room's slot, a later meeting is refused although no meeting is running |
| ServiceDiscovery.NodesClosed | ServiceDiscovery/sol.java:14-16 | the components the graph names, plus any package, hold the dependencies of each of their members |
| ServiceDiscovery.ClosedReach | ServiceDiscovery/sol.java:70-76 | a set closed under dependencies and holding a component holds everything that component reaches |
| ServiceDiscovery.DiscoverDFS | ServiceDiscovery/sol.java:70-76 | the search keeps what was visited, marks pkg, adds only components pkg reaches, and every component it adds has all its dependencies marked |
| ServiceDiscovery.Discover | ServiceDiscovery/sol.java:23-25 | the discovered set is exactly the components the package reaches, and it is closed under dependencies |
| ServiceDiscovery.InitGraph | ServiceDiscovery/sol.java:31-34 | every discovered component gets an empty dependents list and in-degree 0, and nothing else is a key |
| ServiceDiscovery.JoinedList | ServiceDiscovery/sol.java:37-40 | after one component's inner loop, each dependency's list holds that component once more for each time it names the dependency, and every other list is unchanged |
| ServiceDiscovery.AddEdges | ServiceDiscovery/sol.java:37-40 | the inner loop appends the component to the list of each of its dependencies, in order, and raises its in-degree by its number of dependencies |
| ServiceDiscovery.ReversedCount | ServiceDiscovery/sol.java:36-41 | after the handled components, each list counts every handled dependent once per edge, on top of what it held before |
| ServiceDiscovery.CountedValue | ServiceDiscovery/sol.java:36-41 | after the handled components, each handled component's in-degree has grown by its number of dependencies and the others are unchanged |
| ServiceDiscovery.BuiltEdges | ServiceDiscovery/sol.java:36-41 | once every component is handled, the lists are exactly the reversed edges among the discovered components |
| ServiceDiscovery.BuiltCounts | ServiceDiscovery/sol.java:36-41 | once every component is handled, each in-degree equals the component's number of listed dependencies |
| ServiceDiscovery.BuildGraph | ServiceDiscovery/sol.java:27-41 | for a closed set of components, the result is the reversed edges with multiplicities, and each in-degree is the number of listed dependencies |
| ServiceDiscovery.InitQueue | ServiceDiscovery/sol.java:44-48 | the queue holds each component of in-degree 0 once, and nothing else |
| ServiceDiscovery.PendingZero | ServiceDiscovery/sol.java:58 | a component has no dependency left to output exactly when all of its dependencies are output |
| ServiceDiscovery.PendingAdd | ServiceDiscovery/sol.java:56-57 | outputting a component removes as many pending entries from a dependent as it has edges to that component |
| ServiceDiscovery.KahnStart | ServiceDiscovery/sol.java:44-50 | the initial in-degrees and queue satisfy the loop invariant of Kahn's algorithm for an empty output |
| ServiceDiscovery.PopNode | ServiceDiscovery/sol.java:53-54 | taking the head of the queue starts the inner loop in a consistent state, with the head not yet output |
| ServiceDiscovery.StillPending | ServiceDiscovery/sol.java:57 | a dependent's in-degree is positive whenever it is about to be decremented, so no in-degree goes negative |
| ServiceDiscovery.QueueStep | ServiceDiscovery/sol.java:58-59 | a dependent is enqueued exactly when its in-degree reaches 0, so no component is queued twice |
| ServiceDiscovery.RelaxStep | ServiceDiscovery/sol.java:56-60 | one pass of the inner loop keeps each in-degree equal to the pending dependencies less the edges already released |
| ServiceDiscovery.Release | ServiceDiscovery/sol.java:57-59 | one pass of the inner loop decrements the dependent and enqueues it at 0, keeping the inner-loop invariant |
| ServiceDiscovery.RelaxDone | ServiceDiscovery/sol.java:56-60 | after every dependent is released, the head counts as output in the outer-loop invariant |
| ServiceDiscovery.Relax | ServiceDiscovery/sol.java:56-60 | the inner loop turns the state after popping a node into the outer-loop invariant with that node output |
| ServiceDiscovery.PrecedeNext | ServiceDiscovery/sol.java:53-54 | the component taken from the queue has all its dependencies output already |
| ServiceDiscovery.NoDupsCard | ServiceDiscovery/sol.java:63 | an output with no repeats drawn from the discovered set is no longer than that set |
| ServiceDiscovery.Kahn | ServiceDiscovery/sol.java:52-61 | the output repeats nothing, stays within the discovered set and lists each dependency before its dependents; every component left out still has a dependency that was not output |
| ServiceDiscovery.Missing | ServiceDiscovery/sol.java:63 | an output shorter than the discovered set misses one of its components |
| ServiceDiscovery.Covers | ServiceDiscovery/sol.java:63-66 | an output with no repeats and as long as the discovered set lists all of it |
| ServiceDiscovery.Walk | ServiceDiscovery/sol.java:63-64 | from a component left out, following a dependency not yet output gives a path of any length among the left-out components |
| ServiceDiscovery.Repeat | ServiceDiscovery/sol.java:63-64 | a path longer than the set it is drawn from visits some component twice |
| ServiceDiscovery.CycleFound | ServiceDiscovery/sol.java:63-64 | a path that returns to a reachable component yields a dependency cycle below the package |
| ServiceDiscovery.StuckCycle | ServiceDiscovery/sol.java:63-64 | when Kahn's loop stops before outputting every component, the dependencies of the package hold a cycle |
| ServiceDiscovery.Descend | ServiceDiscovery/sol.java:52-61 | along a dependency path inside an order that lists dependencies first, each step moves to a strictly earlier position |
| ServiceDiscovery.NoCycle | ServiceDiscovery/sol.java:63-66 | a complete order that lists dependencies first rules out any dependency cycle below the package |
| ServiceDiscovery.PrecedesIndices | ServiceDiscovery/sol.java:52-61 | in the output, the position of every dependency is less than the position of its dependent |
| ServiceDiscovery.DependencyResolver | ServiceDiscovery/sol.java:21-67 | it fails with `RuntimeException` exactly when the package's dependencies hold a cycle; otherwise it lists each reachable component once and nothing else, each after all of its dependencies |
| ServiceDiscovery.MainBelow | ServiceDiscovery/sol.java:82-88 | everything "Service" reaches in the sample graph is one of its six components |
| ServiceDiscovery.MainAbove | ServiceDiscovery/sol.java:82-88 | "Service" reaches each of the six components of the sample graph |
| ServiceDiscovery.MainAcyclic | ServiceDiscovery/sol.java:82-92 | the sample graph has no cycle below "Service", so `main` does not throw |
| ServiceDiscovery.MainExample | ServiceDiscovery/sol.java:90-93 | the sample call lists each of the six components once, "Interfaces" before "Adapters" and "Types" before "Core" |
| Parking.SpotsNeeded | ParkingLot/Sol.java:41-51 | every vehicle needs at least one spot, and more than one exactly when it is a bus |
| Parking.ParkingSpot.constructor | ParkingLot/Sol.java:57-60 | a new spot has the given id and type and holds no vehicle |
| Parking.ParkingSpot.CanFit | ParkingLot/Sol.java:66-69 | a motorcycle fits every spot; a car or a bus fits exactly the car spots |
| Parking.ParkingSpot.Assign | ParkingLot/Sol.java:71-73 | afterwards the spot holds the vehicle |
| Parking.ParkingSpot.Free | ParkingLot/Sol.java:75-77 | afterwards the spot holds no vehicle |
| Parking.Level.LowestFrom | ParkingLot/Sol.java:108-127 | the result is a run start at or after i with no run start between i and it, or None when no run starts at or after i |
| Parking.Level.FindConsecutiveSpots | ParkingLot/Sol.java:108-127 | the start returned is the lowest start of a run of need free spots that all fit the vehicle, or None when there is no such run |
| Parking.Level.Park | ParkingLot/Sol.java:95-106 | returns the lowest run and assigns the vehicle to exactly its spots; with no run it returns None and changes no spot |
| Parking.Level.FreeSpots | ParkingLot/Sol.java:129-136 | every given spot is free afterwards, and no other spot changes |
| Parking.ParkingLot.constructor | ParkingLot/Sol.java:156-158 | a new lot has no tickets, and its ticket maps are consistent |
| Parking.ParkingLot.FirstLevel | ParkingLot/Sol.java:160-171 | the result is the first level at or after k that has a run for the vehicle, or None when no such level has one |
| Parking.ParkingLot.ParkOnLevels | ParkingLot/Sol.java:161-169 | parks on the first level that has a run, on its lowest run, and changes no spot when no level has room |
| Parking.ParkingLot.Park | ParkingLot/Sol.java:160-171 | on success the ticket holds that run and is filed under its id and the plate, and findVehicle returns it; on failure both maps are unchanged; the maps stay consistent |
| Parking.ParkingLot.Unpark | ParkingLot/Sol.java:173-190 | an unknown ticket gives false and changes nothing; otherwise the ticket leaves both maps, and its spots are freed on the level named by the first spot's id (an empty spot list or an unknown level throws IndexOutOfBoundsException); the plate no longer finds a ticket |
| Parking.ParkingLot.FindVehicle | ParkingLot/Sol.java:192-194 | None exactly when the plate has no ticket; otherwise an active ticket for that plate |
| Parking.ParkThenUnpark | ParkingLot/Sol.java:160-184 | unparking the ticket that park just issued returns true, restores every spot and the active tickets, and keeps the maps consistent; without room, unpark of the unused id returns false |
| Parking.CarSpots | ParkingLot/Sol.java:200-204 | ten distinct new free car spots numbered L1-0 to L1-9 |
| Parking.MainParkTwo | ParkingLot/Sol.java:206-218 | the car takes spot L1-0, the bus takes L1-1 to L1-5, and findVehicle("BUS-999") returns the bus ticket |
| Parking.MainExample | ParkingLot/Sol.java:197-230 | the walk-through: car at L1-0, bus at L1-1 to L1-5 and found by plate, unpark of the car returns true, and the second bus finds no room |
| ParkingSegments.AllocateSpec | ParkingLot/Sol.java:277-285 | taking need spots from the front of a segment keeps the segments well formed, and the free indices lose exactly [start, start + need) |
| ParkingSegments.Below | ParkingLot/Sol.java:307 | the greatest key below x, or None when every key is at least x |
| ParkingSegments.Above | ParkingLot/Sol.java:308 | the least key above x, or None when every key is at most x |
| ParkingSegments.LowerKey | ParkingLot/Sol.java:307 | lowerKey returns the greatest key below start |
| ParkingSegments.HigherKey | ParkingLot/Sol.java:308 | higherKey returns the least key above start |
| ParkingSegments.CoalesceShape | ParkingLot/Sol.java:306-333 | after the merge the merged segment is present with its summed length, and every segment not absorbed is kept unchanged |
| ParkingSegments.Neighbours | ParkingLot/Sol.java:306-333 | when a range is not free, the segment below it ends at or before its start and the one above begins at or after its end |
| ParkingSegments.MergedSegment | ParkingLot/Sol.java:306-333 | the merged segment lies in the level, is non-empty, and does not touch any segment it did not absorb |
| ParkingSegments.CoalesceSegments | ParkingLot/Sol.java:306-333 | merging a freed range keeps the segments well formed |
| ParkingSegments.CoalesceCovers | ParkingLot/Sol.java:306-333 | after merging, an index is free exactly when it was free before or lies in the freed range |
| ParkingSegments.FirstFit | ParkingLot/Sol.java:270-275 | the least start of a segment of at least need spots, or None when every segment is shorter |
| ParkingSegments.FirstFitLowest | ParkingLot/Sol.java:270-275 | the first fitting segment starts a run of need free indices, and every run of need free indices starts at or after it |
| ParkingSegments.AllocateThenCoalesce | ParkingLot/Sol.java:277-333 | freeing the range just allocated from a segment gives back the segment map as it was |
| ParkingSegments.AssignRun | ParkingLot/Sol.java:258-263 | returns the spots of the run in order, assigns the vehicle to them, and leaves every other spot as it was |
| ParkingSegments.FreeRunOf | ParkingLot/Sol.java:294-296 | frees exactly the spots of the run |
| ParkingSegments.SegmentLevel.constructor | ParkingLot/Sol.java:240-246 | a new level has the single segment [0, size) and is consistent |
| ParkingSegments.SegmentLevel.FirstFitIsLowestRun | ParkingLot/Sol.java:270-275 | on a consistent level, the first fitting segment starts the lowest run of need free spots, and there is a fitting segment whenever such a run exists |
| ParkingSegments.SegmentLevel.FindSegmentOfSize | ParkingLot/Sol.java:270-275 | the ascending walk returns the first segment of at least need spots, or None |
| ParkingSegments.SegmentLevel.AllocateSegment | ParkingLot/Sol.java:277-285 | the segment at start gives up its first need spots; a non-empty rest stays free from start + need |
| ParkingSegments.SegmentLevel.Park | ParkingLot/Sol.java:248-268 | takes the first fitting segment, returns its first need spots, assigns the vehicle to exactly them, updates the map by Allocate and stays consistent; with no fitting segment nothing changes |
| ParkingSegments.SegmentLevel.FreeSpots | ParkingLot/Sol.java:287-304 | an empty list throws IndexOutOfBoundsException and changes nothing; otherwise exactly the run's spots become free, the map is merged by Coalesce, and the level stays consistent |
| ParkingSegments.SegmentLevel.MergeFreeSegment | ParkingLot/Sol.java:306-333 | the map becomes the coalesced map: the freed range joined with a left segment that ends at its start and a right segment that begins at its end |
| ParkingSegments.ParkThenFreeSegments | ParkingLot/Sol.java:248-333 | parking and then freeing the returned spots restores the segment map and every spot, and keeps the level consistent |
| QuadTree.SmallIsUniform | QuadTree/BuildQuadTreeRectangularBuild.java:3-6 | An empty region, or one of a single cell, is uniform. So a region that is not uniform has a side of two or more, and each split makes progress. |
| QuadTree.IsUniformRect | QuadTree/BuildQuadTreeRectangularBuild.java:21-32 | The result is true exactly when every cell of [r1, r2) x [c1, c2) equals the corner cell grid[r1][c1]. |
| QuadTree.BuildRect | QuadTree/BuildQuadTreeRectangularBuild.java:3-18 | Gives a leaf exactly when the region is uniform, and the leaf holds grid[r1][c1]. Otherwise gives a node with value 0. |
| QuadTree.BuildRectCells | QuadTree/BuildQuadTreeRectangularBuild.java:3-18 | The built tree, expanded with the midpoint split, gives every cell of its region the grid's value at that cell. |
| QuadTree.IsUniformSquare | QuadTree/BuildQuadTreeSquare.java:59-69 | The result is true exactly when every cell of the size x size square at (r, c) equals grid[r][c]. |
| QuadTree.BuildSquare | QuadTree/BuildQuadTreeSquare.java:38-56 | Gives a leaf exactly when the square is uniform, and the leaf holds grid[r][c]. Otherwise gives a node with value -1. |
| QuadTree.Build | QuadTree/BuildQuadTreeSquare.java:33-35 | Fails with an array-index error exactly when the grid is empty. Otherwise the root is a leaf exactly when the whole grid is uniform. |
| QuadTree.SquareSplit | QuadTree/BuildQuadTreeSquare.java:45-55 | A square that is not uniform has a side of at least 2. It becomes a node with value -1 over the four squares of side size / 2 at (r, c), (r, c + half), (r + half, c) and (r + half, c + half). |
| QuadTree.BuildSquareCells | QuadTree/BuildQuadTreeSquare.java:38-56 | On a side that is a power of two, the built tree, expanded by halving the side, gives every cell of the square the grid's value at that cell. |
| QuadTree.UniformCell | QuadTree/BuildQuadTreeSquare.java:41-43 | A uniform square becomes a leaf, which gives each of its cells that cell's grid value. |
| QuadTree.SplitCell | QuadTree/BuildQuadTreeSquare.java:46-51 | A cell of a square that is not uniform lies in exactly one quadrant of side size / 2, and the node reads it from the child built for that quadrant. |
| QuadTree.UnitSquareCell | QuadTree/ReeconstructImage.java:11-17 | On a one-cell region, the midpoint split and the halving of a side both descend to the bottom-right child. So they read the same value from any tree. |
| QuadTree.SquareCellIsCell | QuadTree/ReeconstructImage.java:11-17 | On a square whose side is a power of two, the midpoint split of `fill` and the halving of the square builder choose the same quadrants. So both expansions of any tree agree on every cell. |
| QuadTree.FillRegion | QuadTree/ReeconstructImage.java:4-8 | At a leaf, every cell of [r1, r2) x [c1, c2) is set to the leaf's value. Every other cell keeps its old value. |
| QuadTree.Fill | QuadTree/ReeconstructImage.java:3-18 | Every cell of the region is set to the value that the tree's expansion gives it. No cell outside the region changes. |
| QuadTree.Reconstruct | QuadTree/ReeconstructImage.java:19-20 | Returns a new h x w image whose every cell holds the tree's expansion at that cell. |
| QuadTree.RebuildRect | QuadTree/ReeconstructImage.java:19-20 | Building the rectangular tree of a non-empty image and filling a new image of the same size reproduces the image. |
| QuadTree.RebuildSquare | QuadTree/BuildQuadTreeSquare.java:33-35 | On a square grid whose side is a power of two, building the tree and filling a new image reproduces the grid. |
| DrawGenerator.PrintDraw | DrawGenerator.java:7-21 | The rounds are those of `Rounds`: the draw, then each round's pairwise winners, ending with the champion round; an odd round above one throws `IndexOutOfBoundsException`. |
| DrawGenerator.PairMinsKeepsMin | DrawGenerator.java:13-16 | The winners of a round keep that round's best rank. |
| DrawGenerator.RoundsSucceed | DrawGenerator.java:10-18 | A non-empty draw is played to the end without an exception exactly when its size is a power of two. The empty draw gives a single empty round. |
| DrawGenerator.RoundsShape | DrawGenerator.java:7-21 | The first round is the draw itself. Each later round is the pairwise minima of the round before it, which has even length of at least two. The last round has at most one player. |
| DrawGenerator.Champion | DrawGenerator.java:10-20 | For a non-empty draw, the final round is the single best rank of the whole draw. |
| DrawGenerator.DoubledAt | DrawGenerator.java:29-32 | In one doubling of s players, position 2i holds player c[i] and position 2i + 1 holds its opponent 2s - c[i] + 1. |
| DrawGenerator.NextRound | DrawGenerator.java:28-32 | The loop builds exactly the doubled list. |
| DrawGenerator.GenerateFeasibleDraw | DrawGenerator.java:25-34 | Returns the list unchanged once its size is n. Otherwise it doubles and recurses. If the size is 0 or has passed n, the recursion never ends. |
| DrawGenerator.ExpandPerm | DrawGenerator.java:28-32 | Doubling a permutation of 1..s gives a permutation of 1..2s. |
| DrawGenerator.FeasibleDrawPerm | DrawGenerator.java:25-34 | Start from a permutation of 1..s, with s a power of two. The doubling reaches n exactly when n is a power of two and n ≥ s. The result is then a permutation of 1..n. If at least one doubling happened, every first-round pair adds up to n + 1. |
| DrawGenerator.ClearLowestBit | DrawGenerator.java:38-40 | For positive n, `n & (n - 1)` is zero exactly when n is a power of two. |
| DrawGenerator.IsPowerOfTwoMeaning | DrawGenerator.java:38-40 | On a 32-bit int, the bit test holds exactly for the positive powers of two, for 0, and for the minimum int. |
| DrawGenerator.NextPowIsLeast | DrawGenerator.java:41-47 | `NextPow(n)` is a power of two and is at least n. No smaller power of two is at least n. For positive n it is below 2n. |
| DrawGenerator.NextPowerOfTwo | DrawGenerator.java:41-47 | The doubling loop returns `NextPow(n)`. That value is never above 2^30, so the shift does not overflow. |
| DrawGenerator.GenerateDrawGeneral | DrawGenerator.java:51-61 | Picks n if the bit test holds, otherwise the next power of two. It builds the doubled draw of that size and replaces every entry above n with -1. When the caller's list already has that size, the returned draw is that list, which is masked in place; otherwise the caller's list is unchanged. |
| DrawGenerator.DrawGeneralSeeds | DrawGenerator.java:51-61 | Take 1 ≤ n ≤ 2^30 players, seeded from a permutation of 1..s with s a power of two that fits the bracket. The draw has `NextPow(n)` slots and lists each of 1..n exactly once, with byes (-1) elsewhere. If it was doubled at least once, no first-round pair is two byes. |
| DrawGenerator.MaskedByes | DrawGenerator.java:54-59 | Masking a permutation of 1..N above n keeps each of 1..n exactly once and turns the rest into -1. |
| DrawGenerator.MaskedPairs | DrawGenerator.java:54-59 | When pairs of positive seeds add up to N + 1 and N < 2n, no masked pair is two byes. |
| DrawGenerator.CombineDraws | DrawGenerator.java:78-92 | The nested loops list, for each left bracket L and each right bracket R, first L followed by R and then R followed by L. |
| DrawGenerator.CombineLength | DrawGenerator.java:79-92 | The join has twice as many brackets as the product of the two list sizes. |
| DrawGenerator.CombinePerm | DrawGenerator.java:79-92 | If every left bracket has the same multiset, and so does every right bracket, then every joined bracket has the union of the two. |
| DrawGenerator.GenerateAllPossibleDraws | DrawGenerator.java:65-94 | The recursion returns `AllDraws(draw)`. A one-player draw is its own only bracket. The empty draw never returns. |
| DrawGenerator.AllDrawsOk | DrawGenerator.java:65-77 | The list of brackets is produced exactly when the draw is non-empty. |
| DrawGenerator.AllDrawsCount | DrawGenerator.java:65-94 | A draw of n ≥ 1 players has 2^(n-1) brackets. |
| DrawGenerator.AllDrawsFirst | DrawGenerator.java:79-89 | The first bracket listed is the draw itself. |
| DrawGenerator.AllDrawsPermutes | DrawGenerator.java:65-94 | Every bracket is a permutation of the draw. |
| NaryWalk.ParentOfChild | NAryWalk.java:51-54 | The parent recorded for a listed child is the node that lists it. |
| NaryWalk.ParentListsChild | NAryWalk.java:51-54 | Every node but the root is listed as a child of its recorded parent. |
| NaryWalk.ForestStep | NAryWalk.java:38-55 | Polling the queue front and appending its children leaves strictly fewer nodes to visit, so the search ends. |
| NaryWalk.BfsVisitsAll | NAryWalk.java:38-55 | Every node of the tree is taken from the queue. |
| NaryWalk.DeepestLeaves | NAryWalk.java:42-50 | `Deepest` is the largest depth of any leaf. `FirstDeepest` and `LastDeepest` are leaves at that depth. No such leaf comes before the first or after the last in breadth-first order. |
| NaryWalk.UpPathShape | NAryWalk.java:57-62 | The path up from a node has depth + 1 nodes. It starts at the node, ends at the root, and each node is followed by its parent. |
| NaryWalk.WalkShape | NAryWalk.java:57-72 | The walk has 2·maxDepth + 1 nodes. It starts at the first deepest leaf, has the root in the middle and ends at the last deepest leaf. Each step up goes from a child to its parent, and each step down from a parent to its child. |
| NaryWalk.ClimbToRoot | NAryWalk.java:57-68 | Following the recorded parents until null lists the path up from the start node. |
| NaryWalk.EnqueueChildren | NAryWalk.java:51-55 | The children are appended to the queue in order, each recorded with its parent and with one more than the parent's depth. |
| NaryWalk.StepDeepest | NAryWalk.java:42-50 | A leaf deeper than the current maximum becomes both the first and the last deepest leaf. A leaf at the maximum becomes the last. Any other node changes nothing. |
| NaryWalk.Bfs | NAryWalk.java:28-73 | The method returns exactly `Walk(t)`. |
| NaryWalk.LeavesInOrder | NAryWalk.java:38-55 | A queue of leaves is taken in queue order. |
| NaryWalk.SampleOrder | NAryWalk.java:84-94 | The sample tree is visited as 4, 5, 7, 12, 1, 8. |
| NaryWalk.SampleDeepest | NAryWalk.java:84-94 | In the sample, 12 is the first deepest leaf and 8 the last, at depth 2. |
| NaryWalk.SampleWalk | NAryWalk.java:95-96 | The sample's walk reads 12, 5, 4, 7, 8. |
| UnionFind.Root | NumberOfIslands/DSUProd.java:44-49 | the representative find returns ends the parent chain: it is its own parent, and it is ranked above the element unless it is the element itself |
| UnionFind.Compress | NumberOfIslands/DSUProd.java:45-47 | path compression, pointing an element straight at its representative, keeps the forest valid and leaves every element's representative unchanged |
| UnionFind.CompressAll | NumberOfIslands/DSUProd.java:45-47 | the same for all elements at once: no element changes representative and the set of representatives is unchanged |
| UnionFind.Link | NumberOfIslands/DSUProd.java:60-63 | linking a lower-ranked representative under another keeps the forest valid; the linked class joins the other and no other element moves |
| UnionFind.LinkAll | NumberOfIslands/DSUProd.java:60-63 | the same for all elements at once: the linked representative stops being one, and only its class changes representative |
| UnionFind.RaiseRoot | NumberOfIslands/DSUProd.java:64-66 | raising a representative's rank by one keeps the forest valid |
| UnionFind.TieAll | NumberOfIslands/DSUProd.java:64-66 | on equal ranks one representative goes under the other, whose rank rises by one; the forest stays valid and only the linked class moves |
| UnionFind.MakeSetRoots | NumberOfIslands/DSUProd.java:39-42 | makeSet of a new element keeps the forest valid and every old element's representative |
| UnionFind.MakeSetAll | NumberOfIslands/DSUProd.java:39-42 | makeSet of a new element makes it a new representative of its own class; the old elements keep theirs |
| UnionFind.FindIn | NumberOfIslands/DSUProd.java:44-49 | find returns the element's representative and leaves the element pointing straight at it; no element changes representative and the representatives stay the same |
| UnionFind.FindsThenLink | NumberOfIslands/DSUProd.java:51-68 | two finds followed by a link of the two representatives give every element of both classes the same representative and leave every other element's representative unchanged |
| UnionFind.UnionIn | NumberOfIslands/DSUProd.java:51-69 | union returns false exactly when the two elements already share a representative, and then nothing moves; otherwise the lower-ranked representative goes under the other (on a tie b's under a's, whose rank rises by one) and the two classes become one |
| UnionFind.PartitionCount | NumberOfIslands/DSUProd.java:82-110 | when the forest partitions the land into its components, the representatives of the land number exactly its components |
| UnionFind.AddVertex | NumberOfIslands/DSUProd.java:93-96 | a new singleton class for a new cell keeps the partition of the old land, apart from the cell's pairs with its neighbours |
| UnionFind.UnionKeepsConnected | NumberOfIslands/DSUProd.java:100-103 | after the union of adjacent cells every cell is still connected within the land to its representative |
| UnionFind.UnionKeepsClosed | NumberOfIslands/DSUProd.java:100-103 | after that union adjacent cells still share a representative, and the two unioned cells now do too |
| UnionFind.UnionStep | NumberOfIslands/DSUProd.java:100-103 | a union of the new cell with a land neighbour settles that pair and keeps the partition otherwise |
| UnionFind.Settled | NumberOfIslands/DSUProd.java:97-105 | once no adjacent pair is pending, the forest's classes are exactly the land's components |
| UnionFind.Dsu.constructor | NumberOfIslands/DSUProd.java:36-37 | the new disjoint-set forest has no elements |
| UnionFind.Dsu.MakeSet | NumberOfIslands/DSUProd.java:39-42 | makeSet makes the element its own parent with rank 0 and keeps the forest valid |
| UnionFind.Dsu.Find | NumberOfIslands/DSUProd.java:44-49 | find returns the old representative, keeps the ranks and the elements, and no element changes representative |
| UnionFind.Dsu.Union | NumberOfIslands/DSUProd.java:51-69 | union by rank, with the outcome UnionIn states |
| Islands.Dirs4Closed | NumberOfIslands/DSUProd.java:85 | each of the four default directions has its opposite in the list |
| Islands.SymmetricOffsets | NumberOfIslands/DSUProd.java:97-105 | when the direction list is closed under negation, adjacency by a direction is symmetric |
| Islands.SymmetricOffsets3 | NumberOfIslands/DSU3D.java:98-104 | the same for three-dimensional offsets |
| Islands.Dirs4Symmetric | NumberOfIslands/DSUProd.java:85 | the four default directions give an undirected grid |
| Islands.Neighbours | NumberOfIslands/DSUProd.java:97-98 | the loop visits one neighbour per direction, in order, at the point plus the offset |
| Islands.NeighboursAdjacent | NumberOfIslands/DSUProd.java:97-105 | among the land, the visited neighbours are exactly the cells adjacent to the point |
| Islands.Neighbours3 | NumberOfIslands/DSU3D.java:98-99 | the three-dimensional neighbours, one per offset, in order |
| Islands.NeighboursAdjacent3 | NumberOfIslands/DSU3D.java:98-104 | among the land, those neighbours are exactly the adjacent points |
| Islands.CountedCount | NumberOfIslands/DSUProd.java:108-110 | under the terrain invariant the count is the number of components of the land |
| Islands.CountedEmpty | NumberOfIslands/DSUProd.java:80-82 | the empty terrain has no land, no elements and count zero |
| Islands.LinkStart | NumberOfIslands/DSUProd.java:93-96 | after makeSet of a new cell the count has risen by one and the loop invariant holds at the first direction |
| Islands.LinkSkip | NumberOfIslands/DSUProd.java:100 | a neighbour that is not land leaves the loop state as it is |
| Islands.LinkUnion | NumberOfIslands/DSUProd.java:100-103 | a union with a land neighbour keeps the loop invariant; the count falls by one exactly when union returned true |
| Islands.LinkDone | NumberOfIslands/DSUProd.java:97-105 | after the last direction the terrain invariant holds for the land with the new cell |
| Islands.LinkNeighbours | NumberOfIslands/DSUProd.java:97-105 | the neighbour loop, run over the forest object, ends with the loop invariant after the last direction |
| DsuProd.Terrain.constructor | NumberOfIslands/DSUProd.java:80-85 | a new terrain has no land, count zero and the four default directions, and satisfies the invariant |
| DsuProd.Terrain.AddLand | NumberOfIslands/DSUProd.java:87-106 | the cell joins the land, existing land changes nothing, and the invariant (the forest's classes are the land's components, the count is their number) is kept |
| DsuProd.Terrain.NewLand | NumberOfIslands/DSUProd.java:93-105 | a new cell joins the land and the invariant is kept |
| DsuProd.Terrain.NewCell | NumberOfIslands/DSUProd.java:93-96 | the new cell is added to the land and to the forest, and the count rises by one |
| DsuProd.Terrain.GetIslands | NumberOfIslands/DSUProd.java:108-110 | getIslands returns the number of four-connected components of the land |
| DsuProd.Scenario | NumberOfIslands/DSUProd.java:116-132 | the driver's four cells give 1, 1, 2 and 2 islands |
| DsuProd.IslandsOf | NumberOfIslands/DSUProd.java:108-110 | getIslands returns any known number of islands of the land (the count is unique) |
| DsuProd.CountOne | NumberOfIslands/DSUProd.java:121-122 | one cell is one island |
| DsuProd.CountTwo | NumberOfIslands/DSUProd.java:124-125 | the cells (0,0) and (0,1) are one island |
| DsuProd.CountThree | NumberOfIslands/DSUProd.java:127-128 | adding (2,2) makes two islands |
| DsuProd.CountFour | NumberOfIslands/DSUProd.java:130-131 | adding (2,1) still leaves two islands |
| Dsu3D.Terrain3D.constructor | NumberOfIslands/DSU3D.java:84-86 | a terrain built with a direction list has no land, count zero and that list, and satisfies the invariant |
| Dsu3D.Terrain3D.AddLand | NumberOfIslands/DSU3D.java:88-105 | the point joins the land, existing land changes nothing, and the invariant is kept |
| Dsu3D.Terrain3D.NewLand | NumberOfIslands/DSU3D.java:94-104 | a new point joins the land and the invariant is kept |
| Dsu3D.Terrain3D.NewCell | NumberOfIslands/DSU3D.java:94-96 | the new point is added to the land and the forest, and the count rises by one |
| Dsu3D.Terrain3D.GetIslands | NumberOfIslands/DSU3D.java:107-109 | getIslands returns the number of components of the land under the terrain's offsets |
| Dsu3D.Demo | NumberOfIslands/DSU3D.java:115-129 | with the six axis directions the driver's three points are one island |
| Dsu3D.Dirs6Closed | NumberOfIslands/DSU3D.java:117-121 | each of the six directions has its opposite in the list |
| Dsu3D.DemoIslands | NumberOfIslands/DSU3D.java:128 | getIslands returns 1 for the driver's three points |
| Dsu3D.DemoCount | NumberOfIslands/DSU3D.java:125-128 | the three points are one component |
| Islands.CountedAmongCount | NumberOfIslands/DSUNonSparse.java:55-57 | when every cell has an element of the forest, the count of land classes is the number of components of the land |
| Islands.LinkStartAmong | NumberOfIslands/DSUNonSparse.java:31-33 | marking a water cell as land, whose element is already a class of its own, starts the loop with one more land class |
| Islands.LinkSkipAmong | NumberOfIslands/DSUNonSparse.java:42 | a neighbour off the grid or not land leaves the loop state as it is |
| Islands.LinkUnionAmong | NumberOfIslands/DSUNonSparse.java:42-48 | a union with a land neighbour keeps the loop invariant; the count falls by one exactly when union returned true |
| Islands.LinkDoneAmong | NumberOfIslands/DSUNonSparse.java:38-52 | after the four directions the invariant holds for the land with the new cell |
| Islands.LinkNeighbour | NumberOfIslands/DSUProd.java:100-103 | one turn of the neighbour loop keeps the loop invariant, the count falling by one exactly when two classes were joined |
| ConfigurableTerrain.TerrainConfigurable.constructor | NumberOfIslands/ConfigurableTerrain.java:14-16 | a terrain built with a direction list has no land, count zero and that list, and satisfies the invariant |
| ConfigurableTerrain.TerrainConfigurable.AddLand | NumberOfIslands/ConfigurableTerrain.java:18-36 | the cell joins the land, existing land changes nothing, and the invariant (classes are components under the given directions, the count is their number) is kept |
| ConfigurableTerrain.TerrainConfigurable.NewLand | NumberOfIslands/ConfigurableTerrain.java:23-35 | a new cell joins the land and the invariant is kept |
| ConfigurableTerrain.TerrainConfigurable.NewCell | NumberOfIslands/ConfigurableTerrain.java:23-25 | the new cell is added to the land and the forest, and the count rises by one |
| ConfigurableTerrain.TerrainConfigurable.GetIslands | NumberOfIslands/ConfigurableTerrain.java:38-40 | getIslands returns the number of components of the land under the given directions |
| DsuSparse.Terrain.constructor | NumberOfIslands/DSUSparse.java:12-15 | the new terrain has empty maps, no land and count zero, and satisfies the invariant |
| DsuSparse.Terrain.AddLand | NumberOfIslands/DSUSparse.java:35-54 | the cell joins the land, existing land changes nothing, and the invariant (classes are four-connected components, the count is their number) is kept |
| DsuSparse.Terrain.NewLand | NumberOfIslands/DSUSparse.java:39-53 | a new cell joins the land and the invariant is kept |
| DsuSparse.Terrain.NewCell | NumberOfIslands/DSUSparse.java:39-43 | the new cell is added to the land as its own parent with rank 0, and the count rises by one |
| DsuSparse.Terrain.LinkNeighbour | NumberOfIslands/DSUSparse.java:47-52 | one turn of the loop: a land neighbour is unioned with the cell and the count falls exactly when two classes were joined; the loop invariant moves to the next direction |
| DsuSparse.Terrain.GetIslands | NumberOfIslands/DSUSparse.java:56-58 | getIslands returns the number of four-connected components of the land |
| DsuSparse.Terrain.Find | NumberOfIslands/DSUSparse.java:60-65 | find returns the representative, keeps the ranks and elements, and no element changes representative |
| DsuSparse.Terrain.Union | NumberOfIslands/DSUSparse.java:67-85 | union by rank, with the outcome UnionFind.UnionIn states, and the land and count untouched |
| DsuNonSparse.CellIndex | NumberOfIslands/DSUNonSparse.java:17-19 | the row-major index of a cell of the grid determines the cell |
| DsuNonSparse.IndexCell | NumberOfIslands/DSUNonSparse.java:17-19 | every index is the index of its cell |
| DsuNonSparse.IndexInRange | NumberOfIslands/DSUNonSparse.java:14-19 | a cell of the grid has an index among the row * col elements of the forest |
| DsuNonSparse.CellInRange | NumberOfIslands/DSUNonSparse.java:14-19 | every element of the forest is the index of a cell of the grid |
| DsuNonSparse.IndexInjective | NumberOfIslands/DSUNonSparse.java:17-19 | two cells of the grid share an index only when they are the same cell |
| DsuNonSparse.IdxSymmetric | NumberOfIslands/DSUNonSparse.java:35-36 | adjacency of indices by the four offsets is symmetric |
| DsuNonSparse.LandMember | NumberOfIslands/DSUNonSparse.java:21-23 | a cell of the grid is land exactly when its index is a land index |
| DsuNonSparse.LandAdd | NumberOfIslands/DSUNonSparse.java:31-33 | marking a cell's index adds exactly that cell to the land |
| DsuNonSparse.GridNeighbours | NumberOfIslands/DSUNonSparse.java:35-43 | the loop looks at four neighbours, in the order of dx and dy, and an off-grid one is never unioned |
| DsuNonSparse.GridNeighbourList | NumberOfIslands/DSUNonSparse.java:38-43 | among the cells of the grid, the neighbours the loop unions are exactly the adjacent ones |
| DsuNonSparse.NeighbourOf | NumberOfIslands/DSUNonSparse.java:38-43 | an index of the grid is adjacent to the cell exactly when it is one of the loop's neighbours |
| DsuNonSparse.GridCount | NumberOfIslands/DSUNonSparse.java:55-57 | the number of components of the land indices equals the number of four-connected islands of the land cells |
| DsuNonSparse.LinkXUnderY | NumberOfIslands/DSUNonSparse.java:81-82 | after the two finds, linking x's representative under y's higher-ranked one completes the union |
| DsuNonSparse.LinkYUnderX | NumberOfIslands/DSUNonSparse.java:83-84 | the same with y's representative under x's |
| DsuNonSparse.TieUnioned | NumberOfIslands/DSUNonSparse.java:85-88 | on equal ranks, y's representative goes under x's, whose rank rises by one, completing the union |
| DsuNonSparse.DSU.constructor | NumberOfIslands/DSUNonSparse.java:65-69 | DSU(n) makes every index its own parent with rank 0 |
| DsuNonSparse.DSU.Find | NumberOfIslands/DSUNonSparse.java:71-74 | find returns the index's representative, keeps the ranks, and no index changes representative |
| DsuNonSparse.DSU.Union | NumberOfIslands/DSUNonSparse.java:76-90 | union returns false exactly when x and y share a representative; otherwise union by rank merges their classes |
| DsuNonSparse.DSU.LinkByRank | NumberOfIslands/DSUNonSparse.java:81-89 | once the representatives differ, the lower-ranked one goes under the other (on a tie py under px, whose rank rises) and the union is complete |
| DsuNonSparse.DSU.LinkRoot | NumberOfIslands/DSUNonSparse.java:82 | parent[l] = w changes only that entry |
| DsuNonSparse.DSU.TieRoot | NumberOfIslands/DSUNonSparse.java:86-87 | parent[l] = w with rank[w] raised by one changes only those entries |
| DsuNonSparse.TerrainCount | NumberOfIslands/DSUNonSparse.java:55-57 | the terrain's count of land classes is the number of four-connected islands of its land |
| DsuNonSparse.CountedAmongStart | NumberOfIslands/DSUNonSparse.java:10-15 | a forest of singletons counts no land and no islands |
| DsuNonSparse.Terrain.constructor | NumberOfIslands/DSUNonSparse.java:10-15 | a new terrain is all water with a forest of row * col singletons and count zero |
| DsuNonSparse.Terrain.IsLand | NumberOfIslands/DSUNonSparse.java:21-23 | isLand tells whether the cell is land; a cell off the grid raises ArrayIndexOutOfBoundsException |
| DsuNonSparse.Terrain.GetIslands | NumberOfIslands/DSUNonSparse.java:55-57 | getIslands returns the number of four-connected islands of the land |
| DsuNonSparse.Terrain.AddLand | NumberOfIslands/DSUNonSparse.java:26-53 | a cell off the grid raises ArrayIndexOutOfBoundsException and changes nothing; otherwise the cell becomes land and the returned count is the number of islands |
| DsuNonSparse.Terrain.NewLand | NumberOfIslands/DSUNonSparse.java:31-50 | a water cell is added to the land and the invariant is kept |
| DsuNonSparse.Terrain.MarkLand | NumberOfIslands/DSUNonSparse.java:31-32 | the cell is marked land and counted as one more class |
| DsuNonSparse.LinkCells | NumberOfIslands/DSUNonSparse.java:38-50 | the loop over the four directions ends with the loop invariant after the last one |
| DsuNonSparse.LinkCell | NumberOfIslands/DSUNonSparse.java:39-49 | one turn: a land neighbour on the grid is unioned with the cell and the count falls exactly when two classes were joined |
| GridBfs.VisitingStart | NumberOfIslands/SparseBfs.java:67 | before the first direction the pass over the neighbours has visited and queued nothing |
| GridBfs.VisitingAdd | NumberOfIslands/SparseBfs.java:72-76 | a neighbour on the grid that is land and unvisited is visited and queued |
| GridBfs.VisitingSkip | NumberOfIslands/SparseBfs.java:72-73 | a neighbour off the grid, water or already visited changes nothing |
| GridBfs.VisitingDone | NumberOfIslands/SparseBfs.java:67-77 | after the four directions the pass has visited and queued exactly the unvisited land cells one step from the current cell |
| GridBfs.StepDirection | NumberOfIslands/SparseBfs.java:58-59 | every step of the search is the current cell plus one of the four directions |
| GridBfs.AllDirections | NumberOfIslands/SparseBfs.java:67-77 | once every direction is handled, every land cell one step away is visited |
| GridBfs.VisitsShrink | NumberOfIslands/SparseBfs.java:65-78 | a pass either visits nothing new or leaves less unvisited land, so the search ends |
| GridBfs.SearchStart | NumberOfIslands/SparseBfs.java:61-63 | the search starts with the start cell visited and queued |
| GridBfs.SearchStep | NumberOfIslands/SparseBfs.java:65-77 | dequeuing a cell and visiting its neighbours keeps the search invariant: every newly visited cell is land connected to the start |
| GridBfs.SearchDone | NumberOfIslands/SparseBfs.java:57-79 | when the queue is empty, the search has visited exactly the cells it can reach from the start through unvisited land on the grid |
| GridBfs.ReachedIsland | NumberOfIslands/SparseBfs.java:48-53 | with all land on the grid and the visited cells whole islands, a search from unvisited land reaches exactly the start's island |
| GridBfs.ReachedIslandAll | NumberOfIslands/SparseBfs.java:48-53 | the same, for every cell at once |
| GridBfs.CountingStart | NumberOfIslands/SparseBfs.java:45-46 | no cell visited and count zero is a valid counting state |
| GridBfs.CountStep | NumberOfIslands/SparseBfs.java:49-52 | a search from unvisited land visits one whole island more, and the count rises by one |
| GridBfs.CountAdd | NumberOfIslands/SparseBfs.java:49-52 | adding a whole island, with its start, to the visited cells keeps the counting state |
| GridBfs.CountCloses | NumberOfIslands/SparseBfs.java:49-52 | whole islands plus one more island are still closed under steps within the land |
| GridBfs.CountCovers | NumberOfIslands/SparseBfs.java:49-52 | every visited cell is connected to one of the counted starts |
| GridBfs.CountApart | NumberOfIslands/SparseBfs.java:49-52 | no two counted starts are connected |
| GridBfs.CountDone | NumberOfIslands/SparseBfs.java:54 | once all land is visited, the count is the number of four-connected islands |
| SparseBfs.Terrain.constructor | NumberOfIslands/SparseBfs.java:31-34 | a new terrain has the given bounds and no land |
| SparseBfs.Terrain.IsLand | NumberOfIslands/SparseBfs.java:36-38 | isLand holds exactly for added points |
| SparseBfs.Terrain.AddLand | NumberOfIslands/SparseBfs.java:40-42 | the point joins the land, and adding it again changes nothing |
| SparseBfs.Terrain.GetIslandsSparse | NumberOfIslands/SparseBfs.java:44-55 | when all land lies on the grid, the result is the number of four-connected islands; the land is unchanged |
| SparseBfs.Terrain.Bfs | NumberOfIslands/SparseBfs.java:57-79 | bfs adds to visited exactly the land the search from start reaches through unvisited land on the grid |
| SparseBfs.Terrain.VisitNeighbours | NumberOfIslands/SparseBfs.java:67-77 | one turn of the queue loop visits and queues exactly the unvisited land neighbours on the grid |
| NumberOfIslandsBfs.StepsFour | NumberOfIslandsBfs.java:33-34 | dx and dy list the four directions |
| NumberOfIslandsBfs.Terrain.constructor | NumberOfIslandsBfs.java:7-12 | a new terrain is a row x col matrix of water |
| NumberOfIslandsBfs.Terrain.IsLand | NumberOfIslandsBfs.java:13-15 | isLand tells whether the cell holds 1; a cell off the grid raises ArrayIndexOutOfBoundsException |
| NumberOfIslandsBfs.Terrain.AddLand | NumberOfIslandsBfs.java:16-18 | the cell becomes land; a cell off the grid raises ArrayIndexOutOfBoundsException and the terrain is unchanged |
| NumberOfIslandsBfs.Terrain.GetIslands | NumberOfIslandsBfs.java:19-31 | getIslands returns the number of four-connected islands of the land, leaving the terrain unchanged |
| NumberOfIslandsBfs.Terrain.ScanRow | NumberOfIslandsBfs.java:23-28 | after a row of the scan every land cell of that row and those above is visited, and the counting state is kept |
| NumberOfIslandsBfs.Terrain.ScanCell | NumberOfIslandsBfs.java:24-27 | an unvisited land cell starts a search and counts one island more; afterwards the cell is visited |
| NumberOfIslandsBfs.Terrain.CountIslands | NumberOfIslandsBfs.java:32-54 | countIslands marks exactly the land the search from the cell reaches through unvisited land |
| NumberOfIslandsBfs.Terrain.VisitNeighbours | NumberOfIslandsBfs.java:42-52 | one turn of the queue loop marks and queues exactly the unmarked land neighbours on the grid |
| NumberOfIslandsBfs.Terrain.VisitStep | NumberOfIslandsBfs.java:43-51 | the i-th direction keeps the pass invariant |
| NumberOfIslandsBfs.VisitLand | NumberOfIslandsBfs.java:47-50 | a land neighbour on the grid is marked and queued unless already marked |
| NumberOfIslandsBfs.Mark | NumberOfIslandsBfs.java:49 | vis[x][y] = true marks exactly one cell more |
| BinaryTrees.WalkStart | KthLargestBST/Morris.java:14-17 | the traversal starts with the whole tree to walk, no ancestors pending and no threads |
| BinaryTrees.VisitedPrefix | KthLargestBST/Morris.java:19-23 | the nodes visited so far are the start of the reverse in-order |
| BinaryTrees.LastIsMin | KthLargestBST/Morris.java:27-31 | the leftmost node of a subtree comes last in its reverse in-order, which is the node the successor loop stops at |
| BinaryTrees.WalkVisit | KthLargestBST/Morris.java:20-23 | visiting a node without a right child makes it the next node of the reverse in-order; its left link then leads to its left subtree, or through a thread back to the innermost pending ancestor, or nowhere |
| BinaryTrees.WalkPush | KthLargestBST/Morris.java:34-37 | going right: the leftmost node of the right subtree has no thread yet and gets one back to the node, which becomes the innermost pending ancestor |
| BinaryTrees.WalkPop | KthLargestBST/Morris.java:39-44 | back at the innermost pending ancestor through its thread: the thread is removed, the ancestor is the next node of the reverse in-order, and the walk goes on with its left subtree |
| BinaryTrees.SpineStep | KthLargestBST/Morris.java:29-31 | a step of the successor loop stays on the left spine of the right subtree and ends exactly at its leftmost node |
| BinaryTrees.Descending | KthLargestBST/Morris.java:14-49 | in a search tree the reverse in-order holds the keys in strictly descending order, so its k-th node holds the k-th largest key |
| BinaryTrees.NextLarger | KthLargestBST/ThreadedBST.java:124-164 | in a search tree the node before another in reverse in-order holds the next larger key: no key lies between the two |
| Morris.Node.constructor | KthLargestBST/Morris.java:9-11 | a new node holds the key and has no children |
| Morris.LinkedLinks | KthLargestBST/Morris.java:53-59 | a tree whose links are the ones its shape gives is a walk state without threads |
| Morris.LinksLinked | KthLargestBST/Morris.java:48 | once every thread is gone, each node's links are the original ones |
| Morris.FindKthLargest | KthLargestBST/Morris.java:14-49 | findKthLargest returns the key of the k-th node in reverse in-order (the k-th largest in a search tree), or null when k is below 1 or above the number of nodes; right links never change, and when nothing is found the tree is as it was |
| Morris.Begin | KthLargestBST/Morris.java:15-17 | the loop starts at the root with nothing visited and no threads |
| Morris.Stop | KthLargestBST/Morris.java:22 | wherever the walk stops, every right link is the original one |
| Morris.Done | KthLargestBST/Morris.java:17-48 | when the walk runs out of nodes it has visited all of them in reverse in-order and every thread is gone |
| Morris.Step | KthLargestBST/Morris.java:19-45 | one turn of the loop: either it visits the next node of the reverse in-order, or it visits nothing and the subtree still to walk shrinks |
| Morris.AtNode | KthLargestBST/Morris.java:20 | a node has no right link exactly when the walk is at a subtree without a right subtree |
| Morris.Visit | KthLargestBST/Morris.java:20-23 | visiting a node without a right child: it is the next node of the reverse in-order and the walk goes on at its left link |
| Morris.AtRight | KthLargestBST/Morris.java:25-27 | at a node with a right link, that link is still its right child, where the successor search starts |
| Morris.AtSuccessor | KthLargestBST/Morris.java:34 | the successor's left link is null exactly when the walk is going down into the right subtree, and the thread back otherwise |
| Morris.MakeThread | KthLargestBST/Morris.java:34-37 | the thread from the successor back to the node is made and the walk goes right |
| Morris.Push | KthLargestBST/Morris.java:34-37 | going right keeps the walk state with the node pending and the new thread |
| Morris.RemoveThread | KthLargestBST/Morris.java:39-43 | the thread is removed, the node is the next of the reverse in-order, and the walk goes left |
| Morris.Pop | KthLargestBST/Morris.java:39-43 | coming back through a thread keeps the walk state with one pending ancestor less |
| Morris.SetLeft | KthLargestBST/Morris.java:35 | changing one left link changes the thread map at that node only |
| Morris.Successor | KthLargestBST/Morris.java:27-31 | the inner loop ends at the leftmost node of the right subtree |
| Morris.MainRoot | KthLargestBST/Morris.java:53-59 | main's tree has seven nodes and its third node in reverse in-order holds 15 |
| Morris.MainRight | KthLargestBST/Morris.java:56-59 | main's right subtree has four nodes, the third of which is 15 |
| Morris.Sample | KthLargestBST/Morris.java:61-62 | main's query for the third largest key gives 15 |
| ThreadedBst.Node.constructor | KthLargestBST/ThreadedBST.java:118 | a new node holds the key, has no children and is not marked as a thread |
| ThreadedBst.PrevOf | KthLargestBST/ThreadedBST.java:126 | each visited node gets the node visited before it as its right link |
| ThreadedBst.PrevOfAt | KthLargestBST/ThreadedBST.java:132-135 | without repeats, each visited node's right link is its predecessor in the visit order, none for the first |
| ThreadedBst.LinkedLinks | KthLargestBST/ThreadedBST.java:193-199 | a tree whose links are the ones its shape gives is a build state with nothing visited |
| ThreadedBst.CreateLeftThreadedBST | KthLargestBST/ThreadedBST.java:124-164 | afterwards every left link is the original one, every node is marked as a thread, and each node's right link leads to the node before it in reverse in-order (the next larger one in a search tree), the largest node's to nothing |
| ThreadedBst.Begin | KthLargestBST/ThreadedBST.java:125-126 | the loop starts at the root with nothing visited and prev null |
| ThreadedBst.Done | KthLargestBST/ThreadedBST.java:128-163 | when the walk runs out of nodes all of them are visited in reverse in-order, the temporary links are gone and the right links form the chain |
| ThreadedBst.Chain | KthLargestBST/ThreadedBST.java:132-135 | once every node is visited the right links form the chain of reverse in-order and every node is marked |
| ThreadedBst.Step | KthLargestBST/ThreadedBST.java:130-162 | one turn of the loop: either the next node of the reverse in-order is visited, or nothing is and the subtree still to walk shrinks |
| ThreadedBst.AtNode | KthLargestBST/ThreadedBST.java:130 | the node the walk is at is unvisited, and its right link is null exactly when its subtree has no right subtree |
| ThreadedBst.Visit | KthLargestBST/ThreadedBST.java:130-137 | a node without a right child is the next node of the reverse in-order, and its left link is where the walk goes on |
| ThreadedBst.Thread | KthLargestBST/ThreadedBST.java:132-133 | current.right = prev and isThread = true: the node's right link becomes its predecessor in the visit order |
| ThreadedBst.AtRight | KthLargestBST/ThreadedBST.java:138-140 | at a node with a right link, that link is still its right child |
| ThreadedBst.AtSuccessor | KthLargestBST/ThreadedBST.java:146 | the successor's left link is null exactly when the walk is going down into the right subtree |
| ThreadedBst.MakeThread | KthLargestBST/ThreadedBST.java:146-149 | the temporary link from the successor back to the node is made and the walk goes right |
| ThreadedBst.Push | KthLargestBST/ThreadedBST.java:146-149 | going right keeps the walk state with the node pending and the new link |
| ThreadedBst.RemoveThread | KthLargestBST/ThreadedBST.java:151-161 | the temporary link is removed, the node is visited and linked right to prev, and the walk goes left |
| ThreadedBst.Pop | KthLargestBST/ThreadedBST.java:151-161 | coming back through a temporary link keeps the walk state with one pending ancestor less |
| ThreadedBst.SetLeft | KthLargestBST/ThreadedBST.java:148 | changing one left link changes the link map at that node only and no right link |
| ThreadedBst.Successor | KthLargestBST/ThreadedBST.java:140-144 | the inner loop ends at the leftmost node of the right subtree |
| ThreadedBst.Descend | KthLargestBST/ThreadedBST.java:174-176 | the first loop stops at the nearest node at or before its start that is marked as a thread, or at the first node |
| ThreadedBst.KthLargest | KthLargestBST/ThreadedBST.java:169-186 | kthLargest as written: -1 for a missing root or k below 1; otherwise the node k - 1 links along the chain from where the first loop stops, or -1 past the end |
| ThreadedBst.KthLargestCorrected | KthLargestBST/ThreadedBST.java:169-186 | on the tree createLeftThreadedBST leaves, the key of the k-th largest node, or -1 when k is not between 1 and the number of nodes |
| ThreadedBst.MainRoot | KthLargestBST/ThreadedBST.java:193-199 | main's tree has seven nodes, the root 10 is fifth in reverse in-order and 40 is first |
| ThreadedBst.MainRight | KthLargestBST/ThreadedBST.java:196-199 | main's right subtree has four nodes, 40 first |
| ThreadedBst.SampleAsWritten | KthLargestBST/ThreadedBST.java:204-207 | main's first query, as written, gives the root's key 10 |
| ThreadedBst.SampleCorrected | KthLargestBST/ThreadedBST.java:204-207 | the corrected query gives 40, the value main expects |
| AdClickConcurrent.ConcurrentAdClickSystem.RemoveNext | ADCLICKEVENT/ConcurrentCode.java:257-264 | removing the next listed day takes it from what is left of the history with its own count, and adds exactly its record to the persisted records |
| TennisSweep.SortedCopies | ExpandingTennisClub/follow4.java:26-36 | the two fresh arrays hold the starts and the finishes of the bookings, each in ascending order |
| TennisSweep.SweepBookings | ExpandingTennisClub/follow4.java:25-52 | over the sorted starts and finishes, the sweep fails exactly when the largest finish is at most the largest start, and otherwise bounds every prefix of starts and reaches that bound |
| TennisSweep.LastFinishMeaning | ExpandingTennisClub/follow4.java:41-42 | the sweep's failure test holds exactly when some booking starts no earlier than every booking finishes |
| TennisSweep.BoundMeaning | ExpandingTennisClub/follow4.java:41-50 | with every booking starting before it finishes, the sweep's bound is at most n, at least the bookings in use at every instant, and reached at some instant |
| TennisSweep.SweepMeaning | ExpandingTennisClub/follow4.java:25-53 | the sweep's result, read back on the bookings: it fails exactly when some booking starts no earlier than every booking finishes, and otherwise it is the largest number of bookings in use at once |
| NaryWalk.MaxLeafDepthIsMax | NAryWalk.java:42-50 | the running maximum is at least the depth of every leaf scanned, and a positive maximum is the depth of a scanned leaf |
| NaryWalk.BfsCovers | NAryWalk.java:38-55 | a node whose ancestor, or the node itself, is in the queue is taken by the search |
| NaryWalk.SampleScan | NAryWalk.java:84-94 | on the sample the deepest leaves are at depth 2, node 3 is the first and node 5 the last |
| NaryWalk.SampleWalkNodes | NAryWalk.java:95-96 | the sample's walk climbs from node 3 to the root and goes down to node 5 |


## Left out

- Concurrency in `ConcurrentCode.java`: the purger thread, the per-ad `ReentrantLock`s and the `LongAdder`s. Each public method is one atomic step, and a `LongAdder` is a plain counter. Interleavings, such as a purge racing with an ingest of the same ad, are not modelled.
- The format of a persisted record string and the console output. A record is modelled as the triple `(ad, date, counter)`.
- `LocalDate.now()` and the scheduler's clock. The current day is a parameter.
- Java `int` overflow of the counters and of the window sums. Counters are unbounded naturals.
- SHA-256 in `shardForKey`: the digest of the row key is a parameter of `Codec.ShardForKey`. SHA-256 is not part of this model.
- UTF-8 in the codec: a string part is modelled by its UTF-8 bytes, so `toString()` and `new String(bytes, UTF_8)` are not modelled. Decoding invalid UTF-8 is not modelled either.
- `Codec.Encode`: the int overflow of `total` for keys over 2 GiB is not modelled.
- The regular expressions of the two palindrome routines are predicates (`Canonical`, `ValidDecimal`). `String.indexOf`, `String.replace`, `StringBuilder.reverse` and `String.compareTo` are functions with the Java meaning.
- HauntedHouse.SolutionThree: inputs with low < 0 or high < -1 are excluded. Their events sort first at positions below 1, and the sweep never consumes them.
- HauntedHouse.SolutionFour: inputs with low = -1 or high = -2 are excluded. Their entry `diff[0]` is never added to the sum, so the result is not the net count those people give. A negative n, for which Java throws `NegativeArraySizeException` or returns 0, is excluded too.
- HauntedHouse: the sweep is modelled as two methods, `SolutionThree` and `SweepEvents`. `List.sort` is the insertion sort `SortByPosition`. The debug print of the events is left out.
- LocalMinima.TwoDLocalMinima: the grid is a list of rows of equal length. A ragged `int[][]`, on which Java may throw past the first row, is excluded by the precondition.
- LocalMinima.FirstMin: `PriorityQueue` may break ties between points of equal distance and value in any order. The model takes the first such point in insertion order.
- LocalMinima.KLocalMinima: the order of the list built from the heap's internal array is not modelled, only its contents. The comparator `b - a` overflows for values more than 2^31 apart; this is not modelled.
- InvertedIndex.Lower: only ASCII letters are lower-cased, and `\W` is taken as the ASCII class. Java's locale-dependent and Unicode case mapping is not modelled.
- InvertedIndex.ExampleQuery: starts from the posting lists of "fatal" and "disk" stated in the sample rather than tokenising the five sample messages.
- InvertedIndex.SortBySize: the library sort is modelled as a stable insertion sort. Only the permutation is stated, not the size order, because no later step depends on it.
- NStable.SolutionOne: values are unbounded integers. The Java `int` overflow of `arr[x] - arr[y]` in `Math.abs` and of `max - min` in the later solutions is not modelled. The array is passed as a read-only sequence.
- NStable.SolutionFourth: requires m >= 0 whenever n >= 1. With a negative m the map empties and `lastKey` throws `NoSuchElementException`; that exception is not modelled. The red-black tree behind `TreeMap` is not modelled: the counts are a multiset, and `lastKey` and `firstKey` are scans over it.
- `solutionFifth` (NStable.java:173-202) is not modelled. Its deques compare stored indices with array values, so it is not equivalent to the other four.
- ContentPopularity.PopularContent.GetMostPopular: `iterator().next()` on a `HashSet` returns an id that depends on hashing. The model picks any id of the bucket, and the contract states only what holds for every choice. The same applies to `ContentPopularityOptimized.PopularContentOptimized.GetMostPopular`.
- ContentPopularity.PopularContent.Update: popularities are unbounded integers, so the Java `int` overflow after 2^31 increments is not modelled.
- ContentPopularityOptimized.PopularContentOptimized.Update: the three maps are updated as values and stored back in one step, not one `put` at a time. No other code observes the intermediate states.
- CommodityPricing.RunningCommodityPrice.UpsertCommodityPrice: counts are unbounded integers; an `int` count overflowing after 2^31 timestamps at one price is not modelled.
- CommodityPricing.RunningCommodityPriceOptimized.UpsertCommodityPrice: requires the new price to be a Java `int`. The rescan starts from `Integer.MIN_VALUE`, so the running maximum is only meaningful for prices in that range.
- EmployeeTree.Org.ClosestCommonGroup: when a common ancestor id was never registered, Java throws a `NullPointerException` while reading its depth. The model returns that exception as an error result.
- EmployeeTree.Org.BuildAncestorsAndDepths: requires `Acyclic`. On a cycle of parent links the Java walk never ends, and the model does not describe that.
- EmployeeDag.Org.BuildMemo: requires a ghost rank map showing that the parent links have no cycle. On a cycle the Java recursion overflows the stack.
- EmployeeDag.Org.BuildMemo: requires the memos already present to be correct for the current links. Links added after an earlier `buildMemo` leave stale entries that Java keeps using; the model does not describe what those stale entries then give.
- The employee query modules iterate `HashSet`s in an unspecified order. The loops pick any remaining element, and the proved results do not depend on that order.
- GroupQueries.LexLess compares Dafny characters. Java compares UTF-16 code units; the two agree for the ids used here.
- Employee/follow3.java is not part of this model. Its point is lock-free snapshot swapping.
- `ZonedDateTime` and `LocalDate`: an instant is a count of nanoseconds in UTC and a date is its epoch day number. Time zones other than UTC, and the range limits of the Java date types, are not modelled. `toString` of an interval is left out.
- ScheduleInterval.IsTimestampIncluded: `(l + r) >>> 1` is modelled as `(l + r) / 2`. The two agree because list indices are non-negative and below 2^31.
- DynamicScheduling.DynamicScheduler.RemoveInterval: follows the Java code and cuts only the floor interval. Stored intervals that start inside the removed interval are left as they are.
- DynamicScheduling.CutKeepsOrder: states only that no two stored intervals overlap, not that they are separated. The two parts of a cut may share an end point.
- The `TreeMap` is a map from start instant to interval. Its red-black tree and the logarithmic costs are not modelled.
- TennisCourts.SortByStart: `List.sort` reorders the caller's list in place. The model returns the sorted list, and each assigning method hands it back as `sorted`.
- The heaps of the tennis follow-ups are maps from court id to next free time (or to the court's state object). When several courts are free at the same least time, the top is the heap's choice, and the contracts hold for any of them.
- Java `int` overflow of `finish + maintenanceTime` and of the usage counts is not modelled.
- TennisSweep.MinCourtsNeeded: when some booking has start at least finish but the sweep does not fail, the contract does not state the value returned.
- TennisSweep: `isConflict` is symmetric (`ConflictSymmetric`) and gives the dry run's answers (`ConflictExamples`); Dafny proves both from the definition alone.
- The `main` methods' printing of the tennis assignments is left out.
- MeetingRoom.Offer: Java's `PriorityQueue` does not fix the order among slots with the same end time. The model polls those in the order they were offered.
- MeetingRoom.MeetingScheduler.ReserveRoom: `UUID.randomUUID` becomes the `id` parameter, and `Reservation.toString` is left out. The exception is the `Err` result. The Java polling loop runs before the throw, but a refusal implies it polled nothing, so no state change is lost.
- MeetingRoom: Java `int` overflow of `currentTime - RETENTION_PERIOD` is not modelled.
- ServiceDiscovery: `HashSet` and `keySet` iteration order is unspecified in Java. The model picks an arbitrary member (`:|`), so every stated property holds for any iteration order.
- ServiceDiscovery.DiscoverDFS: the mutated `visited` set is passed in and returned as a value, since only the method itself updates it.
- ServiceDiscovery: the `ServiceDiscovery` object only holds a final map, so it becomes the `Graph` parameter `g`. `getPackageBuildDependencies` is the function `Deps`.
- ServiceDiscovery.MainExample: the printed list depends on `HashSet` iteration order. The model states its contents and the two orderings fixed by the dependencies, not a single list. Printing is left out.
- ServiceDiscovery/Parallel.java is not part of this model. It is a write-up of a thread-pool build scheduler (atomic in-degrees, a latch), whose point is concurrency.
- Parking: spot ids are strings "L<level>-<index>". The model keeps the two numbers in `SpotId`, so `split`, `substring`, `parseInt` and their `NumberFormatException` are not modelled.
- Parking: the `ReentrantLock` of each level and the `ConcurrentHashMap`s of the lot are left out. Every operation runs alone.
- Parking: the vehicle subclasses become the `VehicleType` of one `Vehicle` value, and `spotsNeeded` is computed from it (`SpotsNeeded`).
- Parking.Level.FindConsecutiveSpots: returns the start of the run, not the Java candidate list. `Park` returns the list, as the slice of the level's spots from that start.
- Parking.ParkingLot.Park: `UUID.randomUUID` and `System.currentTimeMillis` become the `ticketId` and `now` parameters. The maps stay consistent only when the id is not already active; a UUID collision is not modelled.
- Parking.ParkingLot.Valid: states that tickets are filed under their own ids and plates. It does not state that a ticket's spots hold its vehicle.
- Parking: `Sol.java` declares two classes named `Level`. `ParkingLot` is modelled over the first, `Parking.Level`. The second, the optimised level, is `ParkingSegments.SegmentLevel`, modelled on its own.
- Parking.MainExample: the printing of ticket ids and spot ids is left out. The tickets get the ids "ticket-1" to "ticket-3" and the entry time 0.
- ParkingSegments.SegmentLevel.Park: like the Java code, it does not check `canFit` or `isFree`. The run it takes is free because the level is consistent; the spot types are not looked at.
- ParkingSegments.SegmentLevel.FreeSpots: requires the list to be one earlier allocation, a run of occupied spots whose first id names its start. The Java code does not check this, and freeing anything else would break the segment map.
- ParkingSegments.SegmentLevel.constructor: requires distinct spots, numbered by position and all free. The Java constructor assumes this without checking.
- ParkingSegments: the `TreeMap` becomes a map. `lowerKey`, `higherKey` and the ascending `entrySet` walk are key scans (`LowerKey`, `HigherKey`, `FirstKey`), and the logarithmic costs are not modelled.
- ParkingLot/HLD.java and ParkingLot/TestBeforeProd.java are not part of this model. They are write-ups on production architecture and on test planning.
- QuadTree.BuildSquareCells: holds only for sides that are powers of two. On any other side, the four halves of side size / 2 leave out the last row and column. The tree then describes no value for those cells. `RebuildSquare` and `SquareCellIsCell` carry the same requirement.
- QuadTree.Build: requires a square grid. On a rectangular grid, the square builder ignores extra columns or reads past the last column.
- QuadTree: grids are rectangular, which rules out ragged `int[][]`. The width is read from the first row. `Reconstruct` returns a two-dimensional array instead of an array of row arrays, so rows are never shared between images.
- QuadTree: the `isLeaf` flag is the choice between `Leaf` and `Node`. The value of an internal node is kept (-1 or 0) but never read.
- QuadTree/QuadTreeBuildConcurrent.java is not part of this model. It is the fork/join version of the square builder, and the sequential builders are modelled.
- DrawGenerator.GenerateFeasibleDraw: the opponent 2·size − p + 1 is computed on unbounded integers. A draw whose entries are far outside 1..size could overflow Java's int, and the model does not capture that.
- DrawGenerator.FeasibleDraw: a recursion that never reaches size n is modelled as `StackOverflowError`. For a list that keeps doubling, Java may run out of heap first.
- DrawGenerator.NextPowerOfTwo: requires n ≤ 2^30. For larger n, the 32-bit shift makes p negative and then 0, and the loop never ends. `GenerateDrawGeneral` carries the same requirement.
- DrawGenerator.FeasibleDrawPerm: permutation and pairing are proved only for seed lists that are a permutation of 1..s with s a power of two. `DrawGeneralSeeds` carries the same requirement.
- DrawGenerator: the `main` method's printed samples are not modelled.
- DrawGenerator.GenerateDrawGeneral: lists are values. The in-place masking of the caller's list is returned as `callerList`, not written through a shared reference.
- NaryWalk: nodes are ids rather than objects, and a tree is a list of child lists whose child ids exceed the parent's. Each node has at most one parent, so the `HashMap` keyed by node identity becomes a map keyed by id. Shared or cyclic child lists are not modelled.
- NaryWalk.Bfs: the walk is returned as node ids; `Values` reads their values. The `println` of each polled node and of the result is left out.

- Islands: Java `int` overflow is not modelled: ranks, `islandCount` and the cell index `x * col + y` are unbounded integers.
- Islands: `equals`/`hashCode` of the point records become Dafny value equality of `Point` and `Point3`, and each `HashMap`/`HashSet` becomes a map or a set.
- UnionFind.Dsu.MakeSet: requires a point that is not yet in the forest. Java would reset such a point to a singleton of rank 0, but every caller first checks that the point is new land.
- DsuProd.Terrain.constructor: the direction list is fixed to the four axis directions, as in DSUProd.java.
- Dsu3D.Terrain3D.constructor: requires a direction list closed under negation, so that adjacency is symmetric. Java accepts any list, and with a one-way list the count is not the number of components.
- ConfigurableTerrain.TerrainConfigurable.constructor: requires a direction list closed under negation, for the same reason.
- DsuNonSparse.Terrain.constructor: requires non-negative sizes. Java throws `NegativeArraySizeException` for a negative size, and that exception is not modelled.
- NumberOfIslandsBfs.Terrain.constructor: requires non-negative sizes, for the same reason.
- SparseBfs.Terrain.GetIslandsSparse: the count is stated only when all land lies inside the grid. `bfs` bounds-checks only the neighbours it reaches (SparseBfs.java:72), never its start. A search started at off-grid land therefore still visits and queues adjacent in-grid land. The count then depends on the order in which the `HashSet` yields the points. On a 1×1 grid with land (-1, 0) and (0, 0), it is 1 when (-1, 0) comes first and 2 when (0, 0) comes first. `Bfs` models that start rule as written, but the iteration order of the set is not modelled.
- SparseBfs.Terrain.Bfs: requires an unvisited land start, which is how `getIslandsSparse` calls it. The `visited` `HashSet` the Java code mutates is passed in and returned as a value.
- NumberOfIslandsBfs.Terrain.CountIslands: requires an unvisited land start, which is how `getIslands` calls it.
- Morris.FindKthLargest: when the k-th node is found, the Java code returns at once and leaves any threads made so far in the left links. The contract states only that the right links are unchanged then, and that all links are restored when nothing is found.
- Morris and ThreadedBst: a node's key is a `const`; the Java code never writes it after construction.
- ThreadedBst.KthLargest: requires the right links to form the chain that `createLeftThreadedBST` leaves, which is the only state `main` queries.
- ThreadedBst: of `main`'s seven queries, only the first (k = 1) is stated, as written and corrected (`SampleAsWritten`, `SampleCorrected`). The console output is left out.

## Findings

| source | as written | input that shows it | evidently intended | confidence | as-written member | corrected member |
|---|---|---|---|---|---|---|
| NextPalindrome/NExtGReaterPAlindromeDEcimal.java:20-33 | a '.' at index `length / 2` is taken as the centre even when the length is even; `compare` then ranks the longer mirror first | "12.5" gives "12.21", which is below 12.5 | an even-length string has no middle character, so its '.' is dropped like any other: "12.5" gives "131" | medium, not executed | NextPalindromeDecimal.EvenCentredBelow | NextPalindromeDecimal.NextDecimalFixedAbove |
| ExpandingTennisClub/follow3.java:75-79 | a new court starts with `usageCount` 1 without comparing it with the durability, and each later use only tests `usageCount == durability` | durability 1, maintenance 3, bookings (1–4) then (4–6): both take court 1, with no maintenance between, and the count goes on growing | the first booking on a court counts like any other, so with durability 1 a court goes to maintenance after every booking | medium, not executed | TennisDurability.DurabilityOneNeverMaintained | TennisDurability.CycleFixedAt |
| KthLargestBST/ThreadedBST.java:169-186 | `createLeftThreadedBST` marks every node as a thread, so the first loop of `kthLargest`, which moves right only past nodes that are not threads, stops at once at the root. The root is then taken as the largest node | `main`'s tree 10, 4, 2, 15, 12, 20, 40, threaded, and k = 1: the result is 10 | the k-th largest key (40 for k = 1), or -1 when k is out of range | not executed | ThreadedBst.KthLargest | ThreadedBst.KthLargestCorrected |
