# Vehicle obstruction geometry and timer management (Veins)

This project is a Dafny model of two pieces of the Veins vehicular network simulator.

- **Vehicle obstacles** (`vehicle_obstacle.dfy`, module `VehicleObstacle`).
  - A vehicle's footprint is the rectangle of its body. It is rotated by minus the heading and placed at the mobility position.
  - An obstruction query asks whether a straight radio path from a sender to a receiver is blocked by that footprint, and at what distance from the sender.
  - The query combines three things: a ray-casting point-in-polygon test, a segment intersector based on Cramer's rule, and a minimum over the edges' intersection fractions.
  - Coordinates are exact reals.
  - The heading enters as its cosine and sine.
  - The sender–receiver distance is a parameter `d`.
  - The floating-point NaN answer ("not blocked") is the `Clear` constructor.
- **Timers** (`timer_manager.dfy`, module `Timers`).
  - A `TimerSpecification` is built by chained setters: a start mode (immediate, relative, absolute), an end mode (open, relative, absolute, repetition count) and a period.
  - `finalize` makes it absolute against the current simulation time.
  - A `TimerManager` keeps a map from timer messages to finalized specifications. It schedules, reschedules and cancels those messages with the owning module.
  - Simulation time is an integer number of ticks. The current time is a parameter `now`.
  - Scheduler calls and fired callbacks are ghost logs.

`segmentsIntersectAt` (src/veins/modules/obstacle/VehicleObstacle.cc:50-56) has no test for a zero determinant D. It divides by D unconditionally:
  - for parallel, non-collinear segments it divides a nonzero value by zero, gets an infinity, and the range test rejects it;
  - for collinear segments it gets 0/0 = NaN, which passes both range tests.

The model adds a `D == 0 → −1` branch in `SegmentsIntersectAt`, which the rest of the model uses. It keeps the unguarded code as `SegmentsIntersectAtAsWritten`. See "Findings".

## Model

| member | source | states |
|---|---|---|
| VehicleObstacle.Rotate2d | src/veins/modules/obstacle/VehicleObstacle.cc:61-65 | rotating by an angle with c² + s² = 1 preserves the squared length |
| VehicleObstacle.RotateInverse | src/veins/modules/obstacle/VehicleObstacle.cc:61-65 | rotating by −a undoes rotating by a |
| VehicleObstacle.RotatePreservesDistance | src/veins/modules/obstacle/VehicleObstacle.cc:61-65 | rotation preserves the distance between two points |
| VehicleObstacle.GetShape | src/veins/modules/obstacle/VehicleObstacle.cc:68-83 | the footprint has exactly four points |
| VehicleObstacle.ShapeInVehicleFrame | src/veins/modules/obstacle/VehicleObstacle.cc:76-80 | footprint point k, moved back to the vehicle frame, is body corner k, in the order rear-left, front-left, front-right, rear-right: x is o − l or o, y is ∓width/2 |
| VehicleObstacle.ShapeDistance | src/veins/modules/obstacle/VehicleObstacle.cc:76-80 | distances between footprint points equal those between the body corners, whatever the position and heading |
| VehicleObstacle.ShapeEdgeLengths | src/veins/modules/obstacle/VehicleObstacle.cc:76-80 | the cyclic edges have squared lengths length², width², length², width² |
| VehicleObstacle.InYRange | src/veins/modules/obstacle/VehicleObstacle.cc:34-37 | the half-open y-range test holds exactly when point.y is in [min, max) of the edge's y values; when it holds, the edge is not horizontal, so the division on line 38 has a nonzero divisor |
| VehicleObstacle.CrossingX | src/veins/modules/obstacle/VehicleObstacle.cc:38 | the interpolated x is where the edge crosses the horizontal line through the point (a point of the edge at some fraction in [0, 1]) |
| VehicleObstacle.IsPointInObstacle | src/veins/modules/obstacle/VehicleObstacle.cc:29-43 | the loop pairs vertex i with its cyclic predecessor j (starting from j = last) and returns true exactly when an odd number of edges toggle |
| VehicleObstacle.CountTogglesIsEdgeCount | src/veins/modules/obstacle/VehicleObstacle.cc:33-41 | the toggle count is the size of the set of toggling edge indices: each edge is counted exactly once |
| VehicleObstacle.SegmentsIntersectAt | src/veins/modules/obstacle/VehicleObstacle.cc:45-59 | the answer is exactly −1 or a fraction in [0, 1], both ends included |
| VehicleObstacle.SegmentsIntersectAtSound | src/veins/modules/obstacle/VehicleObstacle.cc:46-58 | an answer t ≠ −1 is a common point: p1From + t·(p1To − p1From) = p2From + s·(p2To − p2From) for some s in [0, 1] |
| VehicleObstacle.SegmentsIntersectAtComplete | src/veins/modules/obstacle/VehicleObstacle.cc:50-58 | for non-parallel segments that share a point at fractions t and s in [0, 1], the answer is t |
| VehicleObstacle.SegmentsIntersectAtAsWritten | src/veins/modules/obstacle/VehicleObstacle.cc:50-58 | with IEEE division and NaN comparisons, the code agrees with the guarded intersector whenever the determinant is nonzero |
| VehicleObstacle.CollinearSegmentsGiveNaN | src/veins/modules/obstacle/VehicleObstacle.cc:50-58 | collinear input (all three cross products zero) makes the code as written return NaN, while the guarded intersector returns −1 |
| VehicleObstacle.FirstCrossing | src/veins/modules/obstacle/VehicleObstacle.cc:95-109 | the running minimum over edges 0..k−1 is absent exactly when no edge gives a fraction ≠ −1; otherwise it is in [0, 1] and no larger than any edge's fraction |
| VehicleObstacle.FirstCrossingIsAnEdge | src/veins/modules/obstacle/VehicleObstacle.cc:99-109 | the minimum is the fraction of one of the edges |
| VehicleObstacle.ObstructionCases | src/veins/modules/obstacle/VehicleObstacle.cc:90-116 | a sender inside blocks at distance 0; the answer is clear exactly when both ends are outside and no edge is crossed; a receiver inside with no edge crossed blocks at the full distance |
| VehicleObstacle.ObstructionWithinPath | src/veins/modules/obstacle/VehicleObstacle.cc:118 | every blocking distance lies in [0, d] |
| VehicleObstacle.FirstCrossingIsFirstContact | src/veins/modules/obstacle/VehicleObstacle.cc:94-118 | with the sender outside and some edge crossed, the answer is d·t for a t in [0, 1] at which the path meets an edge, and no non-parallel edge meets the path at a smaller fraction |
| VehicleObstacle.GetIntersectionPoint | src/veins/modules/obstacle/VehicleObstacle.cc:85-119 | the loop with a running minimum and a crossing flag computes the obstruction answer on the vehicle's footprint |
| Timers.SizeTDecrement | src/veins/modules/utility/TimerManager.cc:105 | `end_count_ - 1` in size_t: n − 1 for n ≥ 1, and SIZE_MAX for n = 0 |
| Timers.TimerSpec.Finalized | src/veins/modules/utility/TimerManager.cc:84-110 | after finalization the start is not relative (a relative start becomes absolute, other start modes are kept); an open end stays open and every other end becomes absolute; period and count are unchanged |
| Timers.ValidOccurenceIsPeriodic | src/veins/modules/utility/TimerManager.cc:112-114 | with a positive period, `validOccurence(t)` holds iff t = start + k·period for some k ≥ 0, and t ≤ end time or the end is open |
| Timers.FirstOccurrenceAfterFinalize | src/veins/modules/utility/TimerManager.cc:85-95 | the finalized start is now + start (relative), start (absolute), or now + period (immediate: one period after now, not now); no occurrence is earlier; the start is an occurrence iff the end is open or not yet passed |
| Timers.EndAfterFinalize | src/veins/modules/utility/TimerManager.cc:97-103 | a relative end becomes the absolute end time now + end time, and an absolute end is kept; no occurrence lies after that end, and with a positive period every start + k·period up to it is an occurrence |
| Timers.RepetitionsOccurrences | src/veins/modules/utility/TimerManager.cc:104-106 | for n ≥ 1 repetitions and period > 0, start + k·period is an occurrence exactly for 0 ≤ k < n |
| Timers.OneshotFiresOnce | src/veins/modules/utility/TimerManager.cc:76-82 | a specification with one repetition and any positive period (one second for the one-shot setters) has exactly one occurrence: now + start (relative) or start (absolute) |
| Timers.NextOccurrence | src/veins/modules/utility/TimerManager.cc:140-145 | after a valid occurrence, the next period is an occurrence iff the end is open or not yet passed |
| Timers.Firings | src/veins/modules/utility/TimerManager.cc:136-145 | the firing times that the fire-then-reschedule rule of `HandleMessage`'s contract produces from a first delivery; each of them is a valid occurrence |
| Timers.RepetitionsFireNTimes | src/veins/modules/utility/TimerManager.cc:104-106 | a timer finalized with n ≥ 1 repetitions, delivered at its start, fires exactly n times, one period apart |
| Timers.TimerSpecification.constructor | src/veins/modules/utility/TimerManager.cc:27-28 | a new specification has an immediate start, an open end and period −1 (not yet valid) |
| Timers.TimerSpecification.Copy | src/veins/modules/utility/TimerManager.cc:150 | a by-value copy has the same fields |
| Timers.TimerSpecification.SetInterval | src/veins/modules/utility/TimerManager.cc:30-34 | requires interval > 0; changes only the period; returns the same object |
| Timers.TimerSpecification.SetRelativeStart | src/veins/modules/utility/TimerManager.cc:36-40 | changes only the start mode (relative) and start; returns the same object |
| Timers.TimerSpecification.SetAbsoluteStart | src/veins/modules/utility/TimerManager.cc:42-46 | changes only the start mode (absolute) and start; returns the same object |
| Timers.TimerSpecification.SetImmediateStart | src/veins/modules/utility/TimerManager.cc:48-51 | changes only the start mode (immediate); returns the same object |
| Timers.TimerSpecification.SetRelativeEnd | src/veins/modules/utility/TimerManager.cc:53-57 | changes only the end mode (relative) and end time; returns the same object |
| Timers.TimerSpecification.SetAbsoluteEnd | src/veins/modules/utility/TimerManager.cc:59-63 | changes only the end mode (absolute) and end time; returns the same object |
| Timers.TimerSpecification.SetRepititions | src/veins/modules/utility/TimerManager.cc:65-69 | changes only the end mode (repetition) and count; returns the same object |
| Timers.TimerSpecification.SetOpenEnd | src/veins/modules/utility/TimerManager.cc:71-74 | changes only the end mode (open); returns the same object |
| Timers.TimerSpecification.SetOneshotIn | src/veins/modules/utility/TimerManager.cc:76-78 | relative start at the delay, a period of one second (`simtime_t(1)`, `SECOND` ticks), end by one repetition; nothing else changes |
| Timers.TimerSpecification.SetOneshotAt | src/veins/modules/utility/TimerManager.cc:80-82 | absolute start at the given time, a period of one second (`simtime_t(1)`, `SECOND` ticks), end by one repetition; nothing else changes |
| Timers.TimerSpecification.Finalize | src/veins/modules/utility/TimerManager.cc:84-110 | the fields in place become the finalized specification |
| Timers.TimerManager.constructor | src/veins/modules/utility/TimerManager.cc:116 | a new manager has no timers and has made no scheduler calls |
| Timers.TimerManager.Create | src/veins/modules/utility/TimerManager.cc:150-159 | requires a valid specification; adds exactly one fresh key, mapped to the finalized copy of the specification, and schedules it at the finalized start; the manager invariant is kept |
| Timers.TimerManager.Cancel | src/veins/modules/utility/TimerManager.cc:161-167 | removes the key if present and cancels its event; otherwise changes nothing (so a repeated call is a no-op); no other entry changes |
| Timers.TimerManager.HandleMessage | src/veins/modules/utility/TimerManager.cc:124-148 | returns true exactly for a timer message with a live timer, and otherwise changes nothing; a handled message fires once, then is rescheduled at now + period (entry kept) if that is an occurrence, or its entry is erased; by the manager invariant, the next event is strictly later than now and is start + k·period for some k ≥ 0 |

## Left out

- IEEE-754 arithmetic: the geometry is over exact reals. Rounding is not modelled. NaN is modelled only in `SegmentsIntersectAtAsWritten`.
- `cos`, `sin` and the square root inside `distance`: the heading enters as a cosine–sine pair, and the sender–receiver distance as the parameter `d`.
- The third coordinate of `Coord`: it only contributes to `distance`, which is the parameter `d`.
- The `TraCIMobility` lookups of position and angle in `getShape`: they are fields of the `Vehicle` value.
- The debug log line in `getIntersectionPoint`.
- The multiset of fractions in `getIntersectionPoint`: it is a running minimum plus a flag, so `*intersectAt.begin()` is the minimum. This is the same value unless a NaN fraction is in the multiset, which the guarded intersector never produces.
- `GetIntersectionPoint` uses the guarded intersector, so it models the evidently intended behaviour on collinear edges, not the NaN case of the Findings row.
- Timer callbacks (`std::function`): firing one is an entry in the ghost `fired` log. A callback that calls back into the manager (for example cancelling its own timer while it runs) is not modelled.
- The OMNeT++ scheduler (`scheduleAt`, `cancelEvent`) is a ghost log of calls. The parent module pointer is not modelled.
- The `TimerManager` destructor (lines 118-122) only frees the messages with `cancelAndDelete`. It is memory management and is not modelled.
- `dynamic_cast` to a timer message and `isSelfMessage()` are two boolean fields of `Message`. Message names are recorded, but `getName()` on line 130 is an unused local and is not modelled.
- `valid()` is declared in the header, and `TimerManager.h` is not part of this model. Here it is `period > 0`: the period starts at −1, and `setInterval` accepts only positive intervals.
- The `ASSERT`s of the source are preconditions (`requires`).
- Simulation time resolution: one tick is a picosecond, OMNeT++'s default, so `SECOND` is 10¹² ticks. A simulation configured with another resolution would have another `SECOND`.
- `end_count_` is left uninitialised by the source constructor; `start_` and `end_time_` are default-constructed simulation times (zero). The model's constructor sets all three to 0.
- Timers.TimerSpec.Finalized: simulation time is an unbounded integer. OMNeT++'s 64-bit fixed-point overflow checks are not modelled, including for `(end_count_ - 1) * period_` when the count is 0 and wraps to SIZE_MAX.
- Timers.Firings: it is defined only for timers with an end. An open-ended timer fires forever, which a finite sequence cannot describe.
- Concrete numeric examples (a point inside or outside a given rectangle, a given crossing fraction) are not stated or proved. The general lemmas above do not imply any particular such instance.
- Timers.Firings: it is a separate definition that mirrors `HandleMessage`'s contract. No lemma runs `Create` and then `HandleMessage` repeatedly to show that the `fired` log equals it.
- The `omnetpp::fmod` of two simulation times is modelled as divisibility, with a zero divisor meaning "no occurrence". Every specification that reaches it has a positive period, so a zero period never arises.

## Findings

| source | as written | input that shows it | evidently intended | confidence | as-written member | corrected member |
|---|---|---|---|---|---|---|
| src/veins/modules/obstacle/VehicleObstacle.cc:50-56 | no test for D = 0: for collinear segments both fractions are 0/0 = NaN, every comparison with NaN is false, so both range tests pass and NaN is returned; `getIntersectionPoint` (line 104) then counts NaN as a crossing because NaN ≠ −1 | path (0,−5)→(0,2) against edge (0,0)→(0,4): D = 0 and both numerators are 0. With the footprint (0,0),(10,0),(10,4),(0,4), NaN is inserted into the multiset before the crossing 5/7 of the bottom edge. Under the usual ordered-tree multiset, NaN then stays first, so the answer is NaN ("not blocked") instead of a blocking distance of 5/7 of the path | a zero determinant means "no intersection" (−1); for that footprint the answer is a block at 5/7 of the path | not executed; medium for the NaN result of the intersector, lower for the multiset ordering consequence | VehicleObstacle.CollinearSegmentsGiveNaN | VehicleObstacle.SegmentsIntersectAt |
