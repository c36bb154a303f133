# Tracking and line-crossing core of a video people/vehicle counter

This project models, in Dafny, the per-frame tracking state machine of
`DetectionFilter` in a small OpenCV video-analytics program, and proves
properties of the model.

Each frame the filter turns the bounding rectangles of moving blobs into
candidate centroids. It associates them greedily with its ordered list of
tracks (`DetectableObj`: `isChecked`, `inactiveFrames`, `posBuffer`). It
evicts tracks that have gone unmatched for too long and promotes leftover
candidates to new tracks. Then it tests every track once against a
horizontal reference line at half the frame height, bumping a total counter
and an up or down counter.

The model is functional. A track is an immutable `DetectableObj` value and
the track store is a `seq`. Association is a pure recursion over the tracks
that threads the pool of remaining candidates. The crossing pass is a pure
recursion over the tracks that threads the three counters.

Modules, one per part of the source:

- `Geometry` (`geometry.dfy`): `Point`, `Rect`, the centroid with C++
  truncation toward zero, and squared distance. The same file holds a
  minimal `Wrappers.Option`.
- `Detectable` (`detectable.dfy`): the track record, its constructor, and
  the trimmed history buffer.
- `FindObjects` (`find_objects.dfy`): the size filter and centroid step of
  `_FindObjects`.
- `TrackObjects` (`track_objects.dfy`): `_TrackObjects`, which covers the
  nearest-candidate scan, per-track update, eviction, seeding and
  promotion of leftovers.
- `LineIntersection` (`line_intersection.dfy`): `_CheckLineIntersection`
  and the counters.
- `DetectionFilter` (`detection_filter.dfy`): the state, construction,
  `FrameProcessing` with the image pipeline abstracted away, multi-frame
  sessions, and the one-shot counting property.

In a few places the code behaves differently from what its design suggests.
The model follows the code:

- The history buffer is trimmed only when it already holds more than
  `MAX_POS_BUFFER_SIZE` = 2 positions, so a track holds up to 3 positions,
  not 2 (src/detection_filter.cpp:83-85). `HistoryIsMostRecent` proves
  that the buffer always holds the most recent `min(n, 3)` positions.
- `isChecked` is set only when a crossing is counted
  (src/detection_filter.cpp:113). A track that was tested and did not
  cross stays eligible, and it is tested again on every later frame, so
  a track may be tested many times. What is proved is that it is COUNTED
  at most once (`CountedAtMostOnce`).
- A track is evicted when `inactiveFrames` reaches 8 (`>=`), not when it
  exceeds 8 (src/detection_filter.cpp:91).
- The "seed from the candidates when there are no tracks" branch is
  proved to give the same store as the general path
  (`SeedingAgreesWithGeneralPath`).
- The centroid is computed in `double` and converted to `int` by
  truncation toward zero. For the non-negative rectangles the image
  yields, this is `x + w/2`. The model keeps the exact conversion for
  every input.

## Model

| member | source | states |
|---|---|---|
| Geometry.HalfTowardZero | src/detection_filter.cpp:54-55 | the double-to-int conversion of n * 0.5: the result is floor(n/2) for n >= 0 and ceil(n/2) for n < 0, i.e. truncation toward zero |
| Geometry.Centroid | src/detection_filter.cpp:54-55 | the centroid is x + w/2 (integer division) when 2x + w >= 0 and x + (w+1)/2 otherwise, likewise for y |
| Geometry.SqDist | src/detection_filter.cpp:73-74 | the squared distance between a candidate and a track's newest position is a non-negative integer, and 0 for identical points |
| Geometry.SqDistProperties | src/detection_filter.cpp:73-74 | the squared distance is symmetric (taking the absolute difference either way round gives the same value) and is 0 exactly when the two points coincide |
| FindObjects.Candidates | src/detection_filter.cpp:53-55 | there are no more candidates than rectangles, and every candidate is the centroid of some rectangle at least 25 wide and 25 high |
| FindObjects.CandidatesDistribute | src/detection_filter.cpp:53-55 | candidate creation distributes over concatenation of the rectangle list, so candidates keep the order of their rectangles |
| FindObjects.CandidatesOfOne | src/detection_filter.cpp:53-55 | a single rectangle yields exactly its centroid when it is at least 25x25 and nothing otherwise |
| FindObjects.SmallRectIgnored | src/detection_filter.cpp:53 | removing a rectangle smaller than 25 in either dimension from anywhere in the list does not change the candidates |
| FindObjects.CentroidOfImageRect | src/detection_filter.cpp:54-55 | for non-negative corners the centroid is (x + w/2, y + h/2) |
| Detectable.New | src/detection_filter.cpp:3-6 | a new track is unchecked, has inactiveFrames 0, and holds exactly one position, the given one |
| Detectable.Push | src/detection_filter.cpp:83-85 | appending keeps the most recent entries of the old buffer plus the new position, in order; it drops one entry only when the buffer held more than 2; a buffer of at most 3 stays at most 3 |
| Detectable.HistoryIsMostRecent | src/detection_filter.cpp:83-85 | after any sequence of appends, the buffer is exactly the last min(n, 3) positions of everything the track was given, oldest first |
| Detectable.HistoryStaysBounded | src/detection_filter.h:53 | a buffer of 1 to 3 positions stays between 1 and 3 under any appends, and its newest entry is the last position appended |
| TrackObjects.Scan | src/detection_filter.cpp:69-80 | the scan with a running minimum and strict less-than returns a candidate strictly inside the 35 px gate that is nearest and earliest among equally near ones, or none exactly when no candidate is inside the gate |
| TrackObjects.Nearest | src/detection_filter.cpp:69-80 | the candidate chosen for a track position is the nearest in-gate candidate (earliest on ties), and none is chosen only if every candidate is at squared distance >= 1225 |
| TrackObjects.NearestIsUnique | src/detection_filter.cpp:75-79 | at most one index satisfies the nearest-candidate specification, so the choice is determined |
| TrackObjects.RemoveAt | src/detection_filter.cpp:87 | erasing the consumed candidate removes exactly that one element and keeps the others in order |
| TrackObjects.Advance | src/detection_filter.cpp:81-90 | a matched track's buffer is the old buffer with the candidate pushed (the oldest entry dropped when it already held more than 2), so its newest position is the candidate, and its inactivity count is 0; an unmatched track's count grows by exactly 1 and its buffer is unchanged; isChecked is untouched |
| TrackObjects.Associate | src/detection_filter.cpp:69-90 | a matched track received a candidate strictly within the gate, and exactly one copy of it left the pool; an unmatched track only aged by one frame and the pool is unchanged |
| TrackObjects.AssociateTakesNearest | src/detection_filter.cpp:69-87 | if candidate k is the nearest in-gate candidate, the track is matched to it and exactly that entry is erased from the pool |
| TrackObjects.AssociateMatchesIffInRange | src/detection_filter.cpp:81-90 | a track goes unmatched if and only if every candidate is at or beyond the gate |
| TrackObjects.FarCandidateNeverMatched | src/detection_filter.h:57 | a candidate at squared distance >= 35^2 = 1225 from a track's newest position is never the one matched to it |
| TrackObjects.Step | src/detection_filter.cpp:67-92 | the interleaved associate-then-evict loop yields no more tracks than it was given, all valid and all with inactiveFrames < 8, and consumes at most one candidate per track |
| TrackObjects.Fresh | src/detection_filter.cpp:93-94 | each leftover candidate becomes a new track built by the constructor, in candidate order |
| TrackObjects.Track | src/detection_filter.cpp:61-96 | after association every track is valid and below the inactivity limit; with no prior tracks the store is exactly the candidates as fresh tracks in order; the count is bounded by old tracks plus candidates |
| TrackObjects.Evict | src/detection_filter.cpp:91 | a track is kept if and only if its inactivity count is below 8 |
| TrackObjects.EvictDistributes | src/detection_filter.cpp:91 | eviction distributes over concatenation, so surviving tracks keep their relative order |
| TrackObjects.ConsumedExactlyOnce | src/detection_filter.cpp:81-90 | the candidates removed from the pool are, with multiplicity, exactly the new positions of the matched tracks; each track keeps isChecked, and either was matched (count 0, its new position pushed onto its own buffer) or aged by one with its buffer unchanged |
| TrackObjects.StepIsUpdateThenEvict | src/detection_filter.cpp:67-92 | the interleaved loop equals associating every track in order and then evicting, and leaves the same pool |
| TrackObjects.TrackIsSurvivorsThenFresh | src/detection_filter.cpp:63-94 | the new store is the surviving old tracks in their relative order followed by one fresh track per unconsumed candidate in candidate order, so its size is survivors plus unconsumed candidates |
| TrackObjects.ConsumedCount | src/detection_filter.cpp:81-88 | the number of candidates consumed equals the number of tracks matched |
| TrackObjects.SeedingAgreesWithGeneralPath | src/detection_filter.cpp:63-64 | the seeding shortcut for an empty store gives the same result as the general loop would |
| TrackObjects.EvictionTiming | src/detection_filter.h:54 | a track that stays unmatched is still present while its inactivity count is below 8 and is gone on the frame it reaches 8; while present its count has grown by exactly the number of idle frames |
| LineIntersection.CheckOne | src/detection_filter.cpp:102-113 | only isChecked changes, and it becomes true exactly when an unchecked track with at least 2 positions crosses; total grows by 1 exactly then; the growth goes to up only if oldest y > line >= newest y, and to down only if oldest y < line <= newest y; no counter decreases |
| LineIntersection.DirectionsExclusive | src/detection_filter.cpp:104-107 | the up and down tests never both hold, so one track step preserves total == up + down |
| LineIntersection.CheckLine | src/detection_filter.cpp:98-116 | every track is kept in place with only isChecked possibly set; total grows by the number of tracks newly checked, which equals the number counted; up grows by the number of eligible tracks crossing upward and down by the number crossing downward; counters never decrease; the balance total == up + down is preserved |
| LineIntersection.CheckLineIdempotent | src/detection_filter.cpp:102-113 | a second pass over the output with the same line changes no counter |
| LineIntersection.NoNewCountsAfterCheck | src/detection_filter.cpp:102 | a pass over tracks none of which is counted leaves the counters unchanged |
| LineIntersection.CrossingDownward | src/detection_filter.cpp:106-111 | history [(10,90),(10,110)] at line 100 adds 1 to total and to down only |
| LineIntersection.CrossingUpward | src/detection_filter.cpp:104-110 | history [(10,110),(10,90)] at line 100 adds 1 to total and to up only |
| LineIntersection.NoCrossing | src/detection_filter.cpp:102-113 | history [(10,50),(10,60)] at line 100 changes neither the counters nor the track |
| DetectionFilter.Init | src/detection_filter.h:59-71 | a new filter has no tracks and all three counters at 0, and satisfies the state invariant |
| DetectionFilter.ReferenceLine | src/detection_filter.cpp:28 | the reference row is half the frame height rounded down |
| DetectionFilter.FrameProcessing | src/detection_filter.cpp:13-32 | one frame keeps every track valid and below the inactivity limit, never decreases a counter, and preserves total == up + down |
| DetectionFilter.Run | src/detection_filter.cpp:13-32 | processing any sequence of frames preserves the state invariant and never decreases a counter |
| DetectionFilter.Session | src/detection_filter.h:59-61 | from construction, after any frames, total == up + down |
| DetectionFilter.CountedAtMostOnce | src/detection_filter.cpp:113 | over any sequence of frames a track adds at most 1 to total (0 if already checked), and once it has added one it stays checked |

## Left out

- The OpenCV image pipeline (src/detection_filter.cpp:15-24, 38-52) is
  left out: background difference, colour conversion, blur, threshold,
  erode, dilate, contour and hull extraction, bounding rectangles, and
  taking the first frame as background. These are foreign library calls
  on pixel matrices. The model starts from the list of bounding
  rectangles.
- `_Info` and `_DebugInfo` (src/detection_filter.cpp:118-150) are left
  out. They only draw and format text.
- `VideoPlayer`, `main.cpp` and the `IFilter` interface are left out.
  They cover file capture, the window, keyboard handling and virtual
  dispatch. Frames are a parameter of `Run`.
- TrackObjects.Nearest: the source compares `sqrt` of the distance as a
  `double`. The model compares integer squared distances against
  35^2 = 1225. For integer points these give the same gate and the same
  order, up to coordinates whose squares exceed the exact range of
  `double`.
- Geometry.SqDist: coordinate differences are not wrapped to 32-bit
  `int`. Points come from image rectangles far below that range.
- LineIntersection.CheckOne: the counters are `nat`. The 32-bit `int`
  overflow of `_tCounter`, `_uCounter` and `_dCounter` is not modelled.
- FindObjects.Candidates: rectangle width and height are `nat`, because
  `boundingRect` never yields negative extents. The signed/unsigned comparison with
  `MIN_RECT_W` that would apply to a negative width is not modelled.
- DetectionFilter.CountedAtMostOnce: the property is stated for one track
  followed through its association outcomes and line tests. Track
  identity inside the store is not modelled, since tracks are values.
  `ConsumedExactlyOnce`, `StepIsUpdateThenEvict` and `CheckLine` show
  that each surviving track is updated per frame as `Advance` (with its
  own candidate or with none) followed by `CheckOne`.
