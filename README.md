# Route guide: feature index and handlers in Dafny

This project models the core of a gRPC "route guide" server written in Rust with tonic.
The server keeps a catalog of named features, each with an optional location in units of 1e-7 degree.
It answers four calls:

- `get_feature`: the feature stored at exactly one point.
- `list_features`: every feature inside a rectangle.
- `record_route`: a summary of a client-streamed route.
- `route_chat`: a bidirectional relay of notes grouped by location.

Before serving, the server builds a feature index once.
The index holds the feature list, an exact-match map from point to feature, and an R-tree.
The leaves of that R-tree are positions (`FeatureIdx`).
The box of each leaf is looked up in a process-wide coordinate table `GEO_POINTS`, which can be set only once.
The wired `service.rs` declares its own private `GEO_POINTS` (`tonic_tutorial/src/service.rs:34`), separate from the one `FeatureIndex::build` publishes (`tonic_tutorial/src/geometry.rs:29`), so `Service.New` and `Service.NewInline` each take their own cell.

Modules:

- `Proto` (`proto.dfy`): the message types, `i32`, and the handler outcomes.
  - Handler outcomes: `Ok`, a request error `Err`, or a `Panic` of the handler task.
  - Inbound streams are finite sequences of items or errors.
- `Geometry` (`geometry.dfy`): the pieces listed below.
  - `GeoPoint::from`.
  - rstar's `AABB::from_corners` and containment on `[longitude, latitude]` corners.
  - `FeatureIdx::envelope`.
  - The once-settable `GEO_POINTS` cell, as the class `GeoCell`.
- `Index` (`index.dfy`): `FeatureIndex::build`.
  - The build loop is the method `Populate`, proved against the specification functions `MapOf`, `GeoTableOf` and `LeavesOf`.
  - Bulk loading computes each leaf's envelope from the published table.
  - `Build` publishes the table only when the cell is unset.
- `Service` (`service.dfy`): both versions of the handlers.
  - `service/rpc.rs` is the refactor over `FeatureIndex`.
  - `service.rs` is the service wired into the library, with its own inline build.
  - `record_route` is a method proved against a fold specification, once with `saturating_add` and once with the checked `+=` of `service.rs`.
  - `route_chat` is a method over a map of note lists, proved against a replay specification.
- `EarlyMain` (`early_main.dfy`): `in_range` from the first, unfinished revision of the server, as written and corrected.

The central build result is `Index.FreshBuildOkIffLocatedFirst`.
Leaves record positions in the full feature list, but the coordinate table holds only the located features.
A build that publishes its own table therefore succeeds exactly when no feature without a location precedes a located one.
In that case leaf k is feature k, boxed at its own location.
The dataset loader (`tonic_tutorial/src/data.rs:29`) always supplies a location, so the build never hits this case.
`Index.FreshBuildAligned` and `Service.ListFeaturesInBox` state the resulting guarantee for such catalogs.
A second build in the same process keeps the first table.
A rebuild from the same catalog, as the integration tests do, finds exactly its own table and behaves like a fresh build.
A rebuild from a different catalog may resolve its leaves to the first catalog's points without any panic (`Index.StaleTableMisresolves`).
It may also panic, when a leaf position is past the end of the first table (`Index.StaleTableOverrunPanics`).

## Model

| member | source | states |
|---|---|---|
| Proto.HashAgreesWithEq | tonic_tutorial/src/geometry.rs:64-71 | point equality is structural on latitude and longitude; the hasher is fed exactly those two fields, so hash inputs are equal iff the points are equal |
| Proto.Received | tonic_tutorial/src/service/rpc.rs:71-72 | the points taken from an inbound stream before its first error; never more than the items sent |
| Proto.FirstError | tonic_tutorial/src/service/rpc.rs:72 | the status that `point?` returns: absent iff every item is a value |
| Proto.ReceivedUpToError | tonic_tutorial/src/service/rpc.rs:71-72 | the received points are the leading items, in order; without an error every item is received; with one, reception stops exactly at the first error |
| Geometry.FromPoint | tonic_tutorial/src/geometry.rs:17-26 | `GeoPoint::from` keeps the original point unchanged in `pb` |
| Geometry.FromCorners | tonic_tutorial/src/service/rpc.rs:47-48 | the box of two corners contains a corner iff, on each axis, it lies between the two corners inclusive, whichever is larger |
| Geometry.FromCornersOrderFree | tonic_tutorial/src/service/rpc.rs:47-48 | the box is the same whichever corner comes first, on both axes or on one |
| Geometry.ContainsEnvelope | tonic_tutorial/src/service/rpc.rs:54 | rstar's envelope containment: for a non-empty inner box, true iff every point of the inner box lies in the outer box |
| Geometry.PointBox | tonic_tutorial/src/geometry.rs:40-43 | a point's envelope is degenerate: lower and upper corner are both `[longitude, latitude]` |
| Geometry.PointBoxContained | tonic_tutorial/src/service/rpc.rs:54 | the query box contains a leaf's degenerate envelope iff it contains the leaf's point |
| Geometry.Envelope | tonic_tutorial/src/geometry.rs:38-44 | succeeds iff the table is published and the leaf's position is inside it, otherwise panics; the box is that entry's point with longitude first |
| Geometry.GeoCell.constructor | tonic_tutorial/src/geometry.rs:29 | the coordinate table starts unset |
| Geometry.GeoCell.Set | tonic_tutorial/src/service.rs:93 | `OnceCell::set` stores the table iff none is stored yet and reports whether it did; the first table wins |
| Index.Populate | tonic_tutorial/src/index.rs:30-42 | the build loop yields exactly the map, coordinate table and leaf list that the specification functions define |
| Index.SkipsUnlocated | tonic_tutorial/src/index.rs:31 | a feature without a location adds nothing to the map, the table or the leaves |
| Index.LeavesAligned | tonic_tutorial/src/index.rs:39-40 | table and leaves have equal length; table entry k is the location of the feature that leaf k names |
| Index.LeavesAscending | tonic_tutorial/src/index.rs:30-40 | leaf positions are strictly ascending |
| Index.LeavesCover | tonic_tutorial/src/index.rs:30-40 | a position has a leaf iff the feature there has a location |
| Index.LeafCount | tonic_tutorial/src/index.rs:30-40 | there are at most as many leaves as features, and exactly as many iff every feature is located |
| Index.LeafLowerBound | tonic_tutorial/src/index.rs:30-40 | leaf k names a position between k and the list length, and equals k only if the first k features are all located |
| Index.LeavesIdentity | tonic_tutorial/src/index.rs:30-40 | when no unlocated feature precedes a located one, leaf k names position k |
| Index.AlignedWhenAllLocated | tonic_tutorial/src/index.rs:30-40 | when every feature is located, leaf k is position k and table entry k is feature k's location |
| Index.MapKeys | tonic_tutorial/src/index.rs:30-36 | the map's keys are exactly the locations of the features |
| Index.MapValues | tonic_tutorial/src/index.rs:36 | each map value is a feature of the list located at its key |
| Index.MapLaterWins | tonic_tutorial/src/index.rs:36 | among features sharing a location, the last in list order is the map's value |
| Index.BulkLoad | tonic_tutorial/src/index.rs:53 | bulk loading succeeds iff every leaf's envelope does and panics otherwise; entry k is leaf k with the box of its table entry |
| Index.Assemble | tonic_tutorial/src/index.rs:50-54 | the index keeps the feature list unchanged and the built map; its tree is the bulk-loaded one; it succeeds iff bulk loading does, and every leaf is a position in the list |
| Index.LocatedFirstResolves | tonic_tutorial/src/index.rs:30-53 | with no unlocated feature ahead of a located one, bulk loading over the build's own table succeeds |
| Index.ResolvedIsLocatedFirst | tonic_tutorial/src/index.rs:30-40 | if every leaf lies inside the table, no unlocated feature precedes a located one |
| Index.FreshBuildOkIffLocatedFirst | tonic_tutorial/src/index.rs:30-53 | a build over its own table succeeds iff no unlocated feature precedes a located one; then entry k is position k boxed at feature k's location |
| Index.FreshBuildAligned | tonic_tutorial/src/index.rs:30-53 | for a catalog whose features are all located, the build succeeds and entry k is feature k at its own location |
| Index.UnlocatedFeaturePanicsBuild | tonic_tutorial/src/index.rs:30-40 | an unlocated feature followed by a located one gives leaf 1 over a one-entry table, so the build panics |
| Index.StaleTableMisresolves | tonic_tutorial/src/index.rs:45-47 | a second build keeps the first build's table, so its leaf is boxed at the first catalog's point |
| Index.StaleTableOverrunPanics | tonic_tutorial/src/index.rs:45-53 | a second catalog with more located features than the first table leaves a leaf past the table's end, so the build panics |
| Index.Build | tonic_tutorial/src/index.rs:20-55 | publishes its own table iff the cell is unset, otherwise leaves the cell alone; the index is assembled from the table then in the cell |
| Service.New | tonic_tutorial/src/service/rpc.rs:20-24 | the refactored constructor is the index build: same cell update, same index |
| Service.NewInline | tonic_tutorial/src/service.rs:72-100 | the inline build with an unconditional `set` gives the same cell and index as the guarded build |
| Service.GetFeature | tonic_tutorial/src/service/rpc.rs:30-35 | the map's feature for an exactly equal point, otherwise `Feature::default()`; never an error |
| Service.GetFeatureFromCatalog | tonic_tutorial/src/service.rs:105-110 | on a built index: a point that is some feature's location yields a feature located there, namely the last such feature; any other point yields the empty sentinel |
| Service.Hits | tonic_tutorial/src/service/rpc.rs:51-56 | the features returned are exactly those named by a leaf whose envelope lies in the query box |
| Service.ListFeatures | tonic_tutorial/src/service/rpc.rs:44-58 | panics iff a corner is missing; returns `Ok` iff both are present, with exactly the features of leaves whose point lies in the box spanned by the corners |
| Service.ListFeaturesCornerOrder | tonic_tutorial/src/service.rs:118-121 | swapping the corners, or only their longitudes, changes nothing |
| Service.HitsOfAligned | tonic_tutorial/src/service.rs:124-128 | over aligned leaves the hits are catalog features inside the box, and every catalog feature inside the box is a hit |
| Service.ListFeaturesInBox | tonic_tutorial/src/service.rs:114-132 | on an index built from a fully located catalog, the result is exactly the catalog features whose location is inside the inclusive rectangle |
| Service.RecordRoute | tonic_tutorial/src/service/rpc.rs:62-88 | the first stream error is returned as is; otherwise: point count = points received, feature count = received points that are map keys, distance = saturating fold of segment lengths |
| Service.RecordRouteChecked | tonic_tutorial/src/service.rs:134-159 | as above with an unbounded sum: panics with the overflow message iff that sum exceeds `i32::MAX` |
| Service.SaturatingAdd | tonic_tutorial/src/service/rpc.rs:80 | `i32::saturating_add`: the exact sum when it fits in `i32`, otherwise the bound it passed |
| Service.SatDistanceIsClampedSum | tonic_tutorial/src/service/rpc.rs:79-81 | the saturating fold equals the exact sum of segment lengths clamped to `i32::MAX` |
| Service.SatDistanceMonotone | tonic_tutorial/src/service/rpc.rs:79-83 | each further point leaves the distance the same or larger, never negative |
| Service.PathLengthPrefix | tonic_tutorial/src/service.rs:151-154 | extending a route never shortens the exact sum |
| Service.ShortRouteHasNoDistance | tonic_tutorial/src/service/rpc.rs:79 | fewer than two points travel no distance |
| Service.VariantsAgreeWithoutOverflow | tonic_tutorial/src/service.rs:152 | when the exact sum fits in `i32`, the saturating and checked variants report the same distance |
| Service.TwoPointRoute | tonic_tutorial/tests/routeguide_integration.rs:105-122 | two points sent without error are both counted, and the distance is the one segment between them |
| Service.Accepted | tonic_tutorial/src/service/rpc.rs:101-103 | the notes relayed before the stream ends, fails or delivers a note without a location; all of them are located, and there are no more than the items (contents and stop point in `Service.AcceptedUpToStop`) |
| Service.AcceptedUpToStop | tonic_tutorial/src/service/rpc.rs:101-103 | the accepted notes are the leading items in order; the item after them is an error or an unlocated note, and the stream ends closed, failed with that error, or panicked on that `unwrap` accordingly |
| Service.ChatStep | tonic_tutorial/src/service/rpc.rs:104-105 | appending a note to its location's list keeps the map equal to the per-location lists of the notes seen |
| Service.Emit | tonic_tutorial/src/service/rpc.rs:106-108 | yields a location's whole list, in order, after what was already yielded |
| Service.RouteChat | tonic_tutorial/src/service/rpc.rs:93-113 | starting from an empty map, the output is the replay of the accepted notes; the stream ends closed, failed with the first error, or panicked at the first note without a location |
| Service.ReplayBatch | tonic_tutorial/src/service/rpc.rs:103-108 | the k-th batch is the previous list at that location plus the new note at its end; it holds only notes at that location and every earlier one there |
| Service.NotesAtSpec | tonic_tutorial/src/service.rs:173-175 | a location's list holds exactly the notes at that location |
| Service.TwoNotesSameLocation | tonic_tutorial/tests/routeguide_integration.rs:133-162 | two notes at one location produce `[First, First, Second]` and the stream closes |
| EarlyMain.InRange | tonic-tutorial/src/main.rs:33-44 | panics iff a corner is missing and returns `Ok` iff both are present; then true iff the longitude equals lo's and the latitude lies between the corners' |
| EarlyMain.InRangeIgnoresHiLongitude | tonic-tutorial/src/main.rs:40-43 | the result never depends on hi's longitude |
| EarlyMain.InRangeLatitudeOrderFree | tonic-tutorial/src/main.rs:38-39 | swapping the corners' latitudes changes nothing |
| EarlyMain.InRangeMissesInterior | tonic-tutorial/src/main.rs:40-41 | the point (5, 5) lies inside the rectangle (0, 0)-(10, 10), yet the predicate as written reports false |
| EarlyMain.InRangeFixed | tonic-tutorial/src/main.rs:33-44 | with longitude bounds from both corners: panics iff a corner is missing and returns `Ok` iff both are present; then true iff the point is inside the inclusive rectangle |
| EarlyMain.InRangeFixedMatchesQuery | tonic_tutorial/src/service.rs:121 | the corrected predicate equals containment in the query box of the later `list_features`, and it agrees with the original when the corners share a longitude |

## Left out

- The radian fields of `GeoPoint` and the haversine distance are left out because they are floating-point code. The segment length is a parameter `dist` returning 0 to `i32::MAX` metres, as a truncated non-negative haversine does.
- The incomplete `calc_distance` of the first revision is left out; its body never produces a result.
- The first revision's other copies of `in_range` and its `unimplemented!()` handlers are left out.
- Wall-clock `elapsed_time` is left out because it is clock input. It is a parameter copied into the summary.
- Async streaming (`try_stream!`, tonic requests and responses) is not modelled. Inbound streams are finite sequences, and outbound streams are the yielded sequence plus how the stream ends.
- `DashMap` concurrency is not modelled; its maps are plain maps.
- `OnceCell` thread-safety is not modelled; only "set once, first wins" is.
- rstar's node structure and traversal order are not modelled. The R-tree is its leaf list with the envelope computed at bulk load, and a query returns hits in leaf order. Computing envelopes once is equivalent to rstar's recomputation because the table never changes after it is published.
- The index is handed to the handlers as a value. The wired server object and its shared `Arc` slices are not modelled.
- Service.RecordRoute: counts are `nat`. Wrap-around of `point_count` and `feature_count` past `i32::MAX` items is not modelled, because it takes over two billion streamed points.
- Service.RecordRouteChecked: counts are `nat` here too. The debug-build overflow panic of `point_count` and `feature_count` past `i32::MAX` items is not modelled, because it takes over two billion streamed points.
- Service.RecordRouteChecked: models the debug-build overflow panic of the distance `+=`. The release-build wrap-around is not modelled.
- Dataset loading, server bootstrap, module wiring and code generation contain no modelled logic and are left out. Only the loader's "every feature has a location" fact is used, as a precondition of `Index.FreshBuildAligned` and `Service.ListFeaturesInBox`.

## Findings

| source | as written | input that shows it | evidently intended | confidence | as-written member | corrected member |
|---|---|---|---|---|---|---|
| tonic-tutorial/src/main.rs:40-41 | `left` and `right` are both computed from `lo.longitude`, so only points on lo's meridian can be in range | point (5, 5), rectangle lo (0, 0), hi (10, 10): reported outside | longitude bounds from `min`/`max` of `lo.longitude` and `hi.longitude`, as the later `list_features` box does | high (not executed) | EarlyMain.InRangeMissesInterior | EarlyMain.InRangeFixed |
