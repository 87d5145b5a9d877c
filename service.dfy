/** The four route guide handlers over a built feature index. The wired service and its
    refactor share get_feature, list_features and route_chat; record_route differs in how
    it adds up the distance (saturating in the refactor, a checked `+=` in the wired one). */
module Service {
  import opened Proto
  import opened Geometry
  import opened Index

  // ---------------------------------------------------------------- construction

  /** `RouteGuideService::new` of the refactor: the index build. */
  method New(features: seq<Feature>, cell: GeoCell) returns (r: Reply<FeatureIndex>)
    modifies cell
    ensures cell.table == if old(cell.table).None? then Some(GeoTableOf(features)) else old(cell.table)
    ensures r == Assemble(features, cell.table)
  {
    r := Build(features, cell);
  }

  /** `RouteGuideService::new` of the wired service: the same loop, then `GEO_POINTS.set`
      with its failure ignored, then the bulk load. */
  method NewInline(features: seq<Feature>, cell: GeoCell) returns (r: Reply<FeatureIndex>)
    modifies cell
    ensures cell.table == if old(cell.table).None? then Some(GeoTableOf(features)) else old(cell.table)
    ensures r == Assemble(features, cell.table)
  {
    var featureMap, geoPoints, indices := Populate(features);
    var _ := cell.Set(geoPoints);
    var tree := BulkLoad(cell.table, indices);
    if tree.Ok? {
      r := Ok(FeatureIndex(features, featureMap, tree.value));
    } else {
      r := Panic(tree.reason);
    }
  }

  // ----------------------------------------------------------------- get_feature

  /** `get_feature`: the feature stored at exactly this point, else the empty sentinel;
      never an error. */
  function GetFeature(idx: FeatureIndex, p: Point): (f: Feature)
    ensures p in idx.featureMap ==> f == idx.featureMap[p]
    ensures p !in idx.featureMap ==> f == DefaultFeature()
  {
    if p in idx.featureMap then idx.featureMap[p] else DefaultFeature()
  }

  /** On a built index, a point that is some feature's location yields a catalog feature at
      that location, namely the last one in list order; any other point yields the sentinel. */
  lemma GetFeatureFromCatalog(fs: seq<Feature>, table: Option<seq<GeoPoint>>, p: Point)
    requires Assemble(fs, table).Ok?
    ensures (exists i :: 0 <= i < |fs| && fs[i].location == Some(p)) ==>
      GetFeature(Assemble(fs, table).value, p).location == Some(p) && GetFeature(Assemble(fs, table).value, p) in fs
    ensures forall i :: 0 <= i < |fs| && fs[i].location == Some(p) && (forall j :: i < j < |fs| ==> fs[j].location != Some(p)) ==>
      GetFeature(Assemble(fs, table).value, p) == fs[i]
    ensures (forall i :: 0 <= i < |fs| ==> fs[i].location != Some(p)) ==>
      GetFeature(Assemble(fs, table).value, p) == DefaultFeature()
  {
    MapKeys(fs);
    MapValues(fs);
    forall i | 0 <= i < |fs| && fs[i].location == Some(p) && (forall j :: i < j < |fs| ==> fs[j].location != Some(p))
      ensures GetFeature(Assemble(fs, table).value, p) == fs[i]
    {
      MapLaterWins(fs, i);
    }
  }

  // --------------------------------------------------------------- list_features

  /** The query box of a rectangle's two corners, on `[longitude, latitude]`. */
  function QueryOf(lo: Point, hi: Point): Aabb
  {
    FromCorners(CornerOf(lo), CornerOf(hi))
  }

  /** `locate_in_envelope` followed by the map to features: the feature of every leaf whose
      envelope lies inside the query box, in leaf order. */
  function Hits(features: seq<Feature>, entries: seq<Entry>, query: Aabb): (r: seq<Feature>)
    requires forall e :: e in entries ==> e.leaf.i < |features|
    ensures |r| <= |entries|
    ensures forall f :: f in r <==>
      exists e :: e in entries && ContainsEnvelope(query, e.env) && f == features[e.leaf.i]
    decreases |entries|
  {
    if entries == [] then []
    else
      var e := entries[0];
      (if ContainsEnvelope(query, e.env) then [features[e.leaf.i]] else []) + Hits(features, entries[1..], query)
  }

  /** `list_features`: panics on a missing corner, otherwise streams the hits of the box
      spanned by the two corners. */
  function ListFeatures(idx: FeatureIndex, rect: Rectangle): (r: Reply<seq<Feature>>)
    requires LeavesInRange(idx)
    ensures r.Panic? <==> rect.lo.None? || rect.hi.None?
    ensures r.Ok? <==> rect.lo.Some? && rect.hi.Some?
    ensures r.Ok? ==> forall f :: f in r.value <==>
      exists e :: e in idx.rtree.entries && f == idx.features[e.leaf.i]
        && ContainsEnvelope(QueryOf(rect.lo.value, rect.hi.value), e.env)
  {
    if rect.lo.None? || rect.hi.None? then Panic(UNWRAP_NONE)
    else Ok(Hits(idx.features, idx.rtree.entries, QueryOf(rect.lo.value, rect.hi.value)))
  }

  /** Swapping the corners, or only their longitudes, does not change the result. */
  lemma ListFeaturesCornerOrder(idx: FeatureIndex, lo: Point, hi: Point)
    requires LeavesInRange(idx)
    ensures ListFeatures(idx, Rectangle(Some(lo), Some(hi))) == ListFeatures(idx, Rectangle(Some(hi), Some(lo)))
    ensures ListFeatures(idx, Rectangle(Some(lo), Some(hi)))
      == ListFeatures(idx, Rectangle(Some(Point(lo.latitude, hi.longitude)), Some(Point(hi.latitude, lo.longitude))))
  {
    FromCornersOrderFree(CornerOf(lo), CornerOf(hi));
  }

  /** Over aligned leaves (leaf k is feature k, boxed at its location) the hits are exactly
      the features located in the query box. */
  lemma HitsOfAligned(fs: seq<Feature>, entries: seq<Entry>, query: Aabb)
    requires AllLocated(fs) && |entries| == |fs|
    requires forall k :: 0 <= k < |fs| ==> entries[k] == Entry(FeatureIdx(k), PointBox(fs[k].location.value))
    ensures forall e :: e in entries ==> e.leaf.i < |fs|
    ensures forall f :: f in Hits(fs, entries, query) ==>
      f in fs && f.location.Some? && ContainsPoint(query, CornerOf(f.location.value))
    ensures forall i :: 0 <= i < |fs| && ContainsPoint(query, CornerOf(fs[i].location.value)) ==>
      fs[i] in Hits(fs, entries, query)
  {
    assert forall e :: e in entries ==> e.leaf.i < |fs|;
    var r := Hits(fs, entries, query);
    forall f | f in r
      ensures f in fs && f.location.Some? && ContainsPoint(query, CornerOf(f.location.value))
    {
      var e :| e in entries && ContainsEnvelope(query, e.env) && f == fs[e.leaf.i];
      var k :| 0 <= k < |entries| && entries[k] == e;
      PointBoxContained(query, fs[k].location.value);
    }
    forall i | 0 <= i < |fs| && ContainsPoint(query, CornerOf(fs[i].location.value))
      ensures fs[i] in r
    {
      PointBoxContained(query, fs[i].location.value);
      assert entries[i] in entries;
    }
  }

  /** On an index built from a located catalog, list_features returns exactly the catalog
      features whose location lies in the rectangle, edges included. */
  lemma ListFeaturesInBox(fs: seq<Feature>, lo: Point, hi: Point)
    requires AllLocated(fs)
    ensures Fresh(fs).Ok?
    ensures ListFeatures(Fresh(fs).value, Rectangle(Some(lo), Some(hi))).Ok?
    ensures forall f :: f in ListFeatures(Fresh(fs).value, Rectangle(Some(lo), Some(hi))).value ==>
      f in fs && f.location.Some? && InBox(f.location.value, lo, hi)
    ensures forall i :: 0 <= i < |fs| && InBox(fs[i].location.value, lo, hi) ==>
      fs[i] in ListFeatures(Fresh(fs).value, Rectangle(Some(lo), Some(hi))).value
  {
    FreshBuildAligned(fs);
    var idx := Fresh(fs).value;
    var query := QueryOf(lo, hi);
    HitsOfAligned(fs, idx.rtree.entries, query);
    assert ListFeatures(idx, Rectangle(Some(lo), Some(hi))).value == Hits(fs, idx.rtree.entries, query);
    assert forall p :: ContainsPoint(query, CornerOf(p)) <==> InBox(p, lo, hi);
  }

  // ---------------------------------------------------------------- record_route

  /** A segment length in metres: the haversine result, never negative and within `i32`. */
  type Meters = x: int | 0 <= x <= I32_MAX

  /** `i32::saturating_add`. */
  function SaturatingAdd(a: Int32, b: Int32): (r: Int32)
    ensures I32_MIN <= a + b <= I32_MAX ==> r == a + b
    ensures a + b > I32_MAX ==> r == I32_MAX
    ensures a + b < I32_MIN ==> r == I32_MIN
  {
    if a + b > I32_MAX then I32_MAX else if a + b < I32_MIN then I32_MIN else a + b
  }

  /** Number of points of the route that are keys of the exact-match map, repeats included. */
  function KnownCount(m: map<Point, Feature>, ps: seq<Point>): nat
    decreases |ps|
  {
    if ps == [] then 0
    else KnownCount(m, ps[..|ps| - 1]) + (if ps[|ps| - 1] in m then 1 else 0)
  }

  /** The saturating left fold of the segment lengths between consecutive points. */
  function SatDistance(dist: (GeoPoint, GeoPoint) -> Meters, ps: seq<Point>): Int32
    decreases |ps|
  {
    if |ps| < 2 then 0
    else SaturatingAdd(SatDistance(dist, ps[..|ps| - 1]), dist(FromPoint(ps[|ps| - 2]), FromPoint(ps[|ps| - 1])))
  }

  /** The exact, unbounded sum of the segment lengths between consecutive points. */
  function PathLength(dist: (GeoPoint, GeoPoint) -> Meters, ps: seq<Point>): nat
    decreases |ps|
  {
    if |ps| < 2 then 0
    else PathLength(dist, ps[..|ps| - 1]) + dist(FromPoint(ps[|ps| - 2]), FromPoint(ps[|ps| - 1]))
  }

  lemma AppendAssoc<T>(a: seq<T>, b: seq<T>, c: seq<T>)
    ensures a + (b + c) == (a + b) + c
  {
  }

  /** One more point: the count, the fold and the sum each take one step. */
  lemma RouteStep(m: map<Point, Feature>, dist: (GeoPoint, GeoPoint) -> Meters, pts: seq<Point>, p: Point)
    ensures KnownCount(m, pts + [p]) == KnownCount(m, pts) + (if p in m then 1 else 0)
    ensures SatDistance(dist, pts + [p]) ==
      if pts == [] then 0 else SaturatingAdd(SatDistance(dist, pts), dist(FromPoint(pts[|pts| - 1]), FromPoint(p)))
    ensures PathLength(dist, pts + [p]) ==
      if pts == [] then 0 else PathLength(dist, pts) + dist(FromPoint(pts[|pts| - 1]), FromPoint(p))
  {
    assert (pts + [p])[..|pts|] == pts;
  }

  /** An inbound item that is not an error is received and moves past. */
  lemma InboundItem<T>(items: seq<Inbound<T>>, i: int)
    requires 0 <= i < |items| && items[i].Item?
    ensures Received(items[i..]) == [items[i].item] + Received(items[i + 1..])
    ensures FirstError(items[i..]) == FirstError(items[i + 1..])
  {
    assert items[i..][0] == items[i] && items[i..][1..] == items[i + 1..];
  }

  /** An erroneous inbound item ends what is received and is the first error. */
  lemma InboundError<T>(items: seq<Inbound<T>>, i: int)
    requires 0 <= i < |items| && items[i].Error?
    ensures Received(items[i..]) == []
    ensures FirstError(items[i..]) == Some(items[i].status)
  {
    assert items[i..][0] == items[i];
  }

  /** `record_route` of the refactor: counts the points, counts those that are feature
      locations, and adds the segment lengths with saturation. The first erroneous item
      fails the call and no summary is produced. The clock reading is a parameter. */
  method RecordRoute(idx: FeatureIndex, items: seq<Inbound<Point>>, dist: (GeoPoint, GeoPoint) -> Meters, elapsed: Int32)
    returns (r: Reply<RouteSummary>)
    ensures FirstError(items).Some? ==> r == Err(FirstError(items).value)
    ensures FirstError(items).None? ==> r == Ok(RouteSummary(
      |Received(items)|, KnownCount(idx.featureMap, Received(items)), SatDistance(dist, Received(items)), elapsed))
  {
    var pointCount, featureCount: nat, distance: int := 0, 0, 0;
    var last: Option<GeoPoint> := None;
    ghost var pts: seq<Point> := [];
    var i := 0;
    while i < |items|
      invariant 0 <= i <= |items|
      invariant Received(items) == pts + Received(items[i..])
      invariant FirstError(items) == FirstError(items[i..])
      invariant pointCount == |pts| && featureCount == KnownCount(idx.featureMap, pts)
      invariant distance == SatDistance(dist, pts)
      invariant last == if pts == [] then None else Some(FromPoint(pts[|pts| - 1]))
    {
      match items[i]
      case Error(s) =>
        InboundError(items, i);
        assert pts + [] == pts;
        return Err(s);
      case Item(point) =>
        InboundItem(items, i);
        RouteStep(idx.featureMap, dist, pts, point);
        var geo := FromPoint(point);
        pointCount := pointCount + 1;
        if point in idx.featureMap {
          featureCount := featureCount + 1;
        }
        if last.Some? {
          distance := SaturatingAdd(distance, dist(last.value, geo));
        }
        last := Some(geo);
        AppendAssoc(pts, [point], Received(items[i + 1..]));
        pts := pts + [point];
        i := i + 1;
    }
    assert items[i..] == [] && pts + [] == pts;
    r := Ok(RouteSummary(pointCount, featureCount, distance, elapsed));
  }

  const ADD_OVERFLOW: string := "attempt to add with overflow"

  /** `record_route` of the wired service: as above, but the distance is added with a
      plain `+=` on `i32`, which panics once the running sum leaves the `i32` range. */
  method RecordRouteChecked(idx: FeatureIndex, items: seq<Inbound<Point>>, dist: (GeoPoint, GeoPoint) -> Meters, elapsed: Int32)
    returns (r: Reply<RouteSummary>)
    ensures PathLength(dist, Received(items)) > I32_MAX ==> r == Panic(ADD_OVERFLOW)
    ensures PathLength(dist, Received(items)) <= I32_MAX && FirstError(items).Some? ==>
      r == Err(FirstError(items).value)
    ensures PathLength(dist, Received(items)) <= I32_MAX && FirstError(items).None? ==>
      r == Ok(RouteSummary(|Received(items)|, KnownCount(idx.featureMap, Received(items)), PathLength(dist, Received(items)), elapsed))
  {
    var pointCount, featureCount: nat, distance: int := 0, 0, 0;
    var last: Option<GeoPoint> := None;
    ghost var pts: seq<Point> := [];
    var i := 0;
    while i < |items|
      invariant 0 <= i <= |items|
      invariant Received(items) == pts + Received(items[i..])
      invariant FirstError(items) == FirstError(items[i..])
      invariant pointCount == |pts| && featureCount == KnownCount(idx.featureMap, pts)
      invariant distance == PathLength(dist, pts) <= I32_MAX
      invariant last == if pts == [] then None else Some(FromPoint(pts[|pts| - 1]))
    {
      match items[i]
      case Error(s) =>
        InboundError(items, i);
        assert pts + [] == pts;
        return Err(s);
      case Item(point) =>
        InboundItem(items, i);
        RouteStep(idx.featureMap, dist, pts, point);
        AppendAssoc(pts, [point], Received(items[i + 1..]));
        var geo := FromPoint(point);
        pointCount := pointCount + 1;
        if point in idx.featureMap {
          featureCount := featureCount + 1;
        }
        if last.Some? {
          var d := dist(last.value, geo);
          if distance + d > I32_MAX {
            PathLengthPrefix(dist, pts + [point], Received(items[i + 1..]));
            return Panic(ADD_OVERFLOW);
          }
          distance := distance + d;
        }
        last := Some(geo);
        pts := pts + [point];
        i := i + 1;
    }
    assert items[i..] == [] && pts + [] == pts;
    r := Ok(RouteSummary(pointCount, featureCount, distance, elapsed));
  }

  /** Extending a route never shortens it. */
  lemma {:induction false} PathLengthPrefix(dist: (GeoPoint, GeoPoint) -> Meters, ps: seq<Point>, qs: seq<Point>)
    ensures PathLength(dist, ps) <= PathLength(dist, ps + qs)
    decreases |qs|
  {
    if qs != [] {
      var q' := qs[..|qs| - 1];
      assert (ps + qs)[..|ps + qs| - 1] == ps + q';
      PathLengthPrefix(dist, ps, q');
    } else {
      assert ps + qs == ps;
    }
  }

  /** The saturating fold is the exact sum clamped to `i32::MAX`. */
  lemma {:induction false} SatDistanceIsClampedSum(dist: (GeoPoint, GeoPoint) -> Meters, ps: seq<Point>)
    ensures SatDistance(dist, ps) == Min(PathLength(dist, ps), I32_MAX)
    decreases |ps|
  {
    if |ps| >= 2 {
      SatDistanceIsClampedSum(dist, ps[..|ps| - 1]);
    }
  }

  /** Each further point leaves the saturating distance the same or larger. */
  lemma SatDistanceMonotone(dist: (GeoPoint, GeoPoint) -> Meters, ps: seq<Point>, p: Point)
    ensures 0 <= SatDistance(dist, ps) <= SatDistance(dist, ps + [p])
  {
    SatDistanceIsClampedSum(dist, ps);
    SatDistanceIsClampedSum(dist, ps + [p]);
    PathLengthPrefix(dist, ps, [p]);
  }

  /** Fewer than two points travel no distance. */
  lemma ShortRouteHasNoDistance(dist: (GeoPoint, GeoPoint) -> Meters, ps: seq<Point>)
    requires |ps| < 2
    ensures SatDistance(dist, ps) == 0 && PathLength(dist, ps) == 0
  {
  }

  /** When the exact sum fits in `i32`, the two record_route variants agree. */
  lemma VariantsAgreeWithoutOverflow(dist: (GeoPoint, GeoPoint) -> Meters, ps: seq<Point>)
    requires PathLength(dist, ps) <= I32_MAX
    ensures SatDistance(dist, ps) == PathLength(dist, ps)
  {
    SatDistanceIsClampedSum(dist, ps);
  }

  /** Two points streamed without error: two points counted, one segment measured. */
  lemma TwoPointRoute(idx: FeatureIndex, dist: (GeoPoint, GeoPoint) -> Meters, p: Point, q: Point)
    ensures FirstError([Item(p), Item(q)]).None?
    ensures Received([Item(p), Item(q)]) == [p, q]
    ensures SatDistance(dist, [p, q]) == dist(FromPoint(p), FromPoint(q))
    ensures KnownCount(idx.featureMap, [p, q]) == (if p in idx.featureMap then 1 else 0) + (if q in idx.featureMap then 1 else 0)
  {
    var items: seq<Inbound<Point>> := [Item(p), Item(q)];
    assert items[1..] == [Item(q)] && items[1..][1..] == [];
    RouteStep(idx.featureMap, dist, [], p);
    RouteStep(idx.featureMap, dist, [p], q);
    assert [] + [p] == [p] && [p] + [q] == [p, q];
  }

  // ------------------------------------------------------------------ route_chat

  predicate NotesLocated(ns: seq<RouteNote>)
  {
    forall k :: 0 <= k < |ns| ==> ns[k].location.Some?
  }

  /** The notes at one location, in arrival order. */
  function NotesAt(ns: seq<RouteNote>, loc: Point): seq<RouteNote>
    decreases |ns|
  {
    if ns == [] then []
    else
      var n := |ns| - 1;
      NotesAt(ns[..n], loc) + (if ns[n].location == Some(loc) then [ns[n]] else [])
  }

  /** The notes relayed before the stream ends, fails or delivers a note without a location. */
  function Accepted(items: seq<Inbound<RouteNote>>): (r: seq<RouteNote>)
    ensures NotesLocated(r)
    ensures |r| <= |items|
  {
    if items == [] || items[0].Error? || items[0].item.location.None? then []
    else [items[0].item] + Accepted(items[1..])
  }

  /** How the outbound stream ends: the first erroneous item fails it, the first note
      without a location panics on `unwrap`, otherwise it closes with the input. */
  function ChatEnd(items: seq<Inbound<RouteNote>>): StreamEnd
  {
    if items == [] then Closed
    else if items[0].Error? then Failed(items[0].status)
    else if items[0].item.location.None? then Panicked(UNWRAP_NONE)
    else ChatEnd(items[1..])
  }

  /** The notes emitted for the accepted notes: on each, the whole list at its location. */
  function Replay(ns: seq<RouteNote>): seq<RouteNote>
    requires NotesLocated(ns)
    decreases |ns|
  {
    if ns == [] then []
    else
      var n := |ns| - 1;
      Replay(ns[..n]) + NotesAt(ns, ns[n].location.value)
  }

  /** The per-call map holds, at each location, exactly the notes seen there. */
  ghost predicate ListsMatch(seen: seq<RouteNote>, notes: map<Point, seq<RouteNote>>)
  {
    forall loc :: NotesAt(seen, loc) == if loc in notes then notes[loc] else []
  }

  /** One more accepted note: it is appended to its location's list, the map still matches,
      and the replay grows by that whole list. */
  lemma ChatStep(seen: seq<RouteNote>, notes: map<Point, seq<RouteNote>>, note: RouteNote)
    requires NotesLocated(seen) && ListsMatch(seen, notes) && note.location.Some?
    ensures NotesLocated(seen + [note])
    ensures var loc := note.location.value;
      var entry := (if loc in notes then notes[loc] else []) + [note];
      && ListsMatch(seen + [note], notes[loc := entry])
      && Replay(seen + [note]) == Replay(seen) + entry
  {
    assert (seen + [note])[..|seen|] == seen;
    var loc := note.location.value;
    var entry := (if loc in notes then notes[loc] else []) + [note];
    forall l
      ensures NotesAt(seen + [note], l) == if l in notes[loc := entry] then notes[loc := entry][l] else []
    {
      assert NotesAt(seen + [note], l) == NotesAt(seen, l) + (if note.location == Some(l) then [note] else []);
    }
  }

  /** An inbound note with a location is accepted and moves past. */
  lemma ChatItem(items: seq<Inbound<RouteNote>>, i: int)
    requires 0 <= i < |items| && items[i].Item? && items[i].item.location.Some?
    ensures Accepted(items[i..]) == [items[i].item] + Accepted(items[i + 1..])
    ensures ChatEnd(items[i..]) == ChatEnd(items[i + 1..])
  {
    assert items[i..][0] == items[i] && items[i..][1..] == items[i + 1..];
  }

  /** An erroneous item or a note without a location accepts nothing further. */
  lemma ChatStop(items: seq<Inbound<RouteNote>>, i: int)
    requires 0 <= i < |items| && (items[i].Error? || items[i].item.location.None?)
    ensures Accepted(items[i..]) == []
    ensures ChatEnd(items[i..]) == if items[i].Error? then Failed(items[i].status) else Panicked(UNWRAP_NONE)
  {
    assert items[i..][0] == items[i];
  }

  /** The accepted notes are the leading items, in order; the item after them, if any, is an
      error or a note without a location, and it decides how the outbound stream ends. */
  lemma {:induction false} AcceptedUpToStop(items: seq<Inbound<RouteNote>>)
    ensures forall k :: 0 <= k < |Accepted(items)| ==> items[k] == Item(Accepted(items)[k])
    ensures |Accepted(items)| < |items| ==>
      items[|Accepted(items)|].Error? || items[|Accepted(items)|].item.location.None?
    ensures ChatEnd(items) ==
      if |Accepted(items)| == |items| then Closed
      else if items[|Accepted(items)|].Error? then Failed(items[|Accepted(items)|].status)
      else Panicked(UNWRAP_NONE)
  {
    if items != [] && items[0].Item? && items[0].item.location.Some? {
      AcceptedUpToStop(items[1..]);
    }
  }

  /** Yields every note of a location's list, in list order, after what was already yielded. */
  method Emit(out: seq<RouteNote>, entry: seq<RouteNote>) returns (out': seq<RouteNote>)
    ensures out' == out + entry
  {
    out' := out;
    for k := 0 to |entry|
      invariant out' == out + entry[..k]
    {
      out' := out' + [entry[k]];
    }
    assert entry[..|entry|] == entry;
  }

  /** `route_chat`: a map from location to notes, empty at the start of every call; each
      note is appended to its location's list and that whole list is emitted. */
  method RouteChat(items: seq<Inbound<RouteNote>>) returns (out: seq<RouteNote>, end: StreamEnd)
    ensures out == Replay(Accepted(items))
    ensures end == ChatEnd(items)
  {
    var notes: map<Point, seq<RouteNote>> := map[];
    out := [];
    ghost var seen: seq<RouteNote> := [];
    var i := 0;
    while i < |items|
      invariant 0 <= i <= |items|
      invariant NotesLocated(seen)
      invariant Accepted(items) == seen + Accepted(items[i..])
      invariant ChatEnd(items) == ChatEnd(items[i..])
      invariant out == Replay(seen)
      invariant ListsMatch(seen, notes)
    {
      match items[i]
      case Error(s) =>
        ChatStop(items, i);
        assert seen + [] == seen;
        end := Failed(s);
        return;
      case Item(note) =>
        if note.location.None? {
          ChatStop(items, i);
          assert seen + [] == seen;
          end := Panicked(UNWRAP_NONE);
          return;
        }
        ChatItem(items, i);
        ChatStep(seen, notes, note);
        var loc := note.location.value;
        var entry := if loc in notes then notes[loc] else [];
        entry := entry + [note];
        notes := notes[loc := entry];
        out := Emit(out, entry);
        AppendAssoc(seen, [note], Accepted(items[i + 1..]));
        seen := seen + [note];
        i := i + 1;
    }
    assert items[i..] == [] && seen + [] == seen;
    end := Closed;
  }

  /** On the k-th accepted note, the batch emitted is the list at its location: it grows by
      exactly that note, ends with it, holds every earlier note at that location and no note
      from elsewhere. */
  lemma {:induction false} ReplayBatch(ns: seq<RouteNote>, k: nat)
    requires NotesLocated(ns) && k < |ns|
    ensures Replay(ns[..k + 1]) == Replay(ns[..k]) + NotesAt(ns[..k + 1], ns[k].location.value)
    ensures NotesAt(ns[..k + 1], ns[k].location.value) == NotesAt(ns[..k], ns[k].location.value) + [ns[k]]
    ensures forall m :: m in NotesAt(ns[..k + 1], ns[k].location.value) ==> m.location == ns[k].location
    ensures forall j :: 0 <= j <= k && ns[j].location == ns[k].location ==> ns[j] in NotesAt(ns[..k + 1], ns[k].location.value)
  {
    var pre := ns[..k + 1];
    assert pre[..k] == ns[..k];
    NotesAtSpec(pre, ns[k].location.value);
  }

  /** A location's list holds exactly the notes at that location. */
  lemma {:induction false} NotesAtSpec(ns: seq<RouteNote>, loc: Point)
    ensures forall m :: m in NotesAt(ns, loc) <==> m in ns && m.location == Some(loc)
    decreases |ns|
  {
    if ns != [] {
      var n := |ns| - 1;
      NotesAtSpec(ns[..n], loc);
      assert ns == ns[..n] + [ns[n]];
    }
  }

  /** Two notes at the same location: the first is emitted, then both, in arrival order. */
  lemma TwoNotesSameLocation(p: Point)
    ensures var first := RouteNote(Some(p), "First note");
      var second := RouteNote(Some(p), "Second note");
      var items := [Item(first), Item(second)];
      Replay(Accepted(items)) == [first, first, second] && ChatEnd(items) == Closed
  {
    var first := RouteNote(Some(p), "First note");
    var second := RouteNote(Some(p), "Second note");
    var items := [Item(first), Item(second)];
    assert items[1..] == [Item(second)] && items[1..][1..] == [];
    ChatItem(items, 0);
    ChatItem(items, 1);
    assert items[0..] == items && items[2..] == [];
    assert Accepted(items) == [first, second];
    ChatStep([], map[], first);
    ChatStep([first], map[p := [first]], second);
    assert [] + [first] == [first] && [first] + [second] == [first, second];
  }
}
