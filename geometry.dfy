/** Geometry helpers: the coordinate view of a point, rstar's axis-aligned boxes over
    `[longitude, latitude]` corners, the envelope of an R-tree leaf, and the process-wide
    coordinate table the leaves index into. */
module Geometry {
  import opened Proto

  /** A point kept with its protobuf original. The radian fields, used only by the
      haversine distance, are not modelled. */
  datatype GeoPoint = GeoPoint(pb: Point)

  /** `GeoPoint::from`: the original point is kept unchanged. */
  function FromPoint(pb: Point): (g: GeoPoint)
    ensures g.pb == pb
  {
    GeoPoint(pb)
  }

  /** An rstar corner `[x, y]`. */
  datatype Corner = Corner(x: Int32, y: Int32)

  /** The corner of a point: longitude first, then latitude. */
  function CornerOf(p: Point): Corner
  {
    Corner(p.longitude, p.latitude)
  }

  /** rstar's `AABB<[i32; 2]>`. */
  datatype Aabb = Aabb(lower: Corner, upper: Corner)

  function Min(a: int, b: int): int
  {
    if a <= b then a else b
  }

  function Max(a: int, b: int): int
  {
    if a <= b then b else a
  }

  /** `v` lies between `a` and `b`, inclusive, whichever of them is larger. */
  predicate Between(a: int, v: int, b: int)
  {
    Min(a, b) <= v <= Max(a, b)
  }

  /** Inclusive containment of a point in the rectangle spanned by two corners. */
  predicate InBox(p: Point, lo: Point, hi: Point)
  {
    Between(lo.latitude, p.latitude, hi.latitude) && Between(lo.longitude, p.longitude, hi.longitude)
  }

  predicate ContainsPoint(b: Aabb, c: Corner)
  {
    b.lower.x <= c.x <= b.upper.x && b.lower.y <= c.y <= b.upper.y
  }

  /** rstar's `AABB::contains_envelope`: on a non-empty inner box, it holds exactly when every
      point of the inner box lies in the outer one. */
  predicate ContainsEnvelope(outer: Aabb, inner: Aabb): (r: bool)
    ensures inner.lower.x <= inner.upper.x && inner.lower.y <= inner.upper.y ==>
      (r <==> forall c :: ContainsPoint(inner, c) ==> ContainsPoint(outer, c))
  {
    var fits :=
      && outer.lower.x <= inner.lower.x && outer.lower.y <= inner.lower.y
      && inner.upper.x <= outer.upper.x && inner.upper.y <= outer.upper.y;
    // The inner box's own corners witness the converse.
    assert ContainsPoint(outer, inner.lower) && ContainsPoint(outer, inner.upper) ==> fits;
    fits
  }

  /** rstar's `AABB::from_corners`: the box spanned by two corners given in any order. */
  function FromCorners(p: Corner, q: Corner): (b: Aabb)
    ensures forall c :: ContainsPoint(b, c) <==> Between(p.x, c.x, q.x) && Between(p.y, c.y, q.y)
  {
    Aabb(Corner(Min(p.x, q.x), Min(p.y, q.y)), Corner(Max(p.x, q.x), Max(p.y, q.y)))
  }

  /** The box does not depend on which corner comes first, on either axis. */
  lemma FromCornersOrderFree(p: Corner, q: Corner)
    ensures FromCorners(p, q) == FromCorners(q, p)
    ensures FromCorners(p, q) == FromCorners(Corner(q.x, p.y), Corner(p.x, q.y))
  {
  }

  /** The degenerate box of a single point. */
  function PointBox(p: Point): (b: Aabb)
    ensures b.lower == b.upper == CornerOf(p)
  {
    FromCorners(CornerOf(p), CornerOf(p))
  }

  /** A box contains a point's degenerate box exactly when it contains the point. */
  lemma PointBoxContained(query: Aabb, p: Point)
    ensures ContainsEnvelope(query, PointBox(p)) <==> ContainsPoint(query, CornerOf(p))
  {
  }

  /** An R-tree leaf: a position into the coordinate table. */
  datatype FeatureIdx = FeatureIdx(i: nat)

  /** `FeatureIdx::envelope`: the degenerate box of the leaf's entry in the coordinate
      table. It panics when the table has not been published or the position is past its end. */
  function Envelope(table: Option<seq<GeoPoint>>, leaf: FeatureIdx): (r: Reply<Aabb>)
    ensures r.Ok? <==> table.Some? && leaf.i < |table.value|
    ensures !r.Ok? ==> r.Panic?
    ensures r.Ok? ==> r.value == PointBox(table.value[leaf.i].pb)
    // Follows from the clause above; restated so the corner order can be read off directly.
    ensures r.Ok? ==> r.value.lower == r.value.upper == Corner(table.value[leaf.i].pb.longitude, table.value[leaf.i].pb.latitude)
  {
    if table.None? then Panic("geo table not initialised")
    else if leaf.i >= |table.value| then Panic("index out of bounds")
    else
      var p := table.value[leaf.i];
      Ok(FromCorners(Corner(p.pb.longitude, p.pb.latitude), Corner(p.pb.longitude, p.pb.latitude)))
  }

  /** The process-wide coordinate table `GEO_POINTS`: a cell that can be set once. */
  class GeoCell {
    var table: Option<seq<GeoPoint>>

    constructor ()
      ensures table == None
    {
      table := None;
    }

    /** `OnceCell::set`: stores the table only if none is stored yet; the first table wins. */
    method Set(v: seq<GeoPoint>) returns (stored: bool)
      modifies this
      ensures stored <==> old(table).None?
      ensures table == if stored then Some(v) else old(table)
    {
      stored := table.None?;
      if stored {
        table := Some(v);
      }
    }
  }
}
