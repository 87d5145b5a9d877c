/** The rectangle predicate `in_range` of the first, unfinished revision of the server.
    As written, both longitude bounds are taken from the `lo` corner. */
module EarlyMain {
  import opened Proto
  import opened Geometry

  /** `in_range` as written: panics on a missing corner; the latitude test spans both
      corners, but the longitude bounds are `min(lo, lo)` and `max(lo, lo)`. */
  function InRange(point: Point, rect: Rectangle): (r: Reply<bool>)
    ensures r.Panic? <==> rect.lo.None? || rect.hi.None?
    ensures r.Ok? <==> rect.lo.Some? && rect.hi.Some?
    ensures r.Ok? ==> (r.value <==>
      && point.longitude == rect.lo.value.longitude
      && Between(rect.lo.value.latitude, point.latitude, rect.hi.value.latitude))
  {
    if rect.lo.None? || rect.hi.None? then Panic(UNWRAP_NONE)
    else
      var lo := rect.lo.value;
      var hi := rect.hi.value;
      var top := Max(lo.latitude, hi.latitude);
      var down := Min(lo.latitude, hi.latitude);
      var left := Min(lo.longitude, lo.longitude);
      var right := Max(lo.longitude, lo.longitude);
      Ok(point.longitude >= left && point.longitude <= right && point.latitude >= down && point.latitude <= top)
  }

  /** The result never depends on the `hi` corner's longitude. */
  lemma InRangeIgnoresHiLongitude(point: Point, lo: Point, hi: Point, otherLongitude: Int32)
    ensures InRange(point, Rectangle(Some(lo), Some(hi)))
      == InRange(point, Rectangle(Some(lo), Some(Point(hi.latitude, otherLongitude))))
  {
  }

  /** The latitude test does not depend on which corner holds the larger latitude. */
  lemma InRangeLatitudeOrderFree(point: Point, lo: Point, hi: Point)
    ensures InRange(point, Rectangle(Some(lo), Some(hi)))
      == InRange(point, Rectangle(Some(Point(hi.latitude, lo.longitude)), Some(Point(lo.latitude, hi.longitude))))
  {
  }

  /** A point in the middle of a rectangle is reported outside it. */
  lemma InRangeMissesInterior()
    ensures InBox(Point(5, 5), Point(0, 0), Point(10, 10))
    ensures InRange(Point(5, 5), Rectangle(Some(Point(0, 0)), Some(Point(10, 10)))) == Ok(false)
  {
  }

  /** `in_range` with the longitude bounds taken from both corners. */
  function InRangeFixed(point: Point, rect: Rectangle): (r: Reply<bool>)
    ensures r.Panic? <==> rect.lo.None? || rect.hi.None?
    ensures r.Ok? <==> rect.lo.Some? && rect.hi.Some?
    ensures r.Ok? ==> (r.value <==> InBox(point, rect.lo.value, rect.hi.value))
  {
    if rect.lo.None? || rect.hi.None? then Panic(UNWRAP_NONE)
    else
      var lo := rect.lo.value;
      var hi := rect.hi.value;
      var top := Max(lo.latitude, hi.latitude);
      var down := Min(lo.latitude, hi.latitude);
      var left := Min(lo.longitude, hi.longitude);
      var right := Max(lo.longitude, hi.longitude);
      Ok(point.longitude >= left && point.longitude <= right && point.latitude >= down && point.latitude <= top)
  }

  /** The corrected predicate agrees with the query box of the later revision's range query,
      and with the predicate as written whenever both corners share a longitude. */
  lemma InRangeFixedMatchesQuery(point: Point, lo: Point, hi: Point)
    ensures InRangeFixed(point, Rectangle(Some(lo), Some(hi)))
      == Ok(ContainsPoint(FromCorners(CornerOf(lo), CornerOf(hi)), CornerOf(point)))
    ensures lo.longitude == hi.longitude ==>
      InRangeFixed(point, Rectangle(Some(lo), Some(hi))) == InRange(point, Rectangle(Some(lo), Some(hi)))
  {
  }
}
