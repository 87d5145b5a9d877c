/** Message types of the route guide wire schema (the generated `proto` module), the
    handler outcomes, and inbound streams as finite sequences of `Result<T, Status>` items. */
module Proto {

  const I32_MIN: int := -0x8000_0000
  const I32_MAX: int := 0x7fff_ffff

  /** Rust `i32`. */
  type Int32 = x: int | I32_MIN <= x <= I32_MAX

  datatype Option<+T> = None | Some(value: T)

  /** Latitude and longitude in units of 1e-7 degree. */
  datatype Point = Point(latitude: Int32, longitude: Int32)

  /** A named point of interest; an empty name means "unnamed". */
  datatype Feature = Feature(name: string, location: Option<Point>)

  /** Two corners, in either order. */
  datatype Rectangle = Rectangle(lo: Option<Point>, hi: Option<Point>)

  datatype RouteNote = RouteNote(location: Option<Point>, message: string)

  datatype RouteSummary = RouteSummary(pointCount: nat, featureCount: nat, distance: int, elapsedTime: Int32)

  /** A gRPC status carried by an erroneous stream item. */
  datatype Status = Status(message: string)

  /** How a handler ends: a response, a request-scoped error, or a panic of the handler task. */
  datatype Reply<+T> = Ok(value: T) | Err(status: Status) | Panic(reason: string)

  /** How an outbound stream ends once its items have been yielded. */
  datatype StreamEnd = Closed | Failed(status: Status) | Panicked(reason: string)

  /** One item of an inbound stream. */
  datatype Inbound<+T> = Item(item: T) | Error(status: Status)

  const UNWRAP_NONE: string := "called `Option::unwrap()` on a `None` value"

  /** `Feature::default()`: the "not found" sentinel. */
  function DefaultFeature(): Feature
  {
    Feature("", None)
  }

  /** The values `Hash for Point` feeds to the hasher, in order. */
  function HashInput(p: Point): seq<int>
  {
    [p.latitude, p.longitude]
  }

  /** Equality of points is structural, and the hash reads exactly the two compared
      fields: two points feed the hasher the same values if and only if they are equal. */
  lemma HashAgreesWithEq(p: Point, q: Point)
    // Holds for any datatype; restated to name the two fields that equality compares.
    ensures p == q <==> p.latitude == q.latitude && p.longitude == q.longitude
    ensures HashInput(p) == HashInput(q) <==> p == q
  {
    if HashInput(p) == HashInput(q) {
      assert HashInput(p)[0] == HashInput(q)[0];
      assert HashInput(p)[1] == HashInput(q)[1];
    }
  }

  /** The items received before the first erroneous item. */
  function Received<T>(items: seq<Inbound<T>>): (r: seq<T>)
    ensures |r| <= |items|
  {
    if items == [] || items[0].Error? then []
    else [items[0].item] + Received(items[1..])
  }

  /** The status of the first erroneous item, if any. */
  function FirstError<T>(items: seq<Inbound<T>>): (r: Option<Status>)
    ensures r.None? <==> forall k :: 0 <= k < |items| ==> items[k].Item?
  {
    if items == [] then None
    else if items[0].Error? then Some(items[0].status)
    else FirstError(items[1..])
  }

  /** Without an erroneous item, every item is received; with one, exactly those before it are. */
  lemma {:induction false} ReceivedUpToError<T>(items: seq<Inbound<T>>)
    ensures FirstError(items).None? ==> |Received(items)| == |items|
    ensures FirstError(items).Some? ==>
      |Received(items)| < |items| && items[|Received(items)|] == Error(FirstError(items).value)
    ensures forall k :: 0 <= k < |Received(items)| ==> items[k] == Item(Received(items)[k])
  {
    if items != [] && items[0].Item? {
      ReceivedUpToError(items[1..]);
    }
  }
}
