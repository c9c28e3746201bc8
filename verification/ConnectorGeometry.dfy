/** Where connectors start and end: anchors of bound elements seen through nested group transforms. */
module ConnectorGeometry {
  import opened Wrappers
  import opened DeckModel

  datatype Transform = Transform(a: real, b: real, c: real, d: real, e: real, f: real)

  const IDENTITY := Transform(1.0, 0.0, 0.0, 1.0, 0.0, 0.0)
  const GRID := 10_000_000_000.0
  const MINIMUM_EXTENT := 0.001

  // ----- Coordinates on the grid -----

  /** The nearest multiple of 1e-10, halves rounding up, and a clean zero. */
  function NormalizedCoordinate(value: real): real {
    var rounded := (value * GRID + 0.5).Floor as real / GRID;
    if -1.0 / GRID < rounded < 1.0 / GRID then 0.0 else rounded
  }

  function NormalizedPoint(point: Point): Point {
    Point(NormalizedCoordinate(point.x), NormalizedCoordinate(point.y))
  }

  lemma GridPointsStay(multiple: int)
    ensures NormalizedCoordinate(multiple as real / GRID) == multiple as real / GRID
  {
    var value := multiple as real / GRID;
    assert value * GRID == multiple as real;
    assert (multiple as real + 0.5).Floor == multiple;
    if -1.0 / GRID < value < 1.0 / GRID {
      assert multiple == 0;
    }
  }

  /** Normalizing twice is normalizing once. */
  lemma NormalizationIsIdempotent(point: Point)
    ensures NormalizedPoint(NormalizedPoint(point)) == NormalizedPoint(point)
  {
    CoordinateSettles(point.x);
    CoordinateSettles(point.y);
  }

  lemma CoordinateSettles(value: real)
    ensures NormalizedCoordinate(NormalizedCoordinate(value)) == NormalizedCoordinate(value)
  {
    GridPointsStay((value * GRID + 0.5).Floor);
    GridPointsStay(0);
  }

  // ----- Transforms -----

  function Compose(outer: Transform, inner: Transform): Transform {
    Transform(
      outer.a * inner.a + outer.c * inner.b,
      outer.b * inner.a + outer.d * inner.b,
      outer.a * inner.c + outer.c * inner.d,
      outer.b * inner.c + outer.d * inner.d,
      outer.a * inner.e + outer.c * inner.f + outer.e,
      outer.b * inner.e + outer.d * inner.f + outer.f)
  }

  function Apply(transform: Transform, point: Point): Point {
    Point(
      transform.a * point.x + transform.c * point.y + transform.e,
      transform.b * point.x + transform.d * point.y + transform.f)
  }

  function FrameTransform(frame: Frame): Transform {
    var centerX, centerY := frame.width / 2.0, frame.height / 2.0;
    Transform(
      frame.cosine, frame.sine, -frame.sine, frame.cosine,
      frame.x + centerX - frame.cosine * centerX + frame.sine * centerY,
      frame.y + centerY - frame.sine * centerX - frame.cosine * centerY)
  }

  function Scale(x: real, y: real): Transform {
    Transform(x, 0.0, 0.0, y, 0.0, 0.0)
  }

  function Inverse(transform: Transform): Option<Transform> {
    var determinant := transform.a * transform.d - transform.b * transform.c;
    if determinant == 0.0 then None
    else
      Some(Transform(
        transform.d / determinant, -transform.b / determinant, -transform.c / determinant, transform.a / determinant,
        (transform.c * transform.f - transform.d * transform.e) / determinant,
        (transform.b * transform.e - transform.a * transform.f) / determinant))
  }

  function Max(x: real, y: real): real { if x < y then y else x }

  function ChildTransform(group: Element, containerToDocument: Transform): Transform
    requires group.Group?
  {
    var frame := group.base.frame;
    Compose(
      containerToDocument,
      Compose(
        FrameTransform(frame),
        Scale(
          Max(0.0, frame.width) / Max(MINIMUM_EXTENT, group.spaceWidth),
          Max(0.0, frame.height) / Max(MINIMUM_EXTENT, group.spaceHeight))))
  }

  // ----- Anchors -----

  datatype AnchorPoints = AnchorPoints(top: Point, right: Point, bottom: Point, left: Point, center: Point)

  function AnchorPointsFor(element: Element, containerToDocument: Transform): AnchorPoints {
    var frame := element.base.frame;
    var toDocument := Compose(containerToDocument, FrameTransform(frame));
    AnchorPoints(
      Apply(toDocument, Point(frame.width / 2.0, 0.0)),
      Apply(toDocument, Point(frame.width, frame.height / 2.0)),
      Apply(toDocument, Point(frame.width / 2.0, frame.height)),
      Apply(toDocument, Point(0.0, frame.height / 2.0)),
      Apply(toDocument, Point(frame.width / 2.0, frame.height / 2.0)))
  }

  function AnchorPoint(points: AnchorPoints, anchor: Option<Anchor>): Point {
    match anchor
    case None => points.center
    case Some(TopAnchor) => points.top
    case Some(RightAnchor) => points.right
    case Some(BottomAnchor) => points.bottom
    case Some(LeftAnchor) => points.left
    case Some(CenterAnchor) => points.center
  }

  /** Keyed entries in visiting order; a later entry of the same key wins, as in a map that is filled. */
  type Index<T> = seq<(Id, T)>

  function Lookup<T>(index: Index<T>, id: Id): Option<T> {
    if index == [] then None
    else
      var last := index[|index| - 1];
      if last.0 == id then Some(last.1) else Lookup(index[..|index| - 1], id)
  }

  function AnchorIndex(elements: seq<Element>, containerToDocument: Transform): Index<AnchorPoints>
    decreases elements
  {
    if elements == [] then []
    else
      var head := elements[0];
      var nested :=
        if head.Group? then AnchorIndex(head.children, ChildTransform(head, containerToDocument)) else [];
      [(head.Id(), AnchorPointsFor(head, containerToDocument))] + nested +
        AnchorIndex(elements[1..], containerToDocument)
  }

  // ----- Connectors -----

  datatype Geometry = Geometry(
    startInContainer: Point, endInContainer: Point, startInDocument: Point, endInDocument: Point)

  function ResolveEndpoint(anchors: Index<AnchorPoints>, inverse: Option<Transform>, endpoint: Endpoint): Point {
    var target :=
      if endpoint.binding.elementId.Some? then Lookup(anchors, endpoint.binding.elementId.value) else None;
    if target.None? || inverse.None? then NormalizedPoint(endpoint.point)
    else NormalizedPoint(Apply(inverse.value, AnchorPoint(target.value, endpoint.binding.anchor)))
  }

  function GeometryOf(connector: Element, anchors: Index<AnchorPoints>, containerToDocument: Transform): Geometry
    requires connector.Connector?
  {
    var inverse := Inverse(containerToDocument);
    GeometryFrom(
      ResolveEndpoint(anchors, inverse, connector.start), ResolveEndpoint(anchors, inverse, connector.end),
      containerToDocument)
  }

  function GeometryFrom(start: Point, end: Point, containerToDocument: Transform): Geometry {
    Geometry(
      start, end, NormalizedPoint(Apply(containerToDocument, start)),
      NormalizedPoint(Apply(containerToDocument, end)))
  }

  function Geometries(elements: seq<Element>, anchors: Index<AnchorPoints>, containerToDocument: Transform)
    : Index<Geometry>
    decreases elements
  {
    if elements == [] then []
    else
      var head := elements[0];
      var own := if head.Connector? then [(head.Id(), GeometryOf(head, anchors, containerToDocument))] else [];
      var nested :=
        if head.Group? then Geometries(head.children, anchors, ChildTransform(head, containerToDocument)) else [];
      own + nested + Geometries(elements[1..], anchors, containerToDocument)
  }

  /** `resolveDocumentConnectorGeometries` for the elements of one slide. */
  function ResolveConnectorGeometries(elements: seq<Element>): Index<Geometry> {
    Geometries(elements, AnchorIndex(elements, IDENTITY), IDENTITY)
  }
}
