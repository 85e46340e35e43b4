/** Playfield geometry: points, the bounds test that expires bullets, and the
    bullet-touches-ship test of the collision engine. Coordinates are screen
    coordinates (y grows downwards); floating-point rounding is not modelled. */
module Geometry {

  const WINDOW_WIDTH: real := 640.0
  const WINDOW_HEIGHT: real := 480.0

  /** Radius of a ship and of a bullet. */
  const PLAYERSIZE: real := 10.0
  const BULLETSIZE: real := 3.0

  datatype Point = Point(x: real, y: real)

  /** The closed playfield rectangle [0, WIDTH] x [0, HEIGHT]. */
  predicate InField(p: Point) {
    0.0 <= p.x <= WINDOW_WIDTH && 0.0 <= p.y <= WINDOW_HEIGHT
  }

  /** A bullet is expired when its centre lies strictly beyond an edge. */
  predicate IsOutside(point: Point) {
    point.x < 0.0 || point.x > WINDOW_WIDTH || point.y < 0.0 || point.y > WINDOW_HEIGHT
  }

  /** Being outside is exactly not lying in the closed rectangle: the edges
      themselves belong to the field. */
  lemma OutsideIffNotInField(p: Point)
    ensures IsOutside(p) <==> !InField(p)
  {
  }

  lemma EdgesAreInside()
    ensures !IsOutside(Point(640.0, 240.0)) && !IsOutside(Point(0.0, 0.0))
    ensures !IsOutside(Point(320.0, 480.0))
    ensures IsOutside(Point(640.5, 240.0)) && IsOutside(Point(320.0, -0.5))
  {
  }

  /** The square of the Euclidean distance between two points. */
  function SquareDistance(point1: Point, point2: Point): (r: real)
    ensures r >= 0.0
    ensures point1 == point2 ==> r == 0.0
  {
    var dx := point2.x - point1.x;
    var dy := point2.y - point1.y;
    SquareFacts(dx);
    SquareFacts(dy);
    dx * dx + dy * dy
  }

  lemma SquareFacts(d: real)
    ensures d * d >= 0.0
  {
    if d < 0.0 {
      assert d * d > 0.0;
    }
  }

  lemma SquareDistanceSymmetric(p: Point, q: Point)
    ensures SquareDistance(p, q) == SquareDistance(q, p)
  {
  }

  /** A bullet touches a ship when their discs overlap: the squared distance of
      the centres is strictly below (BULLETSIZE + PLAYERSIZE)^2 = 169. */
  predicate BulletTouchingPlayer(bulletPosition: Point, playerPosition: Point) {
    SquareDistance(bulletPosition, playerPosition) < (BULLETSIZE + PLAYERSIZE) * (BULLETSIZE + PLAYERSIZE)
  }

  /** For two points whose distance is d (that is, whose squared distance is
      d * d), they touch exactly when d < 13: a centre distance of exactly 13
      is not a hit. */
  lemma {:induction false} TouchingIffCloserThan13(b: Point, p: Point, d: real)
    requires 0.0 <= d
    requires SquareDistance(b, p) == d * d
    ensures BulletTouchingPlayer(b, p) <==> d < 13.0
  {
    if d < 13.0 {
      assert d * d <= 13.0 * d;
      assert 13.0 * d < 169.0;
    } else {
      assert d * d >= 13.0 * d;
      assert 13.0 * d >= 169.0;
    }
  }

  /** The concrete distances 12 and 13: 12 hits, 13 does not. */
  lemma HitAt12NotAt13(b: Point)
    ensures BulletTouchingPlayer(b, Point(b.x + 12.0, b.y))
    ensures !BulletTouchingPlayer(b, Point(b.x + 13.0, b.y))
    ensures !BulletTouchingPlayer(b, Point(b.x, b.y - 13.0))
  {
    AxisDistance(b, 12.0, 0.0);
    TouchingIffCloserThan13(b, Point(b.x + 12.0, b.y), 12.0);
    AxisDistance(b, 13.0, 0.0);
    TouchingIffCloserThan13(b, Point(b.x + 13.0, b.y), 13.0);
    AxisDistance(b, 0.0, -13.0);
    TouchingIffCloserThan13(b, Point(b.x, b.y - 13.0), 13.0);
  }

  /** Offsetting a point by (dx, dy) puts it at squared distance dx^2 + dy^2. */
  lemma AxisDistance(b: Point, dx: real, dy: real)
    ensures SquareDistance(b, Point(b.x + dx, b.y + dy)) == dx * dx + dy * dy
  {
    var q := Point(b.x + dx, b.y + dy);
    assert q.x - b.x == dx;
    assert q.y - b.y == dy;
  }

  /** Touching does not depend on which disc is the bullet. */
  lemma TouchingSymmetric(p: Point, q: Point)
    ensures BulletTouchingPlayer(p, q) <==> BulletTouchingPlayer(q, p)
  {
    SquareDistanceSymmetric(p, q);
  }
}
