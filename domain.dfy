/** The domain value objects exchanged by the store and the HTTP layer. */
module Domain {

  /** A 2D point; `x` and `y` are the coordinates stored in the points table. */
  datatype Point = Point(x: int, y: int)

  /** A blueprint is identified by (author, name); `points` is its drawing order. */
  datatype Blueprint = Blueprint(author: string, name: string, points: seq<Point>)
}
