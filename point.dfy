/** A planar point as a pair of reals (pydcel/dcel/point.py). Floating point is not modelled. */
module Points {

  datatype Point = Point(x: real, y: real)
}
