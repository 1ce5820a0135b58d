/** Small definitions shared by the models. */
module Common {

  datatype Option<+T> = None | Some(value: T)

  function Abs(x: real): real {
    if x < 0.0 then -x else x
  }

  function Min(a: int, b: int): int {
    if a <= b then a else b
  }

  /** C's conversion of a floating-point value to an integer. */
  function Truncate(x: real): int {
    if x >= 0.0 then x.Floor else -((-x).Floor)
  }

  /** `axes_mode.mode`, as far as the elevation scans set it. */
  datatype AxesKind = Vel | Pos

  // ---------------------------------------------------------------- the camera

  const CAMERA_WIDTH := 1936
  const CAMERA_HEIGHT := 1216

  predicate InImage(i: int, j: int) {
    0 <= i < CAMERA_WIDTH && 0 <= j < CAMERA_HEIGHT
  }

  /** The flat index of column `i` of row `j`. */
  function Cell(i: int, j: int): (t: int)
    ensures InImage(i, j) ==> 0 <= t < CAMERA_WIDTH * CAMERA_HEIGHT
  {
    i + j * CAMERA_WIDTH
  }
}
