/** src/calibration.rs: the camera intrinsics value object. */
module Calibration {
  import opened Wrappers
  import AprilTag

  /** `Calibration`: focal lengths and principal point, in pixels (`f64`). */
  datatype Intrinsics = Intrinsics(focalXPixels: real, focalYPixels: real,
                                   principalPointXPixels: real, principalPointYPixels: real)

  /** The derived `Default`: every field zero. */
  function Default(): (c: Intrinsics)
    ensures c.focalXPixels == 0.0 && c.focalYPixels == 0.0
    ensures c.principalPointXPixels == 0.0 && c.principalPointYPixels == 0.0
  {
    Intrinsics(0.0, 0.0, 0.0, 0.0)
  }

  /** An OpenCV `Mat` of `f64`, as its rows. A matrix left empty by a failed
      solve is `[]`. */
  type Matrix = seq<seq<real>>

  /** `Mat::at_2d::<f64>(row, col)`: an error when the cell does not exist. */
  function At(m: Matrix, row: nat, col: nat): (r: Option<real>)
    ensures r.Some? <==> row < |m| && col < |m[row]|
    ensures r.Some? ==> r.value == m[row][col]
  {
    if row < |m| && col < |m[row]| then Some(m[row][col]) else None
  }

  /** The four cells `From<Mat>` reads all exist. */
  predicate HasIntrinsicCells(m: Matrix) {
    |m| >= 2 && |m[0]| >= 3 && |m[1]| >= 3
  }

  /** `From<Mat> for Calibration`: focal x from cell (0,0), focal y from (1,1),
      principal x from (0,2), principal y from (1,2). A missing cell makes an
      `unwrap` panic, modelled as `None`. */
  function FromMatrix(m: Matrix): (r: Option<Intrinsics>)
    ensures r.Some? <==> HasIntrinsicCells(m)
    ensures r.Some? ==> r.value.focalXPixels == m[0][0] && r.value.focalYPixels == m[1][1]
    ensures r.Some? ==> r.value.principalPointXPixels == m[0][2]
    ensures r.Some? ==> r.value.principalPointYPixels == m[1][2]
  {
    var fx :- At(m, 0, 0);
    var fy :- At(m, 1, 1);
    var px :- At(m, 0, 2);
    var py :- At(m, 1, 2);
    Some(Intrinsics(fx, fy, px, py))
  }

  /** Every cell other than the four intrinsic cells is ignored: the skew
      cell (0,1), the rest of rows 0 and 1, row 2 and any further rows. */
  lemma FromMatrixIgnoresOtherCells(m: Matrix, n: Matrix)
    requires HasIntrinsicCells(m) && HasIntrinsicCells(n)
    requires m[0][0] == n[0][0] && m[1][1] == n[1][1]
    requires m[0][2] == n[0][2] && m[1][2] == n[1][2]
    ensures FromMatrix(m) == FromMatrix(n)
  {
  }

  /** `Calibration::to_params`: the tag size is passed through unchecked
      (no sign or positivity test) and the intrinsics fill fx, fy, cx, cy. */
  function ToParams(c: Intrinsics, tagsize: real): (p: AprilTag.TagParams)
    ensures p.tagsize == tagsize
    ensures p.fx == c.focalXPixels && p.fy == c.focalYPixels
    ensures p.cx == c.principalPointXPixels && p.cy == c.principalPointYPixels
  {
    AprilTag.TagParams(tagsize, c.focalXPixels, c.focalYPixels,
                       c.principalPointXPixels, c.principalPointYPixels)
  }

  /** `to_params` loses nothing: the calibration and the tag size can be read
      back from the parameters. */
  lemma ToParamsInjective(c: Intrinsics, t: real, d: Intrinsics, u: real)
    requires ToParams(c, t) == ToParams(d, u)
    ensures c == d && t == u
  {
  }

  /** The two conversions composed: the parameters a solved camera matrix
      yields for a tag of size `t`. */
  lemma ToParamsFromMatrix(m: Matrix, t: real)
    requires HasIntrinsicCells(m)
    ensures FromMatrix(m).Some?
    ensures ToParams(FromMatrix(m).value, t)
         == AprilTag.TagParams(t, m[0][0], m[1][1], m[0][2], m[1][2])
  {
  }
}
