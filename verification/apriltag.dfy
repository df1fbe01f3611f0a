/** The data types the AprilTag library hands to this program. The detector
    and the pose estimator themselves are foreign code: they enter the model
    as function-typed parameters (see Parse.Collaborators). */
module AprilTag {
  import Wrappers

  /** An 8-bit unsigned sample (Rust `u8`). */
  newtype byte = x: int | 0 <= x < 256

  /** `apriltag::TagParams`: the tag edge length and the camera intrinsics,
      all `f64` in the source. */
  datatype TagParams = TagParams(tagsize: real, fx: real, fy: real, cx: real, cy: real)

  /** `apriltag::Detection`: the marker id and its image-space corners. */
  datatype Detection = Detection(id: nat, corners: seq<(real, real)>)

  /** `apriltag::Pose`: the row-major data of the rotation matrix and of the
      translation vector, as returned by `data()`. */
  datatype Pose = Pose(rotation: seq<real>, translation: seq<real>)

  /** `Detection::estimate_tag_pose`: `None` when no pose can be resolved. */
  type PoseEstimator = (Detection, TagParams) -> Wrappers.Option<Pose>
}
