/** src/pose.rs: turning a detection and its estimated pose into the record
    that is serialised to JSON. */
module Pose {
  import opened Wrappers
  import AprilTag

  /** `SerialisablePose`: the pose's matrix data as plain vectors. */
  datatype SerialisablePose = SerialisablePose(rotation: seq<real>, translation: seq<real>)

  /** `MarkerPose`: one marker that has a resolved pose. */
  datatype MarkerPose = MarkerPose(markerId: nat, pose: SerialisablePose)

  /** `From<Pose> for SerialisablePose`: both matrices are copied element for
      element, in order, with their lengths kept. */
  function FromPose(p: AprilTag.Pose): (s: SerialisablePose)
    ensures |s.rotation| == |p.rotation|
    ensures forall i :: 0 <= i < |p.rotation| ==> s.rotation[i] == p.rotation[i]
    ensures |s.translation| == |p.translation|
    ensures forall i :: 0 <= i < |p.translation| ==> s.translation[i] == p.translation[i]
  {
    SerialisablePose(p.rotation, p.translation)
  }

  /** The copy loses nothing: distinct poses give distinct records. */
  lemma FromPoseInjective(p: AprilTag.Pose, q: AprilTag.Pose)
    requires FromPose(p) == FromPose(q)
    ensures p == q
  {
  }

  /** `MarkerPose::from_detection`: `None` exactly when the estimator gives
      no pose; otherwise the detection's id and the copied pose. The result
      depends on the detection, the parameters and the estimator only. */
  function FromDetection(d: AprilTag.Detection, params: AprilTag.TagParams,
                         estimate: AprilTag.PoseEstimator): (r: Option<MarkerPose>)
    ensures r.None? <==> estimate(d, params).None?
    ensures r.Some? ==> r.value.markerId == d.id
    ensures r.Some? ==> r.value.pose == FromPose(estimate(d, params).value)
  {
    var pose :- estimate(d, params);
    Some(MarkerPose(d.id, FromPose(pose)))
  }
}
