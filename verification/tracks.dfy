/**
  The exporter's accumulated state (the fields of VrmAnimationExporter) and
  the operations that fill it: registering the position and rotation
  sources, registering expression curves, and recording one frame.

  Transforms are identified by `Node`; a pose snapshot gives every
  transform's world position and rotation and its world-to-local mapping at
  the sampled time. Reading the live transforms after SampleAnimation is
  modelled as reading such a snapshot.
*/
module Tracks {
  import opened Wrappers
  import opened Bones
  import opened Geometry
  import opened ExpressionKeys

  /** A transform: the avatar root, the animator's own transform, or a bone's transform. */
  datatype Node = AvatarRoot | AnimatorTransform | BoneNode(bone: Bone)

  /** The scene's transforms at one sampled time. */
  datatype Pose = Pose(
    position: Node -> Vec3,
    rotation: Node -> Quat,
    worldToLocal: Node -> Vec3 -> Vec3)

  datatype Keyframe = Keyframe(time: real, value: real)

  /** PositionExporter: the bone whose position is sampled, relative to `root`. */
  datatype PositionTrack = PositionTrack(node: Node, root: Node, values: seq<Vec3>)

  /** RotationExporter: `node`'s rotation relative to `parent`, registered under `bone`. */
  datatype RotationTrack = RotationTrack(bone: Bone, node: Node, parent: Node, values: seq<Quat>)

  /** ExpressionCurve: a key and the keyframes of its weight curve. */
  datatype ExpressionCurve = ExpressionCurve(key: ExpressionKey, keys: seq<Keyframe>)

  /** The exceptions the exporter can raise (Dictionary.Add on a key already present). */
  datatype ExportError = DuplicateBone(bone: Bone) | DuplicateCustomExpression(name: string)

  /**
    m_times, m_position, m_rotations (a dictionary enumerated in insertion
    order, so a sequence here) and m_expressions.
  */
  datatype Exporter = Exporter(
    times: seq<real>,
    position: Option<PositionTrack>,
    rotations: seq<RotationTrack>,
    expressions: seq<ExpressionCurve>)

  const Fresh: Exporter := Exporter([], None, [], [])

  /** The bones registered for rotation, in registration order. */
  function RotationBones(rs: seq<RotationTrack>): (bones: seq<Bone>)
    ensures |bones| == |rs|
    ensures forall k :: 0 <= k < |rs| ==> bones[k] == rs[k].bone
  {
    seq(|rs|, k requires 0 <= k < |rs| => rs[k].bone)
  }

  /** Every value list holds exactly one entry per recorded time. */
  ghost predicate Aligned(e: Exporter) {
    && (e.position.Some? ==> |e.position.value.values| == |e.times|)
    && forall k :: 0 <= k < |e.rotations| ==> |e.rotations[k].values| == |e.times|
  }

  /**
    PositionExporter.Add: `node`'s world position in `root`'s local space,
    mirrored in X. Mirroring back gives the local point.
  */
  function PositionValue(pose: Pose, node: Node, root: Node): (v: Vec3)
    ensures MirrorX(v) == pose.worldToLocal(root)(pose.position(node))
    ensures v.y == pose.worldToLocal(root)(pose.position(node)).y
  {
    MirrorX(pose.worldToLocal(root)(pose.position(node)))
  }

  /**
    RotationExporter.Add: `node`'s rotation relative to `parent`, Y and Z
    negated. A node posed like its unit-length parent yields the identity.
  */
  function RotationValue(pose: Pose, node: Node, parent: Node): (q: Quat)
    ensures q == Mul(Inverse(FlipYZ(pose.rotation(parent))), FlipYZ(pose.rotation(node)))
    ensures IsUnit(pose.rotation(parent)) && pose.rotation(node) == pose.rotation(parent) ==> q == Identity
  {
    RotationSample(pose.rotation(parent), pose.rotation(node))
  }

  /** SetPositionBoneAndParent: replaces the position source with a new, empty one. */
  function SetPositionBoneAndParent(e: Exporter, bone: Node, parent: Node): (r: Exporter)
    ensures r.position == Some(PositionTrack(bone, parent, []))
    ensures r.times == e.times && r.rotations == e.rotations && r.expressions == e.expressions
  {
    e.(position := Some(PositionTrack(bone, parent, [])))
  }

  /**
    AddRotationBoneAndParent: registers a rotation source under `bone`;
    registering a bone a second time is an error.
  */
  function AddRotationBoneAndParent(e: Exporter, bone: Bone, node: Node, parent: Node): (r: Result<Exporter, ExportError>)
    ensures r.Failure? <==> bone in RotationBones(e.rotations)
    ensures r.Failure? ==> r.error == DuplicateBone(bone)
    ensures r.Success? ==> r.value.rotations == e.rotations + [RotationTrack(bone, node, parent, [])]
    ensures r.Success? ==> r.value.times == e.times && r.value.position == e.position && r.value.expressions == e.expressions
  {
    if bone in RotationBones(e.rotations) then Failure(DuplicateBone(bone))
    else Success(e.(rotations := e.rotations + [RotationTrack(bone, node, parent, [])]))
  }

  /** AddExpression: appends a curve to the expression list. */
  function AddExpression(e: Exporter, key: ExpressionKey, keys: seq<Keyframe>): (r: Exporter)
    ensures r.expressions == e.expressions + [ExpressionCurve(key, keys)]
    ensures r.times == e.times && r.position == e.position && r.rotations == e.rotations
  {
    e.(expressions := e.expressions + [ExpressionCurve(key, keys)])
  }

  /** One rotation source after recording `pose`. */
  function RecordRotation(t: RotationTrack, pose: Pose): RotationTrack {
    t.(values := t.values + [RotationValue(pose, t.node, t.parent)])
  }

  /**
    AddFrame: appends `time`, one position sample if a position source is
    set, and one sample to every rotation source. Earlier samples are kept,
    registrations are unchanged, and aligned lists stay aligned.
  */
  function AddFrame(e: Exporter, time: real, pose: Pose): (r: Exporter)
    ensures r.times == e.times + [time]
    ensures r.expressions == e.expressions
    ensures r.position.Some? <==> e.position.Some?
    ensures e.position.Some? ==>
      && r.position.value.node == e.position.value.node
      && r.position.value.root == e.position.value.root
      && r.position.value.values == e.position.value.values
           + [PositionValue(pose, e.position.value.node, e.position.value.root)]
    ensures |r.rotations| == |e.rotations|
    ensures forall k :: 0 <= k < |e.rotations| ==>
      && r.rotations[k].bone == e.rotations[k].bone
      && r.rotations[k].node == e.rotations[k].node
      && r.rotations[k].parent == e.rotations[k].parent
      && r.rotations[k].values == e.rotations[k].values
           + [RotationValue(pose, e.rotations[k].node, e.rotations[k].parent)]
    ensures Aligned(e) ==> Aligned(r)
  {
    var position := match e.position
      case None => None
      case Some(p) => Some(p.(values := p.values + [PositionValue(pose, p.node, p.root)]));
    var rotations := seq(|e.rotations|, k requires 0 <= k < |e.rotations| => RecordRotation(e.rotations[k], pose));
    Exporter(e.times + [time], position, rotations, e.expressions)
  }
}
