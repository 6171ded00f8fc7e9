/**
  AnimationClipToVrmaCore.Create: the callback that fills the exporter from
  an Animator and a clip, and the export that follows it.

  The callback first registers one resampled curve per blend-shape binding
  whose name resolves to an expression key. It then builds the bone map; if
  the hips are missing it stops there, and the export still runs with the
  expressions alone. Otherwise it sets the hips as the position source
  (relative to the root transform), registers one rotation source per mapped
  bone in enumeration order, each relative to its nearest mapped ancestor or
  the root, and records one frame per step of the 30 Hz grid.

  Sampling the clip at a time and reading the transforms is modelled by the
  clip's `pose` function.
*/
module ClipToVrma {
  import opened Wrappers
  import opened Bones
  import opened ExpressionKeys
  import opened Tracks
  import opened Assembly
  import opened Skeleton
  import opened Sampling
  import opened Ordinal
  import ExportLayout

  /** An animation clip: its length, its curve bindings, and the pose it puts the model in at each time. */
  datatype Clip = Clip(length: real, bindings: seq<Binding>, pose: real -> Pose)

  /**
    The frame loop over the first `n` frames: frame `i` samples the clip at
    its clamped time and records `i / 30` rounded to the millisecond. Each frame appends one time and
    one sample per source; registrations and expressions are untouched, and
    aligned lists stay aligned.
  */
  function AddFrames(e: Exporter, clip: Clip, n: nat): (r: Exporter)
    ensures r.times == e.times + RecordedTimes(n)
    ensures r.expressions == e.expressions
    ensures r.position.Some? <==> e.position.Some?
    ensures r.position.Some? ==> r.position.value.node == e.position.value.node && r.position.value.root == e.position.value.root
    ensures RotationBones(r.rotations) == RotationBones(e.rotations)
    ensures forall k :: 0 <= k < |e.rotations| ==>
      r.rotations[k].node == e.rotations[k].node && r.rotations[k].parent == e.rotations[k].parent
    ensures Aligned(e) ==> Aligned(r)
    decreases n
  {
    if n == 0 then
      assert e.times + RecordedTimes(0) == e.times;
      e
    else
      var prev := AddFrames(e, clip, n - 1);
      var r := AddFrame(prev, RecordedTime(n - 1), clip.pose(SampleTime(n - 1, clip.length)));
      RecordedTimesSnoc(e.times, n);
      AddFrameKeepsBones(prev, RecordedTime(n - 1), clip.pose(SampleTime(n - 1, clip.length)));
      r
  }

  /**
    Frame `i` of the loop holds, for every rotation source, the relative
    rotation in the pose sampled at frame `i`'s clamped time, and likewise
    for the position source.
  */
  lemma {:induction false} AddFramesSample(e: Exporter, clip: Clip, n: nat, i: nat, k: nat)
    requires Aligned(e) && i < n
    ensures var r, pose := AddFrames(e, clip, n), clip.pose(SampleTime(i, clip.length));
      && (k < |e.rotations| ==>
            r.rotations[k].values[|e.times| + i] == RotationValue(pose, e.rotations[k].node, e.rotations[k].parent))
      && (e.position.Some? ==>
            r.position.value.values[|e.times| + i] == PositionValue(pose, e.position.value.node, e.position.value.root))
    decreases n
  {
    var prev := AddFrames(e, clip, n - 1);
    var time, pose := RecordedTime(n - 1), clip.pose(SampleTime(n - 1, clip.length));
    assert AddFrames(e, clip, n) == AddFrame(prev, time, pose);
    if i < n - 1 {
      AddFramesSample(e, clip, n - 1, i, k);
      AddFrameKeeps(prev, time, pose, k, |e.times| + i);
    }
  }

  lemma RecordedTimesSnoc(times: seq<real>, n: nat)
    requires n > 0
    ensures times + RecordedTimes(n) == (times + RecordedTimes(n - 1)) + [RecordedTime(n - 1)]
  {
  }

  /** A frame keeps the registered bones. */
  lemma AddFrameKeepsBones(e: Exporter, time: real, pose: Pose)
    ensures RotationBones(AddFrame(e, time, pose).rotations) == RotationBones(e.rotations)
  {
  }

  /** A frame keeps every sample recorded before it. */
  lemma AddFrameKeeps(e: Exporter, time: real, pose: Pose, k: nat, idx: nat)
    ensures var r := AddFrame(e, time, pose);
      && (k < |e.rotations| && idx < |e.rotations[k].values| ==> r.rotations[k].values[idx] == e.rotations[k].values[idx])
      && (e.position.Some? && idx < |e.position.value.values| ==> r.position.value.values[idx] == e.position.value.values[idx])
  {
  }

  /** The exporter callback passed to VrmAnimationExporter.Export. */
  function Callback(e: Exporter, h: Humanoid, clip: Clip, expressionMap: Option<map<string, ExpressionKey>>): Result<Exporter, ExportError> {
    var e1 := RegisterExpressions(e, clip.bindings, expressionMap, clip.length);
    if Hips !in h.present then Success(e1)
    else
      var e2 := SetPositionBoneAndParent(e1, BoneNode(Hips), RootTransform(h));
      var e3 :- RegisterRotations(e2, h, BoneMap(h));
      Success(AddFrames(e3, clip, FrameTotal(clip.length)))
  }

  /** The registered expressions: the curves of the clip's contributing bindings, in binding order. */
  function ClipCurves(clip: Clip, expressionMap: Option<map<string, ExpressionKey>>): seq<ExpressionCurve> {
    Curves(clip.bindings, expressionMap, clip.length)
  }

  /**
    Without a hips bone the callback registers the expressions and nothing
    else: no frames, no position source, no rotation sources.
  */
  lemma CallbackWithoutHips(h: Humanoid, clip: Clip, expressionMap: Option<map<string, ExpressionKey>>)
    requires Hips !in h.present
    ensures Callback(Fresh, h, clip, expressionMap) == Success(Exporter([], None, [], ClipCurves(clip, expressionMap)))
  {
    RegisterExpressionsAppends(Fresh, clip.bindings, expressionMap, clip.length);
    assert Fresh.expressions + ClipCurves(clip, expressionMap) == ClipCurves(clip, expressionMap);
  }

  /**
    The exporter just before the frame loop, when the hips are present: no
    frames, the hips as position source against the root, one rotation
    source per mapped bone, and the clip's expression curves.
  */
  function BeforeFrames(h: Humanoid, clip: Clip, expressionMap: Option<map<string, ExpressionKey>>): Exporter {
    Exporter([], Some(PositionTrack(BoneNode(Hips), RootTransform(h), [])),
             RotationTracks(h, BoneMap(h)), ClipCurves(clip, expressionMap))
  }

  /**
    With the hips present the callback's registrations cannot fail (the bone
    map has no duplicates) and reach `BeforeFrames`; the frame loop then
    runs over the whole grid.
  */
  lemma {:induction false} CallbackUnfold(h: Humanoid, clip: Clip, expressionMap: Option<map<string, ExpressionKey>>)
    requires Hips in h.present
    ensures Callback(Fresh, h, clip, expressionMap)
         == Success(AddFrames(BeforeFrames(h, clip, expressionMap), clip, FrameTotal(clip.length)))
  {
    RegisterExpressionsAppends(Fresh, clip.bindings, expressionMap, clip.length);
    assert Fresh.expressions + ClipCurves(clip, expressionMap) == ClipCurves(clip, expressionMap);
    var e2 := SetPositionBoneAndParent(RegisterExpressions(Fresh, clip.bindings, expressionMap, clip.length),
                                       BoneNode(Hips), RootTransform(h));
    assert e2.rotations == [];
    RegisterRotationsSucceeds(e2, h, BoneMap(h));
    RegisterRotationsAppends(e2, h, BoneMap(h));
    assert [] + RotationTracks(h, BoneMap(h)) == RotationTracks(h, BoneMap(h));
    assert RegisterRotations(e2, h, BoneMap(h)) == Success(BeforeFrames(h, clip, expressionMap));
  }

  /**
    With the hips present the callback never fails, records one time per
    frame of the grid, samples the hips' position against the root, and
    holds one rotation source per mapped bone, in enumeration order, on the
    bone's transform and relative to its effective parent; every list holds
    one sample per frame.
  */
  lemma CallbackWithHips(h: Humanoid, clip: Clip, expressionMap: Option<map<string, ExpressionKey>>)
    requires Hips in h.present
    ensures var r := Callback(Fresh, h, clip, expressionMap);
      && r.Success?
      && r.value.times == RecordedTimes(FrameTotal(clip.length))
      && r.value.position.Some?
      && r.value.position.value.node == BoneNode(Hips)
      && r.value.position.value.root == RootTransform(h)
      && RotationBones(r.value.rotations) == BoneMap(h)
      && (forall k :: 0 <= k < |r.value.rotations| ==>
            r.value.rotations[k].node == BoneNode(r.value.rotations[k].bone)
            && r.value.rotations[k].parent == EffectiveParent(h, r.value.rotations[k].bone))
      && Aligned(r.value)
      && r.value.expressions == ClipCurves(clip, expressionMap)
  {
    CallbackUnfold(h, clip, expressionMap);
    FramesAfterSetup(h, clip, expressionMap);
  }

  /** The frame loop run on `BeforeFrames`, as `CallbackWithHips` describes it. */
  lemma FramesAfterSetup(h: Humanoid, clip: Clip, expressionMap: Option<map<string, ExpressionKey>>)
    ensures var e := AddFrames(BeforeFrames(h, clip, expressionMap), clip, FrameTotal(clip.length));
      && e.times == RecordedTimes(FrameTotal(clip.length))
      && e.position.Some?
      && e.position.value.node == BoneNode(Hips)
      && e.position.value.root == RootTransform(h)
      && RotationBones(e.rotations) == BoneMap(h)
      && (forall k :: 0 <= k < |e.rotations| ==>
            e.rotations[k].node == BoneNode(e.rotations[k].bone)
            && e.rotations[k].parent == EffectiveParent(h, e.rotations[k].bone))
      && Aligned(e)
      && e.expressions == ClipCurves(clip, expressionMap)
  {
    var e3 := BeforeFrames(h, clip, expressionMap);
    assert Aligned(e3);
    assert RotationBones(e3.rotations) == BoneMap(h);
    assert [] + RecordedTimes(FrameTotal(clip.length)) == RecordedTimes(FrameTotal(clip.length));
    var e := AddFrames(e3, clip, FrameTotal(clip.length));
    forall k | 0 <= k < |e.rotations|
      ensures e.rotations[k].bone == e3.rotations[k].bone
    {
      assert RotationBones(e.rotations)[k] == RotationBones(e3.rotations)[k];
    }
  }

  /**
    Every registered expression curve has one key per recorded frame, and
    its key times are the frame grid: the recorded humanoid time of frame
    `i` is expression key `i`'s time rounded to the millisecond, not that
    time itself (`RecordedTimeOffGrid`).
  */
  lemma ExpressionsShareTimeAxis(h: Humanoid, clip: Clip, expressionMap: Option<map<string, ExpressionKey>>, j: nat)
    requires Hips in h.present
    ensures var r := Callback(Fresh, h, clip, expressionMap);
      && r.Success?
      && (j < |r.value.expressions| ==>
            var times := KeyTimes(r.value.expressions[j].keys);
            && |times| == |r.value.times|
            && forall i :: 0 <= i < |times| ==> times[i] == FrameTime(i) && MillisecondTime(times[i]) == r.value.times[i])
  {
    CallbackWithHips(h, clip, expressionMap);
    if j < |ClipCurves(clip, expressionMap)| {
      CurvesOnFrameGrid(clip.bindings, expressionMap, clip.length, j);
    }
  }

  /**
    Frame `i` of `e` holds the hips' position in the root's space and, for
    rotation source `k` if there is one, the bone's rotation relative to its
    effective parent, both read from `pose`.
  */
  ghost predicate FrameFromPose(e: Exporter, h: Humanoid, pose: Pose, i: nat, k: nat) {
    && e.position.Some?
    && i < |e.position.value.values|
    && e.position.value.values[i] == PositionValue(pose, BoneNode(Hips), RootTransform(h))
    && (k < |e.rotations| ==>
          && i < |e.rotations[k].values|
          && e.rotations[k].values[i] == RotationValue(pose, BoneNode(e.rotations[k].bone), EffectiveParent(h, e.rotations[k].bone)))
  }

  /**
    Frame `i` is recorded at `RecordedTime(i)`, and its samples come from
    the pose at the grid time `i / 30`: the clamp to the clip length never
    changes a frame's sampling time.
  */
  lemma FrameSample(h: Humanoid, clip: Clip, expressionMap: Option<map<string, ExpressionKey>>, i: nat, k: nat)
    requires Hips in h.present
    requires i < FrameTotal(clip.length)
    ensures var r := Callback(Fresh, h, clip, expressionMap);
      && r.Success?
      && i < |r.value.times| && r.value.times[i] == RecordedTime(i)
      && FrameFromPose(r.value, h, clip.pose(FrameTime(i)), i, k)
  {
    CallbackUnfold(h, clip, expressionMap);
    FramesAfterSetup(h, clip, expressionMap);
    FramesOfBeforeFrames(h, clip, expressionMap, i, k);
  }

  /** The frame loop run from `BeforeFrames`, frame by frame. */
  lemma FramesOfBeforeFrames(h: Humanoid, clip: Clip, expressionMap: Option<map<string, ExpressionKey>>, i: nat, k: nat)
    requires i < FrameTotal(clip.length)
    ensures FrameFromPose(AddFrames(BeforeFrames(h, clip, expressionMap), clip, FrameTotal(clip.length)), h, clip.pose(FrameTime(i)), i, k)
  {
    var n := FrameTotal(clip.length);
    var pose := clip.pose(FrameTime(i));
    assert SampleTime(i, clip.length) == FrameTime(i) by {
      FrameGrid(clip.length, i, i);
    }
    var e3 := BeforeFrames(h, clip, expressionMap);
    assert Aligned(e3);
    var e := AddFrames(e3, clip, n);
    AddFramesSample(e3, clip, n, i, k);
    assert e.position.value.values[i] == PositionValue(pose, BoneNode(Hips), RootTransform(h));
    if k < |e.rotations| {
      var b := BoneMap(h)[k];
      assert e3.rotations[k] == RotationTrack(b, BoneNode(b), EffectiveParent(h, b), []);
      assert e.rotations[k].bone == b by {
        assert RotationBones(e.rotations)[k] == RotationBones(e3.rotations)[k];
      }
      assert e.rotations[k].values[i] == RotationValue(pose, BoneNode(b), EffectiveParent(h, b));
    }
  }

  /**
    AnimationClipToVrmaCore.Create: the callback on a fresh exporter, then
    the export. The document's bytes (ToGlbBytes) are not modelled.
  */
  function Create(h: Humanoid, clip: Clip, expressionMap: Option<map<string, ExpressionKey>>, scene: Scene, nameOf: Node -> string): Result<Document, ExportError> {
    var e :- Callback(Fresh, h, clip, expressionMap);
    Export(e, scene, nameOf)
  }

  /**
    In the model, Create fails exactly when two contributing bindings resolve
    to the same custom key. A blend shape that `Enum.TryParse` reads as the
    `custom` member is modelled as a custom key of its own name, so the
    failure the source may meet there is not part of this statement.
  */
  lemma CreateFailure(h: Humanoid, clip: Clip, expressionMap: Option<map<string, ExpressionKey>>, scene: Scene, nameOf: Node -> string)
    ensures var cs := ClipCurves(clip, expressionMap);
      Create(h, clip, expressionMap, scene, nameOf).Failure? <==> HasDuplicateCustom(cs, |cs|)
  {
    if Hips in h.present {
      CallbackWithHips(h, clip, expressionMap);
    } else {
      CallbackWithoutHips(h, clip, expressionMap);
    }
    ExportLayout.ExportFailure(Callback(Fresh, h, clip, expressionMap).value, scene, nameOf);
  }

  /**
    Without a hips bone the exported animation has only expression
    channels, and the humanoid map is empty.
  */
  lemma CreateWithoutHips(h: Humanoid, clip: Clip, expressionMap: Option<map<string, ExpressionKey>>, scene: Scene, nameOf: Node -> string)
    requires Hips !in h.present
    requires Create(h, clip, expressionMap, scene, nameOf).Success?
    ensures var d := Create(h, clip, expressionMap, scene, nameOf).value;
      && |d.animation.channels| == |ClipCurves(clip, expressionMap)|
      && d.humanoid == map[]
  {
    CallbackWithoutHips(h, clip, expressionMap);
    var e := Exporter([], None, [], ClipCurves(clip, expressionMap));
    ExportLayout.ExportTimes(e, scene, nameOf, SortBy(e.expressions, CurveName));
  }
}
