/**
  The clip side of the conversion: the frame grid at 30 frames per second,
  the blend-shape bindings a clip carries, how a binding's name becomes an
  expression key, and how its curve is resampled on the frame grid with
  weights scaled from 0..100 to 0..1.

  Times and values are reals; a clip curve is a function from time to value
  (AnimationCurve.Evaluate).
*/
module Sampling {
  import opened Wrappers
  import opened ExpressionKeys
  import opened Tracks

  /** Frames per second of the resampled animation. */
  const Frequency: real := 30.0

  /** Mathf.FloorToInt(length * 30): the last frame's number; negative for a negative length. */
  function FrameCount(length: real): int {
    (length * Frequency).Floor
  }

  /** How many frames the loops `for i in 0..=frameCount` visit. */
  function FrameTotal(length: real): nat {
    if FrameCount(length) < 0 then 0 else FrameCount(length) + 1
  }

  /** Frame `i`'s time on the grid, i / 30: the time it is sampled at and its expression keys' time. */
  function FrameTime(i: nat): real {
    i as real / Frequency
  }

  /**
    TimeSpan.FromSeconds(t).TotalSeconds as the Mono class library computes
    it: the seconds are rounded to the nearest whole millisecond, halves
    upwards for a non-negative `t`.
  */
  function MillisecondTime(t: real): real {
    (t * 1000.0 + 0.5).Floor as real / 1000.0
  }

  /** Frame `i`'s time as AddFrame records it: i / 30 passed through TimeSpan.FromSeconds. */
  function RecordedTime(i: nat): real {
    MillisecondTime(FrameTime(i))
  }

  /** The recorded times of the first `n` frames. */
  function RecordedTimes(n: nat): (ts: seq<real>)
    ensures |ts| == n
    ensures forall i :: 0 <= i < n ==> ts[i] == RecordedTime(i)
  {
    seq(n, i requires 0 <= i < n => RecordedTime(i))
  }

  /**
    A recorded time is a whole number of milliseconds within half a
    millisecond of the grid time.
  */
  lemma RecordedTimeNear(i: nat)
    ensures FrameTime(i) - 1.0 / 2000.0 < RecordedTime(i) <= FrameTime(i) + 1.0 / 2000.0
    ensures (RecordedTime(i) * 1000.0).Floor as real == RecordedTime(i) * 1000.0
  {
  }

  /**
    The rounding is visible: frame 1 is recorded as 0.033 s rather than
    1/30 s, and for a clip 2/30 s long the last frame it visits is recorded
    as 0.067 s, after the clip's end.
  */
  lemma RecordedTimeOffGrid()
    ensures RecordedTime(1) == 33.0 / 1000.0 && RecordedTime(1) != FrameTime(1)
    ensures var length := 2.0 / 30.0;
      && FrameTotal(length) == 3
      && RecordedTime(2) == 67.0 / 1000.0 && RecordedTime(2) > length
  {
  }

  /** Mathf.Min(i / 30, length): the time the clip is evaluated at for frame `i`. */
  function SampleTime(i: nat, length: real): real {
    if FrameTime(i) < length then FrameTime(i) else length
  }

  /**
    The frame grid is strictly increasing, every frame the loops visit lies
    inside the clip, so the clamp to the clip length never changes the
    time, and the last frame falls less than one frame before the clip's
    end.
  */
  lemma FrameGrid(length: real, i: nat, j: nat)
    ensures i < j ==> FrameTime(i) < FrameTime(j)
    ensures i < FrameTotal(length) ==> 0.0 <= FrameTime(i) <= length && SampleTime(i, length) == FrameTime(i)
    ensures length >= 0.0 ==>
      FrameTotal(length) > 0 && length - 1.0 / Frequency < FrameTime(FrameTotal(length) - 1) <= length
  {
    if i < FrameTotal(length) {
      assert i as real <= length * Frequency;
    }
  }

  /** A curve binding of the clip: whether it animates a SkinnedMeshRenderer, its property, its curve. */
  datatype Binding = Binding(onSkinnedMesh: bool, property: string, curve: real -> real)

  const BlendShapePrefix: string := "blendShape."

  /** The binding animates a blend shape weight of a skinned mesh. */
  predicate IsBlendShape(b: Binding) {
    && b.onSkinnedMesh
    && |BlendShapePrefix| <= |b.property|
    && b.property[..|BlendShapePrefix|] == BlendShapePrefix
  }

  /** The blend shape's name: the property with the prefix removed; putting it back gives the property. */
  function BlendShapeName(b: Binding): (name: string)
    requires IsBlendShape(b)
    ensures BlendShapePrefix + name == b.property
    ensures |name| == |b.property| - |BlendShapePrefix|
  {
    b.property[|BlendShapePrefix|..]
  }

  /**
    The expression key for a blend shape name. With a map, exactly the
    mapped names resolve, to their mapped keys. Without one, a name equal to
    a preset's name up to ASCII case resolves to that preset, and any other
    name to a custom key of that very name.
  */
  function ResolveKey(name: string, expressionMap: Option<map<string, ExpressionKey>>): (r: Option<ExpressionKey>)
    ensures expressionMap.Some? ==> (r.Some? <==> name in expressionMap.value)
    ensures expressionMap.Some? && r.Some? ==> r.value == expressionMap.value[name]
    ensures expressionMap.None? ==> r.Some?
    ensures expressionMap.None? ==> forall p :: r == Some(PresetKey(p)) <==> SameIgnoringCase(name, PresetName(p))
    ensures expressionMap.None? && r.Some? && r.value.CustomKey? ==> r.value.customName == name
  {
    match expressionMap
    case Some(m) => if name in m then Some(m[name]) else None
    case None =>
      match ParsePreset(name)
      case Some(p) => Some(PresetKey(p))
      case None => Some(CustomKey(name))
  }

  /**
    Without a map, the resolved key's name is the blend shape name up to
    ASCII case, and a preset's own name resolves to that preset.
  */
  lemma ResolveWithoutMap(name: string, p: Preset)
    ensures var r := ResolveKey(name, None);
      r.Some? && SameIgnoringCase(Name(r.value), name)
    ensures ResolveKey(PresetName(p), None) == Some(PresetKey(p))
  {
    var r := ResolveKey(name, None);
    assert SameIgnoringCase(PresetName(p), PresetName(p));
  }

  /**
    The resampled curve: one keyframe per frame, at the frame's time,
    holding the curve's value at the (clamped) sample time divided by 100.
  */
  function Resample(curve: real -> real, length: real): (keys: seq<Keyframe>)
    ensures |keys| == FrameTotal(length)
    ensures KeysAtFrames(keys)
    ensures forall i :: 0 <= i < |keys| ==> keys[i].value * 100.0 == curve(SampleTime(i, length))
  {
    var n := FrameTotal(length);
    seq(n, i requires 0 <= i < n => Keyframe(FrameTime(i), curve(SampleTime(i, length)) / 100.0))
  }

  /** Keyframe `i` sits at frame `i`'s time. */
  ghost predicate KeysAtFrames(keys: seq<Keyframe>) {
    forall i :: 0 <= i < |keys| ==> keys[i].time == FrameTime(i)
  }

  /** A weight curve within 0..100 resamples into 0..1. */
  lemma ResampleNormalises(curve: real -> real, length: real)
    requires forall t :: 0.0 <= curve(t) <= 100.0
    ensures forall i :: 0 <= i < FrameTotal(length) ==> 0.0 <= Resample(curve, length)[i].value <= 1.0
  {
  }

  /** The expression curve a binding contributes, if it is a blend shape whose name resolves. */
  function CurveOf(b: Binding, expressionMap: Option<map<string, ExpressionKey>>, length: real): (c: Option<ExpressionCurve>)
    ensures c.Some? <==> IsBlendShape(b) && ResolveKey(BlendShapeName(b), expressionMap).Some?
    ensures c.Some? ==>
      c.value.key == ResolveKey(BlendShapeName(b), expressionMap).value && c.value.keys == Resample(b.curve, length)
  {
    if !IsBlendShape(b) then None
    else
      match ResolveKey(BlendShapeName(b), expressionMap)
      case None => None
      case Some(key) => Some(ExpressionCurve(key, Resample(b.curve, length)))
  }

  /** The curve a binding contributes, as a sequence of zero or one curves. */
  function Emitted(c: Option<ExpressionCurve>): seq<ExpressionCurve> {
    if c.Some? then [c.value] else []
  }

  /** The curves of the bindings that contribute one, in binding order. */
  function Curves(bs: seq<Binding>, expressionMap: Option<map<string, ExpressionKey>>, length: real): (cs: seq<ExpressionCurve>)
    ensures |cs| <= |bs|
    decreases |bs|
  {
    if bs == [] then []
    else Emitted(CurveOf(bs[0], expressionMap, length)) + Curves(bs[1..], expressionMap, length)
  }

  /** A curve is registered exactly when some binding contributes it. */
  lemma {:induction false} CurvesMembership(bs: seq<Binding>, expressionMap: Option<map<string, ExpressionKey>>, length: real, c: ExpressionCurve)
    ensures c in Curves(bs, expressionMap, length) <==> exists k :: 0 <= k < |bs| && CurveOf(bs[k], expressionMap, length) == Some(c)
    decreases |bs|
  {
    if bs != [] {
      CurvesMembership(bs[1..], expressionMap, length, c);
      if exists k :: 0 <= k < |bs| && CurveOf(bs[k], expressionMap, length) == Some(c) {
        var k :| 0 <= k < |bs| && CurveOf(bs[k], expressionMap, length) == Some(c);
        if k > 0 {
          assert bs[1..][k - 1] == bs[k];
        }
      }
      if exists k :: 0 <= k < |bs| - 1 && CurveOf(bs[1..][k], expressionMap, length) == Some(c) {
        var k :| 0 <= k < |bs| - 1 && CurveOf(bs[1..][k], expressionMap, length) == Some(c);
        assert bs[k + 1] == bs[1..][k];
      }
    }
  }

  /** One iteration of the binding loop: AddExpression when the binding contributes a curve. */
  function Contribute(e: Exporter, c: Option<ExpressionCurve>): Exporter {
    match c
    case None => e
    case Some(c) => AddExpression(e, c.key, c.keys)
  }

  /** An iteration appends what the binding contributes and nothing else. */
  lemma ContributeAppends(e: Exporter, c: Option<ExpressionCurve>)
    ensures Contribute(e, c) == e.(expressions := e.expressions + Emitted(c))
  {
    if c.None? {
      assert e.expressions + [] == e.expressions;
    }
  }

  /**
    The binding loop: every contributing binding, in order, is registered
    with AddExpression.
  */
  function RegisterExpressions(e: Exporter, bs: seq<Binding>, expressionMap: Option<map<string, ExpressionKey>>, length: real): Exporter
    decreases |bs|
  {
    if bs == [] then e
    else RegisterExpressions(Contribute(e, CurveOf(bs[0], expressionMap, length)), bs[1..], expressionMap, length)
  }

  lemma AppendAssociates<T>(a: seq<T>, b: seq<T>, c: seq<T>)
    ensures (a + b) + c == a + (b + c)
  {
  }

  /**
    Registering binding by binding appends exactly the contributing curves,
    in binding order, and leaves times, position and rotations alone.
  */
  lemma {:induction false} RegisterExpressionsAppends(e: Exporter, bs: seq<Binding>, expressionMap: Option<map<string, ExpressionKey>>, length: real)
    ensures RegisterExpressions(e, bs, expressionMap, length)
         == e.(expressions := e.expressions + Curves(bs, expressionMap, length))
    decreases |bs|
  {
    if bs == [] {
      assert e.expressions + [] == e.expressions;
    } else {
      var c := CurveOf(bs[0], expressionMap, length);
      var rest := Curves(bs[1..], expressionMap, length);
      var e1 := Contribute(e, c);
      ContributeAppends(e, c);
      assert RegisterExpressions(e, bs, expressionMap, length) == RegisterExpressions(e1, bs[1..], expressionMap, length);
      assert Curves(bs, expressionMap, length) == Emitted(c) + rest;
      RegisterExpressionsAppends(e1, bs[1..], expressionMap, length);
      calc {
        e1.expressions + rest;
        (e.expressions + Emitted(c)) + rest;
        { AppendAssociates(e.expressions, Emitted(c), rest); }
        e.expressions + (Emitted(c) + rest);
      }
    }
  }

  /** Every registered curve is sampled on the frame grid of the clip. */
  lemma CurvesOnFrameGrid(bs: seq<Binding>, expressionMap: Option<map<string, ExpressionKey>>, length: real, j: nat)
    requires j < |Curves(bs, expressionMap, length)|
    ensures var c := Curves(bs, expressionMap, length)[j];
      |c.keys| == FrameTotal(length) && KeysAtFrames(c.keys)
  {
    var cs := Curves(bs, expressionMap, length);
    CurvesMembership(bs, expressionMap, length, cs[j]);
  }
}
