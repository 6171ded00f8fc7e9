/**
  What an export produces, block by block. The accessors follow the scene's
  own: first the shared time axis, then the position values (if a position
  source is set), then one block per rotation source in registration order,
  then two per expression (its key times and its weights). Sampler `k`
  drives channel `k`; position and rotation samplers read the shared time
  axis; every expression channel targets its own placeholder node.
*/
module ExportLayout {
  import opened Wrappers
  import opened Bones
  import opened Geometry
  import opened ExpressionKeys
  import opened Ordinal
  import opened Tracks
  import opened Assembly

  /** A successful export is built from the wiring, the placeholder names and the partition. */
  lemma AssembleParts(e: Exporter, scene: Scene, nameOf: Node -> string, order: seq<ExpressionCurve>)
    requires AssembleSorted(e, scene, nameOf, order).Success?
    ensures Partition(order, |scene.nodes|).Success?
    ensures var d, w := AssembleSorted(e, scene, nameOf, order).value, Wire(e, scene, nameOf, order);
      && d.nodes == scene.nodes + PlaceholderNames(order)
      && d.accessors == w.accessors
      && d.animation.samplers == w.samplers
      && d.animation.channels == w.channels
      && d.expressions == Partition(order, |scene.nodes|).value
  {
  }

  /** A successful export's node names and expression block. */
  lemma AssembleSlots(e: Exporter, scene: Scene, nameOf: Node -> string, order: seq<ExpressionCurve>)
    requires AssembleSorted(e, scene, nameOf, order).Success?
    ensures Partition(order, |scene.nodes|).Success?
    ensures var d := AssembleSorted(e, scene, nameOf, order).value;
      d.nodes == scene.nodes + PlaceholderNames(order) && d.expressions == Partition(order, |scene.nodes|).value
  {
  }

  /** The stages extend each other: every later wiring keeps the earlier accessors, samplers and channels. */
  lemma StagesExtend(e: Exporter, scene: Scene, nameOf: Node -> string, order: seq<ExpressionCurve>)
    ensures var w0, w1, w2, w := TimesStage(e, scene), PositionStage(e, scene, nameOf),
                                  RotationStage(e, scene, nameOf), Wire(e, scene, nameOf, order);
      && |w0.accessors| <= |w1.accessors| <= |w2.accessors| <= |w.accessors|
      && |w1.samplers| <= |w2.samplers| <= |w.samplers|
      && w.accessors[..|w0.accessors|] == w0.accessors
      && w.accessors[..|w1.accessors|] == w1.accessors
      && w.accessors[..|w2.accessors|] == w2.accessors
      && w.samplers[..|w1.samplers|] == w1.samplers
      && w.samplers[..|w2.samplers|] == w2.samplers
      && w.channels[..|w1.channels|] == w1.channels
      && w.channels[..|w2.channels|] == w2.channels
  {
    var w0, w1, w2, w := TimesStage(e, scene), PositionStage(e, scene, nameOf),
                         RotationStage(e, scene, nameOf), Wire(e, scene, nameOf, order);
    var input, target := |scene.accessors|, TargetOf(scene, nameOf);
    assert w1 == WirePosition(w0, input, e.position, target);
    assert w1.accessors[..|w0.accessors|] == w0.accessors;
    WireRotationsLayout(w1, input, e.rotations, target);
    WireExpressionsAccessors(w2, order, |scene.nodes|);
    WireExpressionsChannels(w2, order, |scene.nodes|);
    PrefixOfPrefix(w2.accessors, w1.accessors, w0.accessors);
    PrefixOfPrefix(w.accessors, w2.accessors, w1.accessors);
    PrefixOfPrefix(w.accessors, w1.accessors, w0.accessors);
    PrefixOfPrefix(w.samplers, w2.samplers, w1.samplers);
    PrefixOfPrefix(w.channels, w2.channels, w1.channels);
  }

  /** The expression stage keeps everything the rotation stage built. */
  lemma ExpressionStageKeeps(e: Exporter, scene: Scene, nameOf: Node -> string, order: seq<ExpressionCurve>)
    ensures var w2, w := RotationStage(e, scene, nameOf), Wire(e, scene, nameOf, order);
      && |w2.accessors| <= |w.accessors| && |w2.samplers| <= |w.samplers| && |w2.channels| <= |w.channels|
      && w.accessors[..|w2.accessors|] == w2.accessors
      && w.samplers[..|w2.samplers|] == w2.samplers
      && w.channels[..|w2.channels|] == w2.channels
  {
    var w2 := RotationStage(e, scene, nameOf);
    WireExpressionsAccessors(w2, order, |scene.nodes|);
    WireExpressionsChannels(w2, order, |scene.nodes|);
  }

  /**
    The scene's accessors are kept, the shared time axis follows them, and
    there is one sampler and one channel per position source, rotation
    source and expression, channel `k` using sampler `k`.
  */
  lemma ExportTimes(e: Exporter, scene: Scene, nameOf: Node -> string, order: seq<ExpressionCurve>)
    requires AssembleSorted(e, scene, nameOf, order).Success?
    ensures var d, a := AssembleSorted(e, scene, nameOf, order).value, |scene.accessors|;
      && |d.accessors| == a + 1 + PositionCount(e) + |e.rotations| + 2 * |order|
      && d.accessors[..a] == scene.accessors
      && d.accessors[a] == Scalars(e.times)
      && |d.animation.samplers| == |d.animation.channels| == PositionCount(e) + |e.rotations| + |order|
      && forall k :: 0 <= k < |d.animation.channels| ==> d.animation.channels[k].sampler == k
  {
    AssembleParts(e, scene, nameOf, order);
    TimesBlock(e, scene, nameOf, order);
  }

  /** The scene's accessors and the shared time axis at the head of the wiring. */
  lemma TimesBlock(e: Exporter, scene: Scene, nameOf: Node -> string, order: seq<ExpressionCurve>)
    ensures var w, a := Wire(e, scene, nameOf, order), |scene.accessors|;
      && w.accessors[..a] == scene.accessors
      && w.accessors[a] == Scalars(e.times)
  {
    var w, a := Wire(e, scene, nameOf, order), |scene.accessors|;
    StagesExtend(e, scene, nameOf, order);
    assert w.accessors[..a + 1] == TimesStage(e, scene).accessors;
    assert w.accessors[..a] == w.accessors[..a + 1][..a];
  }

  /**
    With a position source, the accessor after the time axis holds its
    values, and the first channel moves its transform's node (a translation)
    along the shared time axis.
  */
  lemma ExportPosition(e: Exporter, scene: Scene, nameOf: Node -> string, order: seq<ExpressionCurve>)
    requires !HasDuplicateCustom(order, |order|)
    requires e.position.Some?
    ensures var d, a := AssembleSorted(e, scene, nameOf, order).value, |scene.accessors|;
      && d.accessors[a + 1] == Vectors(e.position.value.values)
      && d.animation.samplers[0] == Sampler(a, a + 1)
      && d.animation.channels[0] == Channel(0, Target(scene, nameOf, e.position.value.node), Translation)
  {
    var d, a := AssembleSorted(e, scene, nameOf, order).value, |scene.accessors|;
    var w1 := PositionStage(e, scene, nameOf);
    AssembleParts(e, scene, nameOf, order);
    StagesExtend(e, scene, nameOf, order);
    assert w1.accessors[a + 1] == d.accessors[..|w1.accessors|][a + 1];
    assert w1.samplers[0] == d.animation.samplers[..|w1.samplers|][0];
    assert w1.channels[0] == d.animation.channels[..|w1.channels|][0];
  }

  /**
    Rotation source `j` (in registration order) owns accessor
    `a + 1 + p + j`, where `a` counts the scene's accessors and `p` the
    position block; its sampler reads the shared time axis, and its channel
    rotates the source's node.
  */
  lemma ExportRotation(e: Exporter, scene: Scene, nameOf: Node -> string, order: seq<ExpressionCurve>, j: nat)
    requires AssembleSorted(e, scene, nameOf, order).Success?
    requires j < |e.rotations|
    ensures var d, a, p := AssembleSorted(e, scene, nameOf, order).value, |scene.accessors|, PositionCount(e);
      && d.accessors[a + 1 + p + j] == Rotations(e.rotations[j].values)
      && d.animation.samplers[p + j] == Sampler(a, a + 1 + p + j)
      && d.animation.channels[p + j] == Channel(p + j, Target(scene, nameOf, e.rotations[j].node), Rotation)
  {
    AssembleParts(e, scene, nameOf, order);
    RotationBlock(e, scene, nameOf, order, j);
  }

  /** Rotation source `j`'s accessor, sampler and channel in the wiring. */
  lemma RotationBlock(e: Exporter, scene: Scene, nameOf: Node -> string, order: seq<ExpressionCurve>, j: nat)
    requires j < |e.rotations|
    ensures var w, a, p := Wire(e, scene, nameOf, order), |scene.accessors|, PositionCount(e);
      && w.accessors[a + 1 + p + j] == Rotations(e.rotations[j].values)
      && w.samplers[p + j] == Sampler(a, a + 1 + p + j)
      && w.channels[p + j] == Channel(p + j, Target(scene, nameOf, e.rotations[j].node), Rotation)
  {
    var w, w2 := Wire(e, scene, nameOf, order), RotationStage(e, scene, nameOf);
    var a, p := |scene.accessors|, PositionCount(e);
    RotationStageBlock(e, scene, nameOf, j);
    ExpressionStageKeeps(e, scene, nameOf, order);
    PrefixIndex(w.accessors, w2.accessors, a + 1 + p + j);
    PrefixIndex(w.samplers, w2.samplers, p + j);
    PrefixIndex(w.channels, w2.channels, p + j);
  }

  /** Rotation source `j`'s accessor, sampler and channel after the rotation stage. */
  lemma RotationStageBlock(e: Exporter, scene: Scene, nameOf: Node -> string, j: nat)
    requires j < |e.rotations|
    ensures var w2, a, p := RotationStage(e, scene, nameOf), |scene.accessors|, PositionCount(e);
      && a + 1 + p + j < |w2.accessors| && p + j < |w2.samplers| && p + j < |w2.channels|
      && w2.accessors[a + 1 + p + j] == Rotations(e.rotations[j].values)
      && w2.samplers[p + j] == Sampler(a, a + 1 + p + j)
      && w2.channels[p + j] == Channel(p + j, Target(scene, nameOf, e.rotations[j].node), Rotation)
  {
    var w1, w2 := PositionStage(e, scene, nameOf), RotationStage(e, scene, nameOf);
    var a, t := |scene.accessors|, TargetOf(scene, nameOf);
    var node := e.rotations[j].node;
    WireRotationsLayout(w1, a, e.rotations, t);
    assert w2 == WireRotations(w1, a, e.rotations, t);
    assert w2.accessors[|w1.accessors| + j] == Rotations(e.rotations[j].values);
    assert w2.samplers[|w1.samplers| + j] == Sampler(a, |w1.accessors| + j);
    assert w2.channels[|w1.samplers| + j] == Channel(|w1.samplers| + j, t(node), Rotation);
    assert t(node) == Target(scene, nameOf, node);
  }

  /**
    Expression `j` (in export order) gets placeholder node `n + j`, `n`
    counting the scene's nodes, named `__expression_<name>`; its key times
    and weights occupy the two accessors of block `j` after the rotation
    blocks, and its channel translates its placeholder node.
  */
  lemma ExportExpression(e: Exporter, scene: Scene, nameOf: Node -> string, order: seq<ExpressionCurve>, j: nat)
    requires AssembleSorted(e, scene, nameOf, order).Success?
    requires j < |order|
    ensures var d, n := AssembleSorted(e, scene, nameOf, order).value, |scene.nodes|;
      var s := PositionCount(e) + |e.rotations|;
      var b := |scene.accessors| + 1 + s + 2 * j;
      && d.nodes[n + j] == "__expression_" + CurveName(order[j])
      && d.accessors[b] == Scalars(KeyTimes(order[j].keys))
      && d.accessors[b + 1] == Vectors(KeyWeights(order[j].keys))
      && d.animation.samplers[s + j] == Sampler(b, b + 1)
      && d.animation.channels[s + j] == Channel(s + j, n + j, Translation)
      && d.nodes[d.animation.channels[s + j].node] == "__expression_" + CurveName(order[j])
  {
    var n := |scene.nodes|;
    AssembleParts(e, scene, nameOf, order);
    ExpressionBlock(e, scene, nameOf, order, j);
    PlaceholderAt(scene.nodes, order, j);
  }

  /** Expression `j`'s two accessors, sampler and channel in the wiring. */
  lemma ExpressionBlock(e: Exporter, scene: Scene, nameOf: Node -> string, order: seq<ExpressionCurve>, j: nat)
    requires j < |order|
    ensures var w, n := Wire(e, scene, nameOf, order), |scene.nodes|;
      var s := PositionCount(e) + |e.rotations|;
      var b := |scene.accessors| + 1 + s + 2 * j;
      && w.accessors[b] == Scalars(KeyTimes(order[j].keys))
      && w.accessors[b + 1] == Vectors(KeyWeights(order[j].keys))
      && w.samplers[s + j] == Sampler(b, b + 1)
      && w.channels[s + j] == Channel(s + j, n + j, Translation)
  {
    ExpressionAccessors(e, scene, nameOf, order, j);
    ExpressionChannel(e, scene, nameOf, order, j);
  }

  lemma ExpressionAccessors(e: Exporter, scene: Scene, nameOf: Node -> string, order: seq<ExpressionCurve>, j: nat)
    requires j < |order|
    ensures var w, b := Wire(e, scene, nameOf, order), |scene.accessors| + 1 + PositionCount(e) + |e.rotations| + 2 * j;
      && w.accessors[b] == Scalars(KeyTimes(order[j].keys))
      && w.accessors[b + 1] == Vectors(KeyWeights(order[j].keys))
  {
    var w2 := RotationStage(e, scene, nameOf);
    var w := Wire(e, scene, nameOf, order);
    WireExpressionsAccessors(w2, order, |scene.nodes|);
    assert w == WireExpressions(w2, order, |scene.nodes|);
    assert w.accessors[|w2.accessors| + 2 * j] == Scalars(KeyTimes(order[j].keys));
    assert w.accessors[|w2.accessors| + 2 * j + 1] == Vectors(KeyWeights(order[j].keys));
  }

  lemma ExpressionChannel(e: Exporter, scene: Scene, nameOf: Node -> string, order: seq<ExpressionCurve>, j: nat)
    requires j < |order|
    ensures var w, s := Wire(e, scene, nameOf, order), PositionCount(e) + |e.rotations|;
      var b := |scene.accessors| + 1 + s + 2 * j;
      && w.samplers[s + j] == Sampler(b, b + 1)
      && w.channels[s + j] == Channel(s + j, |scene.nodes| + j, Translation)
  {
    var w2 := RotationStage(e, scene, nameOf);
    var w := Wire(e, scene, nameOf, order);
    WireExpressionsChannels(w2, order, |scene.nodes|);
    assert w == WireExpressions(w2, order, |scene.nodes|);
    assert w.samplers[|w2.samplers| + j] == Sampler(|w2.accessors| + 2 * j, |w2.accessors| + 2 * j + 1);
    assert w.channels[|w2.samplers| + j] == Channel(|w2.samplers| + j, |scene.nodes| + j, Translation);
  }


  /**
    A transform's channel targets the first position of its name among the
    scene's nodes, which the exported node list keeps; -1 when no scene node
    carries the name.
  */
  lemma TargetNamesNode(e: Exporter, scene: Scene, nameOf: Node -> string, order: seq<ExpressionCurve>, t: Node)
    requires AssembleSorted(e, scene, nameOf, order).Success?
    ensures var d, k := AssembleSorted(e, scene, nameOf, order).value, Target(scene, nameOf, t);
      && (k == -1 <==> nameOf(t) !in scene.nodes)
      && (k != -1 ==> 0 <= k < |scene.nodes| && d.nodes[k] == nameOf(t))
      && (k != -1 ==> forall i :: 0 <= i < k ==> d.nodes[i] != nameOf(t))
  {
    var d, k := AssembleSorted(e, scene, nameOf, order).value, Target(scene, nameOf, t);
    if k != -1 {
      forall i | 0 <= i < k
        ensures d.nodes[i] != nameOf(t)
      {
        assert scene.nodes[..k][i] == scene.nodes[i];
      }
    }
  }

  /**
    The preset slot of `p` is filled exactly when `p` has a `Preset` field
    and some expression carries `p`, and then holds the placeholder node of the last such expression in
    export order, whose name is `__expression_` followed by the preset's name.
  */
  lemma ExportPresetSlot(e: Exporter, scene: Scene, nameOf: Node -> string, order: seq<ExpressionCurve>, p: Preset)
    requires AssembleSorted(e, scene, nameOf, order).Success?
    ensures var d, n := AssembleSorted(e, scene, nameOf, order).value, |scene.nodes|;
      && (p in d.expressions.preset <==> HasPresetField(p) && exists j :: 0 <= j < |order| && order[j].key == PresetKey(p))
      && (p in d.expressions.preset ==>
            && d.expressions.preset[p] >= n
            && LastWithPreset(order, |order|, p, d.expressions.preset[p] - n)
            && d.nodes[d.expressions.preset[p]] == "__expression_" + PresetName(p))
  {
    ExportPresetFilled(e, scene, nameOf, order, p);
    ExportPresetNode(e, scene, nameOf, order, p);
  }

  /** When the preset slot of `p` is filled. */
  lemma ExportPresetFilled(e: Exporter, scene: Scene, nameOf: Node -> string, order: seq<ExpressionCurve>, p: Preset)
    requires AssembleSorted(e, scene, nameOf, order).Success?
    ensures var d := AssembleSorted(e, scene, nameOf, order).value;
      p in d.expressions.preset <==> HasPresetField(p) && exists j :: 0 <= j < |order| && order[j].key == PresetKey(p)
  {
    AssembleSlots(e, scene, nameOf, order);
    PartitionPresetSlot(order, |scene.nodes|, p);
  }

  /** What a filled preset slot of `p` holds. */
  lemma ExportPresetNode(e: Exporter, scene: Scene, nameOf: Node -> string, order: seq<ExpressionCurve>, p: Preset)
    requires AssembleSorted(e, scene, nameOf, order).Success?
    ensures var d, n := AssembleSorted(e, scene, nameOf, order).value, |scene.nodes|;
      p in d.expressions.preset ==>
        && d.expressions.preset[p] >= n
        && LastWithPreset(order, |order|, p, d.expressions.preset[p] - n)
        && d.nodes[d.expressions.preset[p]] == "__expression_" + PresetName(p)
  {
    var d, n := AssembleSorted(e, scene, nameOf, order).value, |scene.nodes|;
    AssembleSlots(e, scene, nameOf, order);
    PartitionPresetSlot(order, n, p);
    var slots := d.expressions.preset;
    if p in slots {
      PresetNodeNamed(scene.nodes, order, slots, p);
    }
  }

  /** The placeholder node a preset slot points at is named after the preset. */
  lemma PresetNodeNamed(nodes: seq<string>, order: seq<ExpressionCurve>, slots: map<Preset, nat>, p: Preset)
    requires p in slots && slots[p] >= |nodes|
    requires LastWithPreset(order, |order|, p, slots[p] - |nodes|)
    ensures slots[p] < |nodes + PlaceholderNames(order)|
    ensures (nodes + PlaceholderNames(order))[slots[p]] == "__expression_" + PresetName(p)
  {
    var j := slots[p] - |nodes|;
    PlaceholderAt(nodes, order, j);
  }

  /** The preset slots of a successful partition, slot by slot. */
  lemma PartitionPresetSlot(xs: seq<ExpressionCurve>, firstNode: nat, p: Preset)
    requires Partition(xs, firstNode).Success?
    ensures var slots := Partition(xs, firstNode).value.preset;
      && (p in slots <==> HasPresetField(p) && exists j :: 0 <= j < |xs| && xs[j].key == PresetKey(p))
      && (p in slots ==> slots[p] >= firstNode && LastWithPreset(xs, |xs|, p, slots[p] - firstNode))
  {
    PartitionFromLoop(xs, firstNode);
    PresetSlot(xs, firstNode, |xs|, p);
  }

  /**
    The custom map is present exactly when some key is custom, and maps
    every custom expression's name to its own placeholder node.
  */
  lemma ExportCustomSlot(e: Exporter, scene: Scene, nameOf: Node -> string, order: seq<ExpressionCurve>, j: nat)
    requires AssembleSorted(e, scene, nameOf, order).Success?
    requires j < |order|
    ensures var d, n := AssembleSorted(e, scene, nameOf, order).value, |scene.nodes|;
      && (d.expressions.custom.None? <==> forall i :: 0 <= i < |order| ==> order[i].key.PresetKey?)
      && (order[j].key.CustomKey? ==>
            && d.expressions.custom.Some?
            && order[j].key.customName in d.expressions.custom.value
            && d.expressions.custom.value[order[j].key.customName] == n + j
            && d.nodes[n + j] == "__expression_" + order[j].key.customName)
  {
    var n := |scene.nodes|;
    var d := AssembleSorted(e, scene, nameOf, order).value;
    AssembleSlots(e, scene, nameOf, order);
    var slots := Partition(order, n).value;
    assert d.expressions == slots;
    if order[j].key.CustomKey? {
      PartitionCustomSlot(order, n, j);
      PlaceholderAt(scene.nodes, order, j);
    }
  }

  /** The name of placeholder `j` after the scene's nodes. */
  lemma PlaceholderAt(nodes: seq<string>, order: seq<ExpressionCurve>, j: nat)
    requires j < |order|
    ensures (nodes + PlaceholderNames(order))[|nodes| + j] == "__expression_" + CurveName(order[j])
  {
  }

  /** A custom expression's entry in a successful partition. */
  lemma PartitionCustomSlot(xs: seq<ExpressionCurve>, firstNode: nat, j: nat)
    requires Partition(xs, firstNode).Success?
    requires j < |xs| && xs[j].key.CustomKey?
    ensures var custom := Partition(xs, firstNode).value.custom;
      custom.Some? && xs[j].key.customName in custom.value && custom.value[xs[j].key.customName] == firstNode + j
  {
    PartitionFromLoop(xs, firstNode);
    CustomSlot(xs, firstNode, |xs|, j);
  }

  /** Two expressions sharing a custom key stay so under any reordering. */
  lemma DuplicateCustomPermutation(a: seq<ExpressionCurve>, b: seq<ExpressionCurve>)
    requires multiset(a) == multiset(b)
    ensures HasDuplicateCustom(a, |a|) ==> HasDuplicateCustom(b, |b|)
  {
    if HasDuplicateCustom(a, |a|) {
      var i, j :| 0 <= i < j < |a| && a[i].key.CustomKey? && a[i].key == a[j].key;
      PairTransfers(a, b, i, j);
      var i', j' :| 0 <= i' < j' < |b| && ((b[i'] == a[i] && b[j'] == a[j]) || (b[i'] == a[j] && b[j'] == a[i]));
      assert b[i'].key.CustomKey? && b[i'].key == b[j'].key;
    }
  }

  /**
    Export fails exactly when two registered expressions share a custom
    key (the custom dictionary's Add), whatever order they were added in.
  */
  lemma ExportFailure(e: Exporter, scene: Scene, nameOf: Node -> string)
    ensures Export(e, scene, nameOf).Failure? <==> HasDuplicateCustom(e.expressions, |e.expressions|)
  {
    var sorted := SortBy(e.expressions, CurveName);
    DuplicateCustomPermutation(e.expressions, sorted);
    DuplicateCustomPermutation(sorted, e.expressions);
  }

  /**
    When the expressions' names are pairwise distinct, every arrangement
    sorted by name gives the same document: the unspecified order of an
    unstable sort cannot show in the output.
  */
  lemma ExportOrderIndependent(e: Exporter, scene: Scene, nameOf: Node -> string, order: seq<ExpressionCurve>)
    requires DistinctKeys(e.expressions, CurveName)
    requires multiset(order) == multiset(e.expressions)
    requires SortedBy(order, CurveName)
    ensures AssembleSorted(e, scene, nameOf, order) == Export(e, scene, nameOf)
  {
    DistinctKeysPermutation(e.expressions, order, CurveName);
    SortedUnique(order, SortBy(e.expressions, CurveName), CurveName);
  }
}
