/**
  VrmAnimationExporter.Export after the frames are recorded: sorting the
  expressions, allocating their placeholder nodes, wiring accessors,
  samplers and channels (section 3.11, Animations, of the glTF 2.0
  specification), and splitting the expressions into preset slots and a
  custom name map for the VRMC_vrm_animation extension.

  ExtendBufferAndGetAccessorIndex is modelled as appending one accessor and
  returning its position, so indices are fresh and increase call by call.
  Every sampler uses LINEAR interpolation.
*/
module Assembly {
  import opened Wrappers
  import opened Bones
  import opened Geometry
  import opened ExpressionKeys
  import opened Ordinal
  import opened Tracks

  datatype AccessorData = Scalars(scalars: seq<real>) | Vectors(vectors: seq<Vec3>) | Rotations(rotations: seq<Quat>)

  datatype Path = Translation | Rotation

  datatype Sampler = Sampler(input: nat, output: nat)

  datatype Channel = Channel(sampler: nat, node: int, path: Path)

  datatype Animation = Animation(name: string, samplers: seq<Sampler>, channels: seq<Channel>)

  /** The `expressions` block of the extension: filled preset slots, and the custom map if any. */
  datatype ExpressionSlots = ExpressionSlots(preset: map<Preset, nat>, custom: Option<map<string, nat>>)

  /** What base.Export has produced before the animation is added: node names and accessors. */
  datatype Scene = Scene(nodes: seq<string>, accessors: seq<AccessorData>)

  /**
    The exported document: all nodes, all accessors, the one animation, the
    bone-to-transform map handed to the humanoid part of the extension, and
    the expression block.
  */
  datatype Document = Document(
    nodes: seq<string>,
    accessors: seq<AccessorData>,
    animation: Animation,
    humanoid: map<Bone, Node>,
    expressions: ExpressionSlots)

  /** Accessors, samplers and channels under construction. */
  datatype Wiring = Wiring(accessors: seq<AccessorData>, samplers: seq<Sampler>, channels: seq<Channel>)

  /** Channel `k` uses sampler `k`, and every sampler reads accessors that exist. */
  ghost predicate WellWired(w: Wiring) {
    && |w.channels| == |w.samplers|
    && (forall k :: 0 <= k < |w.channels| ==> w.channels[k].sampler == k)
    && (forall k :: 0 <= k < |w.samplers| ==> w.samplers[k].input < |w.accessors| && w.samplers[k].output < |w.accessors|)
  }

  /** List.IndexOf on node names: the first position holding `name`, or -1. */
  function IndexOf(names: seq<string>, name: string): (r: int)
    ensures r == -1 <==> name !in names
    ensures r != -1 ==> 0 <= r < |names| && names[r] == name && name !in names[..r]
  {
    if |names| == 0 then -1
    else if names[0] == name then 0
    else
      var r := IndexOf(names[1..], name);
      assert names == [names[0]] + names[1..];
      assert r != -1 ==> names[..r + 1] == [names[0]] + names[1..][..r];
      if r == -1 then -1 else r + 1
  }

  /**
    One sampler reading accessors `input` and `output`, and one channel
    driving `node`'s `path` with it; the channel's sampler index is the
    sampler count before the addition.
  */
  function AddChannel(w: Wiring, input: nat, output: nat, node: int, path: Path): (r: Wiring)
    requires WellWired(w) && input < |w.accessors| && output < |w.accessors|
    ensures WellWired(r)
    ensures r.accessors == w.accessors
    ensures r.samplers == w.samplers + [Sampler(input, output)]
    ensures r.channels == w.channels + [Channel(|w.samplers|, node, path)]
  {
    var sampler := |w.samplers|;
    Wiring(w.accessors, w.samplers + [Sampler(input, output)], w.channels + [Channel(sampler, node, path)])
  }

  /** ExtendBufferAndGetAccessorIndex: appends `data` and returns where it landed. */
  function Extend(w: Wiring, data: AccessorData): (r: (Wiring, nat))
    requires WellWired(w)
    ensures WellWired(r.0)
    ensures r.1 == |w.accessors| && r.0.accessors == w.accessors + [data]
    ensures r.0.samplers == w.samplers && r.0.channels == w.channels
  {
    (w.(accessors := w.accessors + [data]), |w.accessors|)
  }

  /**
    The rotation loop: for each source, one fresh output accessor holding its
    values and one channel on its transform's node, all reading the shared
    `input` times.
  */
  function WireRotations(w: Wiring, input: nat, rs: seq<RotationTrack>, target: Node -> int): (r: Wiring)
    requires WellWired(w) && input < |w.accessors|
    ensures WellWired(r)
    ensures |r.accessors| == |w.accessors| + |rs| && |r.samplers| == |w.samplers| + |rs|
    decreases |rs|
  {
    if rs == [] then w
    else
      var (w1, output) := Extend(w, Rotations(rs[0].values));
      WireRotations(AddChannel(w1, input, output, target(rs[0].node), Rotation), input, rs[1..], target)
  }

  /**
    What the rotation loop leaves behind: earlier accessors, samplers and
    channels untouched, then source `j`'s values in accessor
    `|w.accessors| + j`, read by sampler `|w.samplers| + j` together with the
    shared times, and a rotation channel on source `j`'s node.
  */
  lemma {:induction false} WireRotationsLayout(w: Wiring, input: nat, rs: seq<RotationTrack>, target: Node -> int)
    requires WellWired(w) && input < |w.accessors|
    ensures var r := WireRotations(w, input, rs, target);
      && r.accessors[..|w.accessors|] == w.accessors
      && r.samplers[..|w.samplers|] == w.samplers
      && r.channels[..|w.channels|] == w.channels
      && forall j :: 0 <= j < |rs| ==>
        && r.accessors[|w.accessors| + j] == Rotations(rs[j].values)
        && r.samplers[|w.samplers| + j] == Sampler(input, |w.accessors| + j)
        && r.channels[|w.samplers| + j] == Channel(|w.samplers| + j, target(rs[j].node), Rotation)
    decreases |rs|
  {
    if rs != [] {
      var (w1, output) := Extend(w, Rotations(rs[0].values));
      var w2 := AddChannel(w1, input, output, target(rs[0].node), Rotation);
      var r := WireRotations(w2, input, rs[1..], target);
      assert r == WireRotations(w, input, rs, target);
      WireRotationsLayout(w2, input, rs[1..], target);
      PrefixOfPrefix(r.accessors, w2.accessors, w.accessors);
      PrefixOfPrefix(r.samplers, w2.samplers, w.samplers);
      PrefixOfPrefix(r.channels, w2.channels, w.channels);
      forall j | 0 <= j < |rs|
        ensures r.accessors[|w.accessors| + j] == Rotations(rs[j].values)
        ensures r.samplers[|w.samplers| + j] == Sampler(input, |w.accessors| + j)
        ensures r.channels[|w.samplers| + j] == Channel(|w.samplers| + j, target(rs[j].node), Rotation)
      {
        if j == 0 {
          PrefixIndex(r.accessors, w2.accessors, |w.accessors|);
          PrefixIndex(r.samplers, w2.samplers, |w.samplers|);
          PrefixIndex(r.channels, w2.channels, |w.channels|);
        } else {
          assert rs[1..][j - 1] == rs[j];
        }
      }
    }
  }

  /** An element of a prefix is the element of the whole sequence. */
  lemma PrefixIndex<T>(a: seq<T>, b: seq<T>, i: nat)
    requires |b| <= |a| && a[..|b|] == b && i < |b|
    ensures a[i] == b[i]
  {
    assert a[i] == a[..|b|][i];
  }

  /** A sequence that extends an extension of `c` extends `c`. */
  lemma PrefixOfPrefix<T>(a: seq<T>, b: seq<T>, c: seq<T>)
    requires |b| <= |a| && a[..|b|] == b
    requires |c| <= |b| && b[..|c|] == c
    ensures a[..|c|] == c
  {
    assert a[..|c|] == a[..|b|][..|c|];
  }

  /** The times of a curve's keyframes. */
  function KeyTimes(keys: seq<Keyframe>): (times: seq<real>)
    ensures |times| == |keys|
    ensures forall i :: 0 <= i < |keys| ==> times[i] == keys[i].time
  {
    seq(|keys|, i requires 0 <= i < |keys| => keys[i].time)
  }

  /** A weight curve carried as translations: the weight in X, zero in Y and Z. */
  function KeyWeights(keys: seq<Keyframe>): (values: seq<Vec3>)
    ensures |values| == |keys|
    ensures forall i :: 0 <= i < |keys| ==> values[i] == Vec3(keys[i].value, 0.0, 0.0)
  {
    seq(|keys|, i requires 0 <= i < |keys| => Vec3(keys[i].value, 0.0, 0.0))
  }

  /**
    The expression loop: for each expression, a fresh time accessor, then a
    fresh value accessor, and one translation channel on its placeholder
    node, the placeholders numbered consecutively from `firstNode`.
  */
  function WireExpressions(w: Wiring, xs: seq<ExpressionCurve>, firstNode: nat): (r: Wiring)
    requires WellWired(w)
    ensures WellWired(r)
    ensures |r.accessors| == |w.accessors| + 2 * |xs| && |r.samplers| == |w.samplers| + |xs|
    decreases |xs|
  {
    if xs == [] then w
    else
      var (w1, input) := Extend(w, Scalars(KeyTimes(xs[0].keys)));
      var (w2, output) := Extend(w1, Vectors(KeyWeights(xs[0].keys)));
      WireExpressions(AddChannel(w2, input, output, firstNode, Translation), xs[1..], firstNode + 1)
  }

  /**
    The accessors the expression loop leaves behind: earlier ones untouched,
    then for expression `j` its keyframe times in accessor
    `|w.accessors| + 2j` and its weights as `(v, 0, 0)` in the next one.
  */
  lemma {:induction false} WireExpressionsAccessors(w: Wiring, xs: seq<ExpressionCurve>, firstNode: nat)
    requires WellWired(w)
    ensures var r := WireExpressions(w, xs, firstNode);
      && r.accessors[..|w.accessors|] == w.accessors
      && forall j :: 0 <= j < |xs| ==>
        && r.accessors[|w.accessors| + 2 * j] == Scalars(KeyTimes(xs[j].keys))
        && r.accessors[|w.accessors| + 2 * j + 1] == Vectors(KeyWeights(xs[j].keys))
    decreases |xs|
  {
    if xs != [] {
      var (w1, input) := Extend(w, Scalars(KeyTimes(xs[0].keys)));
      var (w2, output) := Extend(w1, Vectors(KeyWeights(xs[0].keys)));
      var w3 := AddChannel(w2, input, output, firstNode, Translation);
      var r := WireExpressions(w3, xs[1..], firstNode + 1);
      assert r == WireExpressions(w, xs, firstNode);
      WireExpressionsAccessors(w3, xs[1..], firstNode + 1);
      PrefixOfPrefix(r.accessors, w3.accessors, w.accessors);
      forall j | 0 <= j < |xs|
        ensures r.accessors[|w.accessors| + 2 * j] == Scalars(KeyTimes(xs[j].keys))
        ensures r.accessors[|w.accessors| + 2 * j + 1] == Vectors(KeyWeights(xs[j].keys))
      {
        if j == 0 {
          assert r.accessors[|w.accessors|] == w3.accessors[|w.accessors|];
          assert r.accessors[|w.accessors| + 1] == w3.accessors[|w.accessors| + 1];
        } else {
          var i := j - 1;
          assert xs[1..][i] == xs[j];
          assert |w3.accessors| + 2 * i == |w.accessors| + 2 * j;
        }
      }
    }
  }

  /**
    The samplers and channels the expression loop leaves behind: earlier ones
    untouched, then sampler `|w.samplers| + j` reading expression `j`'s two
    accessors and a translation channel on placeholder node `firstNode + j`.
  */
  lemma {:induction false} WireExpressionsChannels(w: Wiring, xs: seq<ExpressionCurve>, firstNode: nat)
    requires WellWired(w)
    ensures var r := WireExpressions(w, xs, firstNode);
      && r.samplers[..|w.samplers|] == w.samplers
      && r.channels[..|w.channels|] == w.channels
      && forall j :: 0 <= j < |xs| ==>
        && r.samplers[|w.samplers| + j] == Sampler(|w.accessors| + 2 * j, |w.accessors| + 2 * j + 1)
        && r.channels[|w.samplers| + j] == Channel(|w.samplers| + j, firstNode + j, Translation)
    decreases |xs|
  {
    if xs != [] {
      var (w1, input) := Extend(w, Scalars(KeyTimes(xs[0].keys)));
      var (w2, output) := Extend(w1, Vectors(KeyWeights(xs[0].keys)));
      var w3 := AddChannel(w2, input, output, firstNode, Translation);
      var r := WireExpressions(w3, xs[1..], firstNode + 1);
      assert r == WireExpressions(w, xs, firstNode);
      WireExpressionsChannels(w3, xs[1..], firstNode + 1);
      PrefixOfPrefix(r.samplers, w3.samplers, w.samplers);
      PrefixOfPrefix(r.channels, w3.channels, w.channels);
      forall j | 0 <= j < |xs|
        ensures r.samplers[|w.samplers| + j] == Sampler(|w.accessors| + 2 * j, |w.accessors| + 2 * j + 1)
        ensures r.channels[|w.samplers| + j] == Channel(|w.samplers| + j, firstNode + j, Translation)
      {
        if j == 0 {
          assert r.samplers[|w.samplers|] == w3.samplers[|w.samplers|];
          assert r.channels[|w.channels|] == w3.channels[|w.channels|];
        } else {
          var i := j - 1;
          assert |w3.accessors| + 2 * i == |w.accessors| + 2 * j;
          assert |w3.samplers| + i == |w.samplers| + j;
        }
      }
    }
  }

  /** The display name an expression is sorted by. */
  function CurveName(c: ExpressionCurve): string {
    Name(c.key)
  }

  /** The placeholder node names, `__expression_<name>`, in order. */
  function PlaceholderNames(xs: seq<ExpressionCurve>): (names: seq<string>)
    ensures |names| == |xs|
    ensures forall j :: 0 <= j < |xs| ==> names[j] == "__expression_" + CurveName(xs[j])
  {
    seq(|xs|, j requires 0 <= j < |xs| => "__expression_" + CurveName(xs[j]))
  }

  /** Two of the first `k` expressions share a custom key. */
  ghost predicate HasDuplicateCustom(xs: seq<ExpressionCurve>, k: nat)
    requires k <= |xs|
  {
    exists i, j :: 0 <= i < j < k && xs[i].key.CustomKey? && xs[i].key == xs[j].key
  }

  /** The partition's running state: filled preset slots and the custom name map. */
  datatype Slots = Slots(preset: map<Preset, nat>, custom: map<string, nat>)

  /**
    One iteration of the partition loop: a preset key with a `Preset` field
    fills (or overwrites) its slot with `node`, and one without a field
    changes nothing; a custom key is added to the name map, and a name
    already there is an error.
  */
  function PartitionStep(s: Slots, key: ExpressionKey, node: nat): (r: Result<Slots, ExportError>)
    ensures r.Failure? <==> key.CustomKey? && key.customName in s.custom
    ensures r.Success? && key.PresetKey? && HasPresetField(key.preset) ==> r.value == Slots(s.preset[key.preset := node], s.custom)
    ensures r.Success? && key.PresetKey? && !HasPresetField(key.preset) ==> r.value == s
    ensures r.Success? && key.CustomKey? ==> r.value == Slots(s.preset, s.custom[key.customName := node])
  {
    match key
    case PresetKey(p) =>
      if HasPresetField(p) then Success(Slots(s.preset[p := node], s.custom)) else Success(s)
    case CustomKey(n) =>
      if n in s.custom then Failure(DuplicateCustomExpression(n))
      else Success(Slots(s.preset, s.custom[n := node]))
  }

  /** The names of `custom` are exactly the custom names among the first `k` expressions. */
  ghost predicate CustomNamesAre(xs: seq<ExpressionCurve>, k: nat, custom: map<string, nat>)
    requires k <= |xs|
  {
    forall n :: n in custom <==> exists j :: 0 <= j < k && xs[j].key == CustomKey(n)
  }

  /** The partition loop over the first `k` expressions, expression `j` owning node `firstNode + j`. */
  function PartitionPrefix(xs: seq<ExpressionCurve>, firstNode: nat, k: nat): Result<Slots, ExportError>
    requires k <= |xs|
    decreases k
  {
    if k == 0 then Success(Slots(map[], map[]))
    else
      var prev :- PartitionPrefix(xs, firstNode, k - 1);
      PartitionStep(prev, xs[k - 1].key, firstNode + k - 1)
  }

  /**
    The partition loop fails exactly when two of the expressions it has seen
    share a custom key, and on success the name map holds exactly their
    custom names.
  */
  lemma {:induction false} PartitionPrefixSpec(xs: seq<ExpressionCurve>, firstNode: nat, k: nat)
    requires k <= |xs|
    ensures PartitionPrefix(xs, firstNode, k).Failure? <==> HasDuplicateCustom(xs, k)
    ensures PartitionPrefix(xs, firstNode, k).Success? ==> CustomNamesAre(xs, k, PartitionPrefix(xs, firstNode, k).value.custom)
    decreases k
  {
    if k > 0 {
      PartitionPrefixSpec(xs, firstNode, k - 1);
      if PartitionPrefix(xs, firstNode, k - 1).Failure? {
        DuplicateGrows(xs, k - 1, k);
      } else {
        DuplicateAtEnd(xs, k);
      }
    }
  }

  lemma DuplicateGrows(xs: seq<ExpressionCurve>, k: nat, k': nat)
    requires k <= k' <= |xs|
    ensures HasDuplicateCustom(xs, k) ==> HasDuplicateCustom(xs, k')
  {
    if HasDuplicateCustom(xs, k) {
      var i, j :| 0 <= i < j < k && xs[i].key.CustomKey? && xs[i].key == xs[j].key;
      assert j < k';
    }
  }

  /** A duplicate among the first `k` is one among the first `k - 1`, or one with the last of them. */
  lemma DuplicateAtEnd(xs: seq<ExpressionCurve>, k: nat)
    requires 0 < k <= |xs|
    ensures HasDuplicateCustom(xs, k) <==>
      HasDuplicateCustom(xs, k - 1) || exists i :: 0 <= i < k - 1 && xs[i].key.CustomKey? && xs[i].key == xs[k - 1].key
  {
    if HasDuplicateCustom(xs, k) {
      var i, j :| 0 <= i < j < k && xs[i].key.CustomKey? && xs[i].key == xs[j].key;
      if j < k - 1 {
        assert HasDuplicateCustom(xs, k - 1);
      }
    }
    DuplicateGrows(xs, k - 1, k);
  }

  /** Expression `j` is the last of the first `k` expressions keyed by preset `p`. */
  ghost predicate LastWithPreset(xs: seq<ExpressionCurve>, k: nat, p: Preset, j: int)
    requires k <= |xs|
  {
    && 0 <= j < k
    && xs[j].key == PresetKey(p)
    && forall j' :: j < j' < k ==> xs[j'].key != PresetKey(p)
  }

  /** The partition over `k` expressions is the step on the partition over `k - 1`. */
  lemma PartitionUnfold(xs: seq<ExpressionCurve>, firstNode: nat, k: nat)
    requires 0 < k <= |xs|
    requires PartitionPrefix(xs, firstNode, k).Success?
    ensures PartitionPrefix(xs, firstNode, k - 1).Success?
    ensures PartitionPrefix(xs, firstNode, k)
         == PartitionStep(PartitionPrefix(xs, firstNode, k - 1).value, xs[k - 1].key, firstNode + k - 1)
  {
  }

  /**
    After the partition loop preset `p`'s slot is filled exactly when `p`
    has a `Preset` field and some expression carries `p`, and it holds the
    node of the last such expression: later assignments overwrite earlier
    ones.
  */
  lemma {:induction false} PresetSlot(xs: seq<ExpressionCurve>, firstNode: nat, k: nat, p: Preset)
    requires k <= |xs|
    requires PartitionPrefix(xs, firstNode, k).Success?
    ensures var slots := PartitionPrefix(xs, firstNode, k).value.preset;
      && (p in slots <==> HasPresetField(p) && exists j :: 0 <= j < k && xs[j].key == PresetKey(p))
      && (p in slots ==> slots[p] >= firstNode && LastWithPreset(xs, k, p, slots[p] - firstNode))
    decreases k
  {
    if k > 0 {
      PartitionUnfold(xs, firstNode, k);
      PresetSlot(xs, firstNode, k - 1, p);
      var slots := PartitionPrefix(xs, firstNode, k).value.preset;
      var before := PartitionPrefix(xs, firstNode, k - 1).value.preset;
      if xs[k - 1].key == PresetKey(p) && HasPresetField(p) {
        assert slots[p] == firstNode + k - 1;
      } else {
        assert p in slots <==> p in before;
        assert p in slots ==> slots[p] == before[p];
      }
    }
  }

  /** A successful step on a custom key maps its name to the step's node. */
  lemma StepAddsCustom(s: Slots, key: ExpressionKey, node: nat)
    requires PartitionStep(s, key, node).Success? && key.CustomKey?
    ensures key.customName in PartitionStep(s, key, node).value.custom
    ensures PartitionStep(s, key, node).value.custom[key.customName] == node
  {
  }

  /** A successful step keeps every custom name already mapped, with its node. */
  lemma StepKeepsCustom(s: Slots, key: ExpressionKey, node: nat, name: string)
    requires PartitionStep(s, key, node).Success?
    requires name in s.custom
    ensures name in PartitionStep(s, key, node).value.custom
    ensures PartitionStep(s, key, node).value.custom[name] == s.custom[name]
  {
  }

  /** After the partition loop the custom name of expression `j` maps to its node. */
  lemma {:induction false} CustomSlot(xs: seq<ExpressionCurve>, firstNode: nat, k: nat, j: nat)
    requires j < k <= |xs|
    requires PartitionPrefix(xs, firstNode, k).Success?
    requires xs[j].key.CustomKey?
    ensures xs[j].key.customName in PartitionPrefix(xs, firstNode, k).value.custom
    ensures PartitionPrefix(xs, firstNode, k).value.custom[xs[j].key.customName] == firstNode + j
    decreases k
  {
    PartitionUnfold(xs, firstNode, k);
    var before := PartitionPrefix(xs, firstNode, k - 1).value;
    var after := PartitionPrefix(xs, firstNode, k).value;
    var last := xs[k - 1].key;
    var node := firstNode + k - 1;
    assert PartitionStep(before, last, node).Success? && after == PartitionStep(before, last, node).value;
    if j == k - 1 {
      StepAddsCustom(before, last, node);
    } else {
      CustomSlot(xs, firstNode, k - 1, j);
      StepKeepsCustom(before, last, node, xs[j].key.customName);
    }
  }

  /**
    The extension's expression block: the preset slots, and the custom map
    only when some key is custom. It fails exactly when two expressions share
    a custom key.
  */
  function Partition(xs: seq<ExpressionCurve>, firstNode: nat): (r: Result<ExpressionSlots, ExportError>)
    ensures r.Failure? <==> HasDuplicateCustom(xs, |xs|)
    ensures r.Success? ==> (r.value.custom.None? <==> forall j :: 0 <= j < |xs| ==> xs[j].key.PresetKey?)
  {
    PartitionPrefixSpec(xs, firstNode, |xs|);
    var slots :- PartitionPrefix(xs, firstNode, |xs|);
    var custom := if |slots.custom| == 0 then None else Some(slots.custom);
    assert custom.Some? ==> exists j :: 0 <= j < |xs| && xs[j].key.CustomKey? by {
      if custom.Some? {
        var n :| n in slots.custom;
      }
    }
    assert custom.None? ==> forall j :: 0 <= j < |xs| ==> xs[j].key.PresetKey? by {
      forall j | 0 <= j < |xs| && xs[j].key.CustomKey? ensures xs[j].key.customName in slots.custom {
      }
    }
    Success(ExpressionSlots(slots.preset, custom))
  }

  /** A successful partition's slots are those of the partition loop. */
  lemma PartitionFromLoop(xs: seq<ExpressionCurve>, firstNode: nat)
    requires Partition(xs, firstNode).Success?
    ensures PartitionPrefix(xs, firstNode, |xs|).Success?
    ensures var slots := PartitionPrefix(xs, firstNode, |xs|).value;
      && Partition(xs, firstNode).value.preset == slots.preset
      && (Partition(xs, firstNode).value.custom.Some? ==> Partition(xs, firstNode).value.custom.value == slots.custom)
  {
  }

  /**
    m_rotations.ToDictionary(bone, transform): every registered bone maps to
    the transform of its source (the last one, should a bone repeat).
  */
  function HumanoidMap(rs: seq<RotationTrack>): (m: map<Bone, Node>)
    ensures m.Keys == set k | 0 <= k < |rs| :: rs[k].bone
  {
    if rs == [] then map[]
    else
      var m := HumanoidMap(rs[..|rs| - 1]);
      assert forall k :: 0 <= k < |rs| - 1 ==> rs[..|rs| - 1][k] == rs[k];
      m[rs[|rs| - 1].bone := rs[|rs| - 1].node]
  }
  /**
    Source `k`'s bone maps to source `k`'s transform, unless a later source
    registers the same bone again.
  */
  lemma {:induction false} HumanoidMapNode(rs: seq<RotationTrack>, k: nat)
    requires k < |rs|
    requires forall j :: k < j < |rs| ==> rs[j].bone != rs[k].bone
    ensures rs[k].bone in HumanoidMap(rs) && HumanoidMap(rs)[rs[k].bone] == rs[k].node
    decreases |rs|
  {
    var init := rs[..|rs| - 1];
    if k < |rs| - 1 {
      assert init[k] == rs[k];
      HumanoidMapNode(init, k);
    }
  }


  /** The node a transform's channel targets: names.IndexOf(transform.name) over the scene's nodes. */
  function Target(scene: Scene, nameOf: Node -> string, n: Node): int {
    IndexOf(scene.nodes, nameOf(n))
  }

  function TargetOf(scene: Scene, nameOf: Node -> string): Node -> int {
    n => Target(scene, nameOf, n)
  }

  /** One position channel when a position source is set, none otherwise. */
  function PositionCount(e: Exporter): nat {
    if e.position.Some? then 1 else 0
  }

  /** The position block: its values in a fresh accessor and one translation channel, if a source is set. */
  function WirePosition(w: Wiring, input: nat, position: Option<PositionTrack>, target: Node -> int): (r: Wiring)
    requires WellWired(w) && input < |w.accessors|
    ensures WellWired(r)
    ensures position.None? ==> r == w
    ensures position.Some? ==>
      && r.accessors == w.accessors + [Vectors(position.value.values)]
      && r.samplers == w.samplers + [Sampler(input, |w.accessors|)]
      && r.channels == w.channels + [Channel(|w.samplers|, target(position.value.node), Translation)]
  {
    match position
    case None => w
    case Some(p) =>
      var (w1, output) := Extend(w, Vectors(p.values));
      AddChannel(w1, input, output, target(p.node), Translation)
  }

  /** The shared time axis, appended after the scene's own accessors; no samplers yet. */
  function TimesStage(e: Exporter, scene: Scene): (w: Wiring)
    ensures WellWired(w)
    ensures w.accessors == scene.accessors + [Scalars(e.times)] && w.samplers == [] && w.channels == []
  {
    Extend(Wiring(scene.accessors, [], []), Scalars(e.times)).0
  }

  /** After the position block. */
  function PositionStage(e: Exporter, scene: Scene, nameOf: Node -> string): (w: Wiring)
    ensures WellWired(w)
    ensures |w.accessors| == |scene.accessors| + 1 + PositionCount(e) && |w.samplers| == PositionCount(e)
  {
    WirePosition(TimesStage(e, scene), |scene.accessors|, e.position, TargetOf(scene, nameOf))
  }

  /** After the rotation blocks. */
  function RotationStage(e: Exporter, scene: Scene, nameOf: Node -> string): (w: Wiring)
    ensures WellWired(w)
    ensures |w.accessors| == |scene.accessors| + 1 + PositionCount(e) + |e.rotations|
    ensures |w.samplers| == PositionCount(e) + |e.rotations|
  {
    WireRotations(PositionStage(e, scene, nameOf), |scene.accessors|, e.rotations, TargetOf(scene, nameOf))
  }

  /**
    All accessors, samplers and channels of the export: the shared times,
    the position block, the rotation blocks and the expression blocks, in
    that order, starting after the scene's own accessors.
  */
  function Wire(e: Exporter, scene: Scene, nameOf: Node -> string, order: seq<ExpressionCurve>): (w: Wiring)
    ensures WellWired(w)
    ensures |w.accessors| == |scene.accessors| + 1 + PositionCount(e) + |e.rotations| + 2 * |order|
    ensures |w.samplers| == PositionCount(e) + |e.rotations| + |order|
  {
    WireExpressions(RotationStage(e, scene, nameOf), order, |scene.nodes|)
  }

  /**
    Export after the frames are recorded, with the expressions in the given
    `order`. Fails exactly when two expressions share a custom key.
  */
  function AssembleSorted(e: Exporter, scene: Scene, nameOf: Node -> string, order: seq<ExpressionCurve>): (r: Result<Document, ExportError>)
    ensures r.Failure? <==> HasDuplicateCustom(order, |order|)
    ensures r.Success? ==>
      && r.value.nodes == scene.nodes + PlaceholderNames(order)
      && r.value.animation.name == "vrm_animation"
      && r.value.humanoid.Keys == set k | 0 <= k < |e.rotations| :: e.rotations[k].bone
  {
    var w := Wire(e, scene, nameOf, order);
    var slots :- Partition(order, |scene.nodes|);
    Success(Document(
      scene.nodes + PlaceholderNames(order),
      w.accessors,
      Animation("vrm_animation", w.samplers, w.channels),
      HumanoidMap(e.rotations),
      slots))
  }

  /** VrmAnimationExporter.Export: the expressions sorted by name, then assembled. */
  function Export(e: Exporter, scene: Scene, nameOf: Node -> string): Result<Document, ExportError> {
    AssembleSorted(e, scene, nameOf, SortBy(e.expressions, CurveName))
  }
}
