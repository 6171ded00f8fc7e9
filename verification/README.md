# AnimationClipToVrma, modelled in Dafny

AnimationClipToVrma is a Unity editor tool. It turns a humanoid
`AnimationClip` into a VRM Animation (`.vrma`) file: a glTF document with a
`VRMC_vrm_animation` extension. This project models the conversion core:
`AnimationClipToVrmaCore.Create` with its `GetParentBone`, and the parts of
`VrmAnimationExporter` that `Create` drives:

- `SetPositionBoneAndParent` and `PositionExporter.Add`;
- `AddRotationBoneAndParent` and `RotationExporter.Add`;
- `AddExpression`, `AddFrame` and `Export`.

`Export` writes the accessors, samplers and channels, the `__expression_`
placeholder nodes, and the preset/custom expression table.

The model is functional. The exporter's mutable lists and dictionaries are
an `Exporter` value. Every call that changes the exporter is a function
from the old value to the new one. `Export` returns a `Document` or an
`ExportError`.

The Unity host becomes parameters of the model:
- a humanoid's bones are a set of present bones;
- a clip's pose at time `t` is a function to positions and rotations;
- a blend-shape curve is a function from time to weight;
- the scene `base.Export` builds is a list of node names and accessors.

Files, in dependency order:

- `wrappers.dfy`: `Option` and `Result` with failure propagation.
- `bones.dfy`: the 55 Unity humanoid bones in enumeration order, and the VRM 1.0 parent table with its ancestor chains.
- `geometry.dfy`: vectors, quaternions, and the two handedness conventions (negate X for positions, negate Y and Z for rotations).
- `expression_keys.dfy`: VRM expression presets, expression keys, and the case-insensitive preset parse.
- `ordinal.dfy`: ordinal string comparison and the sort by expression name.
- `tracks.dfy`: the exporter's state and its recording operations.
- `assembly.dfy`: `Export`, which is accessor wiring, placeholder nodes and the preset/custom partition.
- `export_layout.dfy`: what a successful export contains, block by block, and its order independence.
- `skeleton.dfy`: the bone map, `GetParentBone`, and rotation-source registration.
- `sampling.dfy`: the 30 fps frame grid and its millisecond-rounded recorded times, blend-shape bindings, key resolution and resampling.
- `clip_to_vrma.dfy`: the export callback and `Create`.

## Model

All source paths are under `Assets/AnimationClipToVrma/Package/Editor/`. They are written out in full below.

| member | source | states |
|---|---|---|
| Bones.Ancestors | Assets/AnimationClipToVrma/Package/Editor/AnimationClipToVrmaCore.cs:128-141 | the chain GetParentBone walks starts at the bone's parent, has one entry per level of depth, ends at the hips, and holds only bones shallower than the bone, so the walk terminates |
| Bones.AncestorsStep | Assets/AnimationClipToVrma/Package/Editor/AnimationClipToVrmaCore.cs:134-140 | each entry of the chain but the last is not the hips, and the entry after it is its parent, as `bone = parentBone` steps the walk |
| Skeleton.BoneMap | Assets/AnimationClipToVrma/Package/Editor/AnimationClipToVrmaCore.cs:91-97 | the bone map lists exactly the bones the Animator maps to a transform, each once, in enumeration order |
| Skeleton.GetParentBone | Assets/AnimationClipToVrma/Package/Editor/AnimationClipToVrmaCore.cs:126-145 | there is no parent exactly when no ancestor of the bone is in the map; otherwise the result is in the map and is the first mapped bone on the ancestor chain |
| Skeleton.HipsAnchorsEveryBone | Assets/AnimationClipToVrma/Package/Editor/AnimationClipToVrmaCore.cs:126-145 | the hips have no parent bone; with the hips mapped, every other bone finds a parent; a mapped canonical parent is chosen directly; a found parent is always shallower than the bone |
| Skeleton.RegisterRotationsSucceeds | Assets/AnimationClipToVrma/Package/Editor/AnimationClipToVrmaCore.cs:108-113 | the registration loop succeeds exactly when no bone occurs twice and none is already registered (Dictionary.Add throws on a repeated key) |
| Skeleton.RegisterRotationsAppends | Assets/AnimationClipToVrma/Package/Editor/AnimationClipToVrmaCore.cs:108-113 | a successful registration appends one source per bone, in order, on the bone's transform and measured against the nearest mapped ancestor or the root; nothing else changes |
| Sampling.FrameGrid | Assets/AnimationClipToVrma/Package/Editor/AnimationClipToVrmaCore.cs:76-79 | frame times strictly increase; every frame the loop visits lies in 0..length, so `Min(time, length)` never changes the time; for a non-negative length there is at least one frame and the last lies less than one frame before the end |
| Sampling.RecordedTimeNear | Assets/AnimationClipToVrma/Package/Editor/AnimationClipToVrmaCore.cs:117-119 | the time `AddFrame` records for frame `i` is a whole number of milliseconds within half a millisecond of `i / 30` |
| Sampling.RecordedTimeOffGrid | Assets/AnimationClipToVrma/Package/Editor/AnimationClipToVrmaCore.cs:117-119 | the rounding shows: frame 1 is recorded at 0.033 s, not 1/30 s, and a clip 2/30 s long has its last frame recorded at 0.067 s, after its end |
| Sampling.BlendShapeName | Assets/AnimationClipToVrma/Package/Editor/AnimationClipToVrmaCore.cs:43-48 | the blend-shape name is the property without the `blendShape.` prefix: putting the prefix back gives the property |
| ExpressionKeys.ParsePreset | Assets/AnimationClipToVrma/Package/Editor/AnimationClipToVrmaCore.cs:62 | a name parses to preset `p` exactly when it equals `p`'s name up to ASCII case |
| ExpressionKeys.PresetNamesDistinct | Assets/AnimationClipToVrma/Package/Editor/AnimationClipToVrmaCore.cs:62 | no two presets have names equal up to case, so the case-insensitive parse is unambiguous |
| Sampling.ResolveKey | Assets/AnimationClipToVrma/Package/Editor/AnimationClipToVrmaCore.cs:51-70 | with a map, exactly the mapped names resolve, to their mapped keys; without one every name resolves, to the preset it names up to case, or otherwise to a custom key of that very name |
| Sampling.ResolveWithoutMap | Assets/AnimationClipToVrma/Package/Editor/AnimationClipToVrmaCore.cs:59-70 | without a map, the resolved key's name equals the blend-shape name up to case, and a preset's own name resolves to that preset |
| Sampling.Resample | Assets/AnimationClipToVrma/Package/Editor/AnimationClipToVrmaCore.cs:73-86 | one keyframe per visited frame, at the frame's time, whose value times 100 is the curve at the clamped sample time |
| Sampling.ResampleNormalises | Assets/AnimationClipToVrma/Package/Editor/AnimationClipToVrmaCore.cs:80-83 | a weight curve within 0..100 resamples into 0..1 |
| Sampling.CurveOf | Assets/AnimationClipToVrma/Package/Editor/AnimationClipToVrmaCore.cs:41-87 | a binding contributes a curve exactly when it animates a skinned mesh's `blendShape.` property whose name resolves; the curve carries the resolved key and the resampled keys |
| Sampling.CurvesMembership | Assets/AnimationClipToVrma/Package/Editor/AnimationClipToVrmaCore.cs:41-88 | a curve is among those registered exactly when some binding contributes it |
| Sampling.RegisterExpressionsAppends | Assets/AnimationClipToVrma/Package/Editor/AnimationClipToVrmaCore.cs:41-88 | the binding loop appends exactly the contributed curves, in binding order, and leaves times, position and rotations alone |
| Sampling.CurvesOnFrameGrid | Assets/AnimationClipToVrma/Package/Editor/AnimationClipToVrmaCore.cs:73-84 | every registered curve has one keyframe per frame, at the frame times |
| ClipToVrma.AddFrames | Assets/AnimationClipToVrma/Package/Editor/AnimationClipToVrmaCore.cs:115-120 | the frame loop appends the frame times and keeps the expressions, the position source's node and root, and every rotation source's bone, node and parent; sample counts stay aligned with the times |
| ClipToVrma.AddFramesSample | Assets/AnimationClipToVrma/Package/Editor/AnimationClipToVrmaCore.cs:115-120 | the `i`-th sample of every source is its value in the pose at frame `i`'s sample time |
| ClipToVrma.CallbackWithoutHips | Assets/AnimationClipToVrma/Package/Editor/AnimationClipToVrmaCore.cs:99-103 | without hips the callback stops after the expressions: no times, no position, no rotations |
| ClipToVrma.CallbackUnfold | Assets/AnimationClipToVrma/Package/Editor/AnimationClipToVrmaCore.cs:105-120 | with hips, the callback is the frame loop run on the exporter holding the expressions, the hips position source on the root, and one rotation source per mapped bone |
| ClipToVrma.CallbackWithHips | Assets/AnimationClipToVrma/Package/Editor/AnimationClipToVrmaCore.cs:99-120 | with hips, the callback succeeds; it records every frame time, sets the hips position source against the root, registers the bone map in order with each bone's effective parent, keeps the sources aligned, and registers the clip's curves |
| ClipToVrma.ExpressionsShareTimeAxis | Assets/AnimationClipToVrma/Package/Editor/AnimationClipToVrmaCore.cs:76-84 | with hips, every expression has one key per recorded frame; key `i` lies at `i / 30`, and the humanoid time recorded for frame `i` is that time rounded to the millisecond |
| ClipToVrma.FrameSample | Assets/AnimationClipToVrma/Package/Editor/AnimationClipToVrmaCore.cs:115-119 | frame `i` is recorded at `i / 30` rounded to the millisecond, but sampled at `i / 30` itself; its position sample is the hips in root space with X negated; every rotation sample is the rotation relative to the effective parent with Y and Z negated |
| ClipToVrma.CreateFailure | Assets/AnimationClipToVrma/Package/Editor/AnimationClipToVrmaCore.cs:35-123 | in the model, Create fails exactly when two contributed curves share a custom expression name (a blend shape read as the `custom` member is outside this statement; see Left out) |
| ClipToVrma.CreateWithoutHips | Assets/AnimationClipToVrma/Package/Editor/AnimationClipToVrmaCore.cs:99-103 | without hips the file still carries one channel per contributed curve and an empty humanoid bone map |
| Tracks.PositionValue | Assets/AnimationClipToVrma/Package/Editor/VrmAnimationExporter.cs:38-42 | a position sample is the node's position in the root's local space with X negated: mirroring it back gives that point, and Y and Z are unchanged |
| Tracks.RotationValue | Assets/AnimationClipToVrma/Package/Editor/VrmAnimationExporter.cs:62-66 | a rotation sample is the node's rotation relative to its parent in the Y/Z-negated convention; it is the identity when node and parent are equal unit rotations |
| Geometry.InverseIsInverse | Assets/AnimationClipToVrma/Package/Editor/VrmAnimationExporter.cs:64 | for a unit quaternion the conjugate is a two-sided inverse |
| Geometry.RotationSample | Assets/AnimationClipToVrma/Package/Editor/VrmAnimationExporter.cs:64-65 | flipping the relative rotation equals the relative rotation of the flipped rotations; equal unit rotations give the identity |
| Geometry.FlipPreservesProduct | Assets/AnimationClipToVrma/Package/Editor/VrmAnimationExporter.cs:65 | the Y/Z flip commutes with the quaternion product and with the inverse |
| Geometry.MirrorRotation | Assets/AnimationClipToVrma/Package/Editor/VrmAnimationExporter.cs:40-65 | mirroring X after a rotation equals rotating the mirrored vector by the flipped quaternion, so the position and rotation conventions describe one change of handedness |
| Tracks.SetPositionBoneAndParent | Assets/AnimationClipToVrma/Package/Editor/VrmAnimationExporter.cs:45-48 | installs a fresh position source for the node and root, replacing any earlier one; nothing else changes |
| Tracks.AddRotationBoneAndParent | Assets/AnimationClipToVrma/Package/Editor/VrmAnimationExporter.cs:69-72 | fails exactly when the bone is already registered; otherwise appends an empty source for it and changes nothing else |
| Tracks.AddExpression | Assets/AnimationClipToVrma/Package/Editor/VrmAnimationExporter.cs:90-97 | appends the key and curve to the expressions; nothing else changes |
| Tracks.AddFrame | Assets/AnimationClipToVrma/Package/Editor/VrmAnimationExporter.cs:101-109 | appends the time and one sample to the position source (if any) and to every rotation source, in order; keeps their nodes and parents; keeps sample counts aligned with the times |
| Ordinal.Compare | Assets/AnimationClipToVrma/Package/Editor/VrmAnimationExporter.cs:120 | returns the sign of the ordinal comparison (-1, 0 or 1), whose sign is all `List.Sort` uses, and 0 exactly for equal strings |
| Ordinal.CompareFlip | Assets/AnimationClipToVrma/Package/Editor/VrmAnimationExporter.cs:120 | swapping the arguments negates the comparison |
| Ordinal.LeqTransitive | Assets/AnimationClipToVrma/Package/Editor/VrmAnimationExporter.cs:120 | the ordinal order is transitive |
| Ordinal.LeqAntisymmetric | Assets/AnimationClipToVrma/Package/Editor/VrmAnimationExporter.cs:120 | the ordinal order is antisymmetric |
| Ordinal.LeqTotal | Assets/AnimationClipToVrma/Package/Editor/VrmAnimationExporter.cs:120 | the ordinal order is total |
| Ordinal.SortBy | Assets/AnimationClipToVrma/Package/Editor/VrmAnimationExporter.cs:120 | the sorted expressions are ordered by name and are a permutation of the input |
| Ordinal.SortedUnique | Assets/AnimationClipToVrma/Package/Editor/VrmAnimationExporter.cs:120 | with distinct names, two sorted permutations of the same expressions are equal, so every sort gives the same order |
| Ordinal.DistinctKeysPermutation | Assets/AnimationClipToVrma/Package/Editor/VrmAnimationExporter.cs:120 | distinct names stay distinct under any reordering |
| ExportLayout.ExportOrderIndependent | Assets/AnimationClipToVrma/Package/Editor/VrmAnimationExporter.cs:120 | with distinct expression names, assembling any sorted permutation gives the same document as Export, so the output does not depend on registration order or on the sort's stability |
| Assembly.IndexOf | Assets/AnimationClipToVrma/Package/Editor/VrmAnimationExporter.cs:135 | List.IndexOf is -1 exactly when the name is absent, and otherwise the first position holding it |
| Assembly.Extend | Assets/AnimationClipToVrma/Package/Editor/VrmAnimationExporter.cs:127 | appending accessor data returns the index at which it landed and keeps everything else |
| Assembly.AddChannel | Assets/AnimationClipToVrma/Package/Editor/VrmAnimationExporter.cs:133-135 | a new sampler is appended, and a channel is appended whose sampler index is that sampler's position; the wiring stays well formed |
| Assembly.WirePosition | Assets/AnimationClipToVrma/Package/Editor/VrmAnimationExporter.cs:130-136 | with a position source: one new accessor of its samples, one sampler reading it against the shared times, and one translation channel on the source's node; without one the wiring is unchanged |
| Assembly.WireRotations | Assets/AnimationClipToVrma/Package/Editor/VrmAnimationExporter.cs:137-143 | the rotation loop adds exactly one accessor and one sampler per rotation source and keeps the wiring well formed |
| Assembly.WireRotationsLayout | Assets/AnimationClipToVrma/Package/Editor/VrmAnimationExporter.cs:137-143 | rotation source `j` gets the `j`-th new accessor holding its samples, a sampler reading the time axis, and a rotation channel on its node |
| Assembly.WireExpressions | Assets/AnimationClipToVrma/Package/Editor/VrmAnimationExporter.cs:153-164 | the expression loop adds exactly two accessors and one sampler per expression and keeps the wiring well formed |
| Assembly.WireExpressionsAccessors | Assets/AnimationClipToVrma/Package/Editor/VrmAnimationExporter.cs:153-160 | expression `j` gets two consecutive accessors: its key times, then its weights as X of a vector with zero Y and Z |
| Assembly.WireExpressionsChannels | Assets/AnimationClipToVrma/Package/Editor/VrmAnimationExporter.cs:161-163 | expression `j`'s sampler reads its own two accessors, and its translation channel targets placeholder node `firstNode + j` |
| Assembly.PartitionStep | Assets/AnimationClipToVrma/Package/Editor/VrmAnimationExporter.cs:173-192 | a preset key overwrites its slot when the VRM Animation `Preset` class has a field for it (`field != null`), and changes nothing otherwise; a custom key is added to the custom map and fails exactly when its name is already there |
| Assembly.PartitionPrefixSpec | Assets/AnimationClipToVrma/Package/Editor/VrmAnimationExporter.cs:171-193 | the partition loop fails exactly when two of the expressions seen so far share a custom name; on success the custom map's names are exactly the custom names seen |
| Assembly.PresetSlot | Assets/AnimationClipToVrma/Package/Editor/VrmAnimationExporter.cs:174-187 | a preset slot is filled exactly when the preset has a `Preset` field and some expression seen carries it, and holds the node of the last such expression |
| Assembly.CustomSlot | Assets/AnimationClipToVrma/Package/Editor/VrmAnimationExporter.cs:189-192 | every custom expression's name maps to its own placeholder node |
| Assembly.Partition | Assets/AnimationClipToVrma/Package/Editor/VrmAnimationExporter.cs:171-195 | the partition fails exactly on a shared custom name; the custom table is omitted exactly when every key is a preset |
| Assembly.HumanoidMap | Assets/AnimationClipToVrma/Package/Editor/VrmAnimationExporter.cs:165 | the humanoid bone map's bones are exactly the registered rotation bones |
| Assembly.HumanoidMapNode | Assets/AnimationClipToVrma/Package/Editor/VrmAnimationExporter.cs:165 | each registered bone maps to the transform of its rotation source (the last one, should a bone repeat) |
| Assembly.AssembleSorted | Assets/AnimationClipToVrma/Package/Editor/VrmAnimationExporter.cs:113-198 | export fails exactly when two expressions share a custom name; otherwise the nodes are the scene's followed by one placeholder per expression, the animation is named `vrm_animation`, and the humanoid map covers exactly the registered bones |
| ExportLayout.ExportTimes | Assets/AnimationClipToVrma/Package/Editor/VrmAnimationExporter.cs:127-164 | the scene's accessors come first and are unchanged; then the shared time axis, then one accessor per position and rotation source and two per expression; there is one sampler and one channel per source, and channel `k` uses sampler `k` |
| ExportLayout.ExportPosition | Assets/AnimationClipToVrma/Package/Editor/VrmAnimationExporter.cs:130-136 | when no two expressions share a custom name and a position source is set, the accessor after the time axis holds its samples, and the first channel translates its node along the time axis |
| ExportLayout.ExportRotation | Assets/AnimationClipToVrma/Package/Editor/VrmAnimationExporter.cs:137-143 | rotation source `j` owns the accessor after the position block plus `j`; its sampler reads the time axis, and its channel rotates the source's node |
| ExportLayout.ExportExpression | Assets/AnimationClipToVrma/Package/Editor/VrmAnimationExporter.cs:146-164 | expression `j` in sorted order gets placeholder node `__expression_<name>` after the scene's nodes, its own time and weight accessors, and a translation channel on that node |
| ExportLayout.TargetNamesNode | Assets/AnimationClipToVrma/Package/Editor/VrmAnimationExporter.cs:125-135 | a transform's channel targets the first scene node carrying its name, or -1 when no scene node does |
| ExportLayout.ExportPresetSlot | Assets/AnimationClipToVrma/Package/Editor/VrmAnimationExporter.cs:171-194 | a preset slot is set exactly when the preset has a `Preset` field (the four look directions have none) and some expression carries it; it holds the placeholder node of the last such expression in export order, named after the preset |
| ExportLayout.ExportCustomSlot | Assets/AnimationClipToVrma/Package/Editor/VrmAnimationExporter.cs:189-195 | the custom table is present exactly when some key is custom, and maps every custom name to its own placeholder node |
| ExportLayout.DuplicateCustomPermutation | Assets/AnimationClipToVrma/Package/Editor/VrmAnimationExporter.cs:120 | sorting cannot remove a shared custom name |
| ExportLayout.ExportFailure | Assets/AnimationClipToVrma/Package/Editor/VrmAnimationExporter.cs:191 | Export fails exactly when two registered expressions share a custom name, whatever order they were registered in |

## Left out

- Unity editor I/O is not modelled: the editor window, file writing, `ToGlbBytes` and `GltfSerializer.SerializeTo`. The document is returned as a value, not as bytes.
- `base.Export` is not modelled. The node names and accessors it produces are a `Scene` parameter, and a transform's name is a `nameOf` parameter.
- `VrmAnimationUtil.Create` is modelled only as the bone-to-node map it receives. Its other output is not part of this model.
- `AnimationUtility.GetCurveBindings` and `GetEditorCurve` become the clip's `bindings`, and `AnimationCurve.Evaluate` becomes a function from time to weight.
- `clip.SampleAnimation` and the transform reads become the clip's `pose` function. It gives each node's world position and rotation at a time. Its side effect on the scene is not modelled.
- The Animator's transform for bone `b` is written `BoneNode(b)`. The model does not distinguish two bones that share one transform.
- The avatar root is `AvatarRoot` or `AnimatorTransform`.
- Arithmetic is over exact reals. The model leaves out float rounding: of `i / 30f`, of the conversions between `float` and `double` around `TimeSpan`, and of `Mathf.FloorToInt` on a rounded product. The millisecond rounding in `TimeSpan.FromSeconds` is modelled (`Sampling.MillisecondTime`) as the Mono class library in Unity's editor does it; runtimes that do not round there are not modelled.
- ClipToVrma.ExpressionsShareTimeAxis: states that a recorded humanoid time is the matching expression key time rounded to the millisecond, not that the two are equal, because `TimeSpan.FromSeconds` rounds the humanoid times and nothing rounds the expression keys.
- `Quaternion.Inverse` is the conjugate, which is the inverse for unit quaternions.
- `Enum.TryParse<ExpressionPreset>` is modelled as a case-insensitive (ASCII) match against the 18 preset names. Not modelled: its numeric, comma-separated and whitespace-padded forms, non-ASCII case folding, and the `custom` member.
- ExpressionKeys.ParsePreset: returns `None` for a name `Enum.TryParse` accepts as the `custom` member (any letter case) or in its numeric, comma-separated or padded forms, where the source's parse succeeds (AnimationClipToVrmaCore.cs:62).
- Sampling.ResolveWithoutMap: for such a name the source calls `ExpressionKey.CreateFromPreset` (AnimationClipToVrmaCore.cs:62-64), not `CreateCustom`; the model gives a custom key of the blend shape's name. `ExpressionKey` is not part of this model, so what `CreateFromPreset` makes of the `custom` member is not stated.
- Sampling.ResolveKey: with no expression map it inherits the difference above; with a map it is unaffected.
- ClipToVrma.CreateFailure: its "exactly when" holds for the model; for a clip with a blend shape named `custom` and no expression map, the source's `Create` may behave differently (the key comes from `CreateFromPreset`), so the statement does not cover that case. The editor window always passes a map, and builds its keys with a `custom` guard of its own (AnimationClipToVrmAnimationWindow.cs:83-85), so it never takes the no-map fallback; the window is not part of this model.
- `String.StartsWith("blendShape.")` is culture-sensitive in .NET. It is modelled as an ordinal prefix test.
- `String.Compare(..., Ordinal)` compares UTF-16 code units. The model compares characters. The two orders differ only for characters outside the Basic Multilingual Plane.
- `List.Sort` is unstable. The model does not pick one unstable order. `AssembleSorted` is stated for every order sorted by name, and `Export` uses one of them.
- `ExtendBufferAndGetAccessorIndex` is modelled as an append that returns the new accessor's index, for an empty array too. How UniGLTF treats an empty array is not part of this model. So without hips the model always appends the empty shared time accessor. If the accessor writer skipped empty arrays instead, the expression accessors that `ExportLayout.ExportTimes` and `ExportLayout.ExportExpression` place would each sit one index earlier.
- The preset field lookup through reflection (`typeof(Preset).GetField` with `IgnoreCase`) is modelled by `ExpressionKeys.HasPresetField`. The VRM Animation `Preset` class has a field for every preset except `lookUp`, `lookDown`, `lookLeft` and `lookRight`. A preset without a field fills no slot. The class itself is not part of this model.
- `using` and `Dispose` of the exporter, and `Prepare`, are left out. They change nothing the model observes.
- Exceptions become `ExportError` values:
  - `Dictionary.Add` with a repeated bone gives `DuplicateBone`;
  - `customExpressions.Add` with a repeated name gives `DuplicateCustomExpression`.
  
  The bone map never repeats a bone, so only the second error can reach `Create`.
- These functions carry no contract of their own. Lemmas state their behaviour:
  - `Bones.Parent`, the VRM 1.0 parent table: `Bones.Ancestors`, `Bones.AncestorsStep` and `Skeleton.HipsAnchorsEveryBone`;
  - `Skeleton.RegisterRotations`: `RegisterRotationsSucceeds` and `RegisterRotationsAppends`;
  - `Sampling.RegisterExpressions`: `RegisterExpressionsAppends`;
  - `Assembly.PartitionPrefix`: `PartitionPrefixSpec`, `PresetSlot` and `CustomSlot`;
  - `Assembly.Export`: `Assembly.AssembleSorted` and the `ExportLayout` lemmas;
  - `ClipToVrma.Callback`: `CallbackWithoutHips`, `CallbackUnfold`, `CallbackWithHips`, `ExpressionsShareTimeAxis` and `FrameSample`;
  - `ClipToVrma.Create`: `CreateFailure` and `CreateWithoutHips`.

## Where the comments and the code differ

- `AnimationClipToVrmaCore.cs:75` calls the expression loop a resampling at the frame frequency, and lines 79 and 118 clamp each time to the clip length with `Mathf.Min`. Over exact reals the clamp never acts (`Sampling.FrameGrid`): the loops stop at frame `floor(length * 30)`. So the last frame reaches the clip's end only when `length * 30` is a whole number.
- The humanoid times pass through `TimeSpan.FromSeconds` (`AnimationClipToVrmaCore.cs:119`), which rounds to the millisecond. The expression keys keep `i / 30` (line 83). The two time axes therefore differ by up to half a millisecond, and a recorded humanoid time can lie past the clip's end (`Sampling.RecordedTimeOffGrid`, `ClipToVrma.ExpressionsShareTimeAxis`).
- The comment at `AnimationClipToVrmaCore.cs:101` says a missing hips bone is logged as an error. The code logs nothing and only returns from the callback. The export still runs. It writes an empty shared time accessor that no sampler reads, and writes each expression channel over its own key times (`ClipToVrma.CallbackWithoutHips`, `ClipToVrma.CreateWithoutHips`, `Assembly.WireExpressionsChannels`).
- The comment at `VrmAnimationExporter.cs:119` says the sort gives a consistent export order. That holds when expression names are distinct (`ExportLayout.ExportOrderIndependent`). Two blend shapes that resolve to the same preset share a name. For them the unstable `List.Sort` decides which one fills the preset slot.
- A blend shape named `lookUp`, `lookDown`, `lookLeft` or `lookRight` (without an expression map) gets a placeholder node and a channel but no preset slot, because the `Preset` class has no such field (`Assembly.PresetSlot`).
- Two skinned meshes with a blend shape of the same custom name give two curves with one custom name. `customExpressions.Add` (`VrmAnimationExporter.cs:191`) then throws, so `Create` fails (`ClipToVrma.CreateFailure`).
