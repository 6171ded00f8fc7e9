/**
  The humanoid bone vocabulary and its canonical hierarchy.

  `Bone` covers Unity's HumanBodyBones (the `LastBone` sentinel is not a bone
  and is left out of the type). `Index` is the bone's value in that
  enumeration, which fixes the order Enum.GetValues produces. The VRM 1.0
  humanoid bones correspond one to one; the only naming difference is the
  thumb, where Unity's Proximal, Intermediate and Distal thumb segments are
  VRM's thumbMetacarpal, thumbProximal and thumbDistal, so the conversion in
  both directions is the identity on this type.

  `Parent` is the static parent table of the VRM 1.0 humanoid specification and
  `Depth` the number of parent steps from a bone up to Hips; every step of the
  table lowers `Depth` by one, which is what makes the parent walk terminate.
*/
module Bones {

  datatype Side = Left | Right
  datatype Finger = Thumb | IndexFinger | Middle | Ring | Little
  datatype Segment = Proximal | Intermediate | Distal

  datatype Bone =
    | Hips | Spine | Chest | UpperChest | Neck | Head | Jaw
    | Eye(side: Side)
    | UpperLeg(side: Side) | LowerLeg(side: Side) | Foot(side: Side) | Toes(side: Side)
    | Shoulder(side: Side) | UpperArm(side: Side) | LowerArm(side: Side) | Hand(side: Side)
    | Digit(side: Side, finger: Finger, segment: Segment)

  /** The number of bones (the value of HumanBodyBones.LastBone). */
  const BoneCount: nat := 55

  function SideIndex(s: Side): nat {
    match s
    case Left => 0
    case Right => 1
  }

  function FingerIndex(f: Finger): nat {
    match f
    case Thumb => 0
    case IndexFinger => 1
    case Middle => 2
    case Ring => 3
    case Little => 4
  }

  function SegmentIndex(g: Segment): nat {
    match g
    case Proximal => 0
    case Intermediate => 1
    case Distal => 2
  }

  /** The bone's value in the HumanBodyBones enumeration. */
  function Index(b: Bone): (i: nat)
    ensures i < BoneCount
  {
    match b
    case Hips => 0
    case UpperLeg(s) => 1 + SideIndex(s)
    case LowerLeg(s) => 3 + SideIndex(s)
    case Foot(s) => 5 + SideIndex(s)
    case Spine => 7
    case Chest => 8
    case Neck => 9
    case Head => 10
    case Shoulder(s) => 11 + SideIndex(s)
    case UpperArm(s) => 13 + SideIndex(s)
    case LowerArm(s) => 15 + SideIndex(s)
    case Hand(s) => 17 + SideIndex(s)
    case Toes(s) => 19 + SideIndex(s)
    case Eye(s) => 21 + SideIndex(s)
    case Jaw => 23
    case Digit(s, f, g) => 24 + 15 * SideIndex(s) + 3 * FingerIndex(f) + SegmentIndex(g)
    case UpperChest => 54
  }

  function SideAt(i: nat): Side
    requires i < 2
  {
    if i == 0 then Left else Right
  }

  function FingerAt(i: nat): Finger
    requires i < 5
  {
    if i == 0 then Thumb
    else if i == 1 then IndexFinger
    else if i == 2 then Middle
    else if i == 3 then Ring
    else Little
  }

  function SegmentAt(i: nat): Segment
    requires i < 3
  {
    if i == 0 then Proximal
    else if i == 1 then Intermediate
    else Distal
  }

  /** The bone whose HumanBodyBones value is `i`. */
  function BoneAt(i: nat): Bone
    requires i < BoneCount
  {
    if i == 0 then Hips
    else if i < 3 then UpperLeg(SideAt(i - 1))
    else if i < 5 then LowerLeg(SideAt(i - 3))
    else if i < 7 then Foot(SideAt(i - 5))
    else if i == 7 then Spine
    else if i == 8 then Chest
    else if i == 9 then Neck
    else if i == 10 then Head
    else if i < 13 then Shoulder(SideAt(i - 11))
    else if i < 15 then UpperArm(SideAt(i - 13))
    else if i < 17 then LowerArm(SideAt(i - 15))
    else if i < 19 then Hand(SideAt(i - 17))
    else if i < 21 then Toes(SideAt(i - 19))
    else if i < 23 then Eye(SideAt(i - 21))
    else if i == 23 then Jaw
    else if i < 54 then
      var d := i - 24;
      var s := if d < 15 then 0 else 1;
      var e := d - 15 * s;
      var f := if e < 3 then 0 else if e < 6 then 1 else if e < 9 then 2 else if e < 12 then 3 else 4;
      Digit(SideAt(s), FingerAt(f), SegmentAt(e - 3 * f))
    else UpperChest
  }

  /** Index and BoneAt are inverse to each other. */
  lemma IndexBoneAt(i: nat)
    requires i < BoneCount
    ensures Index(BoneAt(i)) == i
  {
  }

  lemma BoneAtIndex(b: Bone)
    ensures BoneAt(Index(b)) == b
  {
    match b
    case Digit(s, f, g) =>
    case _ =>
  }

  /** Every bone, in enumeration order: position `i` holds the bone with value `i`. */
  function AllBones(): (all: seq<Bone>)
    ensures |all| == BoneCount
    ensures forall i :: 0 <= i < |all| ==> Index(all[i]) == i
    ensures forall b: Bone :: all[Index(b)] == b
  {
    var all := seq(BoneCount, i requires 0 <= i < BoneCount => BoneAt(i));
    assert forall i :: 0 <= i < |all| ==> Index(all[i]) == i by {
      forall i | 0 <= i < |all| ensures Index(all[i]) == i {
        IndexBoneAt(i);
      }
    }
    assert forall b: Bone :: all[Index(b)] == b by {
      forall b: Bone ensures all[Index(b)] == b {
        BoneAtIndex(b);
      }
    }
    all
  }

  /** Number of parent steps from `b` up to Hips in the canonical table. */
  function Depth(b: Bone): nat {
    match b
    case Hips => 0
    case Spine => 1
    case Chest => 2
    case UpperChest => 3
    case Neck => 4
    case Head => 5
    case Jaw => 6
    case Eye(_) => 6
    case UpperLeg(_) => 1
    case LowerLeg(_) => 2
    case Foot(_) => 3
    case Toes(_) => 4
    case Shoulder(_) => 4
    case UpperArm(_) => 5
    case LowerArm(_) => 6
    case Hand(_) => 7
    case Digit(_, _, g) => 8 + SegmentIndex(g)
  }

  /** The canonical parent of every bone except Hips, which has none. */
  function Parent(b: Bone): Bone
    requires b != Hips
  {
    match b
    case Spine => Hips
    case Chest => Spine
    case UpperChest => Chest
    case Neck => UpperChest
    case Head => Neck
    case Jaw => Head
    case Eye(_) => Head
    case UpperLeg(_) => Hips
    case LowerLeg(s) => UpperLeg(s)
    case Foot(s) => LowerLeg(s)
    case Toes(s) => Foot(s)
    case Shoulder(_) => UpperChest
    case UpperArm(s) => Shoulder(s)
    case LowerArm(s) => UpperArm(s)
    case Hand(s) => LowerArm(s)
    case Digit(s, f, Proximal) => Hand(s)
    case Digit(s, f, Intermediate) => Digit(s, f, Proximal)
    case Digit(s, f, Distal) => Digit(s, f, Intermediate)
  }

  /** Each step of the parent table lowers the depth by exactly one. */
  lemma ParentIsShallower(b: Bone)
    requires b != Hips
    ensures Depth(Parent(b)) + 1 == Depth(b)
  {
  }

  /** Hips is the one bone at depth zero, so it is the one bone without a parent. */
  lemma DepthZeroIsHips(b: Bone)
    ensures Depth(b) == 0 <==> b == Hips
  {
  }

  /**
    The canonical ancestors of `b`, nearest first: its parent, its parent's
    parent, and so on up to and including Hips.
  */
  function Ancestors(b: Bone): (chain: seq<Bone>)
    ensures |chain| == Depth(b)
    ensures b != Hips ==> chain[0] == Parent(b) && chain[|chain| - 1] == Hips
    ensures forall k :: 0 <= k < |chain| ==> Depth(chain[k]) < Depth(b)
    decreases Depth(b)
  {
    if b == Hips then []
    else
      ParentIsShallower(b);
      DepthZeroIsHips(Parent(b));
      [Parent(b)] + Ancestors(Parent(b))
  }

  /**
    The ancestor chain is the parent table walked step by step: an entry
    followed by another is not the hips, and the next entry is its parent.
  */
  lemma {:induction false} AncestorsStep(b: Bone, k: nat)
    requires k + 1 < |Ancestors(b)|
    ensures Ancestors(b)[k] != Hips && Ancestors(b)[k + 1] == Parent(Ancestors(b)[k])
    decreases Depth(b)
  {
    var chain, rest := Ancestors(b), Ancestors(Parent(b));
    ParentIsShallower(b);
    assert chain == [Parent(b)] + rest;
    assert chain[k + 1] == rest[k];
    if k == 0 {
      DepthZeroIsHips(Parent(b));
    } else {
      AncestorsStep(Parent(b), k - 1);
      assert chain[k] == rest[k - 1];
    }
  }
}
