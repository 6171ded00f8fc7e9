/**
  The humanoid side of the clip-to-animation conversion: which bones the
  Animator maps to a transform, the bone map built from them in enumeration
  order, the nearest present ancestor of a bone (GetParentBone), and the
  registration of one rotation source per mapped bone.

  The Animator's transform for bone `b` is `BoneNode(b)`; the avatar root is
  `AvatarRoot` when one is set, and the Animator's own transform otherwise.
*/
module Skeleton {
  import opened Wrappers
  import opened Bones
  import opened Tracks

  /** An Animator: the bones GetBoneTransform finds, and whether avatarRoot is set. */
  datatype Humanoid = Humanoid(present: set<Bone>, hasAvatarRoot: bool)

  /** No element occurs twice. */
  ghost predicate NoDuplicates<T>(s: seq<T>) {
    forall i, j :: 0 <= i < j < |s| ==> s[i] != s[j]
  }

  /** The present bones whose enumeration value is at least `i`, in enumeration order. */
  function BonesFrom(present: set<Bone>, i: nat): (r: seq<Bone>)
    requires i <= BoneCount
    ensures forall b :: b in r <==> b in present && i <= Index(b)
    ensures forall k, l :: 0 <= k < l < |r| ==> Index(r[k]) < Index(r[l])
    decreases BoneCount - i
  {
    if i == BoneCount then []
    else
      var rest := BonesFrom(present, i + 1);
      var b := BoneAt(i);
      IndexBoneAt(i);
      assert forall c :: Index(c) == i ==> c == b by {
        forall c | Index(c) == i ensures c == b {
          BoneAtIndex(c);
        }
      }
      if b in present then [b] + rest else rest
  }

  /**
    The bone map: every bone but LastBone, in enumeration order, that the
    Animator maps to a transform. It lists each present bone exactly once.
  */
  function BoneMap(h: Humanoid): (bones: seq<Bone>)
    ensures forall b :: b in bones <==> b in h.present
    ensures forall k, l :: 0 <= k < l < |bones| ==> Index(bones[k]) < Index(bones[l])
    ensures NoDuplicates(bones)
  {
    BonesFrom(h.present, 0)
  }

  /** avatarRoot when set, the Animator's own transform otherwise. */
  function RootTransform(h: Humanoid): Node {
    if h.hasAvatarRoot then AvatarRoot else AnimatorTransform
  }

  /** `x` occurs in `chain`, and no element before that occurrence is in `present`. */
  ghost predicate FirstPresentAt(chain: seq<Bone>, present: set<Bone>, x: Bone) {
    exists k :: 0 <= k < |chain| && chain[k] == x && forall k' :: 0 <= k' < k ==> chain[k'] !in present
  }

  /**
    GetParentBone: walks the canonical parent chain from `b` and yields the
    first bone present in the map; none at the hips or when no ancestor is
    present.
  */
  function GetParentBone(present: set<Bone>, b: Bone): (r: Option<Bone>)
    ensures r.None? <==> forall k :: 0 <= k < |Ancestors(b)| ==> Ancestors(b)[k] !in present
    ensures r.Some? ==> r.value in present && FirstPresentAt(Ancestors(b), present, r.value)
    decreases Depth(b)
  {
    if b == Hips then None
    else
      var p := Parent(b);
      ParentIsShallower(b);
      AncestorsUnfold(b);
      NonePresentShift(present, b);
      if p in present then
        assert Ancestors(b)[0] == p;
        Some(p)
      else
        var r := GetParentBone(present, p);
        if r.Some? then FirstPresentShift(present, b, r.value); r
        else r
  }

  /** The ancestors of a bone other than the hips: its parent, then the parent's ancestors. */
  lemma AncestorsUnfold(b: Bone)
    requires b != Hips
    ensures Ancestors(b) == [Parent(b)] + Ancestors(Parent(b))
  {
    ParentIsShallower(b);
    DepthZeroIsHips(Parent(b));
  }

  /** No bone of `b`'s chain is present exactly when its parent is absent and no bone of the parent's chain is. */
  lemma NonePresentShift(present: set<Bone>, b: Bone)
    requires b != Hips
    ensures (forall k :: 0 <= k < |Ancestors(b)| ==> Ancestors(b)[k] !in present)
        <==> Parent(b) !in present && forall k :: 0 <= k < |Ancestors(Parent(b))| ==> Ancestors(Parent(b))[k] !in present
  {
    AncestorsUnfold(b);
    NonePresentCons(present, Parent(b), Ancestors(Parent(b)));
  }

  /** Past an absent parent, the first present bone of the parent's chain is the first of the bone's chain. */
  lemma FirstPresentShift(present: set<Bone>, b: Bone, x: Bone)
    requires b != Hips && Parent(b) !in present
    requires FirstPresentAt(Ancestors(Parent(b)), present, x)
    ensures FirstPresentAt(Ancestors(b), present, x)
  {
    AncestorsUnfold(b);
    FirstPresentCons(present, Parent(b), Ancestors(Parent(b)), x);
  }

  /** A chain has no present bone exactly when its head is absent and its tail has none. */
  lemma NonePresentCons(present: set<Bone>, p: Bone, rest: seq<Bone>)
    ensures (forall k :: 0 <= k < |[p] + rest| ==> ([p] + rest)[k] !in present)
        <==> p !in present && forall k :: 0 <= k < |rest| ==> rest[k] !in present
  {
    var chain := [p] + rest;
    if p !in present && forall k :: 0 <= k < |rest| ==> rest[k] !in present {
      forall k | 0 <= k < |chain| ensures chain[k] !in present {
        if k > 0 {
          assert chain[k] == rest[k - 1];
        }
      }
    }
    if forall k :: 0 <= k < |chain| ==> chain[k] !in present {
      assert chain[0] == p;
      forall k | 0 <= k < |rest| ensures rest[k] !in present {
        assert rest[k] == chain[k + 1] && chain[k + 1] !in present;
      }
    }
  }

  /** An absent bone in front of a chain keeps the chain's first present bone. */
  lemma FirstPresentCons(present: set<Bone>, p: Bone, rest: seq<Bone>, x: Bone)
    requires p !in present
    requires FirstPresentAt(rest, present, x)
    ensures FirstPresentAt([p] + rest, present, x)
  {
    var chain := [p] + rest;
    var k :| 0 <= k < |rest| && rest[k] == x && forall k' :: 0 <= k' < k ==> rest[k'] !in present;
    assert chain[k + 1] == x;
    forall k' | 0 <= k' < k + 1 ensures chain[k'] !in present {
      if k' > 0 {
        assert chain[k'] == rest[k' - 1];
      }
    }
  }

  /**
    The hips never have a parent bone; with the hips present every other
    bone finds one, and a bone whose canonical parent is present gets
    exactly that parent.
  */
  lemma HipsAnchorsEveryBone(present: set<Bone>, b: Bone)
    ensures GetParentBone(present, Hips) == None
    ensures Hips in present && b != Hips ==> GetParentBone(present, b).Some?
    ensures b != Hips && Parent(b) in present ==> GetParentBone(present, b) == Some(Parent(b))
    ensures GetParentBone(present, b).Some? ==> Depth(GetParentBone(present, b).value) < Depth(b)
  {
    if b != Hips {
      var chain := Ancestors(b);
      assert chain[|chain| - 1] == Hips;
      assert chain == [Parent(b)] + Ancestors(Parent(b));
      if Parent(b) in present {
        var r := GetParentBone(present, b);
        var k :| 0 <= k < |chain| && chain[k] == r.value
          && forall k' :: 0 <= k' < k ==> chain[k'] !in present;
        assert k == 0;
      }
    }
  }

  /** The transform a rotation is measured against: the nearest present ancestor's, or the root. */
  function EffectiveParent(h: Humanoid, b: Bone): Node {
    match GetParentBone(h.present, b)
    case Some(p) => BoneNode(p)
    case None => RootTransform(h)
  }

  /** The rotation sources registered for `bones`, in order, with no samples yet. */
  function RotationTracks(h: Humanoid, bones: seq<Bone>): (ts: seq<RotationTrack>)
    ensures |ts| == |bones|
    ensures forall k :: 0 <= k < |bones| ==>
      ts[k] == RotationTrack(bones[k], BoneNode(bones[k]), EffectiveParent(h, bones[k]), [])
  {
    seq(|bones|, k requires 0 <= k < |bones| => RotationTrack(bones[k], BoneNode(bones[k]), EffectiveParent(h, bones[k]), []))
  }

  /** A sequence is duplicate-free exactly when its tail is and its head is not in the tail. */
  lemma NoDuplicatesCons<T>(s: seq<T>)
    requires |s| > 0
    ensures NoDuplicates(s) <==> NoDuplicates(s[1..]) && s[0] !in s[1..]
  {
    if NoDuplicates(s[1..]) && s[0] !in s[1..] {
      forall i, j | 0 <= i < j < |s| ensures s[i] != s[j] {
        assert s[j] == s[1..][j - 1];
        if i > 0 {
          assert s[i] == s[1..][i - 1];
        }
      }
    }
  }

  /** None of `bones` is among `registered`. */
  ghost predicate Unregistered(bones: seq<Bone>, registered: seq<Bone>) {
    forall k :: 0 <= k < |bones| ==> bones[k] !in registered
  }

  /** One registration step moves the head of `bones` into the registered list. */
  lemma RegistrationStep(h: Humanoid, bones: seq<Bone>, registered: seq<Bone>)
    requires |bones| > 0 && bones[0] !in registered
    ensures NoDuplicates(bones) && Unregistered(bones, registered)
        <==> NoDuplicates(bones[1..]) && Unregistered(bones[1..], registered + [bones[0]])
  {
    NoDuplicatesCons(bones);
    var tail := bones[1..];
    assert Unregistered(tail, registered + [bones[0]]) <==> bones[0] !in tail && Unregistered(tail, registered) by {
      assert forall k :: 0 <= k < |tail| ==> (tail[k] in registered + [bones[0]] <==> tail[k] in registered || tail[k] == bones[0]);
    }
    assert Unregistered(bones, registered) <==> Unregistered(tail, registered) by {
      assert forall k :: 0 < k < |bones| ==> bones[k] == tail[k - 1];
    }
  }

  lemma AppendSplit<T>(a: seq<T>, d: seq<T>, b: seq<T>, c: seq<T>)
    requires d == b + c
    ensures a + d == (a + b) + c
  {
  }

  /**
    The registration loop: one rotation source per bone, in order, each on
    the bone's own transform and measured against its effective parent.
  */
  function RegisterRotations(e: Exporter, h: Humanoid, bones: seq<Bone>): Result<Exporter, ExportError>
    decreases |bones|
  {
    if bones == [] then Success(e)
    else
      var e1 :- AddRotationBoneAndParent(e, bones[0], BoneNode(bones[0]), EffectiveParent(h, bones[0]));
      RegisterRotations(e1, h, bones[1..])
  }

  /** The registration loop succeeds exactly when no bone is registered twice. */
  lemma {:induction false} RegisterRotationsSucceeds(e: Exporter, h: Humanoid, bones: seq<Bone>)
    ensures RegisterRotations(e, h, bones).Success?
        <==> NoDuplicates(bones) && Unregistered(bones, RotationBones(e.rotations))
    decreases |bones|
  {
    if bones != [] {
      var b := bones[0];
      var added := AddRotationBoneAndParent(e, b, BoneNode(b), EffectiveParent(h, b));
      if added.Success? {
        var e1 := added.value;
        assert RotationBones(e1.rotations) == RotationBones(e.rotations) + [b];
        RegistrationStep(h, bones, RotationBones(e.rotations));
        RegisterRotationsSucceeds(e1, h, bones[1..]);
      }
    }
  }

  /**
    After a successful registration loop the exporter holds one new rotation
    source per bone, in order, and nothing else has changed.
  */
  lemma {:induction false} RegisterRotationsAppends(e: Exporter, h: Humanoid, bones: seq<Bone>)
    requires RegisterRotations(e, h, bones).Success?
    ensures RegisterRotations(e, h, bones).value == e.(rotations := e.rotations + RotationTracks(h, bones))
    decreases |bones|
  {
    if bones == [] {
      assert e.rotations + RotationTracks(h, bones) == e.rotations;
    } else {
      var b := bones[0];
      RegistrationHead(e, h, bones);
      var e1 := AddRotationBoneAndParent(e, b, BoneNode(b), EffectiveParent(h, b)).value;
      RegisterRotationsAppends(e1, h, bones[1..]);
      var head, tail := RotationTracks(h, bones[..1]), RotationTracks(h, bones[1..]);
      RotationTracksSplit(h, bones);
      AppendSplit(e.rotations, RotationTracks(h, bones), head, tail);
    }
  }

  /** The first registration step appends the head's source, and the loop continues on the tail. */
  lemma RegistrationHead(e: Exporter, h: Humanoid, bones: seq<Bone>)
    requires |bones| > 0 && RegisterRotations(e, h, bones).Success?
    ensures var b := bones[0];
      var added := AddRotationBoneAndParent(e, b, BoneNode(b), EffectiveParent(h, b));
      && added.Success?
      && added.value == e.(rotations := e.rotations + RotationTracks(h, bones[..1]))
      && RegisterRotations(e, h, bones) == RegisterRotations(added.value, h, bones[1..])
  {
  }

  /** The sources for `bones` are the source for its head followed by those for its tail. */
  lemma RotationTracksSplit(h: Humanoid, bones: seq<Bone>)
    requires |bones| > 0
    ensures RotationTracks(h, bones) == RotationTracks(h, bones[..1]) + RotationTracks(h, bones[1..])
  {
    var head, tail := RotationTracks(h, bones[..1]), RotationTracks(h, bones[1..]);
    forall k | 0 <= k < |bones|
      ensures RotationTracks(h, bones)[k] == (head + tail)[k]
    {
      if k > 0 {
        assert bones[k] == bones[1..][k - 1];
      }
    }
  }
}
