/**
 * The armature as the pose tools see it: pose bones in the armature's order, each with
 * its parent's name, its constraint stack, its bone-collection tags, its selection flag
 * and its transform; the bone collections with their visibility and parent; and the
 * records of a `.pose` file. Rotations and translations are opaque values: only which
 * value lands where is modelled.
 */
module PoseRig {
  import opened Wrappers
  import opened Text

  datatype Vec3 = Vec3(x: real, y: real, z: real)

  /** A quaternion in Blender's component order `(w, x, y, z)`. */
  datatype Quat = Quat(w: real, x: real, y: real, z: real)

  const Origin := Vec3(0.0, 0.0, 0.0)
  const UnitScale := Vec3(1.0, 1.0, 1.0)
  const IdentityQuat := Quat(1.0, 0.0, 0.0, 0.0)

  /** A bone's local transform, as `visual_transform_apply` writes it back. */
  datatype Transform = Transform(location: Vec3, rotation: Quat, scale: Vec3)

  datatype ConstraintKind = CopyLocation | CopyRotation | CopyTransforms | IK | SplineIK | OtherConstraint

  /** The kinds the importer reverses and the collection reset looks for. */
  predicate IsCopy(k: ConstraintKind) {
    k == CopyLocation || k == CopyRotation || k == CopyTransforms
  }

  /** The constraint settings the importer copies onto a reversed constraint. */
  datatype Settings = Settings(
    targetSpace: string, ownerSpace: string, influence: real,
    mixMode: string, removeTargetShear: bool, eulerOrder: string, useOffset: bool,
    useX: bool, useY: bool, useZ: bool, invertX: bool, invertY: bool, invertZ: bool)

  /**
   * A bone constraint. `hasTarget`/`hasPoleTarget` say whether the target object is set
   * (the target is taken to be the armature itself); an empty sub-target is Python's
   * falsy string.
   */
  datatype Constraint = Constraint(
    kind: ConstraintKind, hasTarget: bool, subtarget: string,
    hasPoleTarget: bool, poleSubtarget: string, mute: bool, settings: Settings)

  /**
   * A pose bone: its local transform (`location`, `rotation_quaternion`, `scale`). Its
   * pose-space matrix is derived from the transforms of the bone and its parents, so
   * the host functions that read it take the whole bone sequence.
   */
  datatype PoseBone = PoseBone(
    name: string, parent: Option<string>, constraints: seq<Constraint>,
    collections: set<string>, selected: bool,
    location: Vec3, rotation: Quat, scale: Vec3)

  datatype BoneCollection = BoneCollection(name: string, visible: bool, parent: Option<string>)

  /** One bone's entry of a `.pose` file: the formatted `Position`, `Rotation` and `Scale`. */
  datatype BoneEntry = BoneEntry(position: Option<string>, rotation: Option<string>, scale: Option<string>)

  /** An entry with no key at all, which Python treats as false. */
  predicate IsEmptyEntry(e: BoneEntry) {
    e.position.None? && e.rotation.None? && e.scale.None?
  }

  /**
   * A key handed to `get` on the `Bones` map of a parsed `.pose` file: a bone name, or a
   * pose-bone object, which equals none of the map's string keys.
   */
  datatype RecordKey = NameKey(name: string) | BoneKey(bone: PoseBone)

  /** `pose.get(key)` on the `Bones` map. */
  function RecordGet(record: map<string, BoneEntry>, key: RecordKey): (r: Option<BoneEntry>)
    ensures key.BoneKey? ==> r.None?
    ensures key.NameKey? ==> (r.Some? <==> key.name in record)
    ensures key.NameKey? && r.Some? ==> r.value == record[key.name]
  {
    match key
    case NameKey(n) => if n in record then Some(record[n]) else None
    case BoneKey(_) => None
  }

  /**
   * The active object of the pose operators: whether it is an armature, and if so its
   * pose bones and its bone collections (`collections_all`).
   */
  class PoseObject {
    const isArmature: bool
    var bones: seq<PoseBone>
    var collections: seq<BoneCollection>

    constructor (isArmature: bool, bones: seq<PoseBone>, collections: seq<BoneCollection>)
      ensures this.isArmature == isArmature && this.bones == bones && this.collections == collections
    {
      this.isArmature := isArmature;
      this.bones := bones;
      this.collections := collections;
    }
  }

  /** `pose.bones.get(name)`: the position of the bone called `name`. */
  function BoneIndex(bones: seq<PoseBone>, name: string): (r: Option<nat>)
    ensures r.Some? ==> r.value < |bones| && bones[r.value].name == name
    ensures r.Some? ==> forall j :: 0 <= j < r.value ==> bones[j].name != name
    ensures r.None? ==> forall j :: 0 <= j < |bones| ==> bones[j].name != name
    decreases |bones|
  {
    if |bones| == 0 then None
    else if bones[0].name == name then Some(0)
    else match BoneIndex(bones[1..], name)
      case None => None
      case Some(k) => Some(k + 1)
  }

  /** `collections_all.get(name)`: the position of the collection called `name`. */
  function CollectionIndex(cols: seq<BoneCollection>, name: string): (r: Option<nat>)
    ensures r.Some? ==> r.value < |cols| && cols[r.value].name == name
    ensures r.Some? ==> forall j :: 0 <= j < r.value ==> cols[j].name != name
    ensures r.None? ==> forall j :: 0 <= j < |cols| ==> cols[j].name != name
    decreases |cols|
  {
    if |cols| == 0 then None
    else if cols[0].name == name then Some(0)
    else match CollectionIndex(cols[1..], name)
      case None => None
      case Some(k) => Some(k + 1)
  }

  /** Blender keeps bone-collection names unique within an armature. */
  predicate UniqueCollectionNames(cols: seq<BoneCollection>) {
    forall i, j :: 0 <= i < j < |cols| ==> cols[i].name != cols[j].name
  }

  /** A constraint with its mute flag cleared: what muting and unmuting leave alone. */
  function MuteFree(cs: seq<Constraint>): (r: seq<Constraint>)
    ensures |r| == |cs|
    ensures forall k :: 0 <= k < |cs| ==> r[k] == cs[k].(mute := false)
  {
    seq(|cs|, k requires 0 <= k < |cs| => cs[k].(mute := false))
  }

  /** The part of a bone the pose steps never change. */
  datatype BoneShape = BoneShape(name: string, parent: Option<string>, collections: set<string>, constraints: seq<Constraint>)

  function Shape(b: PoseBone): BoneShape {
    BoneShape(b.name, b.parent, b.collections, MuteFree(b.constraints))
  }

  /** Same bones in the same order, with the same names, parents, tags and constraints up to mute flags. */
  predicate SameSkeleton(a: seq<PoseBone>, b: seq<PoseBone>) {
    |a| == |b| && forall i :: 0 <= i < |a| ==> Shape(a[i]) == Shape(b[i])
  }

  lemma SameSkeletonTrans(a: seq<PoseBone>, b: seq<PoseBone>, c: seq<PoseBone>)
    requires SameSkeleton(a, b) && SameSkeleton(b, c)
    ensures SameSkeleton(a, c)
  {
  }

  /** A skeleton-preserving change keeps every bone findable at the same position. */
  lemma {:induction false} SameSkeletonBoneIndex(a: seq<PoseBone>, b: seq<PoseBone>, name: string)
    requires SameSkeleton(a, b)
    ensures BoneIndex(a, name) == BoneIndex(b, name)
    decreases |a|
  {
    if |a| > 0 {
      assert Shape(a[0]) == Shape(b[0]);
      SameSkeletonBoneIndex(a[1..], b[1..], name);
    }
  }

  /** The length of the run of ASCII digits that ends `s`. */
  function TrailingDigits(s: string): (k: nat)
    ensures k <= |s|
    ensures forall i :: |s| - k <= i < |s| ==> IsDigit(s[i])
    ensures k < |s| ==> !IsDigit(s[|s| - k - 1])
    decreases |s|
  {
    if |s| == 0 || !IsDigit(s[|s| - 1]) then 0 else TrailingDigits(s[..|s| - 1]) + 1
  }

  /** `s` ends in `.<digits>` with the dot at position `j`. */
  predicate NumberedAt(s: string, j: int) {
    0 <= j < |s| - 1 && s[j] == '.' && forall i :: j < i < |s| ==> IsDigit(s[i])
  }

  /**
   * `strip_suffix`, the substitution of the pattern `\.\d+$` by nothing: a trailing dot
   * followed by digits to the end of the name is removed, once; any other name is
   * returned as it is.
   */
  function StripSuffix(s: string): string {
    var k := TrailingDigits(s);
    if 0 < k < |s| && s[|s| - k - 1] == '.' then s[..|s| - k - 1] else s
  }

  /**
   * The result is a prefix of the name: a name ending in "." and digits loses exactly that
   * group, and any other name is kept whole.
   */
  lemma StripSuffixSpec(s: string)
    ensures var r := StripSuffix(s);
      |r| <= |s| && r == s[..|r|]
      && ((exists j :: NumberedAt(s, j)) ==> NumberedAt(s, |r|))
      && (!(exists j :: NumberedAt(s, j)) ==> r == s)
  {
    var k := TrailingDigits(s);
    if exists j :: NumberedAt(s, j) {
      var j :| NumberedAt(s, j);
      assert k == |s| - j - 1;
    } else if 0 < k < |s| && s[|s| - k - 1] == '.' {
      assert NumberedAt(s, |s| - k - 1);
    }
  }

  /** A numbered copy's name loses exactly its number: `StripSuffix(x + "." + d) == x`. */
  lemma StripNumbered(x: string, d: string)
    requires |d| > 0 && forall i :: 0 <= i < |d| ==> IsDigit(d[i])
    ensures StripSuffix(x + "." + d) == x
  {
    var s := x + "." + d;
    assert NumberedAt(s, |x|);
    StripSuffixSpec(s);
    var r := StripSuffix(s);
    assert NumberedAt(s, |r|);
    assert !IsDigit(s[|x|]) && !IsDigit(s[|r|]);
  }

  /** Only one group goes: the copy of a copy keeps its first number. */
  lemma StripOnlyOnce()
    ensures StripSuffix("n_hara.001.002") == "n_hara.001"
  {
    assert "n_hara.001.002" == "n_hara.001" + "." + "002";
    StripNumbered("n_hara.001", "002");
  }
}
