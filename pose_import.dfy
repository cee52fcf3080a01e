/**
 * The pose importer (mektools/operators/import_pose.py): loading one bone's rotation
 * from a `.pose` record, the ordered import steps, and the operator that snapshots the
 * bone collections' visibility, shows them all for the import and restores them.
 * Host computations are parameters: `parse` is Python's `float`, `expmap` the rotation
 * `Quaternion` builds from three numbers, `toLocal(bones, i, q)` the conversion of a
 * pose-space rotation (composed with the root correction) into bone `i`'s local
 * rotation, which reads the current pose of the bone's parents, `visual` the visual
 * transform, `placePole` the transform the `matrix` setter gives a moved pole bone, and
 * `defaults` the settings of a newly created constraint.
 */
module PoseImport {
  import opened Wrappers
  import opened Text
  import opened PoseRig
  import opened PoseSteps
  import PoseReset

  // ---------------------------------------------------------------- one bone

  /** `[float(x) for x in parts]`, None when any part is not a number. */
  function ParseAll(parts: seq<string>, parse: string -> Option<real>): (r: Option<seq<real>>)
    ensures r.Some? <==> forall k :: 0 <= k < |parts| ==> parse(parts[k]).Some?
    ensures r.Some? ==> |r.value| == |parts| && forall k :: 0 <= k < |parts| ==> r.value[k] == parse(parts[k]).value
    decreases |parts|
  {
    if |parts| == 0 then Some([])
    else match (parse(parts[0]), ParseAll(parts[1..], parse))
      case (Some(v), Some(vs)) => Some([v] + vs)
      case _ => None
  }

  /** `rot.insert(0, rot.pop())`. */
  function MoveLastToFront<T>(s: seq<T>): (r: seq<T>)
    requires |s| > 0
    ensures |r| == |s| && r[0] == s[|s| - 1]
    ensures forall k :: 1 <= k < |s| ==> r[k] == s[k - 1]
  {
    [s[|s| - 1]] + s[..|s| - 1]
  }

  /**
   * `Quaternion(rot)` on a list of numbers: four are `(w, x, y, z)`, three an exponential
   * map that the host turns into a rotation (`expmap`); any other count raises.
   */
  function QuatOf(rot: seq<real>, expmap: (real, real, real) -> Quat): (r: Option<Quat>)
    ensures r.Some? <==> |rot| == 3 || |rot| == 4
    ensures |rot| == 4 ==> r == Some(Quat(rot[0], rot[1], rot[2], rot[3]))
    ensures |rot| == 3 ==> r == Some(expmap(rot[0], rot[1], rot[2]))
  {
    if |rot| == 4 then Some(Quat(rot[0], rot[1], rot[2], rot[3]))
    else if |rot| == 3 then Some(expmap(rot[0], rot[1], rot[2]))
    else None
  }

  /**
   * The rotation a `Rotation` value describes: split on ", ", every part a number, the
   * last moved to the front (x, y, z, w becomes w, x, y, z), then `Quaternion(rot)`;
   * None where Python raises.
   */
  function ParseRotation(text: string, parse: string -> Option<real>, expmap: (real, real, real) -> Quat): (r: Option<Quat>)
  {
    match ParseAll(Split(text, ", "), parse)
    case None => None
    case Some(values) => QuatOf(MoveLastToFront(values), expmap)
  }

  /**
   * A `Rotation` value is read exactly when it has three or four parts and each is a
   * number. Four parts `x, y, z, w` give the quaternion `(w, x, y, z)`; three parts
   * `a, b, c` give the exponential map of `(c, a, b)`, the list after its last entry
   * moved to the front.
   */
  lemma ParseRotationExact(text: string, parse: string -> Option<real>, expmap: (real, real, real) -> Quat)
    ensures var parts := Split(text, ", ");
      ParseRotation(text, parse, expmap).Some? <==>
        (|parts| == 3 || |parts| == 4) && forall k :: 0 <= k < |parts| ==> parse(parts[k]).Some?
    ensures var parts := Split(text, ", ");
      |parts| == 4 && (forall k :: 0 <= k < 4 ==> parse(parts[k]).Some?) ==>
        ParseRotation(text, parse, expmap)
          == Some(Quat(parse(parts[3]).value, parse(parts[0]).value, parse(parts[1]).value, parse(parts[2]).value))
    ensures var parts := Split(text, ", ");
      |parts| == 3 && (forall k :: 0 <= k < 3 ==> parse(parts[k]).Some?) ==>
        ParseRotation(text, parse, expmap)
          == Some(expmap(parse(parts[2]).value, parse(parts[0]).value, parse(parts[1]).value))
  {
    var parts := Split(text, ", ");
    match ParseAll(parts, parse)
    case None =>
    case Some(values) =>
      var rot := MoveLastToFront(values);
  }

  /** `trans["Rotation"]` parsed; None for a missing key as for a malformed value. */
  function EntryRotation(e: BoneEntry, parse: string -> Option<real>, expmap: (real, real, real) -> Quat): Option<Quat> {
    if e.rotation.None? then None else ParseRotation(e.rotation.value, parse, expmap)
  }

  /** The first bone whose name, stripped of its number, is `stripped`. */
  function FirstStripped(bones: seq<PoseBone>, stripped: string): (r: Option<nat>)
    ensures r.Some? ==> r.value < |bones|
    decreases |bones|
  {
    if |bones| == 0 then None
    else if StripSuffix(bones[0].name) == stripped then Some(0)
    else match FirstStripped(bones[1..], stripped)
      case None => None
      case Some(k) => Some(k + 1)
  }

  /** The bone found is the first whose stripped name is `stripped`; none when no bone's is. */
  lemma {:induction false} FirstStrippedExact(bones: seq<PoseBone>, stripped: string)
    ensures FirstStripped(bones, stripped).Some? ==>
      StripSuffix(bones[FirstStripped(bones, stripped).value].name) == stripped
    ensures FirstStripped(bones, stripped).Some? ==>
      forall j :: 0 <= j < FirstStripped(bones, stripped).value ==> StripSuffix(bones[j].name) != stripped
    ensures FirstStripped(bones, stripped).None? ==>
      forall j :: 0 <= j < |bones| ==> StripSuffix(bones[j].name) != stripped
    decreases |bones|
  {
    if |bones| > 0 && StripSuffix(bones[0].name) != stripped {
      var tail := bones[1..];
      FirstStrippedExact(tail, stripped);
      var bound := match FirstStripped(tail, stripped) case None => |bones| case Some(k) => k + 1;
      forall j | 0 <= j < bound
        ensures StripSuffix(bones[j].name) != stripped
      {
        if j > 0 {
          assert bones[j] == tail[j - 1];
        }
      }
    }
  }


  /** Where `POSE_OT_LoadBone` writes and what: the bone and its new local rotation. */
  function LoadTarget(bones: seq<PoseBone>, request: string, record: map<string, BoneEntry>,
                      parse: string -> Option<real>, expmap: (real, real, real) -> Quat): Option<(nat, Quat)>
  {
    var key := StripSuffix(request);
    match FirstStripped(bones, key)
    case None => None
    case Some(i) =>
      match RecordGet(record, NameKey(key))
      case None => None
      case Some(e) =>
        if IsEmptyEntry(e) then None
        else match EntryRotation(e, parse, expmap)
          case None => None
          case Some(q) => Some((i, q))
  }

  /** The status `POSE_OT_LoadBone` returns: ERROR exactly when the rotation cannot be read. */
  function LoadStatus(bones: seq<PoseBone>, request: string, record: map<string, BoneEntry>,
                      parse: string -> Option<real>, expmap: (real, real, real) -> Quat): (r: Status)
    ensures r == Finished || r == Error
    ensures r == Error <==>
      FirstStripped(bones, StripSuffix(request)).Some?
      && StripSuffix(request) in record && !IsEmptyEntry(record[StripSuffix(request)])
      && EntryRotation(record[StripSuffix(request)], parse, expmap).None?
  {
    var key := StripSuffix(request);
    if FirstStripped(bones, key).Some? && key in record && !IsEmptyEntry(record[key])
       && EntryRotation(record[key], parse, expmap).None?
    then Error else Finished
  }

  /** The bones after `POSE_OT_LoadBone`: at most one rotation changes. */
  function LoadedBones(bones: seq<PoseBone>, request: string, record: map<string, BoneEntry>,
                       parse: string -> Option<real>, expmap: (real, real, real) -> Quat, toLocal: (seq<PoseBone>, nat, Quat) -> Quat): (r: seq<PoseBone>)
    ensures |r| == |bones|
  {
    match LoadTarget(bones, request, record, parse, expmap)
    case None => bones
    case Some((i, q)) => bones[i := bones[i].(rotation := toLocal(bones, i, q))]
  }

  /**
   * A bone is loaded exactly when some bone matches the stripped request and the record
   * holds a non-empty entry under the stripped name with a readable rotation; then only
   * that bone's rotation changes. In every other case nothing changes.
   */
  lemma LoadedBonesExact(bones: seq<PoseBone>, request: string, record: map<string, BoneEntry>,
                         parse: string -> Option<real>, expmap: (real, real, real) -> Quat, toLocal: (seq<PoseBone>, nat, Quat) -> Quat)
    ensures var key := StripSuffix(request);
      var i := FirstStripped(bones, key);
      if i.Some? && key in record && !IsEmptyEntry(record[key]) && EntryRotation(record[key], parse, expmap).Some? then
        LoadedBones(bones, request, record, parse, expmap, toLocal)
          == bones[i.value := bones[i.value].(rotation := toLocal(bones, i.value, EntryRotation(record[key], parse, expmap).value))]
      else LoadedBones(bones, request, record, parse, expmap, toLocal) == bones
  {
  }

  /** `POSE_OT_LoadBone.execute`. */
  method LoadBone(obj: PoseObject, request: string, record: map<string, BoneEntry>,
                  parse: string -> Option<real>, expmap: (real, real, real) -> Quat, toLocal: (seq<PoseBone>, nat, Quat) -> Quat) returns (status: Status)
    modifies obj`bones
    ensures obj.bones == LoadedBones(old(obj.bones), request, record, parse, expmap, toLocal)
    ensures status == LoadStatus(old(obj.bones), request, record, parse, expmap)
  {
    var stripped := StripSuffix(request);
    var found := FirstStripped(obj.bones, stripped);
    if found.None? {
      return Finished;
    }
    var trans := RecordGet(record, NameKey(stripped));
    if trans.None? || IsEmptyEntry(trans.value) {
      return Finished;
    }
    var rot := EntryRotation(trans.value, parse, expmap);
    if rot.None? {
      return Error;
    }
    var i := found.value;
    obj.bones := obj.bones[i := obj.bones[i].(rotation := toLocal(obj.bones, i, rot.value))];
    return Finished;
  }

  /**
   * A non-empty record entry under `key` whose rotation cannot be read: the case in which
   * `POSE_OT_LoadBone` answers ERROR.
   */
  predicate BadEntry(record: map<string, BoneEntry>, key: string, parse: string -> Option<real>, expmap: (real, real, real) -> Quat) {
    key in record && !IsEmptyEntry(record[key]) && EntryRotation(record[key], parse, expmap).None?
  }

  /** The bones after a run of loads, and whether one of them raised (stopping the run). */
  datatype LoadRun = LoadRun(bones: seq<PoseBone>, raised: bool)

  /**
   * `for bone in arm.bones: bpy.ops.pose.load_bone(bone=bone.name, ...)` from bone `i` on.
   * A call through `bpy.ops` whose operator answers ERROR raises `RuntimeError` in the
   * caller, which ends the run there.
   */
  function LoadAll(bones: seq<PoseBone>, i: nat, record: map<string, BoneEntry>,
                   parse: string -> Option<real>, expmap: (real, real, real) -> Quat, toLocal: (seq<PoseBone>, nat, Quat) -> Quat): (r: LoadRun)
    requires i <= |bones|
    ensures |r.bones| == |bones|
    decreases |bones| - i
  {
    if i == |bones| then LoadRun(bones, false)
    else if LoadStatus(bones, bones[i].name, record, parse, expmap) == Error then LoadRun(bones, true)
    else LoadAll(LoadedBones(bones, bones[i].name, record, parse, expmap, toLocal), i + 1, record, parse, expmap, toLocal)
  }

  /** Loading bones writes rotations only: names, parents, constraints and tags stay. */
  lemma {:induction false} LoadAllKeepsRig(bones: seq<PoseBone>, i: nat, record: map<string, BoneEntry>,
                                           parse: string -> Option<real>, expmap: (real, real, real) -> Quat, toLocal: (seq<PoseBone>, nat, Quat) -> Quat)
    requires i <= |bones|
    ensures SameRig(LoadAll(bones, i, record, parse, expmap, toLocal).bones, bones)
    decreases |bones| - i
  {
    if i < |bones| && LoadStatus(bones, bones[i].name, record, parse, expmap) != Error {
      var next := LoadedBones(bones, bones[i].name, record, parse, expmap, toLocal);
      LoadedKeepsRig(bones, bones[i].name, record, parse, expmap, toLocal);
      LoadAllKeepsRig(next, i + 1, record, parse, expmap, toLocal);
      SameRigTrans(LoadAll(next, i + 1, record, parse, expmap, toLocal).bones, next, bones);
    }
  }

  /** The run raises exactly when some bone from `i` on has a bad entry under its stripped name. */
  lemma {:induction false} LoadAllRaises(bones: seq<PoseBone>, i: nat, record: map<string, BoneEntry>,
                                         parse: string -> Option<real>, expmap: (real, real, real) -> Quat, toLocal: (seq<PoseBone>, nat, Quat) -> Quat)
    requires i <= |bones|
    ensures LoadAll(bones, i, record, parse, expmap, toLocal).raised <==>
      exists k :: i <= k < |bones| && BadEntry(record, StripSuffix(bones[k].name), parse, expmap)
    decreases |bones| - i
  {
    if i < |bones| {
      var next := LoadedBones(bones, bones[i].name, record, parse, expmap, toLocal);
      LoadAllStep(bones, i, record, parse, expmap, toLocal);
      if !BadEntry(record, StripSuffix(bones[i].name), parse, expmap) {
        LoadAllRaises(next, i + 1, record, parse, expmap, toLocal);
        if k :| i <= k < |bones| && BadEntry(record, StripSuffix(bones[k].name), parse, expmap) {
          assert next[k].name == bones[k].name;
        }
        if k :| i + 1 <= k < |next| && BadEntry(record, StripSuffix(next[k].name), parse, expmap) {
          assert next[k].name == bones[k].name;
        }
      }
    }
  }

  /**
   * One step of the run: it raises at bone `i` exactly on a bad entry under that bone's
   * name, and otherwise goes on from the loaded bones, whose names are unchanged.
   */
  lemma LoadAllStep(bones: seq<PoseBone>, i: nat, record: map<string, BoneEntry>,
                    parse: string -> Option<real>, expmap: (real, real, real) -> Quat, toLocal: (seq<PoseBone>, nat, Quat) -> Quat)
    requires i < |bones|
    ensures var next := LoadedBones(bones, bones[i].name, record, parse, expmap, toLocal);
      var bad := BadEntry(record, StripSuffix(bones[i].name), parse, expmap);
      (bad ==> LoadAll(bones, i, record, parse, expmap, toLocal).raised)
      && (!bad ==> LoadAll(bones, i, record, parse, expmap, toLocal) == LoadAll(next, i + 1, record, parse, expmap, toLocal))
      && forall k :: 0 <= k < |bones| ==> next[k].name == bones[k].name
  {
    FirstStrippedExact(bones, StripSuffix(bones[i].name));
    LoadedKeepsRig(bones, bones[i].name, record, parse, expmap, toLocal);
  }

  /** Loading one bone writes at most one rotation. */
  lemma LoadedKeepsRig(bones: seq<PoseBone>, request: string, record: map<string, BoneEntry>,
                       parse: string -> Option<real>, expmap: (real, real, real) -> Quat, toLocal: (seq<PoseBone>, nat, Quat) -> Quat)
    ensures SameRig(LoadedBones(bones, request, record, parse, expmap, toLocal), bones)
  {
    match LoadTarget(bones, request, record, parse, expmap)
    case None =>
    case Some((i, q)) =>
  }

  // ---------------------------------------------------------------- the import steps

  const BaseCollections := ["Base Bones", "DT Face Bones"]
  const ForcedCollections := ["IK MCH Bones", "Mouth Controls"]

  /** Mute every constraint, then `load_bone` every bone in armature order until one raises. */
  function LoadStage(bones: seq<PoseBone>, record: map<string, BoneEntry>,
                     parse: string -> Option<real>, expmap: (real, real, real) -> Quat, toLocal: (seq<PoseBone>, nat, Quat) -> Quat): (r: LoadRun)
    ensures |r.bones| == |bones|
  {
    LoadAll(WithMute(bones, true), 0, record, parse, expmap, toLocal)
  }

  /** Reverse the Copy constraints in parent-first order, then move the pole targets. */
  function AdjustStage(bones: seq<PoseBone>, defaults: ConstraintKind -> Settings,
                       visual: (seq<PoseBone>, nat) -> Transform,
                    placePole: (seq<PoseBone>, nat, nat) -> Transform): (r: seq<PoseBone>)
    ensures |r| == |bones|
  {
    ReverseKeepsRig(bones, defaults, visual);
    PolesFrom(ReverseConstraintsOf(bones, defaults, visual), 0, placePole)
  }

  /**
   * Unmute every constraint, reset the base collections (Copy-constrained bones only),
   * then the forced ones (all their bones), and give the root the identity rotation.
   * The second reset looks names up in the collections the first one left.
   */
  function FinishStage(bones: seq<PoseBone>, cols: seq<BoneCollection>, root: nat): (r: seq<PoseBone>)
    requires root < |bones|
    ensures |r| == |bones|
  {
    var based := ResetCollections(WithMute(bones, false), cols, BaseCollections, false);
    RootIdentity(ResetCollections(based, UnhideCollections(cols, BaseCollections), ForcedCollections, true), root)
  }

  function RootIdentity(bones: seq<PoseBone>, root: nat): (r: seq<PoseBone>)
    requires root < |bones|
    ensures |r| == |bones| && r[root].rotation == IdentityQuat
    ensures forall i :: 0 <= i < |bones| && i != root ==> r[i] == bones[i]
  {
    bones[root := bones[root].(rotation := IdentityQuat)]
  }

  /** What an import leaves: the bones, the collections, and whether it raised. */
  datatype Imported = Imported(bones: seq<PoseBone>, cols: seq<BoneCollection>, raised: bool)

  /**
   * `import_pose`: reset the pose; without an `n_throw` bone stop there. Otherwise clear
   * the root's basis and run the load stage; a load that raises ends the import with
   * every constraint still muted and the collections untouched. Else the adjust and
   * finish stages run and the base and forced collections that exist are shown. `cols`
   * are the collections as the import found them.
   */
  function ImportedPose(bones: seq<PoseBone>, cols: seq<BoneCollection>, record: map<string, BoneEntry>,
                        parse: string -> Option<real>, expmap: (real, real, real) -> Quat, toLocal: (seq<PoseBone>, nat, Quat) -> Quat,
                        defaults: ConstraintKind -> Settings, visual: (seq<PoseBone>, nat) -> Transform,
                        placePole: (seq<PoseBone>, nat, nat) -> Transform): Imported
  {
    var reset := PoseReset.RestedWhere(bones, true);
    match BoneIndex(reset, "n_throw")
    case None => Imported(reset, cols, false)
    case Some(root) =>
      var cleared := reset[root := PoseReset.Rested(reset[root])];
      var run := LoadStage(cleared, record, parse, expmap, toLocal);
      if run.raised then Imported(run.bones, cols, true)
      else Imported(FinishStage(AdjustStage(run.bones, defaults, visual, placePole), cols, root),
                    UnhideCollections(UnhideCollections(cols, BaseCollections), ForcedCollections), false)
  }

  lemma SameRigBoneIndex(a: seq<PoseBone>, b: seq<PoseBone>, name: string)
    requires SameRig(a, b)
    ensures BoneIndex(a, name) == BoneIndex(b, name)
  {
    SameRigSkeleton(a, b);
    SameSkeletonBoneIndex(a, b, name);
  }

  /** Without an `n_throw` bone the pose is reset and no constraint is muted or unmuted. */
  lemma ImportWithoutRoot(bones: seq<PoseBone>, cols: seq<BoneCollection>, record: map<string, BoneEntry>,
                          parse: string -> Option<real>, expmap: (real, real, real) -> Quat, toLocal: (seq<PoseBone>, nat, Quat) -> Quat,
                          defaults: ConstraintKind -> Settings, visual: (seq<PoseBone>, nat) -> Transform,
                    placePole: (seq<PoseBone>, nat, nat) -> Transform)
    requires BoneIndex(bones, "n_throw").None?
    ensures ImportedPose(bones, cols, record, parse, expmap, toLocal, defaults, visual, placePole) == Imported(PoseReset.RestedWhere(bones, true), cols, false)
    ensures forall i :: 0 <= i < |bones| ==>
      ImportedPose(bones, cols, record, parse, expmap, toLocal, defaults, visual, placePole).bones[i].constraints == bones[i].constraints
  {
    var reset := PoseReset.RestedWhere(bones, true);
    SameRigBoneIndex(reset, bones, "n_throw");
    assert ImportedPose(bones, cols, record, parse, expmap, toLocal, defaults, visual, placePole) == Imported(reset, cols, false);
  }

  /** Loading only writes rotations and mute flags. */
  lemma LoadStageSkeleton(bones: seq<PoseBone>, record: map<string, BoneEntry>,
                          parse: string -> Option<real>, expmap: (real, real, real) -> Quat, toLocal: (seq<PoseBone>, nat, Quat) -> Quat)
    ensures SameSkeleton(LoadStage(bones, record, parse, expmap, toLocal).bones, bones)
  {
    var muted := WithMute(bones, true);
    WithMuteSkeleton(bones, true);
    LoadAllKeepsRig(muted, 0, record, parse, expmap, toLocal);
    SameRigSkeleton(LoadAll(muted, 0, record, parse, expmap, toLocal).bones, muted);
    SameSkeletonTrans(LoadAll(muted, 0, record, parse, expmap, toLocal).bones, muted, bones);
  }

  /** Reversing and moving poles change transforms and selection only. */
  lemma AdjustStageRig(bones: seq<PoseBone>, defaults: ConstraintKind -> Settings,
                       visual: (seq<PoseBone>, nat) -> Transform,
                    placePole: (seq<PoseBone>, nat, nat) -> Transform)
    ensures SameRig(AdjustStage(bones, defaults, visual, placePole), bones)
  {
    var reversed := ReverseConstraintsOf(bones, defaults, visual);
    ReverseKeepsRig(bones, defaults, visual);
    PolesKeepRig(reversed, placePole);
  }

  /**
   * The last stage keeps the skeleton, leaves every constraint unmuted and the root at
   * the identity rotation, and resets every bone that an existing forced collection tags
   * and every Copy-constrained bone that an existing base collection tags.
   */
  lemma FinishStageExact(bones: seq<PoseBone>, cols: seq<BoneCollection>, root: nat)
    requires root < |bones|
    ensures var r := FinishStage(bones, cols, root);
      SameSkeleton(r, bones)
      && r[root].rotation == IdentityQuat
      && (forall i, k :: 0 <= i < |r| && 0 <= k < |r[i].constraints| ==> !r[i].constraints[k].mute)
      && (forall i :: 0 <= i < |r| && ResetByAny(bones[i], cols, ForcedCollections, true) ==> r[i].rotation == IdentityQuat)
      && (forall i :: 0 <= i < |r| && ResetByAny(bones[i], cols, BaseCollections, false) ==> r[i].rotation == IdentityQuat)
  {
    var unmuted := WithMute(bones, false);
    WithMuteSkeleton(bones, false);
    WithMuteAll(bones, false);
    var unhidden := UnhideCollections(cols, BaseCollections);
    SameNamesSameIndex(unhidden, cols, ForcedCollections);
    var based := ResetCollections(unmuted, cols, BaseCollections, false);
    ResetCollectionsKeepsRig(unmuted, cols, BaseCollections, false);
    var forced := ResetCollections(based, unhidden, ForcedCollections, true);
    ResetCollectionsKeepsRig(based, unhidden, ForcedCollections, true);
    var r := RootIdentity(forced, root);
    SameRigSkeleton(r, unmuted);
    SameSkeletonTrans(r, unmuted, bones);
    forall i | 0 <= i < |r|
      ensures ResetByAny(bones[i], cols, ForcedCollections, true) ==> r[i].rotation == IdentityQuat
      ensures ResetByAny(bones[i], cols, BaseCollections, false) ==> r[i].rotation == IdentityQuat
    {
      FinishStageResets(bones, cols, i);
    }
  }

  /** The two collection passes reset bone `i` when a listed existing collection tags it. */
  lemma FinishStageResets(bones: seq<PoseBone>, cols: seq<BoneCollection>, i: nat)
    requires i < |bones|
    ensures var unmuted := WithMute(bones, false);
      var based := ResetCollections(unmuted, cols, BaseCollections, false);
      var forced := ResetCollections(based, UnhideCollections(cols, BaseCollections), ForcedCollections, true);
      (ResetByAny(bones[i], cols, ForcedCollections, true) ==> forced[i].rotation == IdentityQuat)
      && (ResetByAny(bones[i], cols, BaseCollections, false) ==> forced[i].rotation == IdentityQuat)
  {
    var unmuted := WithMute(bones, false);
    WithMuteSkeleton(bones, false);
    var unhidden := UnhideCollections(cols, BaseCollections);
    SameNamesSameIndex(unhidden, cols, ForcedCollections);
    var based := ResetCollections(unmuted, cols, BaseCollections, false);
    ResetCollectionsKeepsRig(unmuted, cols, BaseCollections, false);
    ResetCollectionsExact(unmuted, cols, BaseCollections, false, i);
    ResetCollectionsExact(based, unhidden, ForcedCollections, true, i);
    assert unmuted[i].collections == bones[i].collections && unmuted[i].constraints == MuteFree(bones[i].constraints);
    assert based[i].collections == bones[i].collections;
    if ResetByAny(bones[i], cols, ForcedCollections, true) {
      var n :| n in ForcedCollections && CollectionIndex(cols, n).Some? && ResetsIn(bones[i], n, true);
      assert ResetsIn(based[i], n, true);
    }
    if ResetByAny(bones[i], cols, BaseCollections, false) {
      var n :| n in BaseCollections && CollectionIndex(cols, n).Some? && ResetsIn(bones[i], n, false);
      var k :| 0 <= k < |bones[i].constraints| && IsCopy(bones[i].constraints[k].kind);
      assert unmuted[i].constraints[k].kind == bones[i].constraints[k].kind;
      assert ResetsIn(unmuted[i], n, false);
    }
  }

  /** A full reset followed by a reset of the root bone keeps the rig. */
  lemma ClearedRig(bones: seq<PoseBone>, root: nat)
    requires root < |bones|
    ensures var reset := PoseReset.RestedWhere(bones, true);
      SameRig(reset[root := PoseReset.Rested(reset[root])], bones)
  {
  }

  /** Loading and adjusting keep the skeleton of the rig they start from. */
  lemma StagesSkeleton(cleared: seq<PoseBone>, bones: seq<PoseBone>, record: map<string, BoneEntry>,
                       parse: string -> Option<real>, expmap: (real, real, real) -> Quat, toLocal: (seq<PoseBone>, nat, Quat) -> Quat,
                       defaults: ConstraintKind -> Settings, visual: (seq<PoseBone>, nat) -> Transform,
                    placePole: (seq<PoseBone>, nat, nat) -> Transform)
    requires SameRig(cleared, bones)
    ensures SameSkeleton(AdjustStage(LoadStage(cleared, record, parse, expmap, toLocal).bones, defaults, visual, placePole), bones)
  {
    var loaded := LoadStage(cleared, record, parse, expmap, toLocal).bones;
    var adjusted := AdjustStage(loaded, defaults, visual, placePole);
    LoadStageSkeleton(cleared, record, parse, expmap, toLocal);
    AdjustStageRig(loaded, defaults, visual, placePole);
    SameRigSkeleton(adjusted, loaded);
    SameRigSkeleton(cleared, bones);
    SameSkeletonTrans(adjusted, loaded, cleared);
    SameSkeletonTrans(adjusted, cleared, bones);
  }

  /**
   * Started from a rig like `bones`, the load stage raises exactly when some bone's entry
   * is bad; it keeps the skeleton and leaves every constraint muted.
   */
  lemma LoadStageRaises(cleared: seq<PoseBone>, bones: seq<PoseBone>, record: map<string, BoneEntry>,
                        parse: string -> Option<real>, expmap: (real, real, real) -> Quat, toLocal: (seq<PoseBone>, nat, Quat) -> Quat)
    requires SameRig(cleared, bones)
    ensures var run := LoadStage(cleared, record, parse, expmap, toLocal);
      (run.raised <==> exists k :: 0 <= k < |bones| && BadEntry(record, StripSuffix(bones[k].name), parse, expmap))
      && SameSkeleton(run.bones, bones)
      && forall i, k :: 0 <= i < |run.bones| && 0 <= k < |run.bones[i].constraints| ==> run.bones[i].constraints[k].mute
  {
    var muted := WithMute(cleared, true);
    WithMuteSkeleton(cleared, true);
    WithMuteAll(cleared, true);
    var run := LoadAll(muted, 0, record, parse, expmap, toLocal);
    LoadAllRaises(muted, 0, record, parse, expmap, toLocal);
    LoadAllKeepsRig(muted, 0, record, parse, expmap, toLocal);
    assert forall k :: 0 <= k < |bones| ==> muted[k].name == bones[k].name;
    SameRigSkeleton(run.bones, muted);
    SameRigSkeleton(cleared, bones);
    SameSkeletonTrans(muted, cleared, bones);
    SameSkeletonTrans(run.bones, muted, bones);
  }

  /**
   * With an `n_throw` bone the import raises exactly when some bone's entry, under its
   * stripped name, is non-empty with an unreadable rotation. Then every constraint stays
   * muted and the collections are untouched. Either way the bones keep their names,
   * parents, tags and constraints (up to the mute flags), in the same order.
   */
  lemma ImportRaises(bones: seq<PoseBone>, cols: seq<BoneCollection>, record: map<string, BoneEntry>,
                       parse: string -> Option<real>, expmap: (real, real, real) -> Quat, toLocal: (seq<PoseBone>, nat, Quat) -> Quat,
                       defaults: ConstraintKind -> Settings, visual: (seq<PoseBone>, nat) -> Transform,
                       placePole: (seq<PoseBone>, nat, nat) -> Transform)
    requires BoneIndex(bones, "n_throw").Some?
    ensures var r := ImportedPose(bones, cols, record, parse, expmap, toLocal, defaults, visual, placePole);
      (r.raised <==> exists k :: 0 <= k < |bones| && BadEntry(record, StripSuffix(bones[k].name), parse, expmap))
      && SameSkeleton(r.bones, bones)
      && (r.raised ==> r.cols == cols
                       && forall i, k :: 0 <= i < |r.bones| && 0 <= k < |r.bones[i].constraints| ==> r.bones[i].constraints[k].mute)
  {
    var reset := PoseReset.RestedWhere(bones, true);
    SameRigBoneIndex(reset, bones, "n_throw");
    var root := BoneIndex(reset, "n_throw").value;
    var cleared := reset[root := PoseReset.Rested(reset[root])];
    ClearedRig(bones, root);
    LoadStageRaises(cleared, bones, record, parse, expmap, toLocal);
    var run := LoadStage(cleared, record, parse, expmap, toLocal);
    if !run.raised {
      var adjusted := AdjustStage(run.bones, defaults, visual, placePole);
      StagesSkeleton(cleared, bones, record, parse, expmap, toLocal, defaults, visual, placePole);
      FinishStageExact(adjusted, cols, root);
      SameSkeletonTrans(FinishStage(adjusted, cols, root), adjusted, bones);
    }
  }

  /**
   * A completed import (an `n_throw` bone, no bad entry): afterwards no constraint is
   * muted, whatever it was before, and the root has the identity rotation.
   */
  lemma ImportWithRoot(bones: seq<PoseBone>, cols: seq<BoneCollection>, record: map<string, BoneEntry>,
                       parse: string -> Option<real>, expmap: (real, real, real) -> Quat, toLocal: (seq<PoseBone>, nat, Quat) -> Quat,
                       defaults: ConstraintKind -> Settings, visual: (seq<PoseBone>, nat) -> Transform,
                       placePole: (seq<PoseBone>, nat, nat) -> Transform)
    requires BoneIndex(bones, "n_throw").Some?
    requires forall k :: 0 <= k < |bones| ==> !BadEntry(record, StripSuffix(bones[k].name), parse, expmap)
    ensures var r := ImportedPose(bones, cols, record, parse, expmap, toLocal, defaults, visual, placePole);
      !r.raised
      && r.bones[BoneIndex(bones, "n_throw").value].rotation == IdentityQuat
      && forall i, k :: 0 <= i < |r.bones| && 0 <= k < |r.bones[i].constraints| ==> !r.bones[i].constraints[k].mute
  {
    ImportRaises(bones, cols, record, parse, expmap, toLocal, defaults, visual, placePole);
    var reset := PoseReset.RestedWhere(bones, true);
    SameRigBoneIndex(reset, bones, "n_throw");
    var root := BoneIndex(reset, "n_throw").value;
    var cleared := reset[root := PoseReset.Rested(reset[root])];
    var run := LoadStage(cleared, record, parse, expmap, toLocal);
    FinishStageExact(AdjustStage(run.bones, defaults, visual, placePole), cols, root);
  }

  lemma ResetCollectionsKeepsRig(bones: seq<PoseBone>, cols: seq<BoneCollection>, names: seq<string>, force: bool)
    ensures SameRig(ResetCollections(bones, cols, names, force), bones)
  {
    forall i | 0 <= i < |bones|
      ensures ResetCollections(bones, cols, names, force)[i].name == bones[i].name
      ensures ResetCollections(bones, cols, names, force)[i].parent == bones[i].parent
      ensures ResetCollections(bones, cols, names, force)[i].constraints == bones[i].constraints
      ensures ResetCollections(bones, cols, names, force)[i].collections == bones[i].collections
    {
      ResetCollectionsExact(bones, cols, names, force, i);
    }
  }

  /** `import_pose(filepath, armature)`; returns whether it ran past the `n_throw` check. */
  method ImportPose(obj: PoseObject, record: map<string, BoneEntry>,
                    parse: string -> Option<real>, expmap: (real, real, real) -> Quat, toLocal: (seq<PoseBone>, nat, Quat) -> Quat,
                    defaults: ConstraintKind -> Settings, visual: (seq<PoseBone>, nat) -> Transform,
                    placePole: (seq<PoseBone>, nat, nat) -> Transform)
    returns (raised: bool)
    requires obj.isArmature
    modifies obj`bones, obj`collections
    ensures Imported(obj.bones, obj.collections, raised) == ImportedPose(old(obj.bones), old(obj.collections), record, parse, expmap, toLocal, defaults, visual, placePole)
  {
    ghost var bones0 := obj.bones;
    ghost var cols0 := obj.collections;
    var _ := PoseReset.ResetPose(obj);
    var found := BoneIndex(obj.bones, "n_throw");
    if found.None? {
      return false;
    }
    var root := found.value;
    obj.bones := obj.bones[root := PoseReset.Rested(obj.bones[root])];
    raised := RunLoadStage(obj, record, parse, expmap, toLocal);
    if raised {
      return;
    }
    RunAdjustStage(obj, defaults, visual, placePole);
    RunFinishStage(obj, root);
  }

  /** Mute every constraint, then load every bone until a load raises. */
  method RunLoadStage(obj: PoseObject, record: map<string, BoneEntry>,
                      parse: string -> Option<real>, expmap: (real, real, real) -> Quat, toLocal: (seq<PoseBone>, nat, Quat) -> Quat)
    returns (raised: bool)
    modifies obj`bones
    ensures LoadRun(obj.bones, raised) == LoadStage(old(obj.bones), record, parse, expmap, toLocal)
  {
    SetMuteAll(obj, true);
    raised := LoadEveryBone(obj, record, parse, expmap, toLocal);
  }

  /** Reverse the Copy constraints, then move the pole targets. */
  method RunAdjustStage(obj: PoseObject, defaults: ConstraintKind -> Settings,
                        visual: (seq<PoseBone>, nat) -> Transform,
                    placePole: (seq<PoseBone>, nat, nat) -> Transform)
    modifies obj`bones
    ensures obj.bones == AdjustStage(old(obj.bones), defaults, visual, placePole)
  {
    ReverseConstraints(obj, defaults, visual);
    SetPoleTargets(obj, placePole);
  }

  /** Unmute, reset the base and forced collections, and clear the root's rotation. */
  method RunFinishStage(obj: PoseObject, root: nat)
    requires root < |obj.bones|
    modifies obj`bones, obj`collections
    ensures obj.bones == FinishStage(old(obj.bones), old(obj.collections), root)
    ensures obj.collections == UnhideCollections(UnhideCollections(old(obj.collections), BaseCollections), ForcedCollections)
  {
    SetMuteAll(obj, false);
    ResetBonesInCollections(obj, Names(BaseCollections), false);
    ResetBonesInCollections(obj, Names(ForcedCollections), true);
    obj.bones := obj.bones[root := obj.bones[root].(rotation := IdentityQuat)];
  }

  /**
   * `for bone in arm.bones: bpy.ops.pose.load_bone(bone=bone.name, ...)`; a load that
   * answers ERROR raises in the caller and ends the loop.
   */
  method LoadEveryBone(obj: PoseObject, record: map<string, BoneEntry>,
                       parse: string -> Option<real>, expmap: (real, real, real) -> Quat, toLocal: (seq<PoseBone>, nat, Quat) -> Quat)
    returns (raised: bool)
    modifies obj`bones
    ensures LoadRun(obj.bones, raised) == LoadAll(old(obj.bones), 0, record, parse, expmap, toLocal)
  {
    ghost var run := LoadAll(obj.bones, 0, record, parse, expmap, toLocal);
    var i := 0;
    while i < |obj.bones|
      invariant 0 <= i <= |obj.bones|
      invariant LoadAll(obj.bones, i, record, parse, expmap, toLocal) == run
    {
      ghost var before := obj.bones;
      LoadAllUnfold(before, i, record, parse, expmap, toLocal);
      var status := LoadBone(obj, obj.bones[i].name, record, parse, expmap, toLocal);
      if status == Error {
        return true;
      }
      i := i + 1;
    }
    return false;
  }

  /** One step of the loading loop: a load that answers ERROR changes nothing and stops the run. */
  lemma LoadAllUnfold(bones: seq<PoseBone>, i: nat, record: map<string, BoneEntry>,
                      parse: string -> Option<real>, expmap: (real, real, real) -> Quat, toLocal: (seq<PoseBone>, nat, Quat) -> Quat)
    requires i < |bones|
    ensures LoadAll(bones, i, record, parse, expmap, toLocal)
      == if LoadStatus(bones, bones[i].name, record, parse, expmap) == Error then LoadRun(LoadedBones(bones, bones[i].name, record, parse, expmap, toLocal), true)
         else LoadAll(LoadedBones(bones, bones[i].name, record, parse, expmap, toLocal), i + 1, record, parse, expmap, toLocal)
  {
    LoadedBonesExact(bones, bones[i].name, record, parse, expmap, toLocal);
  }

  // ---------------------------------------------------------------- collection visibility

  /** What `store_collection_visibility` records for a collection. */
  datatype Snapshot = Snapshot(visible: bool, parent: Option<string>)

  function SnapOf(c: BoneCollection): Snapshot {
    Snapshot(c.visible, c.parent)
  }

  /** The module-level `collection_visibility` dictionary, which outlives each import. */
  class VisibilityStore {
    var entries: map<string, Snapshot>

    constructor ()
      ensures entries == map[]
    {
      entries := map[];
    }
  }

  /** `s` is the snapshot of a collection called `n`. */
  predicate IsSnapshotOf(cols: seq<BoneCollection>, n: string, s: Snapshot) {
    exists j :: 0 <= j < |cols| && cols[j].name == n && SnapOf(cols[j]) == s
  }

  /** No entry is lost, and every entry is as it was or a snapshot of the collection of that name. */
  predicate StoredFrom(entries: map<string, Snapshot>, before: map<string, Snapshot>, cols: seq<BoneCollection>) {
    (forall n :: n in before ==> n in entries)
    && forall n :: n in entries ==> (n in before && entries[n] == before[n]) || IsSnapshotOf(cols, n, entries[n])
  }

  /** Collection `j`'s current state is what the store holds under its name. */
  predicate Recorded(entries: map<string, Snapshot>, cols: seq<BoneCollection>, j: nat)
    requires j < |cols|
  {
    cols[j].name in entries && entries[cols[j].name] == SnapOf(cols[j])
  }

  lemma StoredFromTrans(e2: map<string, Snapshot>, e1: map<string, Snapshot>, e0: map<string, Snapshot>,
                        cols: seq<BoneCollection>)
    requires StoredFrom(e2, e1, cols) && StoredFrom(e1, e0, cols)
    ensures StoredFrom(e2, e0, cols)
  {
  }

  /** With unique names, storing more snapshots never spoils a recorded collection. */
  lemma StoredKeepsRecorded(e1: map<string, Snapshot>, e0: map<string, Snapshot>, cols: seq<BoneCollection>, j: nat)
    requires j < |cols| && UniqueCollectionNames(cols)
    requires StoredFrom(e1, e0, cols) && Recorded(e0, cols, j)
    ensures Recorded(e1, cols, j)
  {
  }

  /** The sub-collections of collection `c` (`collection.children`), in order. */
  function ChildCollections(cols: seq<BoneCollection>, c: nat, n: nat): (r: seq<nat>)
    requires c < |cols| && n <= |cols|
    ensures forall k :: 0 <= k < |r| ==> r[k] < n && cols[r[k]].parent == Some(cols[c].name)
    ensures forall j :: 0 <= j < n && cols[j].parent == Some(cols[c].name) ==> j in r
    decreases n
  {
    if n == 0 then []
    else ChildCollections(cols, c, n - 1) + (if cols[n - 1].parent == Some(cols[c].name) then [n - 1] else [])
  }

  /**
   * `store_collection_visibility(collection)`: records the collection, then its
   * sub-collections recursively (`depth` bounds the recursion; the depth of an acyclic
   * hierarchy is below the number of collections).
   */
  method StoreCollectionVisibility(obj: PoseObject, store: VisibilityStore, c: nat, depth: nat)
    requires c < |obj.collections| && UniqueCollectionNames(obj.collections)
    modifies store
    ensures StoredFrom(store.entries, old(store.entries), obj.collections)
    ensures Recorded(store.entries, obj.collections, c)
    decreases depth
  {
    store.entries := store.entries[obj.collections[c].name := SnapOf(obj.collections[c])];
    assert IsSnapshotOf(obj.collections, obj.collections[c].name, SnapOf(obj.collections[c]));
    if depth == 0 {
      return;
    }
    var kids := ChildCollections(obj.collections, c, |obj.collections|);
    var i := 0;
    while i < |kids|
      invariant 0 <= i <= |kids|
      invariant StoredFrom(store.entries, old(store.entries), obj.collections)
      invariant Recorded(store.entries, obj.collections, c)
    {
      ghost var before := store.entries;
      StoreCollectionVisibility(obj, store, kids[i], depth - 1);
      StoredFromTrans(store.entries, before, old(store.entries), obj.collections);
      StoredKeepsRecorded(store.entries, before, obj.collections, c);
      i := i + 1;
    }
  }

  /** The parent a stored snapshot names, if it is a non-empty name of an existing collection. */
  function StoredParent(cols: seq<BoneCollection>, s: Snapshot): (r: Option<nat>)
    ensures r.Some? ==> r.value < |cols| && s.parent.Some? && cols[r.value].name == s.parent.value
    ensures r.None? ==> s.parent.None? || s.parent.value == "" || CollectionIndex(cols, s.parent.value).None?
  {
    if s.parent.Some? && s.parent.value != "" then CollectionIndex(cols, s.parent.value) else None
  }

  /**
   * The collections after `restore_collection_visibility(collection)`: when the store
   * knows the collection, its stored parent is restored first, then its own stored
   * visibility is written back. `depth` bounds the walk up the parents.
   */
  function Restored(cols: seq<BoneCollection>, entries: map<string, Snapshot>, c: nat, depth: nat): (r: seq<BoneCollection>)
    requires c < |cols|
    ensures |r| == |cols|
    ensures forall j :: 0 <= j < |cols| ==> r[j].name == cols[j].name && r[j].parent == cols[j].parent
    decreases depth
  {
    var name := cols[c].name;
    if name !in entries then cols
    else
      var stored := entries[name];
      var first := match StoredParent(cols, stored)
        case Some(p) => if depth > 0 then Restored(cols, entries, p, depth - 1) else cols
        case None => cols;
      first[c := first[c].(visible := stored.visible)]
  }

  /**
   * A restore writes only stored visibilities: every collection ends visible as it was
   * or as the store holds under its name, and the collection restored ends with its
   * stored visibility; an unknown collection leaves everything as it was.
   */
  lemma {:induction false} RestoredExact(cols: seq<BoneCollection>, entries: map<string, Snapshot>, c: nat, depth: nat)
    requires c < |cols|
    ensures var r := Restored(cols, entries, c, depth);
      (forall j :: 0 <= j < |cols| ==>
        r[j].visible == cols[j].visible || (cols[j].name in entries && r[j].visible == entries[cols[j].name].visible))
      && (cols[c].name in entries ==> r[c].visible == entries[cols[c].name].visible)
      && (cols[c].name !in entries ==> r == cols)
    decreases depth
  {
    var name := cols[c].name;
    if name in entries {
      var stored := entries[name];
      match StoredParent(cols, stored)
      case Some(p) =>
        if depth > 0 {
          RestoredExact(cols, entries, p, depth - 1);
        }
      case None =>
    }
  }

  /** `restore_collection_visibility(collection, armature)`. */
  method RestoreCollectionVisibility(obj: PoseObject, store: VisibilityStore, c: nat, depth: nat)
    requires c < |obj.collections|
    modifies obj`collections
    ensures obj.collections == Restored(old(obj.collections), store.entries, c, depth)
    decreases depth
  {
    var name := obj.collections[c].name;
    if name in store.entries {
      var stored := store.entries[name];
      if stored.parent.Some? && stored.parent.value != "" {
        var p := CollectionIndex(obj.collections, stored.parent.value);
        if p.Some? && depth > 0 {
          RestoreCollectionVisibility(obj, store, p.value, depth - 1);
        }
      }
      obj.collections := obj.collections[c := obj.collections[c].(visible := stored.visible)];
    }
  }

  /** Every collection shown. */
  function ShowAll(cols: seq<BoneCollection>): (r: seq<BoneCollection>)
    ensures |r| == |cols|
    ensures forall j :: 0 <= j < |cols| ==> r[j] == cols[j].(visible := true)
  {
    seq(|cols|, j requires 0 <= j < |cols| => cols[j].(visible := true))
  }

  /** Showing the base and forced collections keeps the collections' names and parents, in order. */
  lemma UnhiddenShape(cols: seq<BoneCollection>)
    ensures var r := UnhideCollections(UnhideCollections(cols, BaseCollections), ForcedCollections);
      |r| == |cols| && forall j :: 0 <= j < |cols| ==> r[j].name == cols[j].name && r[j].parent == cols[j].parent
  {
    var once := UnhideCollections(cols, BaseCollections);
    UnhideCollectionsSpec(cols, BaseCollections);
    UnhideCollectionsSpec(once, ForcedCollections);
  }

  /** `for collection in collections_all: store_collection_visibility(collection)`. */
  method StoreAllVisibility(obj: PoseObject, store: VisibilityStore)
    requires UniqueCollectionNames(obj.collections)
    modifies store
    ensures StoredFrom(store.entries, old(store.entries), obj.collections)
    ensures forall j :: 0 <= j < |obj.collections| ==> Recorded(store.entries, obj.collections, j)
  {
    var i := 0;
    while i < |obj.collections|
      invariant 0 <= i <= |obj.collections|
      invariant StoredFrom(store.entries, old(store.entries), obj.collections)
      invariant forall j :: 0 <= j < i ==> Recorded(store.entries, obj.collections, j)
    {
      ghost var before := store.entries;
      StoreCollectionVisibility(obj, store, i, |obj.collections|);
      StoredFromTrans(store.entries, before, old(store.entries), obj.collections);
      forall j | 0 <= j < i
        ensures Recorded(store.entries, obj.collections, j)
      {
        StoredKeepsRecorded(store.entries, before, obj.collections, j);
      }
      i := i + 1;
    }
  }

  /** `for collection in collections_all: collection.is_visible = True`. */
  method ShowAllCollections(obj: PoseObject)
    modifies obj`collections
    ensures obj.collections == ShowAll(old(obj.collections))
  {
    var i := 0;
    while i < |obj.collections|
      invariant 0 <= i <= |obj.collections| == |old(obj.collections)|
      invariant forall j :: 0 <= j < i ==> obj.collections[j] == old(obj.collections)[j].(visible := true)
      invariant forall j :: i <= j < |obj.collections| ==> obj.collections[j] == old(obj.collections)[j]
    {
      obj.collections := obj.collections[i := obj.collections[i].(visible := true)];
      i := i + 1;
    }
  }

  /**
   * `for collection in collections_all: restore_collection_visibility(collection, armature)`
   * when the store knows every collection: each ends with its stored visibility.
   */
  method RestoreAllVisibility(obj: PoseObject, store: VisibilityStore)
    requires forall j :: 0 <= j < |obj.collections| ==> obj.collections[j].name in store.entries
    modifies obj`collections
    ensures |obj.collections| == |old(obj.collections)|
    ensures forall j :: 0 <= j < |old(obj.collections)| ==>
      obj.collections[j] == old(obj.collections)[j].(visible := store.entries[old(obj.collections)[j].name].visible)
  {
    var i := 0;
    while i < |obj.collections|
      invariant 0 <= i <= |obj.collections| == |old(obj.collections)|
      invariant forall j :: 0 <= j < |obj.collections| ==>
        obj.collections[j].name == old(obj.collections)[j].name && obj.collections[j].parent == old(obj.collections)[j].parent
      invariant forall j :: 0 <= j < i ==> obj.collections[j].visible == store.entries[obj.collections[j].name].visible
    {
      ghost var before := obj.collections;
      RestoreCollectionVisibility(obj, store, i, |obj.collections|);
      RestoredExact(before, store.entries, i, |before|);
      i := i + 1;
    }
  }

  /**
   * `IMPORT_POSE_OT.execute`: CANCELLED with nothing changed unless the active object is
   * an armature. Otherwise every collection's visibility and parent is stored, every
   * collection is shown, and the pose is imported. When the import raises, the exception
   * leaves `execute` there: every collection stays shown. Otherwise every collection is
   * restored, so the collections end exactly as they began. Either way the store keeps
   * their snapshots.
   */
  method ExecuteImport(obj: PoseObject, store: VisibilityStore, record: map<string, BoneEntry>,
                       parse: string -> Option<real>, expmap: (real, real, real) -> Quat, toLocal: (seq<PoseBone>, nat, Quat) -> Quat,
                       defaults: ConstraintKind -> Settings, visual: (seq<PoseBone>, nat) -> Transform,
                       placePole: (seq<PoseBone>, nat, nat) -> Transform)
    returns (status: Status)
    requires UniqueCollectionNames(obj.collections)
    modifies obj`bones, obj`collections, store
    ensures !obj.isArmature ==> status == Cancelled && unchanged(obj) && unchanged(store)
    ensures obj.isArmature ==>
      var r := ImportedPose(old(obj.bones), ShowAll(old(obj.collections)), record, parse, expmap, toLocal, defaults, visual, placePole);
      obj.bones == r.bones
      && (r.raised ==> status == Raised && obj.collections == ShowAll(old(obj.collections)))
      && (!r.raised ==> status == Finished && obj.collections == old(obj.collections))
    ensures obj.isArmature ==> StoredFrom(store.entries, old(store.entries), old(obj.collections))
    ensures obj.isArmature ==> forall j :: 0 <= j < |old(obj.collections)| ==> Recorded(store.entries, old(obj.collections), j)
  {
    if !obj.isArmature {
      return Cancelled;
    }
    ghost var cols0 := obj.collections;
    StoreAllVisibility(obj, store);
    ShowAllCollections(obj);
    ghost var shown := obj.collections;
    var raised := ImportPose(obj, record, parse, expmap, toLocal, defaults, visual, placePole);
    if raised {
      return Raised;
    }
    UnhiddenShape(shown);
    forall j | 0 <= j < |cols0|
      ensures obj.collections[j].name == cols0[j].name && obj.collections[j].parent == cols0[j].parent
    {
      assert shown[j] == cols0[j].(visible := true);
    }
    RestoreAfterImport(obj, store, cols0);
    return Finished;
  }

  /**
   * The restore loop after a completed import: the collections still carry the names and
   * parents they began with, and the store holds a snapshot of each, so restoring every
   * collection brings back exactly the collections the import began with.
   */
  method RestoreAfterImport(obj: PoseObject, store: VisibilityStore, ghost cols0: seq<BoneCollection>)
    requires |obj.collections| == |cols0|
    requires forall j :: 0 <= j < |cols0| ==>
      obj.collections[j].name == cols0[j].name && obj.collections[j].parent == cols0[j].parent
    requires forall j :: 0 <= j < |cols0| ==> Recorded(store.entries, cols0, j)
    modifies obj`collections
    ensures obj.collections == cols0
  {
    forall j | 0 <= j < |obj.collections|
      ensures obj.collections[j].name in store.entries
    {
      assert Recorded(store.entries, cols0, j);
    }
    RestoreAllVisibility(obj, store);
    forall j | 0 <= j < |cols0|
      ensures obj.collections[j] == cols0[j]
    {
      assert Recorded(store.entries, cols0, j);
    }
  }
}
