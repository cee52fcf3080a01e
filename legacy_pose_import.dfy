/**
 * The older pose importer (operators/import_pose.py). It differs from the current one:
 * no pose reset first, `load_bone` is a plain function without an exception guard, and
 * only the base collections are reset, never forced. Its constraint reversal and pole
 * moves are the ones of `PoseSteps`.
 *
 * As written, `load_bone` rebinds `bone` to the pose bone and then looks the record up
 * with that object, which equals none of the record's string keys, so no bone is ever
 * loaded (`LoadedAsWritten`); the import as written is `LegacyImportedAsWritten`, which
 * ignores the record. `LegacyImported` and the methods below use the lookup by name the
 * code evidently intends (`LoadedByName`).
 */
module LegacyPoseImport {
  import opened Wrappers
  import opened PoseRig
  import opened PoseSteps
  import opened PoseImport
  import PoseReset

  /**
   * What happens to the bones once the entry for bone `i` has been fetched: nothing
   * without an entry or with an empty one; otherwise the `Rotation` value is parsed and
   * written. None where Python raises (a missing `Rotation` key, a malformed value).
   */
  function ApplyEntry(bones: seq<PoseBone>, i: nat, trans: Option<BoneEntry>,
                      parse: string -> Option<real>, expmap: (real, real, real) -> Quat, toLocal: (seq<PoseBone>, nat, Quat) -> Quat): (r: Option<seq<PoseBone>>)
    requires i < |bones|
  {
    match trans
    case None => Some(bones)
    case Some(e) =>
      if IsEmptyEntry(e) then Some(bones)
      else match EntryRotation(e, parse, expmap)
        case None => None
        case Some(q) => Some(bones[i := bones[i].(rotation := toLocal(bones, i, q))])
  }

  /** `load_bone(bone, path, diff)` as written: `arm.bones[bone]`, then `pose.get(<the pose bone>)`. */
  function LoadedAsWritten(bones: seq<PoseBone>, name: string, record: map<string, BoneEntry>,
                           parse: string -> Option<real>, expmap: (real, real, real) -> Quat, toLocal: (seq<PoseBone>, nat, Quat) -> Quat): Option<seq<PoseBone>>
  {
    match BoneIndex(bones, name)
    case None => None
    case Some(i) => ApplyEntry(bones, i, RecordGet(record, BoneKey(bones[i])), parse, expmap, toLocal)
  }

  /** `load_bone` with the lookup `pose.get(name)` evidently intended. */
  function LoadedByName(bones: seq<PoseBone>, name: string, record: map<string, BoneEntry>,
                        parse: string -> Option<real>, expmap: (real, real, real) -> Quat, toLocal: (seq<PoseBone>, nat, Quat) -> Quat): Option<seq<PoseBone>>
  {
    match BoneIndex(bones, name)
    case None => None
    case Some(i) => ApplyEntry(bones, i, RecordGet(record, NameKey(name)), parse, expmap, toLocal)
  }

  /** A record entry that is present and non-empty but whose rotation cannot be read. */
  predicate Unreadable(record: map<string, BoneEntry>, name: string, parse: string -> Option<real>, expmap: (real, real, real) -> Quat) {
    name in record && !IsEmptyEntry(record[name]) && EntryRotation(record[name], parse, expmap).None?
  }

  /**
   * As written, loading a bone of the armature never changes anything and never raises,
   * whatever the record holds under its name.
   */
  lemma LegacyLoadNeverApplies(bones: seq<PoseBone>, name: string, record: map<string, BoneEntry>,
                               parse: string -> Option<real>, expmap: (real, real, real) -> Quat, toLocal: (seq<PoseBone>, nat, Quat) -> Quat)
    requires BoneIndex(bones, name).Some?
    ensures LoadedAsWritten(bones, name, record, parse, expmap, toLocal) == Some(bones)
  {
  }

  /**
   * The discrepancy: a record with a readable rotation for the bone, and a conversion
   * that changes the bone's rotation. The lookup by name writes it; the code as written
   * does not.
   */
  lemma LegacyLoadMissesEntry(bones: seq<PoseBone>, name: string, record: map<string, BoneEntry>,
                              parse: string -> Option<real>, expmap: (real, real, real) -> Quat, toLocal: (seq<PoseBone>, nat, Quat) -> Quat)
    requires BoneIndex(bones, name).Some? && name in record && !IsEmptyEntry(record[name])
    requires EntryRotation(record[name], parse, expmap).Some?
    requires var i := BoneIndex(bones, name).value;
      toLocal(bones, i, EntryRotation(record[name], parse, expmap).value) != bones[i].rotation
    ensures LoadedAsWritten(bones, name, record, parse, expmap, toLocal) != LoadedByName(bones, name, record, parse, expmap, toLocal)
  {
    var i := BoneIndex(bones, name).value;
    var r := LoadedByName(bones, name, record, parse, expmap, toLocal);
    assert r.value[i].rotation != bones[i].rotation;
  }

  /**
   * The lookup by name: a missing bone raises (`arm.bones[bone]`); a bone without a
   * non-empty entry is left alone; an unreadable rotation raises; otherwise exactly that
   * bone's rotation is written.
   */
  lemma LoadedByNameExact(bones: seq<PoseBone>, name: string, record: map<string, BoneEntry>,
                          parse: string -> Option<real>, expmap: (real, real, real) -> Quat, toLocal: (seq<PoseBone>, nat, Quat) -> Quat)
    ensures LoadedByName(bones, name, record, parse, expmap, toLocal).None? <==>
      BoneIndex(bones, name).None? || Unreadable(record, name, parse, expmap)
    ensures BoneIndex(bones, name).Some? && (name !in record || IsEmptyEntry(record[name])) ==>
      LoadedByName(bones, name, record, parse, expmap, toLocal) == Some(bones)
    ensures BoneIndex(bones, name).Some? && name in record && !IsEmptyEntry(record[name]) && !Unreadable(record, name, parse, expmap) ==>
      var i := BoneIndex(bones, name).value;
      LoadedByName(bones, name, record, parse, expmap, toLocal)
        == Some(bones[i := bones[i].(rotation := toLocal(bones, i, EntryRotation(record[name], parse, expmap).value))])
  {
  }

  /** `load_bone(bone, path, diff)` with the lookup by name; returns whether it raised. */
  method LoadBoneByName(obj: PoseObject, name: string, record: map<string, BoneEntry>,
                        parse: string -> Option<real>, expmap: (real, real, real) -> Quat, toLocal: (seq<PoseBone>, nat, Quat) -> Quat) returns (raised: bool)
    modifies obj`bones
    ensures raised <==> LoadedByName(old(obj.bones), name, record, parse, expmap, toLocal).None?
    ensures obj.bones == LoadedByName(old(obj.bones), name, record, parse, expmap, toLocal).GetOr(old(obj.bones))
  {
    var found := BoneIndex(obj.bones, name);
    if found.None? {
      return true;
    }
    var i := found.value;
    var trans := RecordGet(record, NameKey(name));
    if trans.None? || IsEmptyEntry(trans.value) {
      return false;
    }
    if trans.value.rotation.None? {
      return true;
    }
    var rot := ParseRotation(trans.value.rotation.value, parse, expmap);
    if rot.None? {
      return true;
    }
    obj.bones := obj.bones[i := obj.bones[i].(rotation := toLocal(obj.bones, i, rot.value))];
    return false;
  }

  /** `for bone in arm.bones: load_bone(bone.name, ...)` from bone `i` on. */
  function LoadFrom(bones: seq<PoseBone>, i: nat, record: map<string, BoneEntry>,
                    parse: string -> Option<real>, expmap: (real, real, real) -> Quat, toLocal: (seq<PoseBone>, nat, Quat) -> Quat): (r: LoadRun)
    requires i <= |bones|
    ensures |r.bones| == |bones|
    decreases |bones| - i
  {
    if i == |bones| then LoadRun(bones, false)
    else match LoadedByName(bones, bones[i].name, record, parse, expmap, toLocal)
      case None => LoadRun(bones, true)
      case Some(next) => LoadFrom(next, i + 1, record, parse, expmap, toLocal)
  }

  /** A successful load by name writes a rotation only. */
  lemma LoadedByNameKeepsRig(bones: seq<PoseBone>, name: string, record: map<string, BoneEntry>,
                             parse: string -> Option<real>, expmap: (real, real, real) -> Quat, toLocal: (seq<PoseBone>, nat, Quat) -> Quat)
    requires LoadedByName(bones, name, record, parse, expmap, toLocal).Some?
    ensures SameRig(LoadedByName(bones, name, record, parse, expmap, toLocal).value, bones)
  {
    LoadedByNameExact(bones, name, record, parse, expmap, toLocal);
  }

  /** The run raises exactly when some bone from `i` on has an unreadable entry. */
  lemma {:induction false} LoadFromRaises(bones: seq<PoseBone>, i: nat, record: map<string, BoneEntry>,
                                          parse: string -> Option<real>, expmap: (real, real, real) -> Quat, toLocal: (seq<PoseBone>, nat, Quat) -> Quat)
    requires i <= |bones|
    ensures LoadFrom(bones, i, record, parse, expmap, toLocal).raised <==>
      exists k :: i <= k < |bones| && Unreadable(record, bones[k].name, parse, expmap)
    decreases |bones| - i
  {
    if i < |bones| {
      LoadFromStep(bones, i, record, parse, expmap, toLocal);
      match LoadedByName(bones, bones[i].name, record, parse, expmap, toLocal)
      case None =>
      case Some(next) =>
        LoadFromRaises(next, i + 1, record, parse, expmap, toLocal);
        if k :| i <= k < |bones| && Unreadable(record, bones[k].name, parse, expmap) {
          assert next[k].name == bones[k].name;
        }
        if k :| i + 1 <= k < |next| && Unreadable(record, next[k].name, parse, expmap) {
          assert next[k].name == bones[k].name;
        }
    }
  }

  /**
   * One step of the run: the load of bone `i` fails exactly on an unreadable entry under
   * that bone's name, and a successful load keeps every name.
   */
  lemma LoadFromStep(bones: seq<PoseBone>, i: nat, record: map<string, BoneEntry>,
                     parse: string -> Option<real>, expmap: (real, real, real) -> Quat, toLocal: (seq<PoseBone>, nat, Quat) -> Quat)
    requires i < |bones|
    ensures var r := LoadedByName(bones, bones[i].name, record, parse, expmap, toLocal);
      (r.None? <==> Unreadable(record, bones[i].name, parse, expmap))
      && (r.Some? ==> |r.value| == |bones| && forall k :: 0 <= k < |bones| ==> r.value[k].name == bones[k].name)
  {
    var name := bones[i].name;
    assert BoneIndex(bones, name).Some?;
    LoadedByNameExact(bones, name, record, parse, expmap, toLocal);
    if LoadedByName(bones, name, record, parse, expmap, toLocal).Some? {
      LoadedByNameKeepsRig(bones, name, record, parse, expmap, toLocal);
    }
  }

  /** Loads write rotations only. */
  lemma {:induction false} LoadFromKeepsRig(bones: seq<PoseBone>, i: nat, record: map<string, BoneEntry>,
                                            parse: string -> Option<real>, expmap: (real, real, real) -> Quat, toLocal: (seq<PoseBone>, nat, Quat) -> Quat)
    requires i <= |bones|
    ensures SameRig(LoadFrom(bones, i, record, parse, expmap, toLocal).bones, bones)
    decreases |bones| - i
  {
    if i < |bones| {
      match LoadedByName(bones, bones[i].name, record, parse, expmap, toLocal)
      case None =>
      case Some(next) =>
        LoadedByNameKeepsRig(bones, bones[i].name, record, parse, expmap, toLocal);
        LoadFromKeepsRig(next, i + 1, record, parse, expmap, toLocal);
        SameRigTrans(LoadFrom(next, i + 1, record, parse, expmap, toLocal).bones, next, bones);
    }
  }


  /** The loading loop of `import_pose`; returns whether a load raised. */
  method LoadEach(obj: PoseObject, record: map<string, BoneEntry>,
                  parse: string -> Option<real>, expmap: (real, real, real) -> Quat, toLocal: (seq<PoseBone>, nat, Quat) -> Quat) returns (raised: bool)
    modifies obj`bones
    ensures LoadRun(obj.bones, raised) == LoadFrom(old(obj.bones), 0, record, parse, expmap, toLocal)
  {
    ghost var target := LoadFrom(obj.bones, 0, record, parse, expmap, toLocal);
    var i := 0;
    while i < |obj.bones|
      invariant 0 <= i <= |obj.bones|
      invariant LoadFrom(obj.bones, i, record, parse, expmap, toLocal) == target
    {
      raised := LoadBoneByName(obj, obj.bones[i].name, record, parse, expmap, toLocal);
      if raised {
        return;
      }
      i := i + 1;
    }
    return false;
  }

  /** Unmute every constraint, reset the Copy-constrained bones of the base collections, clear the root's rotation. */
  function LegacyFinish(bones: seq<PoseBone>, cols: seq<BoneCollection>, root: nat): (r: seq<PoseBone>)
    requires root < |bones|
    ensures |r| == |bones|
  {
    RootIdentity(ResetCollections(WithMute(bones, false), cols, BaseCollections, false), root)
  }

  /** Clear the root's basis, mute every constraint and load every bone. */
  function LegacyLoad(bones: seq<PoseBone>, root: nat, record: map<string, BoneEntry>,
                      parse: string -> Option<real>, expmap: (real, real, real) -> Quat, toLocal: (seq<PoseBone>, nat, Quat) -> Quat): (r: LoadRun)
    requires root < |bones|
    ensures |r.bones| == |bones|
  {
    LoadFrom(WithMute(bones[root := PoseReset.Rested(bones[root])], true), 0, record, parse, expmap, toLocal)
  }

  /** The steps after loading: none when a load raised; otherwise reverse, poles, unmute, base reset, root. */
  function LegacyAfterLoad(run: LoadRun, cols: seq<BoneCollection>, root: nat,
                           defaults: ConstraintKind -> Settings, visual: (seq<PoseBone>, nat) -> Transform,
                    placePole: (seq<PoseBone>, nat, nat) -> Transform): Imported
    requires root < |run.bones|
  {
    if run.raised then Imported(run.bones, cols, true)
    else Imported(LegacyFinish(AdjustStage(run.bones, defaults, visual, placePole), cols, root), UnhideCollections(cols, BaseCollections), false)
  }

  /**
   * The older `import_pose`: without an `n_throw` bone nothing happens; otherwise the
   * root's basis is cleared, every constraint muted and every bone loaded. A load that
   * raises ends the import there, with the constraints still muted; otherwise the Copy
   * constraints are reversed, the poles moved, the constraints unmuted, the base
   * collections reset and the root's rotation cleared.
   */
  function LegacyImported(bones: seq<PoseBone>, cols: seq<BoneCollection>, record: map<string, BoneEntry>,
                          parse: string -> Option<real>, expmap: (real, real, real) -> Quat, toLocal: (seq<PoseBone>, nat, Quat) -> Quat,
                          defaults: ConstraintKind -> Settings, visual: (seq<PoseBone>, nat) -> Transform,
                    placePole: (seq<PoseBone>, nat, nat) -> Transform): Imported
  {
    match BoneIndex(bones, "n_throw")
    case None => Imported(bones, cols, false)
    case Some(root) => LegacyAfterLoad(LegacyLoad(bones, root, record, parse, expmap, toLocal), cols, root, defaults, visual, placePole)
  }

  /** Without an `n_throw` bone the older import changes nothing at all (it does not reset the pose). */
  lemma LegacyWithoutRoot(bones: seq<PoseBone>, cols: seq<BoneCollection>, record: map<string, BoneEntry>,
                          parse: string -> Option<real>, expmap: (real, real, real) -> Quat, toLocal: (seq<PoseBone>, nat, Quat) -> Quat,
                          defaults: ConstraintKind -> Settings, visual: (seq<PoseBone>, nat) -> Transform,
                    placePole: (seq<PoseBone>, nat, nat) -> Transform)
    requires BoneIndex(bones, "n_throw").None?
    ensures LegacyImported(bones, cols, record, parse, expmap, toLocal, defaults, visual, placePole) == Imported(bones, cols, false)
  {
  }

  /** The loading loop as written: every load goes through `LoadedAsWritten`. */
  function LoadFromAsWritten(bones: seq<PoseBone>, i: nat, record: map<string, BoneEntry>,
                             parse: string -> Option<real>, expmap: (real, real, real) -> Quat, toLocal: (seq<PoseBone>, nat, Quat) -> Quat): (r: LoadRun)
    requires i <= |bones|
    ensures |r.bones| == |bones|
    decreases |bones| - i
  {
    if i == |bones| then LoadRun(bones, false)
    else match LoadedAsWritten(bones, bones[i].name, record, parse, expmap, toLocal)
      case None => LoadRun(bones, true)
      case Some(next) => LoadFromAsWritten(next, i + 1, record, parse, expmap, toLocal)
  }

  /** As written, the loading loop neither raises nor changes a bone, whatever the record holds. */
  lemma {:induction false} LoadFromAsWrittenInert(bones: seq<PoseBone>, i: nat, record: map<string, BoneEntry>,
                                                  parse: string -> Option<real>, expmap: (real, real, real) -> Quat, toLocal: (seq<PoseBone>, nat, Quat) -> Quat)
    requires i <= |bones|
    ensures LoadFromAsWritten(bones, i, record, parse, expmap, toLocal) == LoadRun(bones, false)
    decreases |bones| - i
  {
    if i < |bones| {
      assert BoneIndex(bones, bones[i].name).Some?;
      LegacyLoadNeverApplies(bones, bones[i].name, record, parse, expmap, toLocal);
      LoadFromAsWrittenInert(bones, i + 1, record, parse, expmap, toLocal);
    }
  }

  /** The older `import_pose` as written: `LegacyImported` with every load going through `LoadedAsWritten`. */
  function LegacyImportedAsWritten(bones: seq<PoseBone>, cols: seq<BoneCollection>, record: map<string, BoneEntry>,
                                   parse: string -> Option<real>, expmap: (real, real, real) -> Quat, toLocal: (seq<PoseBone>, nat, Quat) -> Quat,
                                   defaults: ConstraintKind -> Settings, visual: (seq<PoseBone>, nat) -> Transform,
                                   placePole: (seq<PoseBone>, nat, nat) -> Transform): Imported
  {
    match BoneIndex(bones, "n_throw")
    case None => Imported(bones, cols, false)
    case Some(root) =>
      var muted := WithMute(bones[root := PoseReset.Rested(bones[root])], true);
      LegacyAfterLoad(LoadFromAsWritten(muted, 0, record, parse, expmap, toLocal), cols, root, defaults, visual, placePole)
  }

  /**
   * As written, the older import never raises and ignores the record: with an `n_throw`
   * bone it clears the root's basis, then reverses the Copy constraints, moves the poles,
   * resets the base collections and clears the root's rotation, the same for every file.
   */
  lemma AsWrittenIgnoresRecord(bones: seq<PoseBone>, cols: seq<BoneCollection>, record: map<string, BoneEntry>,
                               parse: string -> Option<real>, expmap: (real, real, real) -> Quat, toLocal: (seq<PoseBone>, nat, Quat) -> Quat,
                               defaults: ConstraintKind -> Settings, visual: (seq<PoseBone>, nat) -> Transform,
                               placePole: (seq<PoseBone>, nat, nat) -> Transform)
    ensures var r := LegacyImportedAsWritten(bones, cols, record, parse, expmap, toLocal, defaults, visual, placePole);
      !r.raised &&
      match BoneIndex(bones, "n_throw")
      case None => r == Imported(bones, cols, false)
      case Some(root) =>
        r == LegacyAfterLoad(LoadRun(WithMute(bones[root := PoseReset.Rested(bones[root])], true), false),
                             cols, root, defaults, visual, placePole)
  {
    match BoneIndex(bones, "n_throw")
    case None =>
    case Some(root) =>
      var muted := WithMute(bones[root := PoseReset.Rested(bones[root])], true);
      LoadFromAsWrittenInert(muted, 0, record, parse, expmap, toLocal);
  }

  /**
   * The loads raise exactly when some bone's entry is unreadable; they keep the
   * skeleton, and leave every constraint muted.
   */
  lemma LegacyLoadExact(bones: seq<PoseBone>, root: nat, record: map<string, BoneEntry>,
                        parse: string -> Option<real>, expmap: (real, real, real) -> Quat, toLocal: (seq<PoseBone>, nat, Quat) -> Quat)
    requires root < |bones|
    ensures var run := LegacyLoad(bones, root, record, parse, expmap, toLocal);
      (run.raised <==> exists k :: 0 <= k < |bones| && Unreadable(record, bones[k].name, parse, expmap))
      && SameSkeleton(run.bones, bones)
      && forall i, k :: 0 <= i < |run.bones| && 0 <= k < |run.bones[i].constraints| ==> run.bones[i].constraints[k].mute
  {
    var cleared := bones[root := PoseReset.Rested(bones[root])];
    var muted := WithMute(cleared, true);
    WithMuteSkeleton(cleared, true);
    WithMuteAll(cleared, true);
    LoadFromRaises(muted, 0, record, parse, expmap, toLocal);
    LoadFromKeepsRig(muted, 0, record, parse, expmap, toLocal);
    var run := LoadFrom(muted, 0, record, parse, expmap, toLocal);
    assert forall k :: 0 <= k < |bones| ==> muted[k].name == bones[k].name;
    assert SameRig(cleared, bones);
    SameRigSkeleton(cleared, bones);
    SameRigSkeleton(run.bones, muted);
    SameSkeletonTrans(run.bones, muted, cleared);
    SameSkeletonTrans(run.bones, cleared, bones);
  }

  /** The steps after loading keep the skeleton. */
  lemma LegacyFinishSkeleton(bones: seq<PoseBone>, cols: seq<BoneCollection>, root: nat,
                             defaults: ConstraintKind -> Settings, visual: (seq<PoseBone>, nat) -> Transform,
                    placePole: (seq<PoseBone>, nat, nat) -> Transform)
    requires root < |bones|
    ensures SameSkeleton(LegacyFinish(AdjustStage(bones, defaults, visual, placePole), cols, root), bones)
  {
    var adjusted := AdjustStage(bones, defaults, visual, placePole);
    AdjustStageRig(bones, defaults, visual, placePole);
    SameRigSkeleton(adjusted, bones);
    var unmuted := WithMute(adjusted, false);
    WithMuteSkeleton(adjusted, false);
    ResetCollectionsKeepsRig(unmuted, cols, BaseCollections, false);
    var r := LegacyFinish(adjusted, cols, root);
    SameRigSkeleton(r, unmuted);
    SameSkeletonTrans(r, unmuted, adjusted);
    SameSkeletonTrans(r, adjusted, bones);
  }

  /**
   * With an `n_throw` bone the import raises exactly when some bone's entry is
   * unreadable; then every constraint is left muted and the collections untouched.
   * Either way the skeleton is kept.
   */
  lemma LegacyRaises(bones: seq<PoseBone>, cols: seq<BoneCollection>, record: map<string, BoneEntry>,
                     parse: string -> Option<real>, expmap: (real, real, real) -> Quat, toLocal: (seq<PoseBone>, nat, Quat) -> Quat,
                     defaults: ConstraintKind -> Settings, visual: (seq<PoseBone>, nat) -> Transform,
                    placePole: (seq<PoseBone>, nat, nat) -> Transform)
    requires BoneIndex(bones, "n_throw").Some?
    ensures var r := LegacyImported(bones, cols, record, parse, expmap, toLocal, defaults, visual, placePole);
      (r.raised <==> exists k :: 0 <= k < |bones| && Unreadable(record, bones[k].name, parse, expmap))
      && SameSkeleton(r.bones, bones)
      && (r.raised ==> r.cols == cols)
      && (r.raised ==> forall i, k :: 0 <= i < |r.bones| && 0 <= k < |r.bones[i].constraints| ==> r.bones[i].constraints[k].mute)
  {
    var root := BoneIndex(bones, "n_throw").value;
    var run := LegacyLoad(bones, root, record, parse, expmap, toLocal);
    LegacyLoadExact(bones, root, record, parse, expmap, toLocal);
    if !run.raised {
      LegacyFinishSkeleton(run.bones, cols, root, defaults, visual, placePole);
      SameSkeletonTrans(LegacyFinish(AdjustStage(run.bones, defaults, visual, placePole), cols, root), run.bones, bones);
    }
  }

  /**
   * A completed older import leaves no constraint muted and the root at the identity
   * rotation, and resets the Copy-constrained bones of the existing base collections;
   * the forced collections of the newer importer are not touched.
   */
  lemma LegacyCompletes(bones: seq<PoseBone>, cols: seq<BoneCollection>, root: nat)
    requires root < |bones|
    ensures var r := LegacyFinish(bones, cols, root);
      r[root].rotation == IdentityQuat
      && (forall i, k :: 0 <= i < |r| && 0 <= k < |r[i].constraints| ==> !r[i].constraints[k].mute)
      && (forall i :: 0 <= i < |r| && i != root ==>
            r[i].rotation == if ResetByAny(bones[i], cols, BaseCollections, false) then IdentityQuat else bones[i].rotation)
  {
    var unmuted := WithMute(bones, false);
    WithMuteSkeleton(bones, false);
    WithMuteAll(bones, false);
    var based := ResetCollections(unmuted, cols, BaseCollections, false);
    ResetCollectionsKeepsRig(unmuted, cols, BaseCollections, false);
    forall i | 0 <= i < |bones| && i != root
      ensures LegacyFinish(bones, cols, root)[i].rotation
        == if ResetByAny(bones[i], cols, BaseCollections, false) then IdentityQuat else bones[i].rotation
    {
      ResetCollectionsExact(unmuted, cols, BaseCollections, false, i);
      assert unmuted[i].collections == bones[i].collections;
      assert HasCopyConstraint(unmuted[i]) == HasCopyConstraint(bones[i]) by {
        assert forall k :: 0 <= k < |bones[i].constraints| ==> unmuted[i].constraints[k].kind == bones[i].constraints[k].kind;
      }
      assert ResetByAny(unmuted[i], cols, BaseCollections, false) == ResetByAny(bones[i], cols, BaseCollections, false);
    }
  }

  /** The older `import_pose(filepath, armature)`; returns whether a load raised out of it. */
  method ImportPose(obj: PoseObject, record: map<string, BoneEntry>,
                    parse: string -> Option<real>, expmap: (real, real, real) -> Quat, toLocal: (seq<PoseBone>, nat, Quat) -> Quat,
                    defaults: ConstraintKind -> Settings, visual: (seq<PoseBone>, nat) -> Transform,
                    placePole: (seq<PoseBone>, nat, nat) -> Transform)
    returns (raised: bool)
    modifies obj`bones, obj`collections
    ensures Imported(obj.bones, obj.collections, raised)
      == LegacyImported(old(obj.bones), old(obj.collections), record, parse, expmap, toLocal, defaults, visual, placePole)
  {
    ghost var cols0 := obj.collections;
    var found := BoneIndex(obj.bones, "n_throw");
    if found.None? {
      return false;
    }
    var root := found.value;
    ghost var bones0 := obj.bones;
    obj.bones := obj.bones[root := PoseReset.Rested(obj.bones[root])];
    SetMuteAll(obj, true);
    raised := LoadEach(obj, record, parse, expmap, toLocal);
    ghost var run := LegacyLoad(bones0, root, record, parse, expmap, toLocal);
    assert run == LoadRun(obj.bones, raised);
    if raised {
      return;
    }
    FinishImport(obj, root, defaults, visual, placePole);
    assert Imported(obj.bones, obj.collections, raised) == LegacyAfterLoad(run, cols0, root, defaults, visual, placePole);
  }

  /** The steps of the older `import_pose` after a load run that did not raise. */
  method FinishImport(obj: PoseObject, root: nat,
                      defaults: ConstraintKind -> Settings, visual: (seq<PoseBone>, nat) -> Transform,
                    placePole: (seq<PoseBone>, nat, nat) -> Transform)
    requires root < |obj.bones|
    modifies obj`bones, obj`collections
    ensures obj.bones == LegacyFinish(AdjustStage(old(obj.bones), defaults, visual, placePole), old(obj.collections), root)
    ensures obj.collections == UnhideCollections(old(obj.collections), BaseCollections)
  {
    ghost var loaded := obj.bones;
    ReverseConstraints(obj, defaults, visual);
    SetPoleTargets(obj, placePole);
    ghost var adjusted := obj.bones;
    assert adjusted == AdjustStage(loaded, defaults, visual, placePole);
    SetMuteAll(obj, false);
    ResetBonesInCollections(obj, Names(BaseCollections), false);
    obj.bones := obj.bones[root := obj.bones[root].(rotation := IdentityQuat)];
  }

  /**
   * The older `IMPORT_POSE_OT.execute`: CANCELLED with nothing changed unless the active
   * object is an armature; otherwise the import runs and the operator finishes, unless a
   * load raised.
   */
  method Execute(obj: PoseObject, record: map<string, BoneEntry>,
                 parse: string -> Option<real>, expmap: (real, real, real) -> Quat, toLocal: (seq<PoseBone>, nat, Quat) -> Quat,
                 defaults: ConstraintKind -> Settings, visual: (seq<PoseBone>, nat) -> Transform,
                    placePole: (seq<PoseBone>, nat, nat) -> Transform)
    returns (status: Status)
    modifies obj`bones, obj`collections
    ensures !obj.isArmature ==> status == Cancelled && unchanged(obj)
    ensures obj.isArmature ==>
      var r := LegacyImported(old(obj.bones), old(obj.collections), record, parse, expmap, toLocal, defaults, visual, placePole);
      obj.bones == r.bones && obj.collections == r.cols && status == (if r.raised then Raised else Finished)
  {
    if !obj.isArmature {
      return Cancelled;
    }
    var raised := ImportPose(obj, record, parse, expmap, toLocal, defaults, visual, placePole);
    status := if raised then Raised else Finished;
  }
}
