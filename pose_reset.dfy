/** The two pose-reset operators (mektools/operators/pose_helper.py). */
module PoseReset {
  import opened Wrappers
  import opened PoseRig

  /** A bone in its rest transform: no offset, identity rotation, unit scale. */
  predicate AtRest(b: PoseBone) {
    b.location == Origin && b.rotation == IdentityQuat && b.scale == UnitScale
  }

  /** The bone with its transform reset and everything else kept. */
  function Rested(b: PoseBone): (r: PoseBone)
    ensures AtRest(r)
    ensures r.name == b.name && r.parent == b.parent && r.constraints == b.constraints
    ensures r.collections == b.collections && r.selected == b.selected
  {
    b.(location := Origin, rotation := IdentityQuat, scale := UnitScale)
  }

  /** Every bone reset when `all`, otherwise only the selected ones. */
  function RestedWhere(bones: seq<PoseBone>, all: bool): (r: seq<PoseBone>)
    ensures |r| == |bones|
    ensures forall i :: 0 <= i < |bones| ==> r[i] == if all || bones[i].selected then Rested(bones[i]) else bones[i]
  {
    seq(|bones|, i requires 0 <= i < |bones| => if all || bones[i].selected then Rested(bones[i]) else bones[i])
  }

  /** After a full reset every bone is at rest, and nothing but the transforms changed. */
  lemma RestAllAtRest(bones: seq<PoseBone>)
    ensures forall i :: 0 <= i < |bones| ==> AtRest(RestedWhere(bones, true)[i])
    ensures SameSkeleton(RestedWhere(bones, true), bones)
  {
  }

  /** Resetting twice is resetting once (both resets assign constants). */
  lemma RestedWhereIdempotent(bones: seq<PoseBone>, all: bool)
    ensures RestedWhere(RestedWhere(bones, all), all) == RestedWhere(bones, all)
  {
    var once := RestedWhere(bones, all);
    var twice := RestedWhere(once, all);
    forall i | 0 <= i < |bones|
      ensures twice[i] == once[i]
    {
      if all || bones[i].selected {
        assert once[i].selected == bones[i].selected;
      }
    }
  }

  /** The selection reset leaves unselected bones exactly as they were. */
  lemma SelectionResetSpares(bones: seq<PoseBone>, i: nat)
    requires i < |bones| && !bones[i].selected
    ensures RestedWhere(bones, false)[i] == bones[i]
  {
  }

  /** The selected pose bones (`bone.bone.select`), in the armature's order. */
  function SelectedBones(bones: seq<PoseBone>): (r: seq<nat>)
    ensures forall k :: 0 <= k < |r| ==> r[k] < |bones| && bones[r[k]].selected
    ensures forall i :: 0 <= i < |bones| && bones[i].selected ==> i in r
    ensures |r| == 0 <==> forall i :: 0 <= i < |bones| ==> !bones[i].selected
    decreases |bones|
  {
    if |bones| == 0 then []
    else
      var rest := SelectedBones(bones[..|bones| - 1]);
      if bones[|bones| - 1].selected then rest + [|bones| - 1] else rest
  }

  /**
   * `POSE_RESET_OT.execute`: with no armature active, CANCELLED and nothing changes;
   * otherwise every pose bone gets location (0,0,0), rotation (1,0,0,0), scale (1,1,1).
   */
  method ResetPose(obj: PoseObject) returns (status: Status)
    modifies obj`bones
    ensures !obj.isArmature ==> status == Cancelled && obj.bones == old(obj.bones)
    ensures obj.isArmature ==> status == Finished && obj.bones == RestedWhere(old(obj.bones), true)
  {
    if !obj.isArmature {
      return Cancelled;
    }
    var i := 0;
    while i < |obj.bones|
      invariant 0 <= i <= |obj.bones| == |old(obj.bones)|
      invariant forall k :: 0 <= k < i ==> obj.bones[k] == Rested(old(obj.bones)[k])
      invariant forall k :: i <= k < |obj.bones| ==> obj.bones[k] == old(obj.bones)[k]
    {
      obj.bones := obj.bones[i := Rested(obj.bones[i])];
      i := i + 1;
    }
    return Finished;
  }

  /**
   * `POSE_RESET_OT_Selection.execute`: CANCELLED with nothing changed when no armature is
   * active or no bone is selected; otherwise only the selected bones are reset.
   */
  method ResetSelection(obj: PoseObject) returns (status: Status)
    modifies obj`bones
    ensures !obj.isArmature ==> status == Cancelled && obj.bones == old(obj.bones)
    ensures obj.isArmature && (forall i :: 0 <= i < |old(obj.bones)| ==> !old(obj.bones)[i].selected) ==>
      status == Cancelled && obj.bones == old(obj.bones)
    ensures obj.isArmature && (exists i :: 0 <= i < |old(obj.bones)| && old(obj.bones)[i].selected) ==>
      status == Finished && obj.bones == RestedWhere(old(obj.bones), false)
  {
    if !obj.isArmature {
      return Cancelled;
    }
    var selected := SelectedBones(obj.bones);
    if |selected| == 0 {
      return Cancelled;
    }
    var k := 0;
    while k < |selected|
      invariant 0 <= k <= |selected|
      invariant |obj.bones| == |old(obj.bones)|
      invariant forall i :: 0 <= i < |obj.bones| ==>
        obj.bones[i] == if i in selected[..k] then Rested(old(obj.bones)[i]) else old(obj.bones)[i]
    {
      obj.bones := obj.bones[selected[k] := Rested(obj.bones[selected[k]])];
      assert selected[..k + 1] == selected[..k] + [selected[k]];
      k := k + 1;
    }
    assert selected[..k] == selected;
    return Finished;
  }
}
