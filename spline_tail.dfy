/**
 * The spline-IK tail generator (mektools/functions/spline_gen_fn.py) as a bone graph:
 * which bones it adds to the armature, their parents and connection flags, the
 * constraints it attaches and what they target, and the hook modifiers of the control
 * curve. Heads, tails, offsets and curve point positions are geometry and are not
 * modelled.
 */
module SplineTail {
  import opened Wrappers

  /** The constraints the generator attaches; their targets are the armature itself. */
  datatype RigConstraint =
    | IkConstraint(subtarget: string, poleSubtarget: string, chainCount: int)
    | SplineIkConstraint(curve: string, chainCount: int)
    | CopyRotationConstraint(subtarget: string)
    | OtherConstraint

  /** An armature bone: its name, its parent's name, `use_connect`, and its constraint stack. */
  datatype RigBone = RigBone(name: string, parent: Option<string>, connected: bool, constraints: seq<RigConstraint>)

  /** A hook modifier of the curve: its name, the bone it follows, and the point assigned to it. */
  datatype Hook = Hook(name: string, subtarget: string, point: Option<nat>)

  /** The control curve: its name, how many Bezier points its one spline has, and its hooks. */
  datatype Curve = Curve(name: string, points: nat, hooks: seq<Hook>)

  /** The armature being rigged: its bones in creation order. */
  class TailArmature {
    var bones: seq<RigBone>

    constructor (bones: seq<RigBone>)
      ensures this.bones == bones
    {
      this.bones := bones;
    }
  }

  const TargetName := "IK_Target_Tail"
  const PoleName := "Pole_Target_Tail"

  function IkName(r: string): string { "IK_bone_" + r }
  function CtrlName(r: string): string { "SplineCtrl_bone_" + r }
  function SplineName(r: string): string { "SplineIK_bone_" + r }
  function HookName(r: string): string { "Hook_" + CtrlName(r) }

  /** Bone names are unique within an armature. */
  predicate UniqueNames(bones: seq<RigBone>) {
    forall j, k :: 0 <= j < k < |bones| ==> bones[j].name != bones[k].name
  }

  /** The names of the armature's bones. */
  function NameSet(bones: seq<RigBone>): set<string> {
    set k | 0 <= k < |bones| :: bones[k].name
  }

  /**
   * `pose.bones[name].constraints.new(...)`: the bone called `name` gets `c` at the end
   * of its stack (bone names are unique within an armature, so this is one bone).
   */
  function WithConstraint(bones: seq<RigBone>, name: string, c: RigConstraint): (r: seq<RigBone>)
    ensures |r| == |bones| && GraphOf(r) == GraphOf(bones)
    ensures forall k :: 0 <= k < |bones| && bones[k].name != name ==> r[k] == bones[k]
    ensures forall k :: 0 <= k < |bones| && bones[k].name == name ==> r[k].constraints == bones[k].constraints + [c]
  {
    seq(|bones|, k requires 0 <= k < |bones| =>
      if bones[k].name == name then bones[k].(constraints := bones[k].constraints + [c]) else bones[k])
  }

  // ---------------------------------------------------------------- the generated bones

  /** The number of IK bones: one per reference but the last. */
  function IkCount(refs: seq<string>): nat {
    if |refs| == 0 then 0 else |refs| - 1
  }

  /** `IK_bone_<ref>`: parented and connected to the previous IK bone, except the first. */
  function IkBone(refs: seq<string>, i: nat): RigBone
    requires i < |refs|
  {
    RigBone(IkName(refs[i]), if i == 0 then None else Some(IkName(refs[i - 1])), i > 0, [])
  }

  function IkChain(refs: seq<string>): (r: seq<RigBone>)
    ensures |r| == IkCount(refs)
  {
    seq(IkCount(refs), i requires 0 <= i < IkCount(refs) => IkBone(refs, i))
  }

  const TargetBone := RigBone(TargetName, None, false, [])
  const PoleBone := RigBone(PoleName, None, false, [])

  /** `SplineCtrl_bone_<ref>`: the last follows the IK target, the others their IK bone. */
  function CtrlBone(refs: seq<string>, i: nat): RigBone
    requires i < |refs|
  {
    RigBone(CtrlName(refs[i]), Some(if i == |refs| - 1 then TargetName else IkName(refs[i])), false, [])
  }

  function CtrlBones(refs: seq<string>): (r: seq<RigBone>)
    ensures |r| == |refs|
  {
    seq(|refs|, i requires 0 <= i < |refs| => CtrlBone(refs, i))
  }

  /** `SplineIK_bone_<ref>`: the first is a root, each other is connected to the previous. */
  function SplineBone(refs: seq<string>, i: nat): RigBone
    requires i < |refs|
  {
    RigBone(SplineName(refs[i]), if i == 0 then None else Some(SplineName(refs[i - 1])), i > 0, [])
  }

  function SplineChain(refs: seq<string>): (r: seq<RigBone>)
    ensures |r| == |refs|
  {
    seq(|refs|, i requires 0 <= i < |refs| => SplineBone(refs, i))
  }

  /** One hook per reference, following its control bone, on the point of the same index. */
  function Hooks(refs: seq<string>): (r: seq<Hook>)
    ensures |r| == |refs|
  {
    seq(|refs|, i requires 0 <= i < |refs| => Hook(HookName(refs[i]), CtrlName(refs[i]), Some(i)))
  }

  /** A bone without its constraints: its name, its parent and its connection. */
  datatype Link = Link(name: string, parent: Option<string>, connected: bool)

  function GraphOf(a: seq<RigBone>): (r: seq<Link>)
    ensures |r| == |a|
    ensures forall k :: 0 <= k < |a| ==> r[k] == Link(a[k].name, a[k].parent, a[k].connected)
  {
    seq(|a|, k requires 0 <= k < |a| => Link(a[k].name, a[k].parent, a[k].connected))
  }

  /** Same bones, parents and connections, whatever the constraints. */
  predicate SameGraph(a: seq<RigBone>, b: seq<RigBone>) {
    GraphOf(a) == GraphOf(b)
  }

  lemma GraphAppend(a: seq<RigBone>, b: seq<RigBone>)
    ensures GraphOf(a + b) == GraphOf(a) + GraphOf(b)
  {
    assert forall k :: 0 <= k < |a| + |b| ==> (a + b)[k] == if k < |a| then a[k] else b[k - |a|];
  }

  /** The Copy Rotation constraints of the references `k` onwards but the last. */
  function CopyRotations(bones: seq<RigBone>, refs: seq<string>, k: nat): (r: seq<RigBone>)
    ensures GraphOf(r) == GraphOf(bones)
    ensures forall idx :: 0 <= idx < |bones| && (forall j :: k <= j < |refs| - 1 ==> bones[idx].name != refs[j]) ==>
      r[idx] == bones[idx]
    decreases |refs| - k
  {
    if k + 1 >= |refs| then bones
    else CopyRotations(WithConstraint(bones, refs[k], CopyRotationConstraint(SplineName(refs[k]))), refs, k + 1)
  }

  /** The edit-mode part: IK chain, IK target and pole target. */
  function FirstStage(bones: seq<RigBone>, refs: seq<string>): (r: seq<RigBone>)
  {
    bones + IkChain(refs) + [TargetBone, PoleBone]
  }

  /** After the IK constraint, the control bones, the spline chain and the Spline IK constraint. */
  function MiddleStage(bones: seq<RigBone>, refs: seq<string>, curveName: string): (r: seq<RigBone>)
    requires |refs| >= 3
  {
    var n := |refs|;
    var withIk := WithConstraint(bones, IkName(refs[n - 2]), IkConstraint(TargetName, PoleName, n - 1));
    WithConstraint(withIk + CtrlBones(refs) + SplineChain(refs), SplineName(refs[n - 2]), SplineIkConstraint(curveName, n))
  }

  /** The Copy Rotation constraints on the reference bones. */
  function LastStage(bones: seq<RigBone>, refs: seq<string>): (r: seq<RigBone>)
    requires |refs| >= 1
  {
    WithConstraint(CopyRotations(bones, refs, 0), refs[|refs| - 1], CopyRotationConstraint(TargetName))
  }

  /** The armature's bones after a complete run. */
  function GeneratedBones(bones: seq<RigBone>, refs: seq<string>, curveName: string): (r: seq<RigBone>)
    requires |refs| >= 3
  {
    LastStage(MiddleStage(FirstStage(bones, refs), refs, curveName), refs)
  }

  // ---------------------------------------------------------------- the generator

  /** Every reference names a bone of the armature (the generator indexes `edit_bones` by them). */
  predicate Present(bones: seq<RigBone>, refs: seq<string>) {
    forall i :: 0 <= i < |refs| ==> refs[i] in NameSet(bones)
  }

  /**
   * The names the generator creates are new and distinct: the references are distinct and
   * no bone already carries a generated name, so the host never renames a new bone.
   */
  predicate Fresh(bones: seq<RigBone>, refs: seq<string>) {
    UniqueNames(bones)
    && (forall i, j :: 0 <= i < j < |refs| ==> refs[i] != refs[j])
    && TargetName !in NameSet(bones) && PoleName !in NameSet(bones)
    && forall i :: 0 <= i < |refs| ==>
         IkName(refs[i]) !in NameSet(bones) && CtrlName(refs[i]) !in NameSet(bones) && SplineName(refs[i]) !in NameSet(bones)
  }

  /** After a complete run every bone still has its own name: nothing had to be renamed. */
  predicate NoRenames(bones: seq<RigBone>, refs: seq<string>) {
    UniqueNames(bones + NewBones(refs))
  }

  /**
   * `generatr_tail_spline_ik`. Without references the IK target is created and reading
   * the last reference raises; with fewer than three, the pole target's position reads
   * the third reference and raises after the IK chain and both targets exist. Otherwise
   * the whole rig is built and the curve carries one hook per reference.
   */
  method GenerateTailSplineIk(arm: TailArmature, refs: seq<string>, curveName: string)
    returns (status: Status, curve: Option<Curve>)
    requires Present(arm.bones, refs) && Fresh(arm.bones, refs)
    modifies arm
    ensures |refs| == 0 ==> status == Raised && curve.None? && arm.bones == old(arm.bones) + [TargetBone]
    ensures 0 < |refs| < 3 ==> status == Raised && curve.None? && arm.bones == FirstStage(old(arm.bones), refs)
    ensures |refs| >= 3 ==>
      status == Finished && curve == Some(Curve(curveName, |refs|, Hooks(refs)))
      && arm.bones == GeneratedBones(old(arm.bones), refs, curveName)
  {
    var n := |refs|;
    var ikNames := AddIkChain(arm, refs);
    arm.bones := arm.bones + [TargetBone];
    if n == 0 {
      return Raised, None;
    }
    arm.bones := arm.bones + [PoleBone];
    if n < 3 {
      return Raised, None;
    }
    ghost var first := arm.bones;
    assert first == FirstStage(old(arm.bones), refs);
    if |ikNames| > 1 {
      arm.bones := WithConstraint(arm.bones, ikNames[|ikNames| - 1], IkConstraint(TargetName, PoleName, |ikNames|));
    }
    AddCtrlBones(arm, refs, ikNames);
    var hooks := AddHooks(refs, n);
    var splNames := AddSplineChain(arm, refs);
    if |splNames| > 0 {
      arm.bones := WithConstraint(arm.bones, splNames[|splNames| - 2], SplineIkConstraint(curveName, |splNames|));
    }
    assert arm.bones == MiddleStage(first, refs, curveName);
    AddCopyRotations(arm, refs);
    return Finished, Some(Curve(curveName, n, hooks));
  }

  /** The IK chain loop: returns `ik_bones_names`. */
  method AddIkChain(arm: TailArmature, refs: seq<string>) returns (ikNames: seq<string>)
    modifies arm
    ensures arm.bones == old(arm.bones) + IkChain(refs)
    ensures |ikNames| == IkCount(refs) && forall i :: 0 <= i < |ikNames| ==> ikNames[i] == IkName(refs[i])
  {
    ikNames := [];
    var index := 0;
    while index < IkCount(refs)
      invariant 0 <= index <= IkCount(refs)
      invariant arm.bones == old(arm.bones) + IkChain(refs)[..index]
      invariant |ikNames| == index && forall i :: 0 <= i < index ==> ikNames[i] == IkName(refs[i])
    {
      var parent := if index > 0 then Some(ikNames[|ikNames| - 1]) else None;
      var bone := RigBone(IkName(refs[index]), parent, index > 0, []);
      assert bone == IkChain(refs)[index];
      arm.bones := arm.bones + [bone];
      assert IkChain(refs)[..index + 1] == IkChain(refs)[..index] + [bone];
      ikNames := ikNames + [bone.name];
      index := index + 1;
    }
    assert IkChain(refs)[..index] == IkChain(refs);
  }

  /** The control-bone loop. */
  method AddCtrlBones(arm: TailArmature, refs: seq<string>, ikNames: seq<string>)
    requires |ikNames| == IkCount(refs) && forall i :: 0 <= i < |ikNames| ==> ikNames[i] == IkName(refs[i])
    modifies arm
    ensures arm.bones == old(arm.bones) + CtrlBones(refs)
  {
    var index := 0;
    while index < |refs|
      invariant 0 <= index <= |refs|
      invariant arm.bones == old(arm.bones) + CtrlBones(refs)[..index]
    {
      var parent := if index == |refs| - 1 then TargetName else ikNames[index];
      var bone := RigBone(CtrlName(refs[index]), Some(parent), false, []);
      assert bone == CtrlBones(refs)[index];
      arm.bones := arm.bones + [bone];
      assert CtrlBones(refs)[..index + 1] == CtrlBones(refs)[..index] + [bone];
      index := index + 1;
    }
    assert CtrlBones(refs)[..index] == CtrlBones(refs);
  }

  /** The hook loop over a curve of `points` Bezier points: a hook gets its point when there is one. */
  method AddHooks(refs: seq<string>, points: nat) returns (hooks: seq<Hook>)
    requires points == |refs|
    ensures hooks == Hooks(refs)
  {
    hooks := [];
    var i := 0;
    while i < |refs|
      invariant 0 <= i <= |refs|
      invariant hooks == Hooks(refs)[..i]
    {
      var control := CtrlName(refs[i]);
      var point := if i < points then Some(i) else None;
      hooks := hooks + [Hook("Hook_" + control, control, point)];
      assert Hooks(refs)[..i + 1] == Hooks(refs)[..i] + [Hooks(refs)[i]];
      i := i + 1;
    }
    assert Hooks(refs)[..i] == Hooks(refs);
  }

  /** The Spline IK chain loop, threading the previous bone: returns `spl_ik_bones_names`. */
  method AddSplineChain(arm: TailArmature, refs: seq<string>) returns (splNames: seq<string>)
    modifies arm
    ensures arm.bones == old(arm.bones) + SplineChain(refs)
    ensures |splNames| == |refs| && forall i :: 0 <= i < |refs| ==> splNames[i] == SplineName(refs[i])
  {
    splNames := [];
    var previous: Option<string> := None;
    var index := 0;
    while index < |refs|
      invariant 0 <= index <= |refs|
      invariant arm.bones == old(arm.bones) + SplineChain(refs)[..index]
      invariant |splNames| == index && forall i :: 0 <= i < index ==> splNames[i] == SplineName(refs[i])
      invariant previous == if index == 0 then None else Some(SplineName(refs[index - 1]))
    {
      var bone := RigBone(SplineName(refs[index]), previous, previous.Some?, []);
      assert bone == SplineChain(refs)[index];
      arm.bones := arm.bones + [bone];
      assert SplineChain(refs)[..index + 1] == SplineChain(refs)[..index] + [bone];
      previous := Some(bone.name);
      splNames := splNames + [bone.name];
      index := index + 1;
    }
    assert SplineChain(refs)[..index] == SplineChain(refs);
  }

  /** The Copy Rotation loop and the last reference's constraint on the IK target. */
  method AddCopyRotations(arm: TailArmature, refs: seq<string>)
    requires |refs| >= 1
    modifies arm
    ensures arm.bones == LastStage(old(arm.bones), refs)
  {
    ghost var target := CopyRotations(arm.bones, refs, 0);
    var i := 0;
    while i < |refs| - 1
      invariant 0 <= i <= |refs| - 1
      invariant CopyRotations(arm.bones, refs, i) == target
    {
      arm.bones := WithConstraint(arm.bones, refs[i], CopyRotationConstraint(SplineName(refs[i])));
      i := i + 1;
    }
    arm.bones := WithConstraint(arm.bones, refs[|refs| - 1], CopyRotationConstraint(TargetName));
  }

  // ---------------------------------------------------------------- properties of the rig

  /** The bones a complete run adds, with their parents and connections. */
  function NewBones(refs: seq<string>): seq<RigBone> {
    IkChain(refs) + [TargetBone, PoleBone] + CtrlBones(refs) + SplineChain(refs)
  }

  /** A complete run appends exactly the new bones and changes no parent or connection. */
  lemma GeneratedGraph(bones: seq<RigBone>, refs: seq<string>, curveName: string)
    requires |refs| >= 3
    ensures SameGraph(GeneratedBones(bones, refs, curveName), bones + NewBones(refs))
    ensures |NewBones(refs)| == 3 * |refs| + 1
  {
    MidGraph(bones, refs);
  }

  lemma PrefixNames(a: string, b: string)
    ensures IkName(a) != CtrlName(b) && IkName(a) != SplineName(b) && CtrlName(a) != SplineName(b)
    ensures IkName(a) != TargetName && IkName(a) != PoleName
    ensures CtrlName(a) != TargetName && CtrlName(a) != PoleName
    ensures SplineName(a) != TargetName && SplineName(a) != PoleName
    ensures IkName(a) == IkName(b) ==> a == b
    ensures CtrlName(a) == CtrlName(b) ==> a == b
    ensures SplineName(a) == SplineName(b) ==> a == b
  {
    assert IkName(a)[0] == 'I' && CtrlName(b)[0] == 'S' && SplineName(b)[0] == 'S';
    assert CtrlName(a)[6] == 'C' && SplineName(b)[6] == 'I';
    assert IkName(a)[3] == 'b' && TargetName[3] == 'T' && PoleName[0] == 'P';
    assert IkName(a)[8..] == a && IkName(b)[8..] == b;
    assert CtrlName(a)[16..] == a && CtrlName(b)[16..] == b;
    assert SplineName(a)[14..] == a && SplineName(b)[14..] == b;
  }

  /** Under fresh names, every bone of the rigged armature has its own name. */
  lemma GeneratedUnique(bones: seq<RigBone>, refs: seq<string>, curveName: string)
    requires |refs| >= 3 && NoRenames(bones, refs)
    ensures UniqueNames(GeneratedBones(bones, refs, curveName))
  {
    GeneratedGraph(bones, refs, curveName);
    SameGraphUnique(GeneratedBones(bones, refs, curveName), bones + NewBones(refs));
  }

  /** Fresh generated names leave nothing to rename. */
  lemma AllUnique(bones: seq<RigBone>, refs: seq<string>)
    requires |refs| >= 3 && Fresh(bones, refs)
    ensures NoRenames(bones, refs)
  {
    var all := bones + NewBones(refs);
    assert |all| == |bones| + 3 * |refs| + 1;
    forall j, k | 0 <= j < k < |all|
      ensures all[j].name != all[k].name
    {
      DistinctAt(bones, refs, j, k);
    }
  }

  /** The name at position `k` of `bones + NewBones(refs)`, by family. */
  function NameAt(bones: seq<RigBone>, refs: seq<string>, k: nat): string
    requires |refs| >= 1 && k < |bones| + 3 * |refs| + 1
  {
    if k < |bones| then bones[k].name else NewNameAt(|bones|, refs, k)
  }

  /** The name of the generated bone at position `k`, after `m` existing bones. */
  function NewNameAt(m: nat, refs: seq<string>, k: nat): string
    requires |refs| >= 1 && m <= k < m + 3 * |refs| + 1
  {
    var n := |refs|;
    if k < m + n - 1 then IkName(refs[k - m])
    else if k == m + n - 1 then TargetName
    else if k == m + n then PoleName
    else if k < m + 2 * n + 1 then CtrlName(refs[k - m - n - 1])
    else SplineName(refs[k - m - 2 * n - 1])
  }

  lemma NameAtExact(bones: seq<RigBone>, refs: seq<string>, k: nat)
    requires |refs| >= 1 && k < |bones| + 3 * |refs| + 1
    ensures |NewBones(refs)| == 3 * |refs| + 1
    ensures (bones + NewBones(refs))[k].name == NameAt(bones, refs, k)
  {
    NewBoneAt(refs, 0);
    if k >= |bones| {
      NewBoneAt(refs, k - |bones|);
      assert (bones + NewBones(refs))[k] == NewBones(refs)[k - |bones|];
    }
  }

  lemma DistinctAt(bones: seq<RigBone>, refs: seq<string>, j: nat, k: nat)
    requires |refs| >= 3 && Fresh(bones, refs)
    requires j < k < |bones| + 3 * |refs| + 1
    ensures (bones + NewBones(refs))[j].name != (bones + NewBones(refs))[k].name
  {
    NameAtExact(bones, refs, j);
    NameAtExact(bones, refs, k);
    var m := |bones|;
    if k < m {
    } else if j < m {
      var b := RefAt(m, |refs|, k);
      assert bones[j].name != IkName(refs[b]) && bones[j].name != CtrlName(refs[b]) && bones[j].name != SplineName(refs[b]);
      assert bones[j].name != TargetName && bones[j].name != PoleName;
    } else {
      NewDistinct(m, refs, j, k);
    }
  }

  /** The reference index of a generated position (0 for the two targets). */
  function RefAt(m: nat, n: nat, k: nat): nat
    requires n >= 1 && m <= k < m + 3 * n + 1
    ensures RefAt(m, n, k) < n
  {
    if k < m + n - 1 then k - m else if k < m + n + 1 then 0
    else if k < m + 2 * n + 1 then k - m - n - 1 else k - m - 2 * n - 1
  }

  lemma NewDistinct(m: nat, refs: seq<string>, j: nat, k: nat)
    requires |refs| >= 3 && forall a, b :: 0 <= a < b < |refs| ==> refs[a] != refs[b]
    requires m <= j < k < m + 3 * |refs| + 1
    ensures NewNameAt(m, refs, j) != NewNameAt(m, refs, k)
  {
    var n := |refs|;
    var a, b := RefAt(m, n, j), RefAt(m, n, k);
    PrefixNames(refs[a], refs[b]);
    PrefixNames(refs[b], refs[a]);
    var fj := Family(m, n, j);
    var fk := Family(m, n, k);
    if fj == fk && fj != 1 && fj != 2 {
      assert a != b;
      assert refs[a] != refs[b];
    }
  }

  /** The family of a generated position: 0 IK, 1 target, 2 pole, 3 control, 4 spline. */
  function Family(m: nat, n: nat, k: nat): nat
    requires n >= 1 && m <= k
  {
    if k < m + n - 1 then 0 else if k == m + n - 1 then 1 else if k == m + n then 2
    else if k < m + 2 * n + 1 then 3 else 4
  }



  /** No reference is a generated name: the references are names the armature already has. */
  lemma RefsNotGenerated(bones: seq<RigBone>, refs: seq<string>, i: nat, k: nat)
    requires |refs| >= 3 && Present(bones, refs) && NoRenames(bones, refs)
    requires i < |refs| && |bones| <= k < |bones| + 3 * |refs| + 1
    ensures refs[i] != NameAt(bones, refs, k)
  {
    assert refs[i] in NameSet(bones);
    var p :| 0 <= p < |bones| && bones[p].name == refs[i];
    NameAtExact(bones, refs, k);
    assert (bones + NewBones(refs))[p] == bones[p];
  }

  /** The constraint stacks of the new bones: the IK bone and the Spline IK bone carry one each. */
  lemma NewConstraints(bones: seq<RigBone>, refs: seq<string>, curveName: string, k: nat)
    requires |refs| >= 3 && Present(bones, refs) && NoRenames(bones, refs)
    requires |bones| <= k < |bones| + 3 * |refs| + 1
    ensures |GeneratedBones(bones, refs, curveName)| == |bones| + 3 * |refs| + 1
    ensures GeneratedBones(bones, refs, curveName)[k].constraints ==
      if k == |bones| + |refs| - 2 then [IkConstraint(TargetName, PoleName, |refs| - 1)]
      else if k == |bones| + 3 * |refs| - 1 then [SplineIkConstraint(curveName, |refs|)]
      else []
  {
    var middle := MiddleStage(FirstStage(bones, refs), refs, curveName);
    MiddleConstraints(bones, refs, curveName, k);
    forall j | 0 <= j < |refs|
      ensures middle[k].name != refs[j]
    {
      RefsNotGenerated(bones, refs, j, k);
    }
    assert LastStage(middle, refs)[k] == middle[k];
    GeneratedGraph(bones, refs, curveName);
  }

  lemma MiddleConstraints(bones: seq<RigBone>, refs: seq<string>, curveName: string, k: nat)
    requires |refs| >= 3 && NoRenames(bones, refs)
    requires |bones| <= k < |bones| + 3 * |refs| + 1
    ensures MiddleStage(FirstStage(bones, refs), refs, curveName)[k].name == NameAt(bones, refs, k)
    ensures MiddleStage(FirstStage(bones, refs), refs, curveName)[k].constraints ==
      if k == |bones| + |refs| - 2 then [IkConstraint(TargetName, PoleName, |refs| - 1)]
      else if k == |bones| + 3 * |refs| - 1 then [SplineIkConstraint(curveName, |refs|)]
      else []
  {
    var m, n := |bones|, |refs|;
    var all := bones + NewBones(refs);
    var first := FirstStage(bones, refs);
    var withIk := WithConstraint(first, IkName(refs[n - 2]), IkConstraint(TargetName, PoleName, n - 1));
    var mid0 := withIk + CtrlBones(refs) + SplineChain(refs);
    var top := m + 3 * n - 1;
    MidGraph(bones, refs);
    NameAtExact(bones, refs, k);
    NameAtExact(bones, refs, top);
    assert GraphOf(mid0)[k] == GraphOf(all)[k];
    WithIkConstraints(bones, refs, k);
    if k != top {
      assert all[k].name != all[top].name;
    }
  }

  lemma MidGraph(bones: seq<RigBone>, refs: seq<string>)
    requires |refs| >= 3
    ensures SameGraph(WithConstraint(FirstStage(bones, refs), IkName(refs[|refs| - 2]), IkConstraint(TargetName, PoleName, |refs| - 1))
                      + CtrlBones(refs) + SplineChain(refs), bones + NewBones(refs))
  {
    var first := FirstStage(bones, refs);
    var withIk := WithConstraint(first, IkName(refs[|refs| - 2]), IkConstraint(TargetName, PoleName, |refs| - 1));
    var rest := CtrlBones(refs) + SplineChain(refs);
    assert bones + NewBones(refs) == first + rest;
    assert withIk + CtrlBones(refs) + SplineChain(refs) == withIk + rest;
    GraphAppend(withIk, rest);
    GraphAppend(first, rest);
  }

  lemma SameGraphUnique(a: seq<RigBone>, b: seq<RigBone>)
    requires SameGraph(a, b) && UniqueNames(b)
    ensures UniqueNames(a)
  {
    forall j, k | 0 <= j < k < |a|
      ensures a[j].name != a[k].name
    {
      assert GraphOf(a)[j] == GraphOf(b)[j] && GraphOf(a)[k] == GraphOf(b)[k];
    }
  }

  lemma WithIkConstraints(bones: seq<RigBone>, refs: seq<string>, k: nat)
    requires |refs| >= 3 && NoRenames(bones, refs)
    requires |bones| <= k < |bones| + 3 * |refs| + 1
    ensures var first := FirstStage(bones, refs);
      var mid0 := WithConstraint(first, IkName(refs[|refs| - 2]), IkConstraint(TargetName, PoleName, |refs| - 1))
                  + CtrlBones(refs) + SplineChain(refs);
      mid0[k].constraints == if k == |bones| + |refs| - 2 then [IkConstraint(TargetName, PoleName, |refs| - 1)] else []
  {
    var m, n := |bones|, |refs|;
    var all := bones + NewBones(refs);
    var first := FirstStage(bones, refs);
    var ik := m + n - 2;
    var withIk := WithConstraint(first, IkName(refs[n - 2]), IkConstraint(TargetName, PoleName, n - 1));
    var mid0 := withIk + CtrlBones(refs) + SplineChain(refs);
    assert all[k].constraints == [] by {
      NewUnconstrained(refs);
      assert all[k] == NewBones(refs)[k - m];
    }
    if k < m + n + 1 {
      assert first[k] == all[k] && first[ik] == all[ik] by {
        assert all == first + (CtrlBones(refs) + SplineChain(refs));
      }
      assert first[ik].name == IkName(refs[n - 2]) by {
        NameAtExact(bones, refs, ik);
      }
      assert k != ik ==> first[k].name != first[ik].name by {
        assert UniqueNames(all);
      }
      assert mid0[k] == withIk[k];
    } else {
      assert mid0[k] == all[k];
    }
  }

  lemma NewUnconstrained(refs: seq<string>)
    ensures forall i :: 0 <= i < |NewBones(refs)| ==> NewBones(refs)[i].constraints == []
  {
  }

  /** The new bone at position `i` of `NewBones(refs)`, by family. */
  lemma NewBoneAt(refs: seq<string>, i: nat)
    requires |refs| >= 1 && i < 3 * |refs| + 1
    ensures |NewBones(refs)| == 3 * |refs| + 1
    ensures var n := |refs|;
      NewBones(refs)[i] ==
        if i < n - 1 then IkBone(refs, i)
        else if i == n - 1 then TargetBone
        else if i == n then PoleBone
        else if i < 2 * n + 1 then CtrlBone(refs, i - n - 1)
        else SplineBone(refs, i - 2 * n - 1)
  {
    var n := |refs|;
    if i < n - 1 {
      assert NewBones(refs)[i] == IkChain(refs)[i];
    } else if i < n + 1 {
      assert NewBones(refs)[i] == [TargetBone, PoleBone][i - (n - 1)];
    } else if i < 2 * n + 1 {
      assert NewBones(refs)[i] == CtrlBones(refs)[i - n - 1];
    } else {
      assert NewBones(refs)[i] == SplineChain(refs)[i - 2 * n - 1];
    }
  }

  /** The bones from `start` on form a parent chain of `len` bones: a root, then each connected child. */
  predicate ParentChain(g: seq<RigBone>, start: nat, len: nat)
    requires start + len <= |g|
  {
    len >= 1 && g[start].parent.None?
    && forall k :: start < k < start + len ==> g[k].parent == Some(g[k - 1].name) && g[k].connected
  }

  lemma ChainTransfer(a: seq<RigBone>, b: seq<RigBone>, start: nat, len: nat)
    requires SameGraph(a, b) && start + len <= |b| && ParentChain(b, start, len)
    ensures ParentChain(a, start, len)
  {
    assert GraphOf(a)[start] == GraphOf(b)[start];
    forall k | start < k < start + len
      ensures a[k].parent == Some(a[k - 1].name) && a[k].connected
    {
      assert GraphOf(a)[k] == GraphOf(b)[k] && GraphOf(a)[k - 1] == GraphOf(b)[k - 1];
    }
  }

  /** The IK chain and the spline chain are parent chains before any constraint is added. */
  lemma NewChains(bones: seq<RigBone>, refs: seq<string>)
    requires |refs| >= 3
    ensures |bones + NewBones(refs)| == |bones| + 3 * |refs| + 1
    ensures ParentChain(bones + NewBones(refs), |bones|, |refs| - 1)
    ensures ParentChain(bones + NewBones(refs), |bones| + 2 * |refs| + 1, |refs|)
  {
    NewBoneAt(refs, 0);
    IkChainLocal(refs);
    SplineChainLocal(refs);
    ChainShift(bones, NewBones(refs), 0, |refs| - 1);
    ChainShift(bones, NewBones(refs), 2 * |refs| + 1, |refs|);
  }

  /** Within the new bones, the IK bones form a chain from the first. */
  lemma IkChainLocal(refs: seq<string>)
    requires |refs| >= 3
    ensures |NewBones(refs)| == 3 * |refs| + 1
    ensures ParentChain(NewBones(refs), 0, |refs| - 1)
  {
    var nb, n := NewBones(refs), |refs|;
    NewBoneAt(refs, 0);
    forall k | 0 < k < n - 1
      ensures nb[k].parent == Some(nb[k - 1].name) && nb[k].connected
    {
      NewBoneAt(refs, k);
      NewBoneAt(refs, k - 1);
    }
  }

  /** Within the new bones, the spline bones form a chain from the first. */
  lemma SplineChainLocal(refs: seq<string>)
    requires |refs| >= 3
    ensures |NewBones(refs)| == 3 * |refs| + 1
    ensures ParentChain(NewBones(refs), 2 * |refs| + 1, |refs|)
  {
    var nb, n := NewBones(refs), |refs|;
    NewBoneAt(refs, 2 * n + 1);
    forall k | 2 * n + 1 < k < 3 * n + 1
      ensures nb[k].parent == Some(nb[k - 1].name) && nb[k].connected
    {
      NewBoneAt(refs, k);
      NewBoneAt(refs, k - 1);
    }
  }

  /** A chain stays a chain when bones are put in front of it. */
  lemma ChainShift(pre: seq<RigBone>, xs: seq<RigBone>, start: nat, len: nat)
    requires start + len <= |xs| && ParentChain(xs, start, len)
    ensures ParentChain(pre + xs, |pre| + start, len)
  {
    var all := pre + xs;
    assert all[|pre| + start] == xs[start];
    forall k | |pre| + start < k < |pre| + start + len
      ensures all[k].parent == Some(all[k - 1].name) && all[k].connected
    {
      assert all[k] == xs[k - |pre|] && all[k - 1] == xs[k - 1 - |pre|];
    }
  }

  /**
   * The IK constraint sits on the last IK bone, targets the IK target and the pole
   * target, which both exist, and its chain count is exactly the length of the IK chain
   * that ends at that bone and starts at a root.
   */
  lemma IkChainCount(bones: seq<RigBone>, refs: seq<string>, curveName: string)
    requires |refs| >= 3 && Present(bones, refs) && NoRenames(bones, refs)
    ensures var g := GeneratedBones(bones, refs, curveName);
      var n, top := |refs|, |bones| + |refs| - 2;
      |g| == |bones| + 3 * n + 1
      && g[top].name == IkName(refs[n - 2])
      && g[top].constraints == [IkConstraint(TargetName, PoleName, n - 1)]
      && ParentChain(g, |bones|, n - 1)
      && g[top + 1].name == TargetName && g[top + 2].name == PoleName
  {
    var g := GeneratedBones(bones, refs, curveName);
    var top := |bones| + |refs| - 2;
    assert g[top].constraints == [IkConstraint(TargetName, PoleName, |refs| - 1)] by {
      assert top != |bones| + 3 * |refs| - 1;
      NewConstraints(bones, refs, curveName, top);
    }
    GeneratedGraph(bones, refs, curveName);
    IkGraph(g, bones, refs);
  }

  lemma IkGraph(g: seq<RigBone>, bones: seq<RigBone>, refs: seq<string>)
    requires |refs| >= 3 && SameGraph(g, bones + NewBones(refs))
    ensures |g| == |bones| + 3 * |refs| + 1
    ensures g[|bones| + |refs| - 2].name == IkName(refs[|refs| - 2])
    ensures ParentChain(g, |bones|, |refs| - 1)
    ensures g[|bones| + |refs| - 1].name == TargetName && g[|bones| + |refs|].name == PoleName
  {
    var m, n := |bones|, |refs|;
    NewChains(bones, refs);
    ChainTransfer(g, bones + NewBones(refs), m, n - 1);
    NameAtExact(bones, refs, m + n - 2);
    NameAtExact(bones, refs, m + n - 1);
    NameAtExact(bones, refs, m + n);
  }

  /**
   * The Spline IK constraint sits on the second-to-last spline bone with a chain count
   * of the number of references, while the chain that ends at that bone has one bone
   * fewer; the last spline bone hangs below it, unconstrained.
   */
  lemma SplineChainCount(bones: seq<RigBone>, refs: seq<string>, curveName: string)
    requires |refs| >= 3 && Present(bones, refs) && NoRenames(bones, refs)
    ensures var g := GeneratedBones(bones, refs, curveName);
      var n, top := |refs|, |bones| + 3 * |refs| - 1;
      |g| == |bones| + 3 * n + 1
      && g[top].name == SplineName(refs[n - 2])
      && g[top].constraints == [SplineIkConstraint(curveName, n)]
      && ParentChain(g, |bones| + 2 * n + 1, n - 1)
      && g[top + 1].name == SplineName(refs[n - 1])
      && g[top + 1].parent == Some(g[top].name)
      && g[top + 1].constraints == []
  {
    var g := GeneratedBones(bones, refs, curveName);
    GeneratedGraph(bones, refs, curveName);
    SplineGraph(g, bones, refs);
    SplineConstraints(bones, refs, curveName);
  }

  lemma SplineConstraints(bones: seq<RigBone>, refs: seq<string>, curveName: string)
    requires |refs| >= 3 && Present(bones, refs) && NoRenames(bones, refs)
    ensures var g := GeneratedBones(bones, refs, curveName);
      var top := |bones| + 3 * |refs| - 1;
      |g| == top + 2
      && g[top].constraints == [SplineIkConstraint(curveName, |refs|)]
      && g[top + 1].constraints == []
  {
    var g := GeneratedBones(bones, refs, curveName);
    var m, n := |bones|, |refs|;
    var top := m + 3 * n - 1;
    assert g[top].constraints == [SplineIkConstraint(curveName, n)] by {
      NewConstraints(bones, refs, curveName, top);
    }
    assert g[top + 1].constraints == [] by {
      NewConstraints(bones, refs, curveName, top + 1);
    }
  }

  lemma SplineGraph(g: seq<RigBone>, bones: seq<RigBone>, refs: seq<string>)
    requires |refs| >= 3 && SameGraph(g, bones + NewBones(refs))
    ensures var n, start := |refs|, |bones| + 2 * |refs| + 1;
      |g| == |bones| + 3 * n + 1
      && g[start + n - 2].name == SplineName(refs[n - 2])
      && ParentChain(g, start, n - 1)
      && g[start + n - 1].name == SplineName(refs[n - 1]) && g[start + n - 1].parent == Some(g[start + n - 2].name)
  {
    var m, n := |bones|, |refs|;
    var start := m + 2 * n + 1;
    NewChains(bones, refs);
    ChainTransfer(g, bones + NewBones(refs), start, n);
    ChainPrefix(g, start, n);
    NameAtExact(bones, refs, start + n - 2);
    NameAtExact(bones, refs, start + n - 1);
  }

  /** A chain without its last bone is a chain, and that bone hangs from the one before. */
  lemma ChainPrefix(g: seq<RigBone>, start: nat, len: nat)
    requires start + len <= |g| && len >= 2 && ParentChain(g, start, len)
    ensures ParentChain(g, start, len - 1)
    ensures g[start + len - 1].parent == Some(g[start + len - 2].name)
  {
  }

  /** The references are distinct whenever the run renames nothing: equal references give equal control names. */
  lemma RefsDistinct(bones: seq<RigBone>, refs: seq<string>)
    requires |refs| >= 3 && NoRenames(bones, refs)
    ensures forall i, j :: 0 <= i < j < |refs| ==> refs[i] != refs[j]
  {
    forall i, j | 0 <= i < j < |refs|
      ensures refs[i] != refs[j]
    {
      RefPairDistinct(bones, refs, i, j);
    }
  }

  lemma RefPairDistinct(bones: seq<RigBone>, refs: seq<string>, i: nat, j: nat)
    requires |refs| >= 3 && NoRenames(bones, refs) && i < j < |refs|
    ensures refs[i] != refs[j]
  {
    var m, n := |bones|, |refs|;
    var all := bones + NewBones(refs);
    var a, b := m + n + 1 + i, m + n + 1 + j;
    NameAtExact(bones, refs, a);
    NameAtExact(bones, refs, b);
    assert all[a].name != all[b].name;
  }

  /** The Copy Rotation constraint a bone named `name` receives. */
  function CopyRotationFor(refs: seq<string>, name: string): seq<RigConstraint>
    requires |refs| >= 1
  {
    if name in refs[..|refs| - 1] then [CopyRotationConstraint(SplineName(name))]
    else if name == refs[|refs| - 1] then [CopyRotationConstraint(TargetName)]
    else []
  }

  /** The fold adds the reference's own Copy Rotation to a bone named by a reference `i` it reaches. */
  lemma {:induction false} CopyRotationsAt(bones: seq<RigBone>, refs: seq<string>, k: nat, p: nat, i: nat)
    requires forall a, b :: 0 <= a < b < |refs| ==> refs[a] != refs[b]
    requires p < |bones| && k <= i < |refs| - 1 && bones[p].name == refs[i]
    ensures |CopyRotations(bones, refs, k)| == |bones|
    ensures CopyRotations(bones, refs, k)[p].constraints
      == bones[p].constraints + [CopyRotationConstraint(SplineName(refs[i]))]
    decreases |refs| - k
  {
    var next := WithConstraint(bones, refs[k], CopyRotationConstraint(SplineName(refs[k])));
    assert CopyRotations(bones, refs, k) == CopyRotations(next, refs, k + 1);
    assert GraphOf(next)[p] == GraphOf(bones)[p];
    if k == i {
      assert forall j :: k + 1 <= j < |refs| - 1 ==> next[p].name != refs[j];
    } else {
      assert next[p] == bones[p];
      CopyRotationsAt(next, refs, k + 1, p, i);
    }
  }

  /** The bones the armature had keep their place through the IK and Spline IK stages. */
  lemma MiddleKeepsOriginals(bones: seq<RigBone>, refs: seq<string>, curveName: string, p: nat)
    requires |refs| >= 3 && NoRenames(bones, refs) && p < |bones|
    ensures |MiddleStage(FirstStage(bones, refs), refs, curveName)| == |bones| + 3 * |refs| + 1
    ensures MiddleStage(FirstStage(bones, refs), refs, curveName)[p] == bones[p]
  {
    var m, n := |bones|, |refs|;
    var all := bones + NewBones(refs);
    var first := FirstStage(bones, refs);
    var withIk := WithConstraint(first, IkName(refs[n - 2]), IkConstraint(TargetName, PoleName, n - 1));
    var mid0 := withIk + CtrlBones(refs) + SplineChain(refs);
    var ik, spl := m + n - 2, m + 3 * n - 1;
    MidGraph(bones, refs);
    NameAtExact(bones, refs, ik);
    NameAtExact(bones, refs, spl);
    assert all[p] == bones[p] && first[p] == bones[p];
    assert all[p].name != all[ik].name && all[p].name != all[spl].name;
    assert mid0[p] == withIk[p];
  }

  /**
   * Each bone the armature had keeps its name, parent and connection, and gains exactly
   * the Copy Rotation of the reference it is: towards its spline bone, or towards the IK
   * target for the last reference; every other original bone is left as it was.
   */
  lemma CopyRotationWiring(bones: seq<RigBone>, refs: seq<string>, curveName: string, p: nat)
    requires |refs| >= 3 && NoRenames(bones, refs) && p < |bones|
    ensures var g := GeneratedBones(bones, refs, curveName);
      |g| == |bones| + 3 * |refs| + 1
      && g[p].name == bones[p].name && g[p].parent == bones[p].parent && g[p].connected == bones[p].connected
      && g[p].constraints == bones[p].constraints + CopyRotationFor(refs, bones[p].name)
  {
    var n := |refs|;
    var middle := MiddleStage(FirstStage(bones, refs), refs, curveName);
    var rotated := CopyRotations(middle, refs, 0);
    var g := GeneratedBones(bones, refs, curveName);
    var name := bones[p].name;
    RefsDistinct(bones, refs);
    MiddleKeepsOriginals(bones, refs, curveName, p);
    assert g == WithConstraint(rotated, refs[n - 1], CopyRotationConstraint(TargetName));
    assert GraphOf(rotated)[p] == GraphOf(middle)[p];
    if name in refs[..n - 1] {
      var i :| 0 <= i < n - 1 && refs[i] == name;
      CopyRotationsAt(middle, refs, 0, p, i);
      assert name != refs[n - 1];
    } else {
      assert forall j :: 0 <= j < n - 1 ==> name != refs[j] by {
        forall j | 0 <= j < n - 1
          ensures name != refs[j]
        {
          assert refs[j] == refs[..n - 1][j];
        }
      }
      assert rotated[p] == middle[p];
    }
  }

  /**
   * Every hook follows a control bone that exists in the rigged armature and sits on the
   * curve point of its own index, which the curve has.
   */
  lemma HooksResolve(bones: seq<RigBone>, refs: seq<string>, curveName: string, i: nat)
    requires |refs| >= 3 && i < |refs|
    ensures var g := GeneratedBones(bones, refs, curveName);
      var h := Hooks(refs)[i];
      h.subtarget in NameSet(g) && h.point == Some(i) && i < |refs|
      && h.name == "Hook_" + h.subtarget
  {
    var g := GeneratedBones(bones, refs, curveName);
    var k := |bones| + |refs| + 1 + i;
    GeneratedGraph(bones, refs, curveName);
    NameAtExact(bones, refs, k);
    assert GraphOf(g)[k] == GraphOf(bones + NewBones(refs))[k];
    assert g[k].name in NameSet(g);
  }

  /** The position of the parent of the generated bone at `k`, after `m` existing bones. */
  function ParentAt(m: nat, n: nat, k: nat): int
    requires n >= 1 && m <= k < m + 3 * n + 1
  {
    if k < m + n + 1 then k - 1
    else if k == m + 2 * n then m + n - 1
    else if k < m + 2 * n + 1 then k - n - 1
    else k - 1
  }

  /** The roots among the generated positions: the first IK bone, both targets, the first spline bone. */
  predicate NewRoot(m: nat, n: nat, k: nat) {
    k == m || k == m + n - 1 || k == m + n || k == m + 2 * n + 1
  }

  /**
   * Every generated bone that has a parent names one that comes earlier in the armature:
   * IK and spline bones their predecessor, the control bones their IK bone and the last
   * one the IK target.
   */
  lemma NewParentsPrecede(bones: seq<RigBone>, refs: seq<string>, curveName: string, k: nat)
    requires |refs| >= 3 && |bones| <= k < |bones| + 3 * |refs| + 1
    ensures var g := GeneratedBones(bones, refs, curveName);
      var j := ParentAt(|bones|, |refs|, k);
      |g| == |bones| + 3 * |refs| + 1
      && (g[k].parent.Some? <==> !NewRoot(|bones|, |refs|, k))
      && (g[k].parent.Some? ==> 0 <= j < k && g[j].name == g[k].parent.value)
  {
    var g := GeneratedBones(bones, refs, curveName);
    var all := bones + NewBones(refs);
    GeneratedGraph(bones, refs, curveName);
    NewParentsInAll(bones, refs, k);
    assert GraphOf(g)[k] == GraphOf(all)[k];
    if all[k].parent.Some? {
      var j := ParentAt(|bones|, |refs|, k);
      assert GraphOf(g)[j] == GraphOf(all)[j];
    }
  }

  lemma NewParentsInAll(bones: seq<RigBone>, refs: seq<string>, k: nat)
    requires |refs| >= 3 && |bones| <= k < |bones| + 3 * |refs| + 1
    ensures var all := bones + NewBones(refs);
      var j := ParentAt(|bones|, |refs|, k);
      |all| == |bones| + 3 * |refs| + 1
      && (all[k].parent.Some? <==> !NewRoot(|bones|, |refs|, k))
      && (all[k].parent.Some? ==> 0 <= j < k && all[j].name == all[k].parent.value)
  {
    var all := bones + NewBones(refs);
    var m, n := |bones|, |refs|;
    var i := k - m;
    NewParents(refs, i);
    assert all[k] == NewBones(refs)[i];
    if all[k].parent.Some? {
      var j := ParentAt(0, n, i);
      assert ParentAt(m, n, k) == m + j;
      assert all[m + j] == NewBones(refs)[j];
    }
  }

  lemma NewParents(refs: seq<string>, i: nat)
    requires |refs| >= 3 && i < 3 * |refs| + 1
    ensures var nb := NewBones(refs);
      var j := ParentAt(0, |refs|, i);
      |nb| == 3 * |refs| + 1
      && (nb[i].parent.Some? <==> !NewRoot(0, |refs|, i))
      && (nb[i].parent.Some? ==> 0 <= j < i && nb[j].name == nb[i].parent.value)
  {
    var n := |refs|;
    NewBoneAt(refs, i);
    if !NewRoot(0, n, i) {
      NewBoneAt(refs, ParentAt(0, n, i));
    }
  }
}
