/**
 * The steps the pose importer runs over an armature, shared by the current importer
 * (mektools/operators/import_pose.py) and the legacy one (operators/import_pose.py), whose
 * copies of these functions do the same thing: muting all constraints, reversing the
 * Copy constraints in parent-before-child order, moving IK pole targets and resetting
 * rotations in named bone collections. Each step is a method on the armature proved
 * equal to a function of the old bones; the lemmas say what those functions change.
 */
module PoseSteps {
  import opened Wrappers
  import opened PoseRig

  /** Same bones in the same order, with the same names, parents, tags and constraint lists. */
  predicate SameRig(a: seq<PoseBone>, b: seq<PoseBone>) {
    |a| == |b| &&
    forall i :: 0 <= i < |a| ==>
      a[i].name == b[i].name && a[i].parent == b[i].parent
      && a[i].constraints == b[i].constraints && a[i].collections == b[i].collections
  }

  lemma SameRigTrans(a: seq<PoseBone>, b: seq<PoseBone>, c: seq<PoseBone>)
    requires SameRig(a, b) && SameRig(b, c)
    ensures SameRig(a, c)
  {
  }

  lemma SameRigSkeleton(a: seq<PoseBone>, b: seq<PoseBone>)
    requires SameRig(a, b)
    ensures SameSkeleton(a, b)
  {
    forall i | 0 <= i < |a|
      ensures Shape(a[i]) == Shape(b[i])
    {
    }
  }

  // ---------------------------------------------------------------- muting

  /** The bones with every constraint's mute flag set to `m`. */
  function WithMute(bones: seq<PoseBone>, m: bool): (r: seq<PoseBone>)
    ensures |r| == |bones|
  {
    seq(|bones|, i requires 0 <= i < |bones| =>
      bones[i].(constraints := seq(|bones[i].constraints|, k requires 0 <= k < |bones[i].constraints| =>
        bones[i].constraints[k].(mute := m))))
  }

  /** Afterwards every constraint is muted (or unmuted), whatever it was before. */
  lemma WithMuteAll(bones: seq<PoseBone>, m: bool)
    ensures forall i, k :: 0 <= i < |bones| && 0 <= k < |WithMute(bones, m)[i].constraints| ==>
      WithMute(bones, m)[i].constraints[k].mute == m
  {
  }

  /** Muting changes nothing but mute flags. */
  lemma WithMuteSkeleton(bones: seq<PoseBone>, m: bool)
    ensures SameSkeleton(WithMute(bones, m), bones)
    ensures forall i :: 0 <= i < |bones| ==>
      WithMute(bones, m)[i] == bones[i].(constraints := WithMute(bones, m)[i].constraints)
  {
    var r := WithMute(bones, m);
    forall i | 0 <= i < |bones|
      ensures Shape(r[i]) == Shape(bones[i])
    {
      assert MuteFree(r[i].constraints) == MuteFree(bones[i].constraints);
    }
  }

  /** The loops `for bone in arm.bones: for constraint in bone.constraints: constraint.mute = m`. */
  method SetMuteAll(obj: PoseObject, m: bool)
    modifies obj`bones
    ensures obj.bones == WithMute(old(obj.bones), m)
  {
    var i := 0;
    while i < |obj.bones|
      invariant 0 <= i <= |obj.bones| == |old(obj.bones)|
      invariant forall j :: 0 <= j < i ==> obj.bones[j] == WithMute(old(obj.bones), m)[j]
      invariant forall j :: i <= j < |obj.bones| ==> obj.bones[j] == old(obj.bones)[j]
    {
      var b := obj.bones[i];
      var cs := b.constraints;
      var k := 0;
      while k < |cs|
        invariant 0 <= k <= |cs| == |b.constraints|
        invariant forall l :: 0 <= l < k ==> cs[l] == b.constraints[l].(mute := m)
        invariant forall l :: k <= l < |cs| ==> cs[l] == b.constraints[l]
      {
        cs := cs[k := cs[k].(mute := m)];
        k := k + 1;
      }
      obj.bones := obj.bones[i := b.(constraints := cs)];
      i := i + 1;
    }
  }

  // ---------------------------------------------------------------- parent-first order

  /** The indices listed strictly grow: armature order, without repeats. */
  predicate Increasing(s: seq<nat>) {
    forall i, j :: 0 <= i < j < |s| ==> s[i] < s[j]
  }

  /** The children of the bone called `name` among the first `n` bones, in armature order. */
  function ChildrenUpTo(bones: seq<PoseBone>, name: string, n: nat): (r: seq<nat>)
    requires n <= |bones|
    ensures forall k :: 0 <= k < |r| ==> r[k] < n
  {
    if n == 0 then []
    else ChildrenUpTo(bones, name, n - 1) + (if bones[n - 1].parent == Some(name) then [n - 1] else [])
  }

  /** Every bone listed has the bone called `name` as its parent. */
  lemma {:induction false} ChildrenParent(bones: seq<PoseBone>, name: string, n: nat)
    requires n <= |bones|
    ensures ParentIs(bones, ChildrenUpTo(bones, name, n), Some(name))
  {
    if n > 0 {
      ChildrenParent(bones, name, n - 1);
      var r, prev := ChildrenUpTo(bones, name, n), ChildrenUpTo(bones, name, n - 1);
      assert ParentIs(bones, prev, Some(name));
      forall k | 0 <= k < |r|
        ensures bones[r[k]].parent == Some(name)
      {
        if k < |prev| {
          assert r[k] == prev[k];
        }
      }
    }
  }

  /** Every bone listed in `s` has `top` as its parent. */
  predicate ParentIs(bones: seq<PoseBone>, s: seq<nat>, top: Option<string>) {
    forall k :: 0 <= k < |s| ==> s[k] < |bones| && bones[s[k]].parent == top
  }

  /** No child is missed, and the children are listed in armature order. */
  lemma {:induction false} ChildrenComplete(bones: seq<PoseBone>, name: string, n: nat)
    requires n <= |bones|
    ensures forall j :: 0 <= j < n && bones[j].parent == Some(name) ==> j in ChildrenUpTo(bones, name, n)
    ensures Increasing(ChildrenUpTo(bones, name, n))
  {
    if n > 0 {
      ChildrenComplete(bones, name, n - 1);
      var r, prev := ChildrenUpTo(bones, name, n), ChildrenUpTo(bones, name, n - 1);
      forall i, j | 0 <= i < j < |r|
        ensures r[i] < r[j]
      {
        if j < |prev| {
          assert r[i] == prev[i] && r[j] == prev[j];
          assert Increasing(prev);
        } else {
          assert r[i] == prev[i] && r[j] == n - 1;
        }
      }
    }
  }

  /** `bone.children`. */
  function Children(bones: seq<PoseBone>, b: nat): seq<nat>
    requires b < |bones|
  {
    ChildrenUpTo(bones, bones[b].name, |bones|)
  }

  /** The bones without a parent, in armature order. */
  function RootsUpTo(bones: seq<PoseBone>, n: nat): (r: seq<nat>)
    requires n <= |bones|
    ensures forall k :: 0 <= k < |r| ==> r[k] < n && bones[r[k]].parent.None?
  {
    if n == 0 then []
    else RootsUpTo(bones, n - 1) + (if bones[n - 1].parent.None? then [n - 1] else [])
  }

  /** No root is missed, and the roots are listed in armature order. */
  lemma {:induction false} RootsComplete(bones: seq<PoseBone>, n: nat)
    requires n <= |bones|
    ensures forall j :: 0 <= j < n && bones[j].parent.None? ==> j in RootsUpTo(bones, n)
    ensures Increasing(RootsUpTo(bones, n))
  {
    if n > 0 {
      RootsComplete(bones, n - 1);
      var r, prev := RootsUpTo(bones, n), RootsUpTo(bones, n - 1);
      forall i, j | 0 <= i < j < |r|
        ensures r[i] < r[j]
      {
        if j < |prev| {
          assert r[i] == prev[i] && r[j] == prev[j];
          assert Increasing(prev);
        } else {
          assert r[i] == prev[i] && r[j] == n - 1;
        }
      }
    }
  }

  /**
   * `collect_bones_recursive(bone)`: the bone, then each child's subtree. `depth` bounds
   * the recursion; Blender's bone hierarchy is acyclic, so the bound `|bones|` that the
   * callers pass is never reached.
   */
  function Subtree(bones: seq<PoseBone>, b: nat, depth: nat): seq<nat>
    requires b < |bones|
    decreases depth, 0
  {
    if depth == 0 then [] else [b] + Forest(bones, Children(bones, b), depth - 1)
  }

  function Forest(bones: seq<PoseBone>, roots: seq<nat>, depth: nat): seq<nat>
    requires forall k :: 0 <= k < |roots| ==> roots[k] < |bones|
    decreases depth, |roots|
  {
    if |roots| == 0 then [] else Subtree(bones, roots[0], depth) + Forest(bones, roots[1..], depth)
  }

  /** `sorted_bones`: the subtrees of the root bones, in armature order. */
  function Preorder(bones: seq<PoseBone>): seq<nat> {
    Forest(bones, RootsUpTo(bones, |bones|), |bones|)
  }

  /** Position `k` of `s` holds a bone whose parent appears earlier in `s`. */
  predicate ParentEarlier(bones: seq<PoseBone>, s: seq<nat>, k: nat)
    requires k < |s| && forall m :: 0 <= m < |s| ==> s[m] < |bones|
  {
    bones[s[k]].parent.Some? &&
    exists j :: 0 <= j < k && bones[s[j]].name == bones[s[k]].parent.value
  }

  /** Every bone of `s` either hangs from `top` or has its parent earlier in `s`. */
  predicate ParentsFirst(bones: seq<PoseBone>, s: seq<nat>, top: Option<string>) {
    (forall m :: 0 <= m < |s| ==> s[m] < |bones|) &&
    forall k :: 0 <= k < |s| ==> bones[s[k]].parent == top || ParentEarlier(bones, s, k)
  }

  lemma ParentsFirstAppend(bones: seq<PoseBone>, a: seq<nat>, b: seq<nat>, top: Option<string>)
    requires ParentsFirst(bones, a, top) && ParentsFirst(bones, b, top)
    ensures ParentsFirst(bones, a + b, top)
  {
    var s := a + b;
    forall k | 0 <= k < |s| && bones[s[k]].parent != top
      ensures ParentEarlier(bones, s, k)
    {
      if k < |a| {
        assert ParentEarlier(bones, a, k);
        var j :| 0 <= j < k && bones[a[j]].name == bones[a[k]].parent.value;
        assert s[j] == a[j];
      } else {
        assert s[k] == b[k - |a|];
        assert ParentEarlier(bones, b, k - |a|);
        var j :| 0 <= j < k - |a| && bones[b[j]].name == bones[b[k - |a|]].parent.value;
        assert s[j + |a|] == b[j];
      }
    }
  }

  lemma {:induction false} SubtreeParentsFirst(bones: seq<PoseBone>, b: nat, depth: nat)
    requires b < |bones|
    ensures ParentsFirst(bones, Subtree(bones, b, depth), bones[b].parent)
    decreases depth, 0
  {
    if depth > 0 {
      var kids := Children(bones, b);
      var f := Forest(bones, kids, depth - 1);
      ChildrenParent(bones, bones[b].name, |bones|);
      ForestParentsFirst(bones, kids, depth - 1, Some(bones[b].name));
      var s := [b] + f;
      forall k | 0 <= k < |s| && bones[s[k]].parent != bones[b].parent
        ensures ParentEarlier(bones, s, k)
      {
        assert k > 0;
        assert s[k] == f[k - 1];
        if bones[f[k - 1]].parent == Some(bones[b].name) {
          assert s[0] == b;
        } else {
          assert ParentEarlier(bones, f, k - 1);
          var j :| 0 <= j < k - 1 && bones[f[j]].name == bones[f[k - 1]].parent.value;
          assert s[j + 1] == f[j];
        }
      }
    }
  }

  lemma {:induction false} ForestParentsFirst(bones: seq<PoseBone>, roots: seq<nat>, depth: nat, top: Option<string>)
    requires forall k :: 0 <= k < |roots| ==> roots[k] < |bones| && bones[roots[k]].parent == top
    ensures ParentsFirst(bones, Forest(bones, roots, depth), top)
    decreases depth, |roots|
  {
    if |roots| > 0 {
      SubtreeParentsFirst(bones, roots[0], depth);
      ForestParentsFirst(bones, roots[1..], depth, top);
      ParentsFirstAppend(bones, Subtree(bones, roots[0], depth), Forest(bones, roots[1..], depth), top);
    }
  }

  /** In `sorted_bones` every bone with a parent comes after that parent. */
  lemma PreorderParentsFirst(bones: seq<PoseBone>)
    ensures ParentsFirst(bones, Preorder(bones), None)
    ensures forall k :: 0 <= k < |Preorder(bones)| && bones[Preorder(bones)[k]].parent.Some? ==>
      exists j :: 0 <= j < k && bones[Preorder(bones)[j]].name == bones[Preorder(bones)[k]].parent.value
  {
    ForestParentsFirst(bones, RootsUpTo(bones, |bones|), |bones|, None);
    var s := Preorder(bones);
    forall k | 0 <= k < |s| && bones[s[k]].parent.Some?
      ensures exists j :: 0 <= j < k && bones[s[j]].name == bones[s[k]].parent.value
    {
      assert ParentEarlier(bones, s, k);
    }
  }

  /** `collect_bones_recursive`, appending to the list it is given. */
  method CollectBonesRecursive(bones: seq<PoseBone>, b: nat, depth: nat, sorted: seq<nat>) returns (r: seq<nat>)
    requires b < |bones|
    ensures r == sorted + Subtree(bones, b, depth)
    decreases depth, 0
  {
    if depth == 0 {
      return sorted;
    }
    SubtreeUnfold(bones, b, depth, sorted);
    r := CollectChildren(bones, Children(bones, b), depth - 1, sorted + [b]);
  }

  /** The loop of `collect_bones_recursive` over `bone.children`. */
  method CollectChildren(bones: seq<PoseBone>, kids: seq<nat>, depth: nat, sorted: seq<nat>) returns (r: seq<nat>)
    requires forall k :: 0 <= k < |kids| ==> kids[k] < |bones|
    ensures r == sorted + Forest(bones, kids, depth)
    decreases depth, 1
  {
    r := sorted;
    var i := 0;
    while i < |kids|
      invariant 0 <= i <= |kids|
      invariant r + Forest(bones, kids[i..], depth) == sorted + Forest(bones, kids, depth)
    {
      ForestStep(bones, kids, i, depth, r);
      r := CollectBonesRecursive(bones, kids[i], depth, r);
      i := i + 1;
    }
    assert kids[i..] == [];
  }

  lemma SubtreeUnfold(bones: seq<PoseBone>, b: nat, depth: nat, sorted: seq<nat>)
    requires b < |bones| && depth > 0
    ensures sorted + Subtree(bones, b, depth) == sorted + [b] + Forest(bones, Children(bones, b), depth - 1)
  {
  }

  /** One step of the loop over the children: the next child's subtree, then the rest. */
  lemma ForestStep(bones: seq<PoseBone>, kids: seq<nat>, i: nat, depth: nat, r: seq<nat>)
    requires i < |kids| && forall k :: 0 <= k < |kids| ==> kids[k] < |bones|
    ensures r + Forest(bones, kids[i..], depth) == (r + Subtree(bones, kids[i], depth)) + Forest(bones, kids[i + 1..], depth)
  {
    ghost var tail := kids[i..];
    assert tail[0] == kids[i] && tail[1..] == kids[i + 1..];
  }

  lemma {:induction false} ForestAppend(bones: seq<PoseBone>, a: seq<nat>, b: seq<nat>, depth: nat)
    requires forall k :: 0 <= k < |a| ==> a[k] < |bones|
    requires forall k :: 0 <= k < |b| ==> b[k] < |bones|
    ensures Forest(bones, a + b, depth) == Forest(bones, a, depth) + Forest(bones, b, depth)
    decreases |a|
  {
    if |a| > 0 {
      assert (a + b)[1..] == a[1..] + b;
      ForestAppend(bones, a[1..], b, depth);
    } else {
      assert a + b == b;
    }
  }

  /** The first half of `reverse_constraints`: every root's subtree, roots in armature order. */
  method CollectBones(bones: seq<PoseBone>) returns (sorted: seq<nat>)
    ensures sorted == Preorder(bones)
  {
    sorted := [];
    var i := 0;
    while i < |bones|
      invariant 0 <= i <= |bones|
      invariant sorted == Forest(bones, RootsUpTo(bones, i), |bones|)
    {
      RootStep(bones, i);
      if bones[i].parent.None? {
        sorted := CollectBonesRecursive(bones, i, |bones|, sorted);
      }
      i := i + 1;
    }
  }

  /** One step of the loop over the bones: a root adds its subtree, any other bone nothing. */
  lemma RootStep(bones: seq<PoseBone>, i: nat)
    requires i < |bones|
    ensures bones[i].parent.None? ==>
      Forest(bones, RootsUpTo(bones, i + 1), |bones|) == Forest(bones, RootsUpTo(bones, i), |bones|) + Subtree(bones, i, |bones|)
    ensures bones[i].parent.Some? ==> RootsUpTo(bones, i + 1) == RootsUpTo(bones, i)
  {
    if bones[i].parent.None? {
      assert RootsUpTo(bones, i + 1) == RootsUpTo(bones, i) + [i];
      ForestAppend(bones, RootsUpTo(bones, i), [i], |bones|);
      assert [i][1..] == [];
    }
  }

  // ---------------------------------------------------------------- reversing Copy constraints

  /**
   * The settings of the temporary constraint: those of a fresh constraint of the kind
   * (`defaults`), with the spaces and influence copied from the original, the mix mode and
   * shear flag for Copy Transforms, and the mix mode, Euler order and axis flags for Copy
   * Rotation, the offset and axis flags for Copy Location.
   */
  function CopiedSettings(kind: ConstraintKind, from: Settings, defaults: Settings): (r: Settings)
    ensures r.targetSpace == from.targetSpace && r.ownerSpace == from.ownerSpace && r.influence == from.influence
    ensures r.mixMode == if kind == CopyTransforms || kind == CopyRotation then from.mixMode else defaults.mixMode
    ensures r.removeTargetShear == if kind == CopyTransforms then from.removeTargetShear else defaults.removeTargetShear
    ensures r.eulerOrder == if kind == CopyRotation then from.eulerOrder else defaults.eulerOrder
    ensures r.useOffset == if kind == CopyLocation then from.useOffset else defaults.useOffset
    ensures kind == CopyRotation || kind == CopyLocation ==>
      r.useX == from.useX && r.useY == from.useY && r.useZ == from.useZ
      && r.invertX == from.invertX && r.invertY == from.invertY && r.invertZ == from.invertZ
    ensures kind != CopyRotation && kind != CopyLocation ==>
      r.useX == defaults.useX && r.useY == defaults.useY && r.useZ == defaults.useZ
      && r.invertX == defaults.invertX && r.invertY == defaults.invertY && r.invertZ == defaults.invertZ
  {
    var axes := if kind == CopyRotation || kind == CopyLocation then from else defaults;
    Settings(
      from.targetSpace, from.ownerSpace, from.influence,
      if kind == CopyTransforms || kind == CopyRotation then from.mixMode else defaults.mixMode,
      if kind == CopyTransforms then from.removeTargetShear else defaults.removeTargetShear,
      if kind == CopyRotation then from.eulerOrder else defaults.eulerOrder,
      if kind == CopyLocation then from.useOffset else defaults.useOffset,
      axes.useX, axes.useY, axes.useZ, axes.invertX, axes.invertY, axes.invertZ)
  }

  /** The temporary constraint: same kind, pointing back at the bone that owned `c`, unmuted. */
  function Reversed(c: Constraint, owner: string, defaults: Settings): (r: Constraint)
    ensures r.kind == c.kind && r.hasTarget && r.subtarget == owner && !r.mute
    ensures r.settings == CopiedSettings(c.kind, c.settings, defaults)
  {
    Constraint(c.kind, true, owner, false, "", false, CopiedSettings(c.kind, c.settings, defaults))
  }

  /** Every bone deselected except bone `t`, which is selected. */
  function SelectOnly(bones: seq<PoseBone>, t: nat): (r: seq<PoseBone>)
    ensures |r| == |bones| && SameRig(r, bones)
    ensures forall i :: 0 <= i < |bones| ==> r[i] == bones[i].(selected := i == t)
  {
    seq(|bones|, i requires 0 <= i < |bones| => bones[i].(selected := i == t))
  }

  /** The bone a reversible constraint points at, or None when the step is skipped. */
  function ReverseTarget(bones: seq<PoseBone>, c: Constraint): (r: Option<nat>)
    ensures r.Some? <==> IsCopy(c.kind) && c.hasTarget && c.subtarget != "" && BoneIndex(bones, c.subtarget).Some?
    ensures r.Some? ==> r == BoneIndex(bones, c.subtarget)
  {
    if IsCopy(c.kind) && c.hasTarget && c.subtarget != "" then BoneIndex(bones, c.subtarget) else None
  }

  /**
   * One constraint of the inner loop of `reverse_constraints`, on bone `b`. A Copy
   * constraint with a target, a sub-target and an existing target bone `t` gets a
   * reversed twin on `t`; with only `t` selected the host's visual transform (`visual`,
   * evaluated with the twin in place) becomes `t`'s transform, and the twin is removed
   * again. Anything else is skipped.
   */
  function ReverseStep(bones: seq<PoseBone>, b: nat, c: Constraint,
                       defaults: ConstraintKind -> Settings, visual: (seq<PoseBone>, nat) -> Transform): (r: seq<PoseBone>)
    requires b < |bones|
    ensures SameRig(r, bones)
    ensures ReverseTarget(bones, c).None? ==> r == bones
    ensures ReverseTarget(bones, c).Some? ==>
      var t := ReverseTarget(bones, c).value;
      var twin := Reversed(c, bones[b].name, defaults(c.kind));
      var tr := visual(SelectOnly(bones[t := bones[t].(constraints := bones[t].constraints + [twin])], t), t);
      r[t] == bones[t].(selected := true, location := tr.location, rotation := tr.rotation, scale := tr.scale)
      && forall i :: 0 <= i < |bones| && i != t ==> r[i] == bones[i].(selected := false)
  {
    match ReverseTarget(bones, c)
    case None => bones
    case Some(t) =>
      var twin := Reversed(c, bones[b].name, defaults(c.kind));
      var attached := SelectOnly(bones[t := bones[t].(constraints := bones[t].constraints + [twin])], t);
      var tr := visual(attached, t);
      SelectOnly(bones, t)[t := bones[t].(selected := true, location := tr.location, rotation := tr.rotation, scale := tr.scale)]
  }

  /** The inner loop over one bone's constraints `cs`. */
  function ReverseBone(bones: seq<PoseBone>, b: nat, cs: seq<Constraint>,
                       defaults: ConstraintKind -> Settings, visual: (seq<PoseBone>, nat) -> Transform): (r: seq<PoseBone>)
    requires b < |bones|
    ensures SameRig(r, bones)
    decreases |cs|
  {
    if |cs| == 0 then bones
    else ReverseBone(ReverseStep(bones, b, cs[0], defaults, visual), b, cs[1..], defaults, visual)
  }

  /** The outer loop over the bones of `order`, each with its own constraints. */
  function ReverseAll(bones: seq<PoseBone>, order: seq<nat>,
                      defaults: ConstraintKind -> Settings, visual: (seq<PoseBone>, nat) -> Transform): (r: seq<PoseBone>)
    requires forall k :: 0 <= k < |order| ==> order[k] < |bones|
    ensures SameRig(r, bones)
    decreases |order|
  {
    if |order| == 0 then bones
    else
      var next := ReverseBone(bones, order[0], bones[order[0]].constraints, defaults, visual);
      ReverseAll(next, order[1..], defaults, visual)
  }

  /** `reverse_constraints`: the Copy constraints of each bone, bones parents first. */
  function ReverseConstraintsOf(bones: seq<PoseBone>, defaults: ConstraintKind -> Settings,
                                visual: (seq<PoseBone>, nat) -> Transform): (r: seq<PoseBone>)
  {
    PreorderInRange(bones);
    ReverseAll(bones, Preorder(bones), defaults, visual)
  }

  lemma PreorderInRange(bones: seq<PoseBone>)
    ensures forall k :: 0 <= k < |Preorder(bones)| ==> Preorder(bones)[k] < |bones|
  {
    PreorderParentsFirst(bones);
  }

  /**
   * Every constraint list ends as it began (the twins are removed again), and so do the
   * names, parents and collection tags: only transforms and selection flags change.
   */
  lemma ReverseKeepsRig(bones: seq<PoseBone>, defaults: ConstraintKind -> Settings,
                        visual: (seq<PoseBone>, nat) -> Transform)
    ensures SameRig(ReverseConstraintsOf(bones, defaults, visual), bones)
    ensures forall i :: 0 <= i < |bones| ==>
      ReverseConstraintsOf(bones, defaults, visual)[i].constraints == bones[i].constraints
  {
  }

  /** A bone with no reversible constraint changes nothing. */
  lemma {:induction false} ReverseBoneSkips(bones: seq<PoseBone>, b: nat, cs: seq<Constraint>,
                                            defaults: ConstraintKind -> Settings, visual: (seq<PoseBone>, nat) -> Transform)
    requires b < |bones|
    requires forall k :: 0 <= k < |cs| ==> !IsCopy(cs[k].kind) || !cs[k].hasTarget || cs[k].subtarget == ""
    ensures ReverseBone(bones, b, cs, defaults, visual) == bones
    decreases |cs|
  {
    if |cs| > 0 {
      ReverseBoneSkips(bones, b, cs[1..], defaults, visual);
    }
  }

  /** One step of the inner loop: add the twin, select, apply, remove the twin. */
  method ReverseOne(obj: PoseObject, b: nat, c: Constraint,
                    defaults: ConstraintKind -> Settings, visual: (seq<PoseBone>, nat) -> Transform)
    requires b < |obj.bones|
    modifies obj`bones
    ensures obj.bones == ReverseStep(old(obj.bones), b, c, defaults, visual)
  {
    if !IsCopy(c.kind) || !c.hasTarget || c.subtarget == "" {
      return;
    }
    var found := BoneIndex(obj.bones, c.subtarget);
    if found.None? {
      return;
    }
    var t := found.value;
    var twin := Reversed(c, obj.bones[b].name, defaults(c.kind));
    var before := obj.bones[t].constraints;
    obj.bones := obj.bones[t := obj.bones[t].(constraints := before + [twin])];
    obj.bones := SelectOnly(obj.bones, t);
    var tr := visual(obj.bones, t);
    obj.bones := obj.bones[t := obj.bones[t].(location := tr.location, rotation := tr.rotation, scale := tr.scale)];
    var withTwin := obj.bones[t].constraints;
    assert withTwin[..|withTwin| - 1] == before;
    obj.bones := obj.bones[t := obj.bones[t].(constraints := withTwin[..|withTwin| - 1])];
  }

  /** `reverse_constraints(armature)`. */
  method ReverseConstraints(obj: PoseObject, defaults: ConstraintKind -> Settings,
                            visual: (seq<PoseBone>, nat) -> Transform)
    modifies obj`bones
    ensures obj.bones == ReverseConstraintsOf(old(obj.bones), defaults, visual)
  {
    var sorted := CollectBones(obj.bones);
    PreorderInRange(obj.bones);
    ghost var target := ReverseAll(obj.bones, sorted, defaults, visual);
    var i := 0;
    while i < |sorted|
      invariant 0 <= i <= |sorted|
      invariant |obj.bones| == |old(obj.bones)|
      invariant ReverseAll(obj.bones, sorted[i..], defaults, visual) == target
    {
      assert sorted[i..][0] == sorted[i] && sorted[i..][1..] == sorted[i + 1..];
      ReverseBoneConstraints(obj, sorted[i], defaults, visual);
      i := i + 1;
    }
    assert sorted[i..] == [];
  }

  /** The inner loop of `reverse_constraints`: every constraint of bone `b`, in order. */
  method ReverseBoneConstraints(obj: PoseObject, b: nat, defaults: ConstraintKind -> Settings,
                                visual: (seq<PoseBone>, nat) -> Transform)
    requires b < |obj.bones|
    modifies obj`bones
    ensures obj.bones == ReverseBone(old(obj.bones), b, old(obj.bones)[b].constraints, defaults, visual)
  {
    var cs := obj.bones[b].constraints;
    var k := 0;
    while k < |cs|
      invariant 0 <= k <= |cs|
      invariant |obj.bones| == |old(obj.bones)|
      invariant ReverseBone(obj.bones, b, cs[k..], defaults, visual) == ReverseBone(old(obj.bones), b, cs, defaults, visual)
    {
      assert cs[k..][0] == cs[k] && cs[k..][1..] == cs[k + 1..];
      ReverseOne(obj, b, cs[k], defaults, visual);
      k := k + 1;
    }
    assert cs[k..] == [];
  }

  // ---------------------------------------------------------------- pole targets

  /** The bone with the local transform `t`. */
  function Placed(b: PoseBone, t: Transform): PoseBone {
    b.(location := t.location, rotation := t.rotation, scale := t.scale)
  }

  /**
   * `a` differs from `b` at most in the local transforms of the bones in `movable`:
   * names, parents, constraints, tags and selection are kept, and every other bone is
   * untouched.
   */
  predicate OnlyTransformsOf(a: seq<PoseBone>, b: seq<PoseBone>, movable: set<nat>) {
    OnlyTransforms(a, b) && forall i :: 0 <= i < |a| && i !in movable ==> a[i] == b[i]
  }

  /** `a` differs from `b` at most in local transforms. */
  predicate OnlyTransforms(a: seq<PoseBone>, b: seq<PoseBone>) {
    |a| == |b| && forall i :: 0 <= i < |a| ==> a[i] == Placed(b[i], Transform(a[i].location, a[i].rotation, a[i].scale))
  }

  /** The pole bone an IK constraint moves, or None when the step is skipped. */
  function PoleTarget(bones: seq<PoseBone>, c: Constraint): (r: Option<nat>)
    ensures r.Some? <==> c.kind == IK && c.hasPoleTarget && c.poleSubtarget != "" && BoneIndex(bones, c.poleSubtarget).Some?
    ensures r.Some? ==> r == BoneIndex(bones, c.poleSubtarget)
  {
    if c.kind == IK && c.hasPoleTarget && c.poleSubtarget != "" then BoneIndex(bones, c.poleSubtarget) else None
  }

  /** Every bone that some bone's IK constraint names as its pole. */
  function PoleBones(bones: seq<PoseBone>): set<nat> {
    set j, k | 0 <= j < |bones| && 0 <= k < |bones[j].constraints| && PoleTarget(bones, bones[j].constraints[k]).Some?
      :: PoleTarget(bones, bones[j].constraints[k]).value
  }

  /**
   * One constraint of `set_pole_targets`, on bone `b`: an IK constraint with a pole
   * target, a pole sub-target and an existing pole bone `p` gets `p`'s pose-space
   * translation set to `b`'s. Through the `matrix` setter this rewrites `p`'s local
   * transform; `placePole(bones, p, b)` is the transform the host computes from the
   * current pose. Nothing else changes.
   */
  function PoleStep(bones: seq<PoseBone>, b: nat, c: Constraint,
                    placePole: (seq<PoseBone>, nat, nat) -> Transform): (r: seq<PoseBone>)
    requires b < |bones|
    ensures PoleTarget(bones, c).None? ==> r == bones
    ensures PoleTarget(bones, c).Some? ==>
      var p := PoleTarget(bones, c).value;
      r == bones[p := Placed(bones[p], placePole(bones, p, b))]
  {
    match PoleTarget(bones, c)
    case None => bones
    case Some(p) => bones[p := Placed(bones[p], placePole(bones, p, b))]
  }

  function PolesOfBone(bones: seq<PoseBone>, b: nat, cs: seq<Constraint>,
                       placePole: (seq<PoseBone>, nat, nat) -> Transform): (r: seq<PoseBone>)
    requires b < |bones|
    ensures |r| == |bones|
    decreases |cs|
  {
    if |cs| == 0 then bones else PolesOfBone(PoleStep(bones, b, cs[0], placePole), b, cs[1..], placePole)
  }

  /** `set_pole_targets` from bone `i` on, each bone with its own constraints, in armature order. */
  function PolesFrom(bones: seq<PoseBone>, i: nat, placePole: (seq<PoseBone>, nat, nat) -> Transform): (r: seq<PoseBone>)
    requires i <= |bones|
    ensures |r| == |bones|
    decreases |bones| - i
  {
    if i == |bones| then bones else PolesFrom(PolesOfBone(bones, i, bones[i].constraints, placePole), i + 1, placePole)
  }

  /** Changing transforms alone keeps every name lookup, hence every pole bone. */
  lemma PlacedKeepsPoles(a: seq<PoseBone>, b: seq<PoseBone>)
    requires OnlyTransforms(a, b)
    ensures forall c :: PoleTarget(a, c) == PoleTarget(b, c)
    ensures PoleBones(a) == PoleBones(b)
  {
    forall name: string
      ensures BoneIndex(a, name) == BoneIndex(b, name)
    {
      assert SameSkeleton(a, b) by {
        forall i | 0 <= i < |a|
          ensures Shape(a[i]) == Shape(b[i])
        {
          assert a[i].name == b[i].name;
        }
      }
      SameSkeletonBoneIndex(a, b, name);
    }
    assert forall j :: 0 <= j < |a| ==> a[j].constraints == b[j].constraints;
  }

  /** Moving one pole rewrites only that pole's transform. */
  lemma PoleStepMoves(bones: seq<PoseBone>, b: nat, c: Constraint, placePole: (seq<PoseBone>, nat, nat) -> Transform,
                      movable: set<nat>)
    requires b < |bones|
    requires PoleTarget(bones, c).Some? ==> PoleTarget(bones, c).value in movable
    ensures OnlyTransformsOf(PoleStep(bones, b, c, placePole), bones, movable)
  {
  }

  /** The poles moved for one bone are among `movable` when each of its IK constraints names one. */
  lemma {:induction false} PolesOfBoneMoves(bones: seq<PoseBone>, b: nat, cs: seq<Constraint>,
                                            placePole: (seq<PoseBone>, nat, nat) -> Transform, movable: set<nat>)
    requires b < |bones|
    requires forall k :: 0 <= k < |cs| && PoleTarget(bones, cs[k]).Some? ==> PoleTarget(bones, cs[k]).value in movable
    ensures OnlyTransformsOf(PolesOfBone(bones, b, cs, placePole), bones, movable)
    decreases |cs|
  {
    if |cs| > 0 {
      var step := PoleStep(bones, b, cs[0], placePole);
      PoleStepMoves(bones, b, cs[0], placePole, movable);
      PlacedKeepsPoles(step, bones);
      PolesOfBoneMoves(step, b, cs[1..], placePole, movable);
    }
  }

  /** From bone `i` on, only pole bones get a new transform. */
  lemma {:induction false} PolesFromMoves(bones: seq<PoseBone>, i: nat, placePole: (seq<PoseBone>, nat, nat) -> Transform)
    requires i <= |bones|
    ensures OnlyTransformsOf(PolesFrom(bones, i, placePole), bones, PoleBones(bones))
    decreases |bones| - i
  {
    if i < |bones| {
      var cs := bones[i].constraints;
      var movable := PoleBones(bones);
      forall k | 0 <= k < |cs| && PoleTarget(bones, cs[k]).Some?
        ensures PoleTarget(bones, cs[k]).value in movable
      {
      }
      var next := PolesOfBone(bones, i, cs, placePole);
      PolesOfBoneMoves(bones, i, cs, placePole, movable);
      PlacedKeepsPoles(next, bones);
      PolesFromMoves(next, i + 1, placePole);
      OnlyTransformsOfTrans(PolesFrom(next, i + 1, placePole), next, bones, movable);
    }
  }

  /** Two rounds that each move only transforms of `movable` bones compose into one. */
  lemma OnlyTransformsOfTrans(c: seq<PoseBone>, b: seq<PoseBone>, a: seq<PoseBone>, movable: set<nat>)
    requires OnlyTransformsOf(c, b, movable) && OnlyTransformsOf(b, a, movable)
    ensures OnlyTransformsOf(c, a, movable)
  {
    forall i | 0 <= i < |c|
      ensures c[i] == Placed(a[i], Transform(c[i].location, c[i].rotation, c[i].scale))
    {
      assert c[i] == Placed(b[i], Transform(c[i].location, c[i].rotation, c[i].scale));
      assert b[i] == Placed(a[i], Transform(b[i].location, b[i].rotation, b[i].scale));
    }
  }

  /**
   * Moving the pole targets changes only the local transforms of pole bones: names,
   * parents, constraints, tags and selection stay, and every bone that no IK constraint
   * names as its pole is untouched.
   */
  lemma PolesKeepRig(bones: seq<PoseBone>, placePole: (seq<PoseBone>, nat, nat) -> Transform)
    ensures SameRig(PolesFrom(bones, 0, placePole), bones)
    ensures OnlyTransformsOf(PolesFrom(bones, 0, placePole), bones, PoleBones(bones))
  {
    PolesFromMoves(bones, 0, placePole);
    var r := PolesFrom(bones, 0, placePole);
    forall i | 0 <= i < |bones|
      ensures r[i].name == bones[i].name && r[i].parent == bones[i].parent
      ensures r[i].constraints == bones[i].constraints && r[i].collections == bones[i].collections
    {
      assert r[i] == Placed(bones[i], Transform(r[i].location, r[i].rotation, r[i].scale));
    }
  }

  /** A bone without IK constraints moves no pole. */
  lemma {:induction false} PolesOfBoneSkips(bones: seq<PoseBone>, b: nat, cs: seq<Constraint>,
                                            placePole: (seq<PoseBone>, nat, nat) -> Transform)
    requires b < |bones|
    requires forall k :: 0 <= k < |cs| ==> cs[k].kind != IK
    ensures PolesOfBone(bones, b, cs, placePole) == bones
    decreases |cs|
  {
    if |cs| > 0 {
      PolesOfBoneSkips(bones, b, cs[1..], placePole);
    }
  }

  /** `set_pole_targets(armature)`. */
  method SetPoleTargets(obj: PoseObject, placePole: (seq<PoseBone>, nat, nat) -> Transform)
    modifies obj`bones
    ensures obj.bones == PolesFrom(old(obj.bones), 0, placePole)
  {
    ghost var target := PolesFrom(obj.bones, 0, placePole);
    var i := 0;
    while i < |obj.bones|
      invariant 0 <= i <= |obj.bones|
      invariant PolesFrom(obj.bones, i, placePole) == target
    {
      var cs := obj.bones[i].constraints;
      ghost var start := obj.bones;
      var k := 0;
      while k < |cs|
        invariant 0 <= k <= |cs|
        invariant |obj.bones| == |start|
        invariant PolesOfBone(obj.bones, i, cs[k..], placePole) == PolesOfBone(start, i, cs, placePole)
      {
        assert cs[k..][1..] == cs[k + 1..];
        var c := cs[k];
        if c.kind == IK && c.hasPoleTarget && c.poleSubtarget != "" {
          var pole := BoneIndex(obj.bones, c.poleSubtarget);
          if pole.Some? {
            obj.bones := obj.bones[pole.value := Placed(obj.bones[pole.value], placePole(obj.bones, pole.value, i))];
          }
        }
        k := k + 1;
      }
      assert cs[k..] == [];
      i := i + 1;
    }
  }

  // ---------------------------------------------------------------- collection resets

  /** The `collection_names` argument: a single name or a list of names. */
  datatype NameArg = OneName(name: string) | Names(names: seq<string>)

  /** `if isinstance(collection_names, str): collection_names = [collection_names]`. */
  function AsList(a: NameArg): (r: seq<string>)
    ensures a.OneName? ==> r == [a.name]
    ensures a.Names? ==> r == a.names
  {
    match a
    case OneName(n) => [n]
    case Names(ns) => ns
  }

  /** `any(constraint.type in {COPY_ROTATION, COPY_LOCATION, COPY_TRANSFORMS} ...)`. */
  predicate HasCopyConstraint(b: PoseBone) {
    exists k :: 0 <= k < |b.constraints| && IsCopy(b.constraints[k].kind)
  }

  /** The bones of collection `name` that get an identity rotation. */
  predicate ResetsIn(b: PoseBone, name: string, force: bool) {
    name in b.collections && (HasCopyConstraint(b) || force)
  }

  function ResetOneCollection(bones: seq<PoseBone>, name: string, force: bool): (r: seq<PoseBone>)
    ensures |r| == |bones|
    ensures forall i :: 0 <= i < |bones| ==>
      r[i] == if ResetsIn(bones[i], name, force) then bones[i].(rotation := IdentityQuat) else bones[i]
  {
    seq(|bones|, i requires 0 <= i < |bones| =>
      if ResetsIn(bones[i], name, force) then bones[i].(rotation := IdentityQuat) else bones[i])
  }

  /** The bones after `reset_bones_in_collections`: names of missing collections are skipped. */
  function ResetCollections(bones: seq<PoseBone>, cols: seq<BoneCollection>, names: seq<string>, force: bool): (r: seq<PoseBone>)
    ensures |r| == |bones|
    decreases |names|
  {
    if |names| == 0 then bones
    else
      var next := if CollectionIndex(cols, names[0]).Some? then ResetOneCollection(bones, names[0], force) else bones;
      ResetCollections(next, cols, names[1..], force)
  }

  /** A bone is reset by some existing collection of the list. */
  predicate ResetByAny(b: PoseBone, cols: seq<BoneCollection>, names: seq<string>, force: bool) {
    exists n :: n in names && CollectionIndex(cols, n).Some? && ResetsIn(b, n, force)
  }

  /**
   * Exactly the bones tagged with an existing collection of the list, and carrying a
   * Copy constraint or forced, end with the identity rotation; every other bone keeps its
   * rotation, and no bone changes anything but its rotation.
   */
  lemma {:induction false} ResetCollectionsExact(bones: seq<PoseBone>, cols: seq<BoneCollection>, names: seq<string>, force: bool, i: nat)
    requires i < |bones|
    ensures ResetCollections(bones, cols, names, force)[i]
      == if ResetByAny(bones[i], cols, names, force) then bones[i].(rotation := IdentityQuat) else bones[i]
    decreases |names|
  {
    if |names| > 0 {
      var next := if CollectionIndex(cols, names[0]).Some? then ResetOneCollection(bones, names[0], force) else bones;
      ResetCollectionsExact(next, cols, names[1..], force, i);
      assert next[i].collections == bones[i].collections && next[i].constraints == bones[i].constraints;
      assert HasCopyConstraint(next[i]) == HasCopyConstraint(bones[i]);
      if ResetByAny(bones[i], cols, names, force) {
        var n :| n in names && CollectionIndex(cols, n).Some? && ResetsIn(bones[i], n, force);
        if n != names[0] {
          assert n in names[1..];
        }
      } else {
        assert !ResetsIn(bones[i], names[0], force) || CollectionIndex(cols, names[0]).None?;
      }
    }
  }

  /** The collections after `reset_bones_in_collections`: each listed existing one is visible. */
  function UnhideCollections(cols: seq<BoneCollection>, names: seq<string>): (r: seq<BoneCollection>)
    ensures |r| == |cols|
    decreases |names|
  {
    if |names| == 0 then cols
    else UnhideCollections(Shown(cols, names[0]), names[1..])
  }

  /**
   * Each listed collection that exists becomes visible, every other keeps its visibility,
   * and names and parents are kept.
   */
  lemma {:induction false} UnhideCollectionsSpec(cols: seq<BoneCollection>, names: seq<string>)
    ensures forall j :: 0 <= j < |cols| ==>
      UnhideCollections(cols, names)[j].name == cols[j].name && UnhideCollections(cols, names)[j].parent == cols[j].parent
    ensures forall j :: 0 <= j < |cols| ==>
      UnhideCollections(cols, names)[j].visible == (cols[j].visible || exists n :: n in names && CollectionIndex(cols, n) == Some(j))
    decreases |names|
  {
    if |names| > 0 {
      var next := Shown(cols, names[0]);
      UnhideCollectionsSpec(next, names[1..]);
      SameNamesSameIndex(next, cols, names[1..]);
      var r := UnhideCollections(next, names[1..]);
      assert r == UnhideCollections(cols, names);
      forall j | 0 <= j < |cols|
        ensures r[j].visible == (cols[j].visible || exists n :: n in names && CollectionIndex(cols, n) == Some(j))
      {
        if exists n :: n in names[1..] && CollectionIndex(next, n) == Some(j) {
          var n :| n in names[1..] && CollectionIndex(next, n) == Some(j);
          assert n in names;
        }
        if exists n :: n in names && CollectionIndex(cols, n) == Some(j) {
          var n :| n in names && CollectionIndex(cols, n) == Some(j);
          if n != names[0] {
            assert n in names[1..];
          }
        }
      }
    }
  }

  /** The collections after making the first one called `name`, if any, visible. */
  function Shown(cols: seq<BoneCollection>, name: string): (r: seq<BoneCollection>)
    ensures |r| == |cols|
    ensures forall j :: 0 <= j < |cols| ==> r[j].name == cols[j].name && r[j].parent == cols[j].parent
    ensures forall j :: 0 <= j < |cols| ==> r[j].visible == (cols[j].visible || CollectionIndex(cols, name) == Some(j))
  {
    match CollectionIndex(cols, name)
    case None => cols
    case Some(j) => cols[j := cols[j].(visible := true)]
  }

  /** One step of the loop over the names: show the first, then handle the rest. */
  lemma UnhideStep(cols: seq<BoneCollection>, names: seq<string>)
    requires |names| > 0
    ensures UnhideCollections(cols, names) == UnhideCollections(Shown(cols, names[0]), names[1..])
  {
  }

  /** One step of the loop over the names: reset the first existing one, then the rest. */
  lemma ResetStep(bones: seq<PoseBone>, cols: seq<BoneCollection>, names: seq<string>, force: bool)
    requires |names| > 0
    ensures ResetCollections(bones, cols, names, force)
      == ResetCollections(if CollectionIndex(cols, names[0]).Some? then ResetOneCollection(bones, names[0], force) else bones,
                          cols, names[1..], force)
  {
  }


  /** Collections with the same names are found at the same positions. */
  lemma SameNamesSameIndex(a: seq<BoneCollection>, b: seq<BoneCollection>, names: seq<string>)
    requires |a| == |b| && forall j :: 0 <= j < |a| ==> a[j].name == b[j].name
    ensures forall n :: CollectionIndex(a, n) == CollectionIndex(b, n)
  {
    forall n
      ensures CollectionIndex(a, n) == CollectionIndex(b, n)
    {
      SameNamesIndex(a, b, n);
    }
  }

  lemma {:induction false} SameNamesIndex(a: seq<BoneCollection>, b: seq<BoneCollection>, n: string)
    requires |a| == |b| && forall j :: 0 <= j < |a| ==> a[j].name == b[j].name
    ensures CollectionIndex(a, n) == CollectionIndex(b, n)
    decreases |a|
  {
    if |a| > 0 {
      SameNamesIndex(a[1..], b[1..], n);
    }
  }

  /** The names of the collections, in order. */
  function CollectionNames(cols: seq<BoneCollection>): (r: seq<string>)
    ensures |r| == |cols|
  {
    seq(|cols|, j requires 0 <= j < |cols| => cols[j].name)
  }

  /** The lookup by name sees the names only. */
  lemma NamesFixIndex(a: seq<BoneCollection>, b: seq<BoneCollection>, n: string)
    requires CollectionNames(a) == CollectionNames(b)
    ensures CollectionIndex(a, n) == CollectionIndex(b, n)
  {
    forall j | 0 <= j < |a|
      ensures a[j].name == b[j].name
    {
      assert CollectionNames(a)[j] == CollectionNames(b)[j];
    }
    SameNamesIndex(a, b, n);
  }

  lemma ShownKeepsNames(cols: seq<BoneCollection>, name: string)
    ensures CollectionNames(Shown(cols, name)) == CollectionNames(cols)
  {
    var r := Shown(cols, name);
    assert forall j :: 0 <= j < |cols| ==> CollectionNames(r)[j] == CollectionNames(cols)[j];
  }

  /** `reset_bones_in_collections(armature, collection_names, force_reset)`. */
  method ResetBonesInCollections(obj: PoseObject, arg: NameArg, force: bool)
    modifies obj`bones, obj`collections
    ensures obj.bones == ResetCollections(old(obj.bones), old(obj.collections), AsList(arg), force)
    ensures obj.collections == UnhideCollections(old(obj.collections), AsList(arg))
  {
    var names := AsList(arg);
    ghost var cols0 := obj.collections;
    ghost var bonesTarget := ResetCollections(obj.bones, cols0, names, force);
    ghost var colsTarget := UnhideCollections(obj.collections, names);
    var n := 0;
    while n < |names|
      invariant 0 <= n <= |names|
      invariant CollectionNames(obj.collections) == CollectionNames(cols0)
      invariant ResetCollections(obj.bones, cols0, names[n..], force) == bonesTarget
      invariant UnhideCollections(obj.collections, names[n..]) == colsTarget
    {
      ResetNamedCollection(obj, cols0, names, n, force);
      n := n + 1;
    }
    assert names[n..] == [];
  }

  /** The body of the loop over the names: handle `names[n]`, leaving the rest to do. */
  method ResetNamedCollection(obj: PoseObject, ghost cols0: seq<BoneCollection>, names: seq<string>, n: nat, force: bool)
    requires n < |names| && CollectionNames(obj.collections) == CollectionNames(cols0)
    modifies obj`bones, obj`collections
    ensures CollectionNames(obj.collections) == CollectionNames(cols0)
    ensures ResetCollections(obj.bones, cols0, names[n + 1..], force) == ResetCollections(old(obj.bones), cols0, names[n..], force)
    ensures UnhideCollections(obj.collections, names[n + 1..]) == UnhideCollections(old(obj.collections), names[n..])
  {
    var name := names[n];
    assert names[n..][0] == name && names[n..][1..] == names[n + 1..];
    NamesFixIndex(obj.collections, cols0, name);
    ShownKeepsNames(obj.collections, name);
    UnhideStep(obj.collections, names[n..]);
    ResetStep(obj.bones, cols0, names[n..], force);
    ShowAndReset(obj, name, force);
  }

  /** One pass of the loop: show the collection if it exists, then reset the bones it tags. */
  method ShowAndReset(obj: PoseObject, name: string, force: bool)
    modifies obj`bones, obj`collections
    ensures obj.collections == Shown(old(obj.collections), name)
    ensures obj.bones == if CollectionIndex(old(obj.collections), name).Some?
      then ResetOneCollection(old(obj.bones), name, force) else old(obj.bones)
  {
    var found := CollectionIndex(obj.collections, name);
    if found.Some? {
      var c := found.value;
      if !obj.collections[c].visible {
        obj.collections := obj.collections[c := obj.collections[c].(visible := true)];
      } else {
        assert obj.collections[c := obj.collections[c].(visible := true)] == obj.collections;
      }
      ResetTaggedBones(obj, name, force);
    }
  }

  /** The inner loop: the tagged bones with a Copy constraint, or all tagged bones if forced. */
  method ResetTaggedBones(obj: PoseObject, name: string, force: bool)
    modifies obj`bones
    ensures obj.bones == ResetOneCollection(old(obj.bones), name, force)
  {
    var i := 0;
    while i < |obj.bones|
      invariant 0 <= i <= |obj.bones| == |old(obj.bones)|
      invariant forall j :: 0 <= j < i ==> obj.bones[j] == ResetOneCollection(old(obj.bones), name, force)[j]
      invariant forall j :: i <= j < |obj.bones| ==> obj.bones[j] == old(obj.bones)[j]
    {
      if name in obj.bones[i].collections {
        var hasCopy := HasCopy(obj.bones[i].constraints);
        if hasCopy || force {
          obj.bones := obj.bones[i := obj.bones[i].(rotation := IdentityQuat)];
        }
      }
      i := i + 1;
    }
  }

  /** The generator `any(...)` over a constraint list, as a loop. */
  method HasCopy(cs: seq<Constraint>) returns (r: bool)
    ensures r <==> exists k :: 0 <= k < |cs| && IsCopy(cs[k].kind)
  {
    var k := 0;
    while k < |cs|
      invariant 0 <= k <= |cs|
      invariant forall l :: 0 <= l < k ==> !IsCopy(cs[l].kind)
    {
      if IsCopy(cs[k].kind) {
        return true;
      }
      k := k + 1;
    }
    return false;
  }
}
