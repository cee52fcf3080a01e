/**
 * Merging an imported character armature into a Mekrig
 * (mektools/operators/import_meddle_gltf.py): the incoming armature's bones that the rig
 * already has are removed after its parent links are captured, the rest is joined into
 * the rig, the captured links are restored, the meshes' armature modifiers are retargeted
 * and the collections nested; alongside, the keyword-driven bone-collection assignment,
 * the pole-bone unparenting and the bone search by name.
 */
module MeddleMerge {
  import opened Wrappers
  import opened Text

  /** An edit bone: its name, its parent's name and the bone collections it is assigned to. */
  datatype EditBone = EditBone(name: string, parent: Option<string>, collections: set<string>)

  /** A bone collection of an armature. */
  datatype BoneCollection = BoneCollection(name: string, visible: bool)

  predicate UniqueNames(bones: seq<EditBone>) {
    forall j, k :: 0 <= j < k < |bones| ==> bones[j].name != bones[k].name
  }

  function Names(bones: seq<EditBone>): set<string> {
    set k | 0 <= k < |bones| :: bones[k].name
  }

  /** What the host keeps true of every armature: unique names, parents inside the armature. */
  predicate WellFormed(bones: seq<EditBone>) {
    UniqueNames(bones)
    && forall k :: 0 <= k < |bones| && bones[k].parent.Some? ==> bones[k].parent.value in Names(bones)
  }

  /** An object that may be an armature: its bones and its bone collections. */
  class Rig {
    var name: string
    var isArmature: bool
    var bones: seq<EditBone>
    var collections: seq<BoneCollection>

    constructor (name: string, isArmature: bool, bones: seq<EditBone>, collections: seq<BoneCollection>)
      ensures this.name == name && this.isArmature == isArmature
      ensures this.bones == bones && this.collections == collections
    {
      this.name := name;
      this.isArmature := isArmature;
      this.bones := bones;
      this.collections := collections;
    }
  }

  // ---------------------------------------------------------------- the parent snapshot

  /** `original_parents` as filled bone by bone: each parented bone's parent name. */
  function ParentMap(bones: seq<EditBone>): map<string, string>
    decreases |bones|
  {
    if |bones| == 0 then map[]
    else
      var m := ParentMap(bones[..|bones| - 1]);
      var b := bones[|bones| - 1];
      if b.parent.Some? then m[b.name := b.parent.value] else m
  }

  /** The snapshot only holds names of bones. */
  lemma {:induction false} ParentMapKeys(bones: seq<EditBone>)
    ensures forall n :: n in ParentMap(bones) ==> n in Names(bones)
    decreases |bones|
  {
    if |bones| > 0 {
      var init := bones[..|bones| - 1];
      ParentMapKeys(init);
      forall n | n in ParentMap(bones)
        ensures n in Names(bones)
      {
        if n != bones[|bones| - 1].name {
          assert n in ParentMap(init);
          var k :| 0 <= k < |init| && init[k].name == n;
          assert bones[k].name == n;
        }
      }
    }
  }

  /** The snapshot captures every parented bone, with its parent, and no root. */
  lemma {:induction false} ParentMapAt(bones: seq<EditBone>, k: nat)
    requires UniqueNames(bones) && k < |bones|
    ensures bones[k].parent.Some? ==>
      bones[k].name in ParentMap(bones) && ParentMap(bones)[bones[k].name] == bones[k].parent.value
    ensures bones[k].parent.None? ==> bones[k].name !in ParentMap(bones)
    decreases |bones|
  {
    var init := bones[..|bones| - 1];
    var last := bones[|bones| - 1];
    if k == |bones| - 1 {
      ParentMapKeys(init);
      forall j | 0 <= j < |init|
        ensures init[j].name != last.name
      {
        assert init[j] == bones[j];
      }
    } else {
      ParentMapAt(init, k);
      assert init[k] == bones[k];
    }
  }

  /** The first loop of `remove_duplicate_bones`. */
  method CaptureParents(bones: seq<EditBone>) returns (parents: map<string, string>)
    ensures parents == ParentMap(bones)
  {
    parents := map[];
    for i := 0 to |bones|
      invariant parents == ParentMap(bones[..i])
    {
      assert bones[..i + 1][..i] == bones[..i];
      if bones[i].parent.Some? {
        parents := parents[bones[i].name := bones[i].parent.value];
      }
    }
    assert bones[..|bones|] == bones;
  }

  // ---------------------------------------------------------------- removing duplicates

  /** The parent of the first bone called `name`. */
  function ParentOf(bones: seq<EditBone>, name: string): Option<string>
    decreases |bones|
  {
    if |bones| == 0 then None
    else if bones[0].name == name then bones[0].parent
    else ParentOf(bones[1..], name)
  }

  /** The bones other than `name`, with `name`'s children moved up to `parent`. */
  function Relinked(bones: seq<EditBone>, name: string, parent: Option<string>): seq<EditBone>
    decreases |bones|
  {
    if |bones| == 0 then []
    else
      (if bones[0].name == name then []
       else [if bones[0].parent == Some(name) then bones[0].(parent := parent) else bones[0]])
      + Relinked(bones[1..], name, parent)
  }

  /** The host's `edit_bones.remove`: the bone goes and its children move up to its parent. */
  function RemoveEditBone(bones: seq<EditBone>, name: string): seq<EditBone> {
    Relinked(bones, name, ParentOf(bones, name))
  }

  /** The removal loop over a snapshot of names: each name in `reference` is removed in turn. */
  function StripAll(bones: seq<EditBone>, order: seq<string>, reference: set<string>): seq<EditBone>
    decreases |order|
  {
    if |order| == 0 then bones
    else StripAll(if order[0] in reference then RemoveEditBone(bones, order[0]) else bones, order[1..], reference)
  }

  function NameSeq(bones: seq<EditBone>): (r: seq<string>)
    ensures |r| == |bones| && forall k :: 0 <= k < |r| ==> r[k] == bones[k].name
  {
    seq(|bones|, k requires 0 <= k < |bones| => bones[k].name)
  }

  function SetOf(names: seq<string>): set<string> {
    set k | 0 <= k < |names| :: names[k]
  }

  /** The incoming armature after the removal loop, which walks a copy of its bone list. */
  function Stripped(bones: seq<EditBone>, reference: set<string>): seq<EditBone> {
    StripAll(bones, NameSeq(bones), reference)
  }

  /**
   * `remove_duplicate_bones(armature_a, armature_b)`: B's parent links are captured first;
   * then every bone of B whose name A has is removed, and its entry dropped from the
   * snapshot.
   */
  method RemoveDuplicateBones(a: Rig, b: Rig) returns (originalParents: map<string, string>)
    modifies b`bones
    ensures b.bones == Stripped(old(b.bones), Names(old(a.bones)))
    ensures originalParents == ParentMap(old(b.bones)) - Names(old(a.bones))
  {
    var reference := Names(a.bones);
    originalParents := CaptureParents(b.bones);
    var order := NameSeq(b.bones);
    ghost var target := Stripped(b.bones, reference);
    ghost var captured := originalParents;
    ParentMapKeys(b.bones);
    var i := 0;
    while i < |order|
      invariant i <= |order|
      invariant StripAll(b.bones, order[i..], reference) == target
      invariant originalParents == captured - (reference * SetOf(order[..i]))
    {
      var name := order[i];
      SetOfStep(order, i);
      DropStep(captured, reference, SetOf(order[..i]), name);
      if name in reference {
        originalParents := originalParents - {name};
        b.bones := RemoveEditBone(b.bones, name);
      }
      assert order[i..][1..] == order[i + 1..];
      i := i + 1;
    }
    assert order[..i] == order;
    SetOfNameSeq(old(b.bones));
  }

  lemma SetOfStep(order: seq<string>, i: nat)
    requires i < |order|
    ensures SetOf(order[..i + 1]) == SetOf(order[..i]) + {order[i]}
  {
    assert forall k :: 0 <= k < i ==> order[..i + 1][k] == order[..i][k];
    assert order[..i + 1][i] == order[i];
  }

  lemma SetOfNameSeq(bones: seq<EditBone>)
    ensures SetOf(NameSeq(bones)) == Names(bones)
  {
    forall n | n in Names(bones)
      ensures n in SetOf(NameSeq(bones))
    {
      var k :| 0 <= k < |bones| && bones[k].name == n;
      assert NameSeq(bones)[k] == n;
    }
  }

  /** Dropping one more name from the snapshot when it is a reference name. */
  lemma DropStep(m: map<string, string>, reference: set<string>, seen: set<string>, name: string)
    ensures (if name in reference then (m - (reference * seen)) - {name} else m - (reference * seen))
      == m - (reference * (seen + {name}))
  {
    if name in reference {
      assert reference * (seen + {name}) == (reference * seen) + {name};
    } else {
      assert reference * (seen + {name}) == reference * seen;
    }
  }

  // ---------------------------------------------------------------- what stripping leaves

  /** The bones whose names are not in `gone`, in their order. */
  function KeptBy(bones: seq<EditBone>, gone: set<string>): seq<EditBone>
    decreases |bones|
  {
    if |bones| == 0 then []
    else (if bones[0].name in gone then [] else [bones[0]]) + KeptBy(bones[1..], gone)
  }

  /** `x` is `y` after the host relinked it: same name and collections, a root stays a root. */
  predicate Derived(x: EditBone, y: EditBone) {
    x.name == y.name && x.collections == y.collections && (y.parent.None? ==> x.parent.None?)
  }

  predicate DerivedSeq(r: seq<EditBone>, s: seq<EditBone>) {
    |r| == |s| && forall k :: 0 <= k < |r| ==> Derived(r[k], s[k])
  }

  lemma {:induction false} RelinkedDerived(bones: seq<EditBone>, name: string, parent: Option<string>)
    ensures DerivedSeq(Relinked(bones, name, parent), KeptBy(bones, {name}))
    decreases |bones|
  {
    if |bones| > 0 {
      RelinkedDerived(bones[1..], name, parent);
    }
  }

  lemma {:induction false} KeptByDerived(r: seq<EditBone>, s: seq<EditBone>, gone: set<string>)
    requires DerivedSeq(r, s)
    ensures DerivedSeq(KeptBy(r, gone), KeptBy(s, gone))
    decreases |r|
  {
    if |r| > 0 {
      assert Derived(r[0], s[0]);
      KeptByDerived(r[1..], s[1..], gone);
    }
  }

  lemma {:induction false} KeptByTwice(bones: seq<EditBone>, a: set<string>, b: set<string>)
    ensures KeptBy(KeptBy(bones, a), b) == KeptBy(bones, a + b)
    decreases |bones|
  {
    if |bones| > 0 {
      KeptByTwice(bones[1..], a, b);
      var head := if bones[0].name in a then [] else [bones[0]];
      KeptByAppend(head, KeptBy(bones[1..], a), b);
    }
  }

  lemma {:induction false} KeptByAppend(x: seq<EditBone>, y: seq<EditBone>, gone: set<string>)
    ensures KeptBy(x + y, gone) == KeptBy(x, gone) + KeptBy(y, gone)
    decreases |x|
  {
    if |x| == 0 {
      assert x + y == y;
    } else {
      var head := if x[0].name in gone then [] else [x[0]];
      assert (x + y)[1..] == x[1..] + y && (x + y)[0] == x[0];
      assert KeptBy(x + y, gone) == head + KeptBy(x[1..] + y, gone);
      KeptByAppend(x[1..], y, gone);
      assert head + (KeptBy(x[1..], gone) + KeptBy(y, gone)) == (head + KeptBy(x[1..], gone)) + KeptBy(y, gone);
    }
  }

  /** Only the names the bones carry matter to `KeptBy`. */
  lemma {:induction false} KeptByRelevant(bones: seq<EditBone>, a: set<string>, b: set<string>)
    requires forall k :: 0 <= k < |bones| ==> (bones[k].name in a <==> bones[k].name in b)
    ensures KeptBy(bones, a) == KeptBy(bones, b)
    decreases |bones|
  {
    if |bones| > 0 {
      assert bones[0].name in a <==> bones[0].name in b;
      KeptByRelevant(bones[1..], a, b);
    }
  }

  lemma DerivedTrans(r: seq<EditBone>, s: seq<EditBone>, t: seq<EditBone>)
    requires DerivedSeq(r, s) && DerivedSeq(s, t)
    ensures DerivedSeq(r, t)
  {
    forall k | 0 <= k < |r|
      ensures Derived(r[k], t[k])
    {
      assert Derived(r[k], s[k]) && Derived(s[k], t[k]);
    }
  }

  lemma DerivedSelf(r: seq<EditBone>)
    ensures DerivedSeq(r, r)
  {
  }

  lemma {:induction false} StripAllDerived(bones: seq<EditBone>, order: seq<string>, reference: set<string>)
    ensures DerivedSeq(StripAll(bones, order, reference), KeptBy(bones, reference * SetOf(order)))
    decreases |order|
  {
    if |order| == 0 {
      KeptByRelevant(bones, reference * SetOf(order), {});
      KeptByNone(bones);
      DerivedSelf(bones);
    } else {
      var o := order[0];
      var rest := reference * SetOf(order[1..]);
      assert SetOf(order) == {o} + SetOf(order[1..]) by {
        forall n | n in SetOf(order)
          ensures n in {o} + SetOf(order[1..])
        {
          var k :| 0 <= k < |order| && order[k] == n;
          if k > 0 {
            assert order[1..][k - 1] == n;
          }
        }
        forall n | n in SetOf(order[1..])
          ensures n in SetOf(order)
        {
          var k :| 0 <= k < |order[1..]| && order[1..][k] == n;
          assert order[k + 1] == n;
        }
      }
      if o in reference {
        var next := RemoveEditBone(bones, o);
        StripAllDerived(next, order[1..], reference);
        RelinkedDerived(bones, o, ParentOf(bones, o));
        KeptByDerived(next, KeptBy(bones, {o}), rest);
        KeptByTwice(bones, {o}, rest);
        assert {o} + rest == reference * SetOf(order);
        DerivedTrans(StripAll(next, order[1..], reference), KeptBy(next, rest), KeptBy(bones, reference * SetOf(order)));
      } else {
        StripAllDerived(bones, order[1..], reference);
        assert rest == reference * SetOf(order);
      }
    }
  }

  lemma {:induction false} KeptByNone(bones: seq<EditBone>)
    ensures KeptBy(bones, {}) == bones
    decreases |bones|
  {
    if |bones| > 0 {
      KeptByNone(bones[1..]);
    }
  }

  /** Stripping leaves B's bones that A lacks, in order, names and collections kept, roots kept. */
  lemma StrippedShape(bones: seq<EditBone>, reference: set<string>)
    ensures DerivedSeq(Stripped(bones, reference), KeptBy(bones, reference))
  {
    var order := NameSeq(bones);
    StripAllDerived(bones, order, reference);
    forall k | 0 <= k < |bones|
      ensures bones[k].name in reference * SetOf(order) <==> bones[k].name in reference
    {
      assert order[k] == bones[k].name;
    }
    KeptByRelevant(bones, reference * SetOf(order), reference);
  }

  lemma {:induction false} KeptByMembers(bones: seq<EditBone>, gone: set<string>, x: EditBone)
    ensures x in KeptBy(bones, gone) <==> x in bones && x.name !in gone
    decreases |bones|
  {
    if |bones| > 0 {
      KeptByMembers(bones[1..], gone, x);
      assert bones == [bones[0]] + bones[1..];
    }
  }

  lemma {:induction false} KeptByUnique(bones: seq<EditBone>, gone: set<string>)
    requires UniqueNames(bones)
    ensures UniqueNames(KeptBy(bones, gone))
    decreases |bones|
  {
    if |bones| > 0 {
      var rest := KeptBy(bones[1..], gone);
      KeptByUnique(bones[1..], gone);
      if bones[0].name !in gone {
        forall k | 0 <= k < |rest|
          ensures rest[k].name != bones[0].name
        {
          KeptByMembers(bones[1..], gone, rest[k]);
          var j :| 0 <= j < |bones[1..]| && bones[1..][j] == rest[k];
          assert bones[j + 1] == rest[k];
        }
        var r := [bones[0]] + rest;
        forall j, k | 0 <= j < k < |r|
          ensures r[j].name != r[k].name
        {
          if j > 0 {
            assert r[j] == rest[j - 1] && r[k] == rest[k - 1];
          } else {
            assert r[k] == rest[k - 1];
          }
        }
      }
    }
  }

  // ---------------------------------------------------------------- restoring parents

  /** `SetParent`: the bone called `child` gets `parent` as its parent. */
  function SetParent(bones: seq<EditBone>, child: string, parent: string): (r: seq<EditBone>)
    ensures |r| == |bones|
  {
    seq(|bones|, k requires 0 <= k < |bones| =>
      if bones[k].name == child then bones[k].(parent := Some(parent)) else bones[k])
  }

  /** The captured links in `done` applied, where both names are bones of the armature. */
  function RestoredOn(bones: seq<EditBone>, parents: map<string, string>, done: set<string>): (r: seq<EditBone>)
    ensures |r| == |bones|
  {
    seq(|bones|, k requires 0 <= k < |bones| =>
      var n := bones[k].name;
      if n in done && n in parents && parents[n] in Names(bones) then bones[k].(parent := Some(parents[n]))
      else bones[k])
  }

  /** The armature after `restore_bone_parents`. */
  function Restored(bones: seq<EditBone>, parents: map<string, string>): seq<EditBone> {
    RestoredOn(bones, parents, parents.Keys)
  }

  /**
   * `restore_bone_parents`: each captured link whose child and parent are both bones of
   * the armature is set again; the others are ignored. The links touch distinct bones,
   * so the dictionary's order does not matter.
   */
  method RestoreBoneParents(arm: Rig, originalParents: map<string, string>)
    modifies arm`bones
    ensures arm.bones == Restored(old(arm.bones), originalParents)
  {
    var names := Names(arm.bones);
    var remaining := originalParents.Keys;
    ghost var done: set<string> := {};
    while remaining != {}
      invariant remaining + done == originalParents.Keys && remaining !! done
      invariant arm.bones == RestoredOn(old(arm.bones), originalParents, done)
      decreases remaining
    {
      var child :| child in remaining;
      var parent := originalParents[child];
      if child in names && parent in names {
        arm.bones := SetParent(arm.bones, child, parent);
      } else {
        assert forall k :: 0 <= k < |arm.bones| ==> old(arm.bones)[k].name != child || parent !in names;
      }
      remaining := remaining - {child};
      done := done + {child};
    }
  }

  /** Restoring changes no name and no collection, and leaves alone every bone without a usable link. */
  lemma RestoredAt(bones: seq<EditBone>, parents: map<string, string>, k: nat)
    requires k < |bones|
    ensures |Restored(bones, parents)| == |bones|
    ensures var r, n := Restored(bones, parents)[k], bones[k].name;
      r.name == n && r.collections == bones[k].collections
      && r.parent == if n in parents && parents[n] in Names(bones) then Some(parents[n]) else bones[k].parent
  {
  }

  /** After stripping, B keeps exactly the names A lacks. */
  lemma StrippedNames(bones: seq<EditBone>, reference: set<string>, n: string)
    ensures n in Names(Stripped(bones, reference)) <==> n in Names(bones) && n !in reference
  {
    var s, kept := Stripped(bones, reference), KeptBy(bones, reference);
    StrippedShape(bones, reference);
    if n in Names(s) {
      var k :| 0 <= k < |s| && s[k].name == n;
      assert Derived(s[k], kept[k]);
      KeptByMembers(bones, reference, kept[k]);
      var p :| 0 <= p < |bones| && bones[p] == kept[k];
      assert bones[p].name == n;
    }
    if n in Names(bones) && n !in reference {
      var p :| 0 <= p < |bones| && bones[p].name == n;
      KeptByMembers(bones, reference, bones[p]);
      var k :| 0 <= k < |kept| && kept[k] == bones[p];
      assert Derived(s[k], kept[k]);
      assert s[k].name == n;
    }
  }

  /** The snapshot that survives stripping has no key A has; every surviving parented bone is a key. */
  lemma StrippedParents(bones: seq<EditBone>, reference: set<string>, k: nat)
    requires UniqueNames(bones) && k < |bones|
    ensures var pm, b := ParentMap(bones) - reference, bones[k];
      (forall n :: n in pm ==> n !in reference && n in Names(bones))
      && (b.name !in reference && b.parent.Some? ==> b.name in pm && pm[b.name] == b.parent.value)
      && (b.parent.None? ==> b.name !in pm)
  {
    ParentMapKeys(bones);
    ParentMapAt(bones, k);
  }

  // ---------------------------------------------------------------- bone collections

  /** A pose bone handed to the assignment loop; a deleted one (`live` false) is skipped. */
  datatype PoseBoneRef = PoseBoneRef(name: string, live: bool)

  /**
   * The keyword test of `assign_bones_to_collection`: without keywords every bone is
   * assigned; with a list, a bone whose name contains one of them (so an empty list takes none).
   */
  predicate Selected(name: string, keywords: Option<seq<string>>) {
    match keywords
    case None => true
    case Some(ks) => exists i :: 0 <= i < |ks| && Contains(name, ks[i])
  }

  /** The names the loop assigns, in iteration order. */
  function AssignedNames(bones: seq<PoseBoneRef>, keywords: Option<seq<string>>): (r: seq<string>)
    ensures |r| <= |bones|
    decreases |bones|
  {
    if |bones| == 0 then []
    else
      var b := bones[|bones| - 1];
      AssignedNames(bones[..|bones| - 1], keywords) + (if b.live && Selected(b.name, keywords) then [b.name] else [])
  }

  /** The bones named in `names` join the bone collection `cname`. */
  function Assigned(bones: seq<EditBone>, cname: string, names: set<string>): (r: seq<EditBone>)
    ensures |r| == |bones|
  {
    seq(|bones|, k requires 0 <= k < |bones| =>
      if bones[k].name in names then bones[k].(collections := bones[k].collections + {cname}) else bones[k])
  }

  /** The first bone collection called `name`. */
  function FirstNamed(cs: seq<BoneCollection>, name: string): (r: Option<nat>)
    ensures r.Some? ==>
      r.value < |cs| && cs[r.value].name == name && forall j :: 0 <= j < r.value ==> cs[j].name != name
    ensures r.None? ==> forall j :: 0 <= j < |cs| ==> cs[j].name != name
    decreases |cs|
  {
    if |cs| == 0 then None
    else if cs[0].name == name then Some(0)
    else match FirstNamed(cs[1..], name) {
      case Some(i) => Some(i + 1)
      case None => None
    }
  }

  /** The bone collections after the call: the first one of that name, or a new one, gets the visibility. */
  function WithCollection(cs: seq<BoneCollection>, name: string, visible: bool): seq<BoneCollection> {
    match FirstNamed(cs, name)
    case Some(i) => cs[i := BoneCollection(name, visible)]
    case None => cs + [BoneCollection(name, visible)]
  }

  /**
   * `assign_bones_to_collection`: reuse the first bone collection of that name or create
   * one, assign every live bone the keywords select, set the collection's visibility, and
   * return the assigned names in order.
   */
  method AssignBonesToCollection(arm: Rig, bones: seq<PoseBoneRef>, collectionName: string, isVisible: bool,
                                 keywords: Option<seq<string>>) returns (taken: seq<string>)
    modifies arm`bones, arm`collections
    ensures taken == AssignedNames(bones, keywords)
    ensures arm.bones == Assigned(old(arm.bones), collectionName, SetOf(taken))
    ensures arm.collections == WithCollection(old(arm.collections), collectionName, isVisible)
  {
    var found: Option<nat> := None;
    var c := 0;
    while c < |arm.collections|
      invariant c <= |arm.collections|
      invariant found.None? ==> forall j :: 0 <= j < c ==> arm.collections[j].name != collectionName
      invariant found.Some? ==> found == FirstNamed(arm.collections, collectionName)
    {
      if arm.collections[c].name == collectionName {
        found := Some(c);
        break;
      }
      c := c + 1;
    }
    if found.None? {
      arm.collections := arm.collections + [BoneCollection(collectionName, true)];
      found := Some(|arm.collections| - 1);
    }
    ghost var cs := arm.collections;
    taken := [];
    for i := 0 to |bones|
      invariant arm.collections == cs && found.value < |cs|
      invariant taken == AssignedNames(bones[..i], keywords)
      invariant arm.bones == Assigned(old(arm.bones), collectionName, SetOf(taken))
    {
      assert bones[..i + 1][..i] == bones[..i];
      var bone := bones[i];
      if bone.live && Selected(bone.name, keywords) {
        assert SetOf(taken + [bone.name]) == SetOf(taken) + {bone.name} by {
          assert forall k :: 0 <= k < |taken| ==> (taken + [bone.name])[k] == taken[k];
          assert (taken + [bone.name])[|taken|] == bone.name;
        }
        arm.bones := Assigned(arm.bones, collectionName, {bone.name});
        taken := taken + [bone.name];
      }
    }
    assert bones[..|bones|] == bones;
    var i := found.value;
    arm.collections := arm.collections[i := BoneCollection(collectionName, isVisible)];
  }

  /** The loop assigns exactly the live bones the keywords select. */
  lemma {:induction false} AssignedNamesExact(bones: seq<PoseBoneRef>, keywords: Option<seq<string>>, n: string)
    ensures n in AssignedNames(bones, keywords) <==>
      exists k :: 0 <= k < |bones| && bones[k].name == n && bones[k].live && Selected(n, keywords)
    decreases |bones|
  {
    if |bones| > 0 {
      var init := bones[..|bones| - 1];
      AssignedNamesExact(init, keywords, n);
      if exists k :: 0 <= k < |init| && init[k].name == n && init[k].live && Selected(n, keywords) {
        var k :| 0 <= k < |init| && init[k].name == n && init[k].live && Selected(n, keywords);
        assert bones[k] == init[k];
      }
      if exists k :: 0 <= k < |bones| && bones[k].name == n && bones[k].live && Selected(n, keywords) {
        var k :| 0 <= k < |bones| && bones[k].name == n && bones[k].live && Selected(n, keywords);
        if k < |init| {
          assert init[k] == bones[k];
        }
      }
    }
  }

  /** Keywords `None` assign every live bone and an empty list none. */
  lemma AssignedNamesExtremes(bones: seq<PoseBoneRef>, n: string)
    ensures n in AssignedNames(bones, None) <==> exists k :: 0 <= k < |bones| && bones[k].name == n && bones[k].live
    ensures AssignedNames(bones, Some([])) == []
  {
    AssignedNamesExact(bones, None, n);
    if AssignedNames(bones, Some([])) != [] {
      var m := AssignedNames(bones, Some([]))[0];
      AssignedNamesExact(bones, Some([]), m);
    }
  }

  /**
   * The collection is reused when one of that name exists and created exactly once
   * otherwise; either way it ends with the requested visibility and no other collection changes.
   */
  lemma WithCollectionShape(cs: seq<BoneCollection>, name: string, visible: bool)
    ensures var r := WithCollection(cs, name, visible);
      var existed := exists j :: 0 <= j < |cs| && cs[j].name == name;
      |r| == (if existed then |cs| else |cs| + 1)
      && (exists j :: 0 <= j < |r| && r[j] == BoneCollection(name, visible))
      && (forall j :: 0 <= j < |cs| && cs[j].name != name ==> r[j] == cs[j])
      && (!existed ==> r[|cs|] == BoneCollection(name, visible))
  {
    match FirstNamed(cs, name)
    case Some(i) =>
      assert WithCollection(cs, name, visible)[i] == BoneCollection(name, visible);
    case None =>
      assert WithCollection(cs, name, visible)[|cs|] == BoneCollection(name, visible);
  }

  // ---------------------------------------------------------------- the merge

  const NotMekrigBones := "Not Mekrig Bones"

  /**
   * A's bones after `merge_armatures(A, B)`: B stripped of A's names and assigned to
   * "Not Mekrig Bones", joined after A's bones, then the surviving snapshot restored.
   */
  function MergedBones(a: seq<EditBone>, b: seq<EditBone>): seq<EditBone> {
    var s := Stripped(b, Names(a));
    Restored(a + Assigned(s, NotMekrigBones, SetOf(NameSeq(s))), ParentMap(b) - Names(a))
  }

  /**
   * The merge keeps A's bones exactly and appends B's bones that A lacks, in B's order,
   * each with its original parent (a bone of B or the rig's bone of the same name) and in
   * the "Not Mekrig Bones" collection; the result is again a well-formed armature.
   */
  lemma MergeOutcome(a: seq<EditBone>, b: seq<EditBone>)
    requires WellFormed(a) && WellFormed(b)
    ensures var g, kept := MergedBones(a, b), KeptBy(b, Names(a));
      |g| == |a| + |kept|
      && (forall i :: 0 <= i < |a| ==> g[i] == a[i])
      && (forall j :: 0 <= j < |kept| ==> g[|a| + j] == kept[j].(collections := kept[j].collections + {NotMekrigBones}))
  {
    var ref := Names(a);
    var s, kept := Stripped(b, ref), KeptBy(b, ref);
    var t := Assigned(s, NotMekrigBones, SetOf(NameSeq(s)));
    var joined := a + t;
    var pm := ParentMap(b) - ref;
    var g := MergedBones(a, b);
    StrippedShape(b, ref);
    forall i | 0 <= i < |a|
      ensures g[i] == a[i]
    {
      RestoredAt(joined, pm, i);
      assert joined[i] == a[i];
    }
    forall j | 0 <= j < |kept|
      ensures g[|a| + j] == kept[j].(collections := kept[j].collections + {NotMekrigBones})
    {
      MergedKept(a, b, j);
    }
  }

  /** One of B's surviving bones after the merge. */
  lemma MergedKept(a: seq<EditBone>, b: seq<EditBone>, j: nat)
    requires WellFormed(a) && WellFormed(b) && j < |KeptBy(b, Names(a))|
    ensures var kept := KeptBy(b, Names(a));
      |MergedBones(a, b)| == |a| + |kept|
      && MergedBones(a, b)[|a| + j] == kept[j].(collections := kept[j].collections + {NotMekrigBones})
  {
    JoinedShape(a, b);
    KeptLink(a, b, j);
    KeptRestored(a, KeptBy(b, Names(a)), JoinedBones(a, b), ParentMap(b) - Names(a), j);
  }

  /** The restore step on a joined armature, for one bone that came from B. */
  lemma KeptRestored(a: seq<EditBone>, kept: seq<EditBone>, joined: seq<EditBone>, pm: map<string, string>, j: nat)
    requires j < |kept| && |joined| == |a| + |kept|
    requires forall i :: 0 <= i < |a| ==> joined[i] == a[i]
    requires forall j :: 0 <= j < |kept| ==>
      joined[|a| + j].name == kept[j].name
      && joined[|a| + j].collections == kept[j].collections + {NotMekrigBones}
      && (kept[j].parent.None? ==> joined[|a| + j].parent.None?)
    requires var x := kept[j];
      (x.parent.None? ==> x.name !in pm)
      && (x.parent.Some? ==>
            x.name in pm && pm[x.name] == x.parent.value
            && (x.parent.value in Names(a) || exists r :: 0 <= r < |kept| && kept[r].name == x.parent.value))
    ensures |Restored(joined, pm)| == |joined|
    ensures Restored(joined, pm)[|a| + j] == kept[j].(collections := kept[j].collections + {NotMekrigBones})
  {
    if kept[j].parent.Some? {
      var v := kept[j].parent.value;
      if v in Names(a) {
        var i :| 0 <= i < |a| && a[i].name == v;
        assert joined[i].name == v;
      } else {
        var r :| 0 <= r < |kept| && kept[r].name == v;
        assert joined[|a| + r].name == v;
      }
    }
    RestoreOne(joined, pm, |a| + j, kept[j].(collections := kept[j].collections + {NotMekrigBones}));
  }

  /** A surviving bone's snapshot entry, and where its parent is found after the join. */
  lemma KeptLink(a: seq<EditBone>, b: seq<EditBone>, j: nat)
    requires WellFormed(b) && j < |KeptBy(b, Names(a))|
    ensures var kept, pm := KeptBy(b, Names(a)), ParentMap(b) - Names(a);
      var x := kept[j];
      (x.parent.None? ==> x.name !in pm)
      && (x.parent.Some? ==>
            x.name in pm && pm[x.name] == x.parent.value
            && (x.parent.value in Names(a) || exists r :: 0 <= r < |kept| && kept[r].name == x.parent.value))
  {
    var ref := Names(a);
    var kept := KeptBy(b, ref);
    KeptByMembers(b, ref, kept[j]);
    var p :| 0 <= p < |b| && b[p] == kept[j];
    StrippedParents(b, ref, p);
    if kept[j].parent.Some? {
      var v := kept[j].parent.value;
      var q :| 0 <= q < |b| && b[q].name == v;
      if v !in ref {
        KeptByMembers(b, ref, b[q]);
        var r :| 0 <= r < |kept| && kept[r] == b[q];
        assert kept[r].name == v;
      }
    }
  }

  /** A's bones followed by B's survivors, before the snapshot is restored. */
  function JoinedBones(a: seq<EditBone>, b: seq<EditBone>): seq<EditBone> {
    var s := Stripped(b, Names(a));
    a + Assigned(s, NotMekrigBones, SetOf(NameSeq(s)))
  }

  lemma JoinedShape(a: seq<EditBone>, b: seq<EditBone>)
    ensures var joined, kept := JoinedBones(a, b), KeptBy(b, Names(a));
      MergedBones(a, b) == Restored(joined, ParentMap(b) - Names(a))
      && |joined| == |a| + |kept|
      && (forall i :: 0 <= i < |a| ==> joined[i] == a[i])
      && forall j :: 0 <= j < |kept| ==>
           joined[|a| + j].name == kept[j].name
           && joined[|a| + j].collections == kept[j].collections + {NotMekrigBones}
           && (kept[j].parent.None? ==> joined[|a| + j].parent.None?)
  {
    var s, kept := Stripped(b, Names(a)), KeptBy(b, Names(a));
    var t := Assigned(s, NotMekrigBones, SetOf(NameSeq(s)));
    StrippedShape(b, Names(a));
    forall j | 0 <= j < |kept|
      ensures t[j].name == kept[j].name && t[j].collections == kept[j].collections + {NotMekrigBones}
      ensures kept[j].parent.None? ==> t[j].parent.None?
    {
      assert Derived(s[j], kept[j]);
      assert NameSeq(s)[j] == s[j].name;
    }
  }

  lemma RestoreOne(joined: seq<EditBone>, pm: map<string, string>, k: nat, want: EditBone)
    requires k < |joined|
    requires joined[k].name == want.name && joined[k].collections == want.collections
    requires want.parent.None? ==> joined[k].parent.None? && want.name !in pm
    requires want.parent.Some? ==>
      want.name in pm && pm[want.name] == want.parent.value && want.parent.value in Names(joined)
    ensures |Restored(joined, pm)| == |joined| && Restored(joined, pm)[k] == want
  {
  }

  /** The merged armature is well formed: unique names, every parent a bone of it. */
  lemma MergeWellFormed(a: seq<EditBone>, b: seq<EditBone>)
    requires WellFormed(a) && WellFormed(b)
    ensures WellFormed(MergedBones(a, b))
  {
    var kept := KeptBy(b, Names(a));
    MergeOutcome(a, b);
    KeptByUnique(b, Names(a));
    forall j | 0 <= j < |kept|
      ensures kept[j].name !in Names(a)
      ensures kept[j].parent.Some? ==>
        kept[j].parent.value in Names(a) || exists r :: 0 <= r < |kept| && kept[r].name == kept[j].parent.value
    {
      KeptByMembers(b, Names(a), kept[j]);
      KeptLink(a, b, j);
    }
    JoinWellFormed(a, kept, MergedBones(a, b));
  }

  /** A well-formed armature followed by bones with fresh unique names whose parents resolve is well formed. */
  lemma JoinWellFormed(a: seq<EditBone>, kept: seq<EditBone>, g: seq<EditBone>)
    requires WellFormed(a) && UniqueNames(kept)
    requires |g| == |a| + |kept|
    requires forall i :: 0 <= i < |a| ==> g[i] == a[i]
    requires forall j :: 0 <= j < |kept| ==>
      g[|a| + j] == kept[j].(collections := kept[j].collections + {NotMekrigBones})
    requires forall j :: 0 <= j < |kept| ==> kept[j].name !in Names(a)
    requires forall j :: 0 <= j < |kept| && kept[j].parent.Some? ==>
      kept[j].parent.value in Names(a) || exists r :: 0 <= r < |kept| && kept[r].name == kept[j].parent.value
    ensures WellFormed(g)
  {
    forall x, y | 0 <= x < y < |g|
      ensures g[x].name != g[y].name
    {
      if x >= |a| {
        assert g[x].name == kept[x - |a|].name && g[y].name == kept[y - |a|].name;
      } else if y >= |a| {
        assert g[x].name == a[x].name && g[y].name == kept[y - |a|].name;
      }
    }
    forall k | 0 <= k < |g| && g[k].parent.Some?
      ensures g[k].parent.value in Names(g)
    {
      var v := g[k].parent.value;
      if k < |a| || v in Names(a) {
        if k < |a| {
          assert v in Names(a);
        } else {
          assert kept[k - |a|].parent == Some(v);
        }
        var i :| 0 <= i < |a| && a[i].name == v;
        assert g[i].name == v;
      } else {
        assert kept[k - |a|].parent == Some(v);
        var r :| 0 <= r < |kept| && kept[r].name == v;
        assert g[|a| + r].name == v;
      }
    }
  }

  // ---------------------------------------------------------------- the scene around the merge

  datatype ModifierKind = ArmatureModifier | OtherModifier

  /** A modifier: its type and the object (by name) it points at. */
  datatype Modifier = Modifier(kind: ModifierKind, target: Option<string>)

  /** A mesh object of the scene with its modifier stack. */
  datatype MeshObject = MeshObject(name: string, modifiers: seq<Modifier>)

  /** A collection of `bpy.data.collections`: the names of its objects and of its child collections. */
  datatype Collection = Collection(name: string, objects: set<string>, children: seq<string>)

  /** The parts of the scene `merge_armatures` reads and writes. */
  class MergeScene {
    var meshes: seq<MeshObject>
    var collections: seq<Collection>
    var rootChildren: seq<string>

    constructor (meshes: seq<MeshObject>, collections: seq<Collection>, rootChildren: seq<string>)
      ensures this.meshes == meshes && this.collections == collections && this.rootChildren == rootChildren
    {
      this.meshes := meshes;
      this.collections := collections;
      this.rootChildren := rootChildren;
    }
  }

  /** `objects_with_b`: the positions of the meshes' armature modifiers that use `target`. */
  function ArmatureUsers(meshes: seq<MeshObject>, target: string): set<(nat, nat)> {
    set i, m | 0 <= i < |meshes| && 0 <= m < |meshes[i].modifiers|
                && meshes[i].modifiers[m].kind == ArmatureModifier && meshes[i].modifiers[m].target == Some(target)
      :: (i, m)
  }

  function RetargetedModifiers(mods: seq<Modifier>, from: string, to: string): (r: seq<Modifier>)
    ensures |r| == |mods|
  {
    seq(|mods|, m requires 0 <= m < |mods| =>
      if mods[m].kind == ArmatureModifier && mods[m].target == Some(from) then mods[m].(target := Some(to)) else mods[m])
  }

  /** The meshes with every armature modifier on `from` pointed at `to`. */
  function Retargeted(meshes: seq<MeshObject>, from: string, to: string): (r: seq<MeshObject>)
    ensures |r| == |meshes|
  {
    seq(|meshes|, i requires 0 <= i < |meshes| =>
      meshes[i].(modifiers := RetargetedModifiers(meshes[i].modifiers, from, to)))
  }

  /** After retargeting no armature modifier uses `from`, and every other modifier is as it was. */
  lemma RetargetedExact(meshes: seq<MeshObject>, from: string, to: string, i: nat, m: nat)
    requires from != to && i < |meshes| && m < |meshes[i].modifiers|
    ensures var r, x := Retargeted(meshes, from, to)[i], meshes[i].modifiers[m];
      r.name == meshes[i].name && |r.modifiers| == |meshes[i].modifiers|
      && !(r.modifiers[m].kind == ArmatureModifier && r.modifiers[m].target == Some(from))
      && ((i, m) in ArmatureUsers(meshes, from) <==> r.modifiers[m] != x)
      && ((i, m) in ArmatureUsers(meshes, from) ==> r.modifiers[m] == x.(target := Some(to)))
  {
  }

  /** The first collection holding the object called `obj`. */
  function FirstHolding(cs: seq<Collection>, obj: string): (r: Option<nat>)
    ensures r.Some? ==>
      r.value < |cs| && obj in cs[r.value].objects && forall j :: 0 <= j < r.value ==> obj !in cs[j].objects
    ensures r.None? ==> forall j :: 0 <= j < |cs| ==> obj !in cs[j].objects
    decreases |cs|
  {
    if |cs| == 0 then None
    else if obj in cs[0].objects then Some(0)
    else match FirstHolding(cs[1..], obj) {
      case Some(i) => Some(i + 1)
      case None => None
    }
  }

  /** The collections once the object called `obj` is deleted by the join. */
  function WithoutObject(cs: seq<Collection>, obj: string): (r: seq<Collection>)
    ensures |r| == |cs|
  {
    seq(|cs|, k requires 0 <= k < |cs| => cs[k].(objects := cs[k].objects - {obj}))
  }

  function Removed(names: seq<string>, n: string): (r: seq<string>)
    ensures forall x :: x in r <==> x in names && x != n
    decreases |names|
  {
    if |names| == 0 then []
    else (if names[0] == n then [] else [names[0]]) + Removed(names[1..], n)
  }

  /** The child collection names of the first collection called `name` (none without one). */
  function ChildNames(cs: seq<Collection>, name: string): (r: seq<string>)
    ensures forall k :: 0 <= k < |cs| && cs[k].name == name && (forall j :: 0 <= j < k ==> cs[j].name != name)
              ==> r == cs[k].children
    decreases |cs|
  {
    if |cs| == 0 then []
    else if cs[0].name == name then cs[0].children
    else ChildNames(cs[1..], name)
  }

  /**
   * Whether the collection `to` is `from` or lies below it, following at most `depth`
   * child links. With `depth` the number of collections this is reachability, since a
   * shortest path visits no collection twice.
   */
  function Reaches(cs: seq<Collection>, from: string, to: string, depth: nat): bool
    decreases depth
  {
    from == to || (depth > 0 && exists c :: c in ChildNames(cs, from) && Reaches(cs, c, to, depth - 1))
  }

  /** A collection reached within `depth` links is reached within any larger bound. */
  lemma {:induction false} ReachesDeeper(cs: seq<Collection>, from: string, to: string, depth: nat)
    requires Reaches(cs, from, to, depth)
    ensures Reaches(cs, from, to, depth + 1)
    decreases depth
  {
    if from != to {
      var c :| c in ChildNames(cs, from) && Reaches(cs, c, to, depth - 1);
      ReachesDeeper(cs, c, to, depth - 1);
    }
  }

  /**
   * `parent.children.link(child)` fails when `child` is already a child of `parent`, or
   * when `parent` lies in `child`'s subtree (the link would close a cycle).
   */
  predicate LinkRefused(cs: seq<Collection>, parent: Collection, child: string) {
    child in parent.children || Reaches(cs, child, parent.name, |cs|)
  }

  /** The bone collections of A after the join: B's collections that A lacks by name are added. */
  function JoinedCollections(a: seq<BoneCollection>, b: seq<BoneCollection>): (r: seq<BoneCollection>)
    decreases |b|
  {
    if |b| == 0 then a
    else JoinedCollections(if exists j :: 0 <= j < |a| && a[j].name == b[0].name then a else a + [b[0]], b[1..])
  }

  /** The pose bones of an armature, all live. */
  function PoseBones(bones: seq<EditBone>): (r: seq<PoseBoneRef>)
    ensures |r| == |bones|
  {
    seq(|bones|, k requires 0 <= k < |bones| => PoseBoneRef(bones[k].name, true))
  }

  /** Without keywords the assignment takes every pose bone, in order. */
  lemma {:induction false} AssignAllPoseBones(bones: seq<EditBone>)
    ensures AssignedNames(PoseBones(bones), None) == NameSeq(bones)
    decreases |bones|
  {
    if |bones| > 0 {
      var init := bones[..|bones| - 1];
      AssignAllPoseBones(init);
      assert PoseBones(bones)[..|bones| - 1] == PoseBones(init);
      assert NameSeq(bones) == NameSeq(init) + [bones[|bones| - 1].name];
    }
  }

  /**
   * `merge_armatures(A, B)`: the collections holding A and B are looked up; B is stripped
   * of A's bones and its bones assigned to "Not Mekrig Bones" (hidden); the meshes'
   * armature modifiers on B are recorded; B is joined into A; the recorded modifiers
   * are pointed at A; the snapshot is restored; and when A and B sit in two different
   * collections, A's collection moves from the scene's top level under B's (unlinking a
   * collection that is not at the top level raises, and so does linking it where it
   * already is or below its own subtree). Returns A.
   */
  method MergeArmatures(scene: MergeScene, a: Rig, b: Rig) returns (status: Status, merged: Rig)
    requires a != b
    modifies scene, a`bones, a`collections, b`bones, b`collections
    ensures merged == a
    ensures a.bones == MergedBones(old(a.bones), old(b.bones))
    ensures a.collections == JoinedCollections(old(a.collections), WithCollection(old(b.collections), NotMekrigBones, false))
    ensures scene.meshes == Retargeted(old(scene.meshes), b.name, a.name)
    ensures var ca, cb := FirstHolding(old(scene.collections), a.name), FirstHolding(old(scene.collections), b.name);
      var cs := WithoutObject(old(scene.collections), b.name);
      if ca.Some? && cb.Some? && ca != cb then
        var moved := cs[ca.value].name;
        if moved !in old(scene.rootChildren) then
          status == Raised && scene.rootChildren == old(scene.rootChildren) && scene.collections == cs
        else if LinkRefused(cs, cs[cb.value], moved) then
          status == Raised && scene.rootChildren == Removed(old(scene.rootChildren), moved) && scene.collections == cs
        else
          status == Finished && scene.rootChildren == Removed(old(scene.rootChildren), moved)
          && scene.collections == cs[cb.value := cs[cb.value].(children := cs[cb.value].children + [moved])]
      else
        status == Finished && scene.rootChildren == old(scene.rootChildren) && scene.collections == cs
  {
    merged := a;
    var ca := FirstHolding(scene.collections, a.name);
    var cb := FirstHolding(scene.collections, b.name);
    var originalParents := RemoveDuplicateBones(a, b);
    ghost var stripped := b.bones;
    var notMekrig := AssignBonesToCollection(b, PoseBones(b.bones), NotMekrigBones, false, None);
    AssignAllPoseBones(stripped);
    var users := ArmatureUsers(scene.meshes, b.name);
    // the join: B's bones and bone collections go over to A, and B leaves the scene
    a.bones := a.bones + b.bones;
    a.collections := JoinedCollections(a.collections, b.collections);
    scene.collections := WithoutObject(scene.collections, b.name);
    RetargetUsers(scene, users, b.name, a.name);
    RestoreBoneParents(a, originalParents);
    if ca.Some? && cb.Some? && ca != cb {
      var moved := scene.collections[ca.value].name;
      if moved !in scene.rootChildren {
        return Raised, merged;
      }
      scene.rootChildren := Removed(scene.rootChildren, moved);
      var target := scene.collections[cb.value];
      if LinkRefused(scene.collections, target, moved) {
        return Raised, merged;
      }
      scene.collections := scene.collections[cb.value := target.(children := target.children + [moved])];
    }
    status := Finished;
  }

  /** The loop over `objects_with_b`: each recorded modifier is pointed at A. */
  method RetargetUsers(scene: MergeScene, users: set<(nat, nat)>, from: string, to: string)
    requires users == ArmatureUsers(scene.meshes, from)
    modifies scene`meshes
    ensures scene.meshes == Retargeted(old(scene.meshes), from, to)
  {
    ghost var meshes := scene.meshes;
    var i := 0;
    while i < |scene.meshes|
      invariant i <= |scene.meshes| == |meshes|
      invariant forall k :: 0 <= k < |meshes| ==>
        scene.meshes[k] == if k < i then Retargeted(meshes, from, to)[k] else meshes[k]
    {
      var mods := scene.meshes[i].modifiers;
      var updated := mods;
      for m := 0 to |mods|
        invariant |updated| == |mods|
        invariant forall x :: 0 <= x < |mods| ==>
          updated[x] == if x < m then RetargetedModifiers(mods, from, to)[x] else mods[x]
      {
        if (i, m) in users {
          updated := updated[m := updated[m].(target := Some(to))];
        }
      }
      scene.meshes := scene.meshes[i := scene.meshes[i].(modifiers := updated)];
      i := i + 1;
    }
  }

  // ---------------------------------------------------------------- small searches and edits

  const PoleBoneNames := ["IK_Arm_Pole.R", "IK_Arm_Pole.L", "IK_Leg_Pole.R", "IK_Leg_Pole.L"]

  /** The bones named in `names` lose their parent. */
  function Unparented(bones: seq<EditBone>, names: set<string>): (r: seq<EditBone>)
    ensures |r| == |bones|
  {
    seq(|bones|, k requires 0 <= k < |bones| => if bones[k].name in names then bones[k].(parent := None) else bones[k])
  }

  /** `remove_pole_parents`: on an armature, the four IK pole bones it has become roots. */
  method RemovePoleParents(arm: Rig?)
    modifies arm
    ensures arm != null && old(arm.isArmature) ==> arm.bones == Unparented(old(arm.bones), SetOf(PoleBoneNames))
    ensures arm != null && !old(arm.isArmature) ==> arm.bones == old(arm.bones)
    ensures arm != null ==> (arm.name, arm.isArmature, arm.collections) == old((arm.name, arm.isArmature, arm.collections))
  {
    if arm != null && arm.isArmature {
      ghost var done: set<string> := {};
      for p := 0 to |PoleBoneNames|
        invariant done == SetOf(PoleBoneNames[..p])
        invariant arm.bones == Unparented(old(arm.bones), done)
        invariant arm.name == old(arm.name) && arm.isArmature && arm.collections == old(arm.collections)
      {
        var boneName := PoleBoneNames[p];
        assert SetOf(PoleBoneNames[..p + 1]) == done + {boneName} by {
          assert forall k :: 0 <= k < p ==> PoleBoneNames[..p + 1][k] == PoleBoneNames[..p][k];
          assert PoleBoneNames[..p + 1][p] == boneName;
        }
        if boneName in Names(arm.bones) {
          arm.bones := Unparented(arm.bones, {boneName});
        } else {
          assert forall k :: 0 <= k < |arm.bones| ==> arm.bones[k].name != boneName;
        }
        done := done + {boneName};
      }
      assert PoleBoneNames[..|PoleBoneNames|] == PoleBoneNames;
    }
  }

  /** The pole bones end as roots, every other bone is untouched, and a second call changes nothing. */
  lemma UnparentedExact(bones: seq<EditBone>, k: nat)
    requires k < |bones|
    ensures var r, poles := Unparented(bones, SetOf(PoleBoneNames)), SetOf(PoleBoneNames);
      (bones[k].name in poles ==> r[k] == bones[k].(parent := None))
      && (bones[k].name !in poles ==> r[k] == bones[k])
      && Unparented(r, poles) == r
  {
  }

  /** The bones whose name contains `name`, in order. */
  function BonesContaining(bones: seq<EditBone>, name: string): (r: seq<EditBone>)
    decreases |bones|
  {
    if |bones| == 0 then []
    else (if Contains(bones[0].name, name) then [bones[0]] else []) + BonesContaining(bones[1..], name)
  }

  /** `get_bones_by_name`: an armature's bones whose name contains `name`; nothing for anything else. */
  function BonesByName(arm: Rig?, name: string): seq<EditBone>
    reads arm
  {
    if arm != null && arm.isArmature then BonesContaining(arm.bones, name) else []
  }

  lemma {:induction false} BonesContainingExact(bones: seq<EditBone>, name: string, x: EditBone)
    ensures x in BonesContaining(bones, name) <==> x in bones && Contains(x.name, name)
    decreases |bones|
  {
    if |bones| > 0 {
      BonesContainingExact(bones[1..], name, x);
      assert bones == [bones[0]] + bones[1..];
    }
  }
}
