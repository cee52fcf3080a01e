/**
 * The pose exporter (operators/export_pose.py): which bones are written, under which
 * keys, with which fields, and the default file name. The relative transform of a bone
 * (the root's world matrix inverted, times the bone's) and the fixed-decimal number
 * formatting are host computations passed in as `relative`, `fmt6` and `fmt8`; the
 * `bone_groups.json` table is the parameter `groups`; the record is returned instead of
 * written to disk.
 */
module PoseExport {
  import opened Wrappers
  import opened Text
  import opened PoseRig
  import PoseImport

  /** `BONE_GROUPS`, the groups the export dialog offers. */
  const BoneGroups := ["Hair", "Face", "HandL", "HandR", "Tail", "Gear", "Body"]

  /** The dialog's `save_position`, `save_rotation` and `save_scale` flags. */
  datatype SaveFlags = SaveFlags(position: bool, rotation: bool, scale: bool)

  /** The JSON object the exporter writes. */
  datatype PoseRecord = PoseRecord(fileExtension: string, typeName: string, fileVersion: int, bones: map<string, BoneEntry>)

  /** `selected_groups`: the offered groups whose checkbox is set. */
  function SelectedGroups(checked: set<string>): (r: set<string>)
    ensures forall g :: g in r <==> g in BoneGroups && g in checked
  {
    set g | g in BoneGroups && g in checked
  }

  /** `order` lists every group of `s` exactly once: one iteration order of a Python set. */
  predicate Enumerates(order: seq<string>, s: set<string>) {
    (forall k :: 0 <= k < |order| ==> order[k] in s)
    && (forall g :: g in s ==> g in order)
    && forall j, k :: 0 <= j < k < |order| ==> order[j] != order[k]
  }

  /** `[bone for group in selected_groups for bone in bone_groups.get(group, [])]`. */
  function GroupNames(order: seq<string>, groups: map<string, seq<string>>): (r: seq<string>)
    ensures forall n :: n in r <==> exists k :: 0 <= k < |order| && order[k] in groups && n in groups[order[k]]
    decreases |order|
  {
    if |order| == 0 then []
    else
      var first := if order[0] in groups then groups[order[0]] else [];
      var rest := GroupNames(order[1..], groups);
      assert forall n :: n in rest <==> exists k :: 1 <= k < |order| && order[k] in groups && n in groups[order[k]] by {
        forall n | n in rest
          ensures exists k :: 1 <= k < |order| && order[k] in groups && n in groups[order[k]]
        {
          var k :| 0 <= k < |order[1..]| && order[1..][k] in groups && n in groups[order[1..][k]];
          assert order[k + 1] == order[1..][k];
        }
        forall n | exists k :: 1 <= k < |order| && order[k] in groups && n in groups[order[k]]
          ensures n in rest
        {
          var k :| 1 <= k < |order| && order[k] in groups && n in groups[order[k]];
          assert order[1..][k - 1] == order[k];
        }
      }
      first + rest
  }

  /** `[bone.name for bone in pose.bones if bone.name.startswith("j_ex")]`, in armature order. */
  function JexNames(bones: seq<PoseBone>): (r: seq<string>)
    ensures forall n :: n in r <==> exists i :: 0 <= i < |bones| && bones[i].name == n && StartsWith(n, "j_ex")
    decreases |bones|
  {
    if |bones| == 0 then []
    else
      var rest := JexNames(bones[1..]);
      assert forall n :: n in rest <==> exists i :: 1 <= i < |bones| && bones[i].name == n && StartsWith(n, "j_ex") by {
        forall n | n in rest
          ensures exists i :: 1 <= i < |bones| && bones[i].name == n && StartsWith(n, "j_ex")
        {
          var i :| 0 <= i < |bones[1..]| && bones[1..][i].name == n && StartsWith(n, "j_ex");
          assert bones[i + 1] == bones[1..][i];
        }
      }
      (if StartsWith(bones[0].name, "j_ex") then [bones[0].name] else []) + rest
  }

  /** The names the exporter visits: the selected groups' names, then the `j_ex` bones if Hair is checked. */
  function ExportNames(bones: seq<PoseBone>, checked: set<string>, order: seq<string>,
                       groups: map<string, seq<string>>): seq<string>
  {
    GroupNames(order, groups) + (if "Hair" in checked then JexNames(bones) else [])
  }

  /**
   * A name is visited exactly when a selected group lists it, or Hair is checked and
   * the armature has a bone of that name starting with `j_ex`.
   */
  lemma ExportNamesExact(bones: seq<PoseBone>, checked: set<string>, order: seq<string>,
                         groups: map<string, seq<string>>, n: string)
    requires Enumerates(order, SelectedGroups(checked))
    ensures n in ExportNames(bones, checked, order, groups) <==>
      (exists g :: g in BoneGroups && g in checked && g in groups && n in groups[g])
      || ("Hair" in checked && StartsWith(n, "j_ex") && exists i :: 0 <= i < |bones| && bones[i].name == n)
  {
    if exists g :: g in BoneGroups && g in checked && g in groups && n in groups[g] {
      var g :| g in BoneGroups && g in checked && g in groups && n in groups[g];
      assert g in SelectedGroups(checked);
      var k :| 0 <= k < |order| && order[k] == g;
      assert n in GroupNames(order, groups);
    }
  }

  /** `", ".join` of three formatted components. */
  function VecText(v: Vec3, fmt: real -> string): string {
    Join([fmt(v.x), fmt(v.y), fmt(v.z)], ", ")
  }

  /** The `Rotation` text: the components in the order x, y, z, w. */
  function RotationText(q: Quat, fmt: real -> string): string {
    Join([fmt(q.x), fmt(q.y), fmt(q.z), fmt(q.w)], ", ")
  }

  /** `bone_data`: one field per set flag, from the bone's root-relative transform. */
  function EntryOf(t: Transform, save: SaveFlags, fmt6: real -> string, fmt8: real -> string): (e: BoneEntry)
    ensures e.position.Some? <==> save.position
    ensures e.rotation.Some? <==> save.rotation
    ensures e.scale.Some? <==> save.scale
    ensures IsEmptyEntry(e) <==> !save.position && !save.rotation && !save.scale
  {
    BoneEntry(
      if save.position then Some(VecText(t.location, fmt6)) else None,
      if save.rotation then Some(RotationText(t.rotation, fmt6)) else None,
      if save.scale then Some(VecText(t.scale, fmt8)) else None)
  }

  /** A formatter whose output never holds a comma (true of fixed-decimal numbers). */
  ghost predicate CommaFree(fmt: real -> string) {
    forall v: real, i :: 0 <= i < |fmt(v)| ==> fmt(v)[i] != ','
  }

  /**
   * Component order survives an export followed by an import: the importer's
   * split-and-rotate turns the written x, y, z, w back into w, x, y, z, each component
   * being whatever `parse` reads from its formatted text.
   */
  lemma RotationRoundTrip(q: Quat, fmt: real -> string, parse: string -> Option<real>, expmap: (real, real, real) -> Quat)
    requires CommaFree(fmt)
    requires parse(fmt(q.w)).Some? && parse(fmt(q.x)).Some? && parse(fmt(q.y)).Some? && parse(fmt(q.z)).Some?
    ensures PoseImport.ParseRotation(RotationText(q, fmt), parse, expmap)
      == Some(Quat(parse(fmt(q.w)).value, parse(fmt(q.x)).value, parse(fmt(q.y)).value, parse(fmt(q.z)).value))
  {
    var parts := [fmt(q.x), fmt(q.y), fmt(q.z), fmt(q.w)];
    SplitJoin(parts, ", ");
  }

  /** With an exact formatter and parser the rotation comes back unchanged. */
  lemma RotationRoundTripExact(q: Quat, fmt: real -> string, parse: string -> Option<real>, expmap: (real, real, real) -> Quat)
    requires CommaFree(fmt) && forall v: real :: parse(fmt(v)) == Some(v)
    ensures PoseImport.ParseRotation(RotationText(q, fmt), parse, expmap) == Some(q)
  {
    RotationRoundTrip(q, fmt, parse, expmap);
  }

  /** Whether the exporter writes an entry for `name`: the armature has a bone of exactly that name. */
  predicate Exported(bones: seq<PoseBone>, name: string) {
    BoneIndex(bones, name).Some?
  }

  /** One iteration of the export loop: a found bone is written under its stripped name. */
  function PutEntry(m: map<string, BoneEntry>, bones: seq<PoseBone>, root: nat, name: string, save: SaveFlags,
                    relative: (seq<PoseBone>, nat, nat) -> Transform, fmt6: real -> string, fmt8: real -> string): map<string, BoneEntry>
  {
    match BoneIndex(bones, name)
    case None => m
    case Some(i) => m[StripSuffix(name) := EntryOf(relative(bones, root, i), save, fmt6, fmt8)]
  }

  /** The `Bones` map after visiting `names` in order, starting from `m`. */
  function RecordFrom(m: map<string, BoneEntry>, bones: seq<PoseBone>, root: nat, names: seq<string>, save: SaveFlags,
                      relative: (seq<PoseBone>, nat, nat) -> Transform, fmt6: real -> string, fmt8: real -> string): map<string, BoneEntry>
    decreases |names|
  {
    if |names| == 0 then m
    else RecordFrom(PutEntry(m, bones, root, names[0], save, relative, fmt6, fmt8), bones, root, names[1..], save, relative, fmt6, fmt8)
  }

  /** The keys are the stripped names of the visited names the armature has, plus the starting keys. */
  lemma {:induction false} RecordKeys(m: map<string, BoneEntry>, bones: seq<PoseBone>, root: nat, names: seq<string>, save: SaveFlags,
                                      relative: (seq<PoseBone>, nat, nat) -> Transform, fmt6: real -> string, fmt8: real -> string, key: string)
    ensures key in RecordFrom(m, bones, root, names, save, relative, fmt6, fmt8) <==>
      key in m || exists j :: 0 <= j < |names| && Exported(bones, names[j]) && StripSuffix(names[j]) == key
    decreases |names|
  {
    if |names| > 0 {
      var next := PutEntry(m, bones, root, names[0], save, relative, fmt6, fmt8);
      RecordKeys(next, bones, root, names[1..], save, relative, fmt6, fmt8, key);
      if exists j :: 0 <= j < |names| && Exported(bones, names[j]) && StripSuffix(names[j]) == key {
        var j :| 0 <= j < |names| && Exported(bones, names[j]) && StripSuffix(names[j]) == key;
        if j > 0 {
          assert names[1..][j - 1] == names[j];
        }
      }
      if exists j :: 0 <= j < |names[1..]| && Exported(bones, names[1..][j]) && StripSuffix(names[1..][j]) == key {
        var j :| 0 <= j < |names[1..]| && Exported(bones, names[1..][j]) && StripSuffix(names[1..][j]) == key;
        assert names[j + 1] == names[1..][j];
      }
    }
  }

  /** A key no later visited name writes keeps its value. */
  lemma {:induction false} RecordKeeps(m: map<string, BoneEntry>, bones: seq<PoseBone>, root: nat, names: seq<string>, save: SaveFlags,
                                       relative: (seq<PoseBone>, nat, nat) -> Transform, fmt6: real -> string, fmt8: real -> string, key: string)
    requires key in m
    requires forall j :: 0 <= j < |names| && Exported(bones, names[j]) ==> StripSuffix(names[j]) != key
    ensures key in RecordFrom(m, bones, root, names, save, relative, fmt6, fmt8)
    ensures RecordFrom(m, bones, root, names, save, relative, fmt6, fmt8)[key] == m[key]
    decreases |names|
  {
    if |names| > 0 {
      var next := PutEntry(m, bones, root, names[0], save, relative, fmt6, fmt8);
      assert forall j :: 0 <= j < |names[1..]| ==> names[1..][j] == names[j + 1];
      RecordKeeps(next, bones, root, names[1..], save, relative, fmt6, fmt8, key);
    }
  }

  /**
   * Later bones win: the entry under a key comes from the last visited name with that
   * stripped key that the armature has.
   */
  lemma {:induction false} RecordLastWins(m: map<string, BoneEntry>, bones: seq<PoseBone>, root: nat, names: seq<string>, save: SaveFlags,
                                          relative: (seq<PoseBone>, nat, nat) -> Transform, fmt6: real -> string, fmt8: real -> string, j: nat)
    requires j < |names| && Exported(bones, names[j])
    requires forall k :: j < k < |names| && Exported(bones, names[k]) ==> StripSuffix(names[k]) != StripSuffix(names[j])
    ensures var r := RecordFrom(m, bones, root, names, save, relative, fmt6, fmt8);
      StripSuffix(names[j]) in r
      && r[StripSuffix(names[j])] == EntryOf(relative(bones, root, BoneIndex(bones, names[j]).value), save, fmt6, fmt8)
    decreases |names|
  {
    var next := PutEntry(m, bones, root, names[0], save, relative, fmt6, fmt8);
    assert forall k :: 0 <= k < |names[1..]| ==> names[1..][k] == names[k + 1];
    if j == 0 {
      RecordKeeps(next, bones, root, names[1..], save, relative, fmt6, fmt8, StripSuffix(names[0]));
    } else {
      RecordLastWins(next, bones, root, names[1..], save, relative, fmt6, fmt8, j - 1);
    }
  }

  /**
   * `EXPORT_POSE_OT.execute`, returning the record instead of writing it. With Hair
   * checked the `j_ex` scan reads `context.object.pose` before the armature check, so
   * without an active armature it raises; otherwise a missing armature or a missing
   * `n_throw` bone is CANCELLED. Else the record has the fixed header and the `Bones`
   * map built by visiting the selected names in order.
   */
  method ExportPose(obj: PoseObject?, checked: set<string>, order: seq<string>, groups: map<string, seq<string>>,
                    save: SaveFlags, relative: (seq<PoseBone>, nat, nat) -> Transform,
                    fmt6: real -> string, fmt8: real -> string)
    returns (status: Status, record: Option<PoseRecord>)
    requires Enumerates(order, SelectedGroups(checked))
    ensures (obj == null || !obj.isArmature) ==> record.None? && status == if "Hair" in checked then Raised else Cancelled
    ensures obj != null && obj.isArmature && BoneIndex(obj.bones, "n_throw").None? ==> record.None? && status == Cancelled
    ensures obj != null && obj.isArmature && BoneIndex(obj.bones, "n_throw").Some? ==>
      status == Finished && record.Some?
      && record.value.fileExtension == ".pose" && record.value.typeName == "Mektools Pose" && record.value.fileVersion == 2
      && record.value.bones == RecordFrom(map[], obj.bones, BoneIndex(obj.bones, "n_throw").value,
           ExportNames(obj.bones, checked, order, groups), save, relative, fmt6, fmt8)
  {
    var selected := GroupNames(order, groups);
    assert "Hair" in BoneGroups;
    if "Hair" in SelectedGroups(checked) {
      if obj == null || !obj.isArmature {
        return Raised, None;
      }
      selected := selected + JexNames(obj.bones);
    }
    if obj == null || !obj.isArmature {
      return Cancelled, None;
    }
    var rootBone := BoneIndex(obj.bones, "n_throw");
    if rootBone.None? {
      return Cancelled, None;
    }
    var root := rootBone.value;
    assert selected == ExportNames(obj.bones, checked, order, groups);
    var bonesData := BuildBones(obj.bones, root, selected, save, relative, fmt6, fmt8);
    return Finished, Some(PoseRecord(".pose", "Mektools Pose", 2, bonesData));
  }

  /** The export loop over `names`. */
  method BuildBones(bones: seq<PoseBone>, root: nat, names: seq<string>, save: SaveFlags,
                    relative: (seq<PoseBone>, nat, nat) -> Transform, fmt6: real -> string, fmt8: real -> string)
    returns (bonesData: map<string, BoneEntry>)
    ensures bonesData == RecordFrom(map[], bones, root, names, save, relative, fmt6, fmt8)
  {
    bonesData := map[];
    var i := 0;
    while i < |names|
      invariant 0 <= i <= |names|
      invariant RecordFrom(bonesData, bones, root, names[i..], save, relative, fmt6, fmt8)
        == RecordFrom(map[], bones, root, names, save, relative, fmt6, fmt8)
    {
      assert names[i..][1..] == names[i + 1..];
      var name := names[i];
      var bone := BoneIndex(bones, name);
      if bone.Some? {
        bonesData := bonesData[StripSuffix(name) := EntryOf(relative(bones, root, bone.value), save, fmt6, fmt8)];
      }
      i := i + 1;
    }
    assert names[i..] == [];
  }

  // ---------------------------------------------------------------- default file name

  /** The index of the last `c` in `s`. */
  function LastIndex(s: string, c: char): (r: Option<nat>)
    ensures r.Some? ==> r.value < |s| && s[r.value] == c && forall i :: r.value < i < |s| ==> s[i] != c
    ensures r.None? ==> forall i :: 0 <= i < |s| ==> s[i] != c
    decreases |s|
  {
    if |s| == 0 then None
    else if s[|s| - 1] == c then Some(|s| - 1)
    else LastIndex(s[..|s| - 1], c)
  }

  /**
   * `os.path.basename` on a POSIX path: what follows the last `/`, or the whole path
   * when it has none.
   */
  function Basename(path: string): (r: string)
    ensures forall i :: 0 <= i < |r| ==> r[i] != '/'
    ensures |r| <= |path| && r == path[|path| - |r|..]
    ensures |r| < |path| ==> path[|path| - |r| - 1] == '/'
  {
    match LastIndex(path, '/')
    case None => path
    case Some(k) => path[k + 1..]
  }

  /**
   * The root of `os.path.splitext` on a name without `/`: the name up to its last dot,
   * unless every character before that dot is a dot too (a leading-dot name has no extension).
   */
  function StripExtension(name: string): (r: string)
    ensures |r| <= |name| && r == name[..|r|]
    ensures |r| < |name| ==>
      name[|r|] == '.' && (forall i :: |r| < i < |name| ==> name[i] != '.')
      && exists i :: 0 <= i < |r| && name[i] != '.'
    ensures |r| == |name| ==> forall i, d :: 0 <= i < d < |name| && name[d] == '.' ==> name[i] == '.'
  {
    match LastIndex(name, '.')
    case None => name
    case Some(d) => if exists i :: 0 <= i < d && name[i] != '.' then name[..d] else name
  }

  /** `os.path.join(directory, name)` for a name without `/`. */
  function PathJoin(directory: string, name: string): string {
    if |directory| == 0 || directory[|directory| - 1] == '/' then directory + name else directory + "/" + name
  }

  /**
   * `EXPORT_POSE_OT.invoke`'s default path: the blend file's name with a `.pose`
   * extension (or `untitled.pose` for an unsaved file), inside the export directory
   * when one is set.
   */
  function DefaultExportPath(blendPath: string, exportDir: string): string {
    var name := PoseFileName(blendPath);
    if |exportDir| > 0 then PathJoin(exportDir, name) else name
  }

  /** The default file name: the blend file's stem with `.pose`, or `untitled.pose`. */
  function PoseFileName(blendPath: string): string {
    var base := Basename(blendPath);
    if |base| > 0 then StripExtension(base) + ".pose" else "untitled.pose"
  }

  /**
   * The default path ends in `.pose`, starts with the export directory when one is
   * set, and its own file name is the blend file's stem with `.pose` (or `untitled.pose`).
   */
  lemma DefaultExportPathShape(blendPath: string, exportDir: string)
    ensures var p := DefaultExportPath(blendPath, exportDir);
      |p| >= 5 && p[|p| - 5..] == ".pose"
      && Basename(p) == PoseFileName(blendPath)
      && (|exportDir| > 0 ==> StartsWith(p, exportDir))
      && (|exportDir| == 0 ==> p == PoseFileName(blendPath))
  {
    var name := PoseFileName(blendPath);
    SlashFreeName(blendPath);
    if |exportDir| > 0 {
      JoinedShape(exportDir, name);
    } else {
      BasenameClean(name);
    }
  }

  /** The stem of a `/`-free name with `.pose` appended is `/`-free and ends in `.pose`. */
  lemma SlashFreeName(blendPath: string)
    ensures var name := PoseFileName(blendPath);
      (forall i :: 0 <= i < |name| ==> name[i] != '/') && |name| >= 5 && name[|name| - 5..] == ".pose"
  {
    var base := Basename(blendPath);
    var stem := if |base| > 0 then StripExtension(base) else "untitled";
    assert forall i :: 0 <= i < |stem| ==> stem[i] != '/' by {
      if |base| > 0 {
        assert stem == base[..|stem|];
      }
    }
    var name := stem + ".pose";
    assert PoseFileName(blendPath) == name;
    assert name[|name| - 5..] == ".pose";
  }

  lemma JoinedShape(directory: string, name: string)
    requires |directory| > 0
    requires forall i :: 0 <= i < |name| ==> name[i] != '/'
    requires |name| >= 5 && name[|name| - 5..] == ".pose"
    ensures var p := PathJoin(directory, name);
      |p| >= 5 && p[|p| - 5..] == ".pose" && Basename(p) == name && StartsWith(p, directory)
  {
    var prefix := if directory[|directory| - 1] == '/' then directory else directory + "/";
    var p := PathJoin(directory, name);
    assert p == prefix + name;
    BasenameAfterSlash(prefix, name);
    assert p[..|directory|] == directory;
    assert p[|p| - 5..] == name[|name| - 5..];
  }

  lemma BasenameClean(name: string)
    requires forall i :: 0 <= i < |name| ==> name[i] != '/'
    ensures Basename(name) == name
  {
  }

  lemma BasenameAfterSlash(prefix: string, name: string)
    requires |prefix| > 0 && prefix[|prefix| - 1] == '/'
    requires forall i :: 0 <= i < |name| ==> name[i] != '/'
    ensures Basename(prefix + name) == name
  {
    var s := prefix + name;
    var k := LastIndex(s, '/');
    assert s[|prefix| - 1] == '/';
    assert k.Some? && k.value == |prefix| - 1;
  }
}
