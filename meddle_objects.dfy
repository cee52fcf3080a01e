/**
 * The object-level helpers of the Meddle import: the racial-code lookup, the search
 * for the first armature, and the two ways imported meshes are merged (by a name
 * filter and by first material). Objects are handles that may refer to deleted data:
 * touching a dead handle raises `ReferenceError`, which some helpers catch and
 * some do not.
 */
module MeddleObjects {
  import opened Wrappers
  import opened Text

  datatype ObjectKind = Mesh | Armature | OtherKind

  /**
   * An object handle. `id` is its identity, `live` is false once its data was deleted,
   * and `materials` are its material slots (`None` for an empty slot).
   */
  datatype SceneObject = SceneObject(id: nat, name: string, kind: ObjectKind, live: bool, materials: seq<Option<string>>)

  // ---------------------------------------------------------------- the racial-code table

  /** `racial_code_to_operator`, in its declaration order. */
  const RacialCodes: seq<(string, string)> := [
    ("c0101", "mektools.import_mekrig_midlander_male"),
    ("c0201", "mektools.import_mekrig_midlander_female"),
    ("c0301", "mektools.import_mekrig_highlander_male"),
    ("c0401", "mektools.import_mekrig_highlander_female"),
    ("c0501", "mektools.import_mekrig_elezen_male"),
    ("c0601", "mektools.import_mekrig_elezen_female"),
    ("c0701", "mektools.import_mekrig_miqote_male"),
    ("c0801", "mektools.import_mekrig_miqote_female"),
    ("c0901", "mektools.import_mekrig_roegadyn_male"),
    ("c1001", "mektools.import_mekrig_roegadyn_female"),
    ("c1101", "mektools.import_mekrig_lalafell_both"),
    ("c1201", "mektools.import_mekrig_lalafell_both"),
    ("c1301", "mektools.import_mekrig_aura_male"),
    ("c1401", "mektools.import_mekrig_aura_female"),
    ("c1501", "mektools.import_mekrig_hrothgar_male"),
    ("c1601", "mektools.import_mekrig_hrothgar_female"),
    ("c1701", "mektools.import_mekrig_viera_male"),
    ("c1801", "mektools.import_mekrig_viera_female")
  ]

  predicate InTable(code: string) {
    exists k :: 0 <= k < |RacialCodes| && RacialCodes[k].0 == code
  }

  /** A match of the pattern `c\d{4}` starts at position `i` of `s`. */
  predicate CodeAt(s: string, i: nat) {
    i + 5 <= |s| && s[i] == 'c' && IsDigit(s[i + 1]) && IsDigit(s[i + 2]) && IsDigit(s[i + 3]) && IsDigit(s[i + 4])
  }

  /** The table holds 18 distinct codes, each a whole match of the pattern. */
  lemma RacialTableShape()
    ensures |RacialCodes| == 18
    ensures forall k :: 0 <= k < |RacialCodes| ==> |RacialCodes[k].0| == 5 && CodeAt(RacialCodes[k].0, 0)
    ensures forall j, k :: 0 <= j < k < |RacialCodes| ==> RacialCodes[j].0 != RacialCodes[k].0
  {
    forall j, k | 0 <= j < k < |RacialCodes|
      ensures RacialCodes[j].0 != RacialCodes[k].0
    {
      assert RacialCodes[j].0[1] != RacialCodes[k].0[1] || RacialCodes[j].0[2] != RacialCodes[k].0[2];
    }
  }

  /** The position of the leftmost match at or after `i` (what `re.search` finds). */
  function FirstCodeFrom(s: string, i: nat): (r: Option<nat>)
    requires i <= |s|
    ensures r.Some? ==> i <= r.value && CodeAt(s, r.value) && forall k :: i <= k < r.value ==> !CodeAt(s, k)
    ensures r.None? ==> forall k :: i <= k <= |s| ==> !CodeAt(s, k)
    decreases |s| - i
  {
    if CodeAt(s, i) then Some(i)
    else if i == |s| then None
    else FirstCodeFrom(s, i + 1)
  }

  /** `re.search(r"c\d{4}", s).group()`, or `None` when there is no match. */
  function FirstCode(s: string): Option<string> {
    match FirstCodeFrom(s, 0)
    case Some(i) => Some(s[i..i + 5])
    case None => None
  }

  /** The name the source reads from a material slot: an empty slot reads as "". */
  function SlotName(m: Option<string>): string {
    m.GetOr("")
  }

  predicate HasMaterialWith(o: SceneObject, part: string) {
    exists k :: 0 <= k < |o.materials| && Contains(SlotName(o.materials[k]), part)
  }

  /** An object of the first pass that decides the code: its name holds `id` and its first match is a table code. */
  predicate NameDecides(o: SceneObject, id: string) {
    Contains(o.name, id) && FirstCode(o.name).Some? && InTable(FirstCode(o.name).value)
  }

  /** The first pass over the imported objects; a dead object raises when its name is read. */
  function FirstPass(objects: seq<SceneObject>, id: string): Outcome<Option<string>>
    decreases |objects|
  {
    if |objects| == 0 then Returned(None)
    else if !objects[0].live then Raises
    else if NameDecides(objects[0], id) then Returned(FirstCode(objects[0].name))
    else FirstPass(objects[1..], id)
  }

  /** The first object of `bpy.data.objects` with a material slot whose name holds "iri". */
  function FirstIri(data: seq<SceneObject>): (r: Option<nat>)
    ensures r.Some? ==> (r.value < |data| && HasMaterialWith(data[r.value], "iri")
                         && forall j :: 0 <= j < r.value ==> !HasMaterialWith(data[j], "iri"))
    ensures r.None? ==> forall j :: 0 <= j < |data| ==> !HasMaterialWith(data[j], "iri")
    decreases |data|
  {
    if |data| == 0 then None
    else if HasMaterialWith(data[0], "iri") then Some(0)
    else match FirstIri(data[1..]) {
      case Some(i) => Some(i + 1)
      case None => None
    }
  }

  /** The first table code, in table order from `k`, that a material slot of `o` holds. */
  function TableCodeIn(o: SceneObject, k: nat): (r: Option<string>)
    requires k <= |RacialCodes|
    decreases |RacialCodes| - k
  {
    if k == |RacialCodes| then None
    else if HasMaterialWith(o, RacialCodes[k].0) then Some(RacialCodes[k].0)
    else TableCodeIn(o, k + 1)
  }

  /** `get_racial_code(objects, id)`, with `bpy.data.objects` as `data`. */
  function RacialCode(objects: seq<SceneObject>, data: seq<SceneObject>, id: string): Outcome<Option<string>> {
    match FirstPass(objects, id)
    case Raises => Raises
    case Returned(Some(c)) => Returned(Some(c))
    case Returned(None) =>
      match FirstIri(data)
      case None => Returned(None)
      case Some(i) => Returned(TableCodeIn(data[i], 0))
  }

  /** The search loops of `get_racial_code`, proved to compute `RacialCode`. */
  method GetRacialCode(objects: seq<SceneObject>, data: seq<SceneObject>, id: string) returns (r: Outcome<Option<string>>)
    ensures r == RacialCode(objects, data, id)
  {
    for k := 0 to |objects|
      invariant FirstPass(objects, id) == FirstPass(objects[k..], id)
    {
      assert objects[k..][1..] == objects[k + 1..];
      var obj := objects[k];
      if !obj.live {
        return Raises;
      }
      if Contains(obj.name, id) {
        var found := FirstCode(obj.name);
        if found.Some? && InTable(found.value) {
          return Returned(found);
        }
      }
    }
    var iri: Option<nat> := None;
    var i := 0;
    while i < |data| && iri.None?
      invariant i <= |data|
      invariant iri.None? ==> forall j :: 0 <= j < i ==> !HasMaterialWith(data[j], "iri")
      invariant iri.Some? ==> iri == FirstIri(data)
    {
      if HasMaterialWith(data[i], "iri") {
        iri := Some(i);
        assert iri == FirstIri(data);
      }
      i := i + 1;
    }
    if iri.None? {
      return Returned(None);
    }
    var obj := data[iri.value];
    for k := 0 to |RacialCodes|
      invariant TableCodeIn(obj, 0) == TableCodeIn(obj, k)
    {
      var code := RacialCodes[k].0;
      if HasMaterialWith(obj, code) {
        return Returned(Some(code));
      }
    }
    r := Returned(None);
  }

  /** Whatever code the lookup returns is a code of the table. */
  lemma RacialCodeInTable(objects: seq<SceneObject>, data: seq<SceneObject>, id: string)
    requires RacialCode(objects, data, id).Returned? && RacialCode(objects, data, id).value.Some?
    ensures InTable(RacialCode(objects, data, id).value.value)
  {
    if FirstPass(objects, id).Returned? && FirstPass(objects, id).value.Some? {
      FirstPassInTable(objects, id);
    } else {
      var i := FirstIri(data).value;
      TableCodeInTable(data[i], 0);
    }
  }

  lemma {:induction false} FirstPassInTable(objects: seq<SceneObject>, id: string)
    requires FirstPass(objects, id).Returned? && FirstPass(objects, id).value.Some?
    ensures InTable(FirstPass(objects, id).value.value)
    decreases |objects|
  {
    if !NameDecides(objects[0], id) {
      FirstPassInTable(objects[1..], id);
    }
  }

  lemma {:induction false} TableCodeInTable(o: SceneObject, k: nat)
    requires k <= |RacialCodes| && TableCodeIn(o, k).Some?
    ensures InTable(TableCodeIn(o, k).value) && HasMaterialWith(o, TableCodeIn(o, k).value)
    decreases |RacialCodes| - k
  {
    if !HasMaterialWith(o, RacialCodes[k].0) {
      TableCodeInTable(o, k + 1);
    }
  }

  /**
   * The first pass wins: when the objects before `k` are live and undecided and
   * `objects[k]` decides, its first match is the code, whatever the materials say.
   */
  lemma {:induction false} FirstPassWins(objects: seq<SceneObject>, data: seq<SceneObject>, id: string, k: nat)
    requires k < |objects| && objects[k].live && NameDecides(objects[k], id)
    requires forall j :: 0 <= j < k ==> objects[j].live && !NameDecides(objects[j], id)
    ensures RacialCode(objects, data, id) == Returned(FirstCode(objects[k].name))
    decreases k
  {
    if k > 0 {
      FirstPassWins(objects[1..], data, id, k - 1);
    }
  }

  /**
   * Without a deciding name among live objects, the code comes from the first "iri"
   * object: the first table code, in table order, found among its material slots.
   */
  lemma {:induction false} FallbackDecides(objects: seq<SceneObject>, data: seq<SceneObject>, id: string)
    requires forall j :: 0 <= j < |objects| ==> objects[j].live && !NameDecides(objects[j], id)
    ensures FirstIri(data).None? ==> RacialCode(objects, data, id) == Returned(None)
    ensures FirstIri(data).Some? ==> RacialCode(objects, data, id) == Returned(TableCodeIn(data[FirstIri(data).value], 0))
    decreases |objects|
  {
    if |objects| > 0 {
      FallbackDecides(objects[1..], data, id);
    }
  }

  /** Only the first match in a name is tried: "c9999_c0101" decides nothing. */
  lemma OnlyFirstMatchTried()
    ensures RacialCode([SceneObject(0, "c9999_c0101", Mesh, true, [])], [], "") == Returned(None)
  {
    var s := "c9999_c0101";
    assert CodeAt(s, 0);
    assert FirstCodeFrom(s, 0) == Some(0);
    assert s[0..5] == "c9999";
    assert FirstCode(s) == Some("c9999");
    assert !InTable("c9999");
    assert [SceneObject(0, s, Mesh, true, [])][1..] == [];
  }

  /** Table order, not slot order, decides the fallback. */
  lemma FallbackFollowsTableOrder()
    ensures var iri := SceneObject(1, "body", Mesh, true, [Some("c0201_iri"), Some("c0101_skin")]);
      RacialCode([], [iri], "") == Returned(Some("c0101"))
  {
    var iri := SceneObject(1, "body", Mesh, true, [Some("c0201_iri"), Some("c0101_skin")]);
    ContainsAt("c0201_iri", "iri", 6);
    assert SlotName(iri.materials[0]) == "c0201_iri";
    assert HasMaterialWith(iri, "iri");
    ContainsAt("c0101_skin", "c0101", 0);
    assert SlotName(iri.materials[1]) == "c0101_skin";
    assert HasMaterialWith(iri, "c0101");
  }

  // ---------------------------------------------------------------- find_armature_in_objects

  predicate IsLiveArmature(o: SceneObject) {
    o.live && o.kind == Armature
  }

  /** `find_armature_in_objects`: the first live armature; dead handles are skipped. */
  method FindArmatureInObjects(objects: seq<SceneObject>) returns (r: Option<SceneObject>)
    ensures r.Some? ==> exists k :: (0 <= k < |objects| && objects[k] == r.value && IsLiveArmature(objects[k])
                                     && forall j :: 0 <= j < k ==> !IsLiveArmature(objects[j]))
    ensures r.None? ==> forall k :: 0 <= k < |objects| ==> !IsLiveArmature(objects[k])
  {
    for k := 0 to |objects|
      invariant forall j :: 0 <= j < k ==> !IsLiveArmature(objects[j])
    {
      if objects[k].live && objects[k].kind == Armature {
        return Some(objects[k]);
      }
    }
    r := None;
  }

  // ---------------------------------------------------------------- merge_by_name

  function Ids(objects: seq<SceneObject>): set<nat> {
    set k | 0 <= k < |objects| :: objects[k].id
  }

  /** The filter of `merge_by_name`: case-insensitive substring and a mesh. */
  predicate NameMatches(o: SceneObject, filter: string) {
    Contains(Lower(o.name), Lower(filter)) && o.kind == Mesh
  }

  /** `filtered_objects`; reading the name of a dead handle raises. */
  function Matching(objects: seq<SceneObject>, filter: string): Outcome<seq<SceneObject>>
    decreases |objects|
  {
    if |objects| == 0 then Returned([])
    else if !objects[0].live then Raises
    else match Matching(objects[1..], filter) {
      case Raises => Raises
      case Returned(rest) => Returned((if NameMatches(objects[0], filter) then [objects[0]] else []) + rest)
    }
  }

  /** `merge_by_name(objects, filter)` as a set of object identities; the merged object is the first match. */
  function MergeByName(objects: seq<SceneObject>, filter: string): Outcome<set<nat>> {
    match Matching(objects, filter)
    case Raises => Raises
    case Returned(f) => if |f| < 2 then Returned(Ids(objects)) else Returned(Ids(objects) - Ids(f) + {f[0].id})
  }

  /** The filter raises exactly when a handle is dead, and otherwise keeps the matching objects in order. */
  lemma {:induction false} MatchingExact(objects: seq<SceneObject>, filter: string)
    ensures Matching(objects, filter).Raises? <==> exists k :: 0 <= k < |objects| && !objects[k].live
    ensures Matching(objects, filter).Returned? ==>
      forall o :: o in Matching(objects, filter).value <==> o in objects && NameMatches(o, filter)
    ensures Matching(objects, filter).Returned? && |Matching(objects, filter).value| > 0 ==>
      exists k :: 0 <= k < |objects| && objects[k] == Matching(objects, filter).value[0]
        && forall j :: 0 <= j < k ==> !NameMatches(objects[j], filter)
    decreases |objects|
  {
    if |objects| > 0 {
      MatchingExact(objects[1..], filter);
      assert objects == [objects[0]] + objects[1..];
      if objects[0].live && !NameMatches(objects[0], filter) && Matching(objects, filter).Returned?
        && |Matching(objects, filter).value| > 0 {
        var k :| 0 <= k < |objects[1..]| && objects[1..][k] == Matching(objects[1..], filter).value[0]
          && forall j :: 0 <= j < k ==> !NameMatches(objects[1..][j], filter);
        assert objects[k + 1] == Matching(objects, filter).value[0];
      }
    }
  }

  /** With fewer than two matches the objects come back as they were. */
  lemma MergeByNameFew(objects: seq<SceneObject>, filter: string)
    requires Matching(objects, filter).Returned? && |Matching(objects, filter).value| < 2
    ensures MergeByName(objects, filter) == Returned(Ids(objects))
  {
  }

  /**
   * With two or more matches, a live object survives exactly when it does not match,
   * except the first match, which stands for the merged object.
   */
  lemma MergeByNameMany(objects: seq<SceneObject>, filter: string, k: nat)
    requires forall i, j :: 0 <= i < |objects| && 0 <= j < |objects| && objects[i].id == objects[j].id ==> objects[i] == objects[j]
    requires Matching(objects, filter).Returned? && |Matching(objects, filter).value| >= 2
    requires k < |objects|
    ensures var first := Matching(objects, filter).value[0];
      objects[k].id in MergeByName(objects, filter).value <==> !NameMatches(objects[k], filter) || objects[k] == first
  {
    MatchingExact(objects, filter);
    var f := Matching(objects, filter).value;
    if objects[k].id in Ids(f) && objects[k] != f[0] {
      var j :| 0 <= j < |f| && f[j].id == objects[k].id;
      assert f[j] in objects;
    }
    if NameMatches(objects[k], filter) {
      assert objects[k] in f;
    }
  }

  // ---------------------------------------------------------------- merge_by_material

  /** A live mesh with at least one material: the objects `merge_by_material` groups. */
  predicate MaterialMesh(o: SceneObject) {
    o.live && o.kind == Mesh && |o.materials| > 0
  }

  /** `material_mesh_groups`: identities by first-material name, in object order; an empty first slot raises. */
  function Groups(objects: seq<SceneObject>): Outcome<map<string, seq<nat>>>
    decreases |objects|
  {
    if |objects| == 0 then Returned(map[])
    else
      var init, o := objects[..|objects| - 1], objects[|objects| - 1];
      match Groups(init) {
        case Raises => Raises
        case Returned(g) =>
          if !MaterialMesh(o) then Returned(g)
          else if o.materials[0].None? then Raises
          else
            var n := o.materials[0].value;
            Returned(g[n := (if n in g then g[n] else []) + [o.id]])
      }
  }

  /** What a group leaves behind: its single mesh, or the merged object (the group's first mesh). */
  function Heads(g: map<string, seq<nat>>): set<nat> {
    set n | n in g && |g[n]| > 0 :: g[n][0]
  }

  function NonMeshes(objects: seq<SceneObject>): set<nat> {
    set k | 0 <= k < |objects| && objects[k].live && objects[k].kind != Mesh :: objects[k].id
  }

  /** `merge_by_material(objects)` as a set of object identities. */
  function MaterialMerged(objects: seq<SceneObject>): Outcome<set<nat>> {
    match Groups(objects)
    case Raises => Raises
    case Returned(g) => Returned(Heads(g) + NonMeshes(objects))
  }

  /** The three loops of `merge_by_material`, proved to compute `MaterialMerged`. */
  method MergeByMaterial(objects: seq<SceneObject>) returns (r: Outcome<set<nat>>)
    ensures r == MaterialMerged(objects)
  {
    var groups: map<string, seq<nat>> := map[];
    for k := 0 to |objects|
      invariant Groups(objects[..k]) == Returned(groups)
    {
      var obj := objects[k];
      assert objects[..k + 1][..k] == objects[..k];
      if obj.live && obj.kind == Mesh && |obj.materials| > 0 {
        if obj.materials[0].None? {
          assert Groups(objects[..k + 1]) == Raises;
          GroupsRaise(objects, k + 1);
          return Raises;
        }
        var n := obj.materials[0].value;
        groups := groups[n := (if n in groups then groups[n] else []) + [obj.id]];
      }
    }
    assert objects[..|objects|] == objects;
    var merged: set<nat> := {};
    var remaining := groups.Keys;
    while remaining != {}
      invariant remaining <= groups.Keys
      invariant merged == set n | n in groups && n !in remaining && |groups[n]| > 0 :: groups[n][0]
      decreases remaining
    {
      var n :| n in remaining;
      var meshes := groups[n];
      GroupsNonEmpty(objects, n);
      if |meshes| < 2 {
        merged := merged + set m | m in meshes;
        assert (set m | m in meshes) == {meshes[0]};
      } else {
        merged := merged + {meshes[0]};
      }
      remaining := remaining - {n};
    }
    assert objects[..|objects|] == objects;
    var others: set<nat> := {};
    for k := 0 to |objects|
      invariant others == set j | 0 <= j < k && objects[j].live && objects[j].kind != Mesh :: objects[j].id
    {
      if objects[k].live && objects[k].kind != Mesh {
        others := others + {objects[k].id};
      }
    }
    assert Groups(objects) == Returned(groups);
    assert merged == Heads(groups);
    assert others == NonMeshes(objects);
    r := Returned(merged + others);
  }

  /** Once a prefix raises, the whole scan raises. */
  lemma {:induction false} GroupsRaise(objects: seq<SceneObject>, k: nat)
    requires k <= |objects| && Groups(objects[..k]) == Raises
    ensures Groups(objects) == Raises
    decreases |objects| - k
  {
    if k < |objects| {
      assert objects[..k + 1][..k] == objects[..k];
      GroupsRaise(objects, k + 1);
    } else {
      assert objects[..k] == objects;
    }
  }

  /** Every group is non-empty, and its first identity is the first mesh with that material. */
  lemma {:induction false} GroupsNonEmpty(objects: seq<SceneObject>, n: string)
    requires Groups(objects).Returned?
    ensures n in Groups(objects).value ==> |Groups(objects).value[n]| > 0
  {
    GroupsHead(objects, n);
  }

  /** The first mesh whose first material is `n`. */
  predicate GroupHeadAt(objects: seq<SceneObject>, n: string, k: int) {
    0 <= k < |objects| && HasFirstMaterial(objects[k], n)
    && forall j :: 0 <= j < k ==> !HasFirstMaterial(objects[j], n)
  }

  predicate HasFirstMaterial(o: SceneObject, n: string) {
    MaterialMesh(o) && o.materials[0] == Some(n)
  }

  /** `objects[k]` is the first mesh of its material group. */
  predicate IsGroupHead(objects: seq<SceneObject>, k: int) {
    0 <= k < |objects| && MaterialMesh(objects[k]) && objects[k].materials[0].Some?
    && GroupHeadAt(objects, objects[k].materials[0].value, k)
  }

  /** The groups are exactly the materials that occur, and each leads with its first mesh. */
  lemma {:induction false} GroupsHead(objects: seq<SceneObject>, n: string)
    requires Groups(objects).Returned?
    ensures n in Groups(objects).value <==> exists k :: 0 <= k < |objects| && HasFirstMaterial(objects[k], n)
    ensures n in Groups(objects).value ==> (|Groups(objects).value[n]| > 0
      && exists k :: GroupHeadAt(objects, n, k) && Groups(objects).value[n][0] == objects[k].id)
    decreases |objects|
  {
    if |objects| > 0 {
      var init, o := objects[..|objects| - 1], objects[|objects| - 1];
      GroupsHead(init, n);
      var g := Groups(init).value;
      if n in g {
        var k :| GroupHeadAt(init, n, k) && g[n][0] == init[k].id;
        assert objects[k] == init[k];
        assert GroupHeadAt(objects, n, k);
        assert HasFirstMaterial(objects[k], n);
      } else {
        assert forall k :: 0 <= k < |init| ==> !HasFirstMaterial(objects[k], n) by {
          forall k | 0 <= k < |init| ensures !HasFirstMaterial(objects[k], n) {
            assert objects[k] == init[k];
          }
        }
        if HasFirstMaterial(o, n) {
          assert GroupHeadAt(objects, n, |objects| - 1);
        } else {
          forall k | 0 <= k < |objects| ensures !HasFirstMaterial(objects[k], n) {
            if k < |init| {
              assert objects[k] == init[k];
            }
          }
        }
      }
    }
  }

  /**
   * What `merge_by_material` keeps: an object survives exactly when it is the first mesh
   * of its material group (a single mesh or the merged object) or a live non-mesh object.
   */
  lemma MaterialMergedExact(objects: seq<SceneObject>, x: nat)
    requires MaterialMerged(objects).Returned?
    ensures x in MaterialMerged(objects).value <==>
      exists k :: 0 <= k < |objects| && objects[k].id == x
        && (IsGroupHead(objects, k) || (objects[k].live && objects[k].kind != Mesh))
  {
    var g := Groups(objects).value;
    if x in Heads(g) {
      var n :| n in g && |g[n]| > 0 && g[n][0] == x;
      GroupsHead(objects, n);
      var k :| GroupHeadAt(objects, n, k) && g[n][0] == objects[k].id;
      assert IsGroupHead(objects, k);
    }
    forall k | 0 <= k < |objects| && objects[k].id == x && IsGroupHead(objects, k)
      ensures x in Heads(g)
    {
      var n := objects[k].materials[0].value;
      GroupsHead(objects, n);
      assert HasFirstMaterial(objects[k], n);
      var k' :| GroupHeadAt(objects, n, k') && g[n][0] == objects[k'].id;
      assert k' == k;
    }
  }

  /** The scan raises exactly when some live mesh has an empty first material slot. */
  lemma {:induction false} GroupsRaiseExact(objects: seq<SceneObject>)
    ensures Groups(objects).Raises? <==>
      exists k :: 0 <= k < |objects| && MaterialMesh(objects[k]) && objects[k].materials[0].None?
    decreases |objects|
  {
    if |objects| > 0 {
      var init := objects[..|objects| - 1];
      GroupsRaiseExact(init);
      if exists k :: 0 <= k < |init| && MaterialMesh(init[k]) && init[k].materials[0].None? {
        var k :| 0 <= k < |init| && MaterialMesh(init[k]) && init[k].materials[0].None?;
        assert objects[k] == init[k];
      }
      if exists k :: 0 <= k < |objects| && MaterialMesh(objects[k]) && objects[k].materials[0].None? {
        var k :| 0 <= k < |objects| && MaterialMesh(objects[k]) && objects[k].materials[0].None?;
        if k < |init| {
          assert init[k] == objects[k];
        }
      }
    }
  }
}
