/**
 * The part of a Blender scene the add-on's list and visibility logic reads and writes:
 * the objects in `bpy.data.objects` order, the current view layer's objects, the
 * selection, the active object, per-view-layer hiding, the pins and actors lists with
 * their indices, and the `depsgraph_update_post` handler list.
 */
module SceneState {
  import opened Wrappers

  type ObjId = nat

  datatype ObjKind = ArmatureKind | MeshKind | CurveKind | EmptyKind | OtherKind

  /** The custom properties the add-on keeps on an object's data block. */
  datatype DataBlock = DataBlock(
    actorName: Option<string>,     // "mektools_actor_name"
    isActor: Option<bool>,         // "mektools_is_actor", by its truth value
    armatureType: Option<string>,  // "mektools_armature_type"
    hideArmature: Option<bool>,    // "mt_actor_hide_armature"
    hideObject: Option<bool>)      // "mt_actor_hide_object"

  /** One object: `data` is None for an object without a data block (an empty). */
  datatype Obj = Obj(
    id: ObjId,
    name: string,
    kind: ObjKind,
    data: Option<DataBlock>,
    parent: Option<ObjId>,
    collections: seq<string>)

  /** A pins-list entry; its object pointer is cleared when the object is deleted. */
  datatype Pin = Pin(obj: Option<ObjId>)

  /** An actors-list entry. */
  datatype Actor = Actor(name: string, armature: Option<ObjId>, armatureType: string)

  /** The functions the add-on registers in `bpy.app.handlers.depsgraph_update_post`. */
  datatype Handler = PinsUpdate | ActorsUpdate | OtherHandler(tag: nat)

  /** `bpy.data.objects.get(name)`: the first object with that name. */
  function FindByName(objs: seq<Obj>, name: string): (r: Option<Obj>)
    ensures r.Some? ==> r.value in objs && r.value.name == name
    ensures r.None? ==> forall o :: o in objs ==> o.name != name
  {
    if |objs| == 0 then None
    else if objs[0].name == name then Some(objs[0])
    else FindByName(objs[1..], name)
  }

  /** `obj.children`: the ids of the objects whose parent is `id`, in object order. */
  function ChildrenOf(objs: seq<Obj>, id: ObjId): (r: seq<ObjId>)
    ensures forall c :: c in r <==> exists o :: o in objs && o.parent == Some(id) && o.id == c
  {
    if |objs| == 0 then []
    else (if objs[0].parent == Some(id) then [objs[0].id] else []) + ChildrenOf(objs[1..], id)
  }

  function Ids(objs: seq<Obj>): (r: set<ObjId>)
    ensures forall i :: i in r <==> exists o :: o in objs && o.id == i
  {
    set o | o in objs :: o.id
  }

  /** An object after the objects in `gone` were deleted: a parent among them is cleared. */
  function Orphaned(o: Obj, gone: set<ObjId>): Obj {
    if o.parent.Some? && o.parent.value in gone then o.(parent := None) else o
  }

  /** `bpy.data.objects` after deleting `gone`. */
  function WithoutObjects(objs: seq<Obj>, gone: set<ObjId>): (r: seq<Obj>)
    ensures forall o :: o in r ==> o.id !in gone
    ensures forall o :: o in objs && o.id !in gone ==> Orphaned(o, gone) in r
    ensures |r| <= |objs|
  {
    if |objs| == 0 then []
    else (if objs[0].id in gone then [] else [Orphaned(objs[0], gone)]) + WithoutObjects(objs[1..], gone)
  }

  function ClearedPin(p: Pin, gone: set<ObjId>): Pin {
    if p.obj.Some? && p.obj.value in gone then Pin(None) else p
  }

  function ClearedActor(a: Actor, gone: set<ObjId>): Actor {
    if a.armature.Some? && a.armature.value in gone then a.(armature := None) else a
  }

  /** The pins list after deleting `gone`: same entries, pointers to deleted objects cleared. */
  function ClearedPins(pins: seq<Pin>, gone: set<ObjId>): (r: seq<Pin>)
    ensures |r| == |pins|
    ensures forall i :: 0 <= i < |pins| ==> r[i] == ClearedPin(pins[i], gone)
  {
    seq(|pins|, i requires 0 <= i < |pins| => ClearedPin(pins[i], gone))
  }

  /** The actors list after deleting `gone`. */
  function ClearedActors(actors: seq<Actor>, gone: set<ObjId>): (r: seq<Actor>)
    ensures |r| == |actors|
    ensures forall i :: 0 <= i < |actors| ==> r[i] == ClearedActor(actors[i], gone)
  {
    seq(|actors|, i requires 0 <= i < |actors| => ClearedActor(actors[i], gone))
  }

  class Scene {
    var objects: seq<Obj>
    var viewLayer: set<ObjId>
    var selected: set<ObjId>
    var active: Option<ObjId>
    var hidden: set<ObjId>
    var pins: seq<Pin>
    var pinsIndex: int
    var suppressPins: bool
    var actors: seq<Actor>
    var actorsIndex: int
    var handlers: seq<Handler>

    constructor (objects: seq<Obj>, viewLayer: set<ObjId>)
      ensures this.objects == objects && this.viewLayer == viewLayer
      ensures selected == {} && active == None && hidden == {}
      ensures pins == [] && pinsIndex == 0 && !suppressPins
      ensures actors == [] && actorsIndex == 0 && handlers == []
    {
      this.objects := objects;
      this.viewLayer := viewLayer;
      selected := {};
      active := None;
      hidden := {};
      pins := [];
      pinsIndex := 0;
      suppressPins := false;
      actors := [];
      actorsIndex := 0;
      handlers := [];
    }

    /**
     * `bpy.data.objects.remove(o, do_unlink=True)` for every `o` in `gone`: the objects
     * leave the data, the view layer, the selection and the hidden set, and every
     * pointer to them (active object, parents, pins, actors) is cleared.
     */
    method RemoveObjects(gone: set<ObjId>)
      modifies this
      ensures objects == WithoutObjects(old(objects), gone)
      ensures viewLayer == old(viewLayer) - gone
      ensures selected == old(selected) - gone
      ensures hidden == old(hidden) - gone
      ensures active == if old(active).Some? && old(active).value in gone then None else old(active)
      ensures pins == ClearedPins(old(pins), gone)
      ensures actors == ClearedActors(old(actors), gone)
      ensures pinsIndex == old(pinsIndex) && actorsIndex == old(actorsIndex)
      ensures suppressPins == old(suppressPins) && handlers == old(handlers)
    {
      objects := WithoutObjects(objects, gone);
      viewLayer := viewLayer - gone;
      selected := selected - gone;
      hidden := hidden - gone;
      if active.Some? && active.value in gone {
        active := None;
      }
      pins := ClearedPins(pins, gone);
      actors := ClearedActors(actors, gone);
    }
  }
}
