/** The actor operators (mektools/operators/actors_ot.py): rebuilding and deleting entries. */
module ActorOperators {
  import opened Wrappers
  import opened SceneState
  import opened Lists
  import Actors

  /** An object that `RefreshActors` lists: an armature with a data block. */
  predicate Listed(o: Obj) {
    o.kind == ArmatureKind && o.data.Some?
  }

  /** True when the data block flags the armature as a MekTools actor (present and truthy). */
  predicate IsActor(d: DataBlock) {
    d.isActor == Some(true)
  }

  /** The entry `RefreshActors` makes for a listed object. */
  function ActorEntry(o: Obj): (a: Actor)
    requires Listed(o)
    ensures a.armature == Some(o.id)
    ensures IsActor(o.data.value) ==> a.name == o.data.value.actorName.GetOr("Unknown actor")
    ensures IsActor(o.data.value) ==> a.armatureType == o.data.value.armatureType.GetOr("Unknown")
    ensures !IsActor(o.data.value) ==> a.name == "Unknown Armature" && a.armatureType == "Unknown"
  {
    var d := o.data.value;
    var name := d.actorName.GetOr("Unknown actor");
    if IsActor(d) then Actor(name, Some(o.id), d.armatureType.GetOr("Unknown"))
    else Actor("Unknown Armature", Some(o.id), "Unknown")
  }

  /** The list `RefreshActors` builds: one entry per listed object, in object order. */
  function ActorsFor(objs: seq<Obj>): seq<Actor>
    decreases |objs|
  {
    if |objs| == 0 then []
    else (if Listed(objs[0]) then [ActorEntry(objs[0])] else []) + ActorsFor(objs[1..])
  }

  function CountListed(objs: seq<Obj>): nat
    decreases |objs|
  {
    if |objs| == 0 then 0 else (if Listed(objs[0]) then 1 else 0) + CountListed(objs[1..])
  }

  /** Exactly one entry per listed object. */
  lemma {:induction false} ActorsForLength(objs: seq<Obj>)
    ensures |ActorsFor(objs)| == CountListed(objs)
    decreases |objs|
  {
    if |objs| > 0 {
      ActorsForLength(objs[1..]);
    }
  }

  /** Every entry points at a listed object, and every listed object has an entry. */
  lemma {:induction false} ActorsForArmatures(objs: seq<Obj>, id: ObjId)
    ensures (exists a :: a in ActorsFor(objs) && a.armature == Some(id))
        <==> (exists o :: o in objs && Listed(o) && o.id == id)
    decreases |objs|
  {
    if |objs| > 0 {
      ActorsForArmatures(objs[1..], id);
      assert objs == [objs[0]] + objs[1..];
      var rest := ActorsFor(objs[1..]);
      assert ActorsFor(objs) == (if Listed(objs[0]) then [ActorEntry(objs[0])] else []) + rest;
      if exists o :: o in objs && Listed(o) && o.id == id {
        var o :| o in objs && Listed(o) && o.id == id;
        if o == objs[0] {
          assert ActorEntry(o) in ActorsFor(objs);
        } else {
          assert o in objs[1..];
          var a :| a in rest && a.armature == Some(id);
          assert a in ActorsFor(objs);
        }
      }
      if exists a :: a in ActorsFor(objs) && a.armature == Some(id) {
        var a :| a in ActorsFor(objs) && a.armature == Some(id);
        if a !in rest {
          assert Listed(objs[0]) && a == ActorEntry(objs[0]);
        } else {
          var o :| o in objs[1..] && Listed(o) && o.id == id;
          assert o in objs;
        }
      }
    }
  }

  /** `RefreshActors.execute`: clears the list and adds one entry per listed object. */
  method RefreshActors(sc: Scene)
    modifies sc`actors
    ensures sc.actors == ActorsFor(sc.objects)
  {
    sc.actors := [];
    var i := 0;
    while i < |sc.objects|
      invariant 0 <= i <= |sc.objects|
      invariant sc.actors + ActorsFor(sc.objects[i..]) == ActorsFor(sc.objects)
    {
      var o := sc.objects[i];
      assert sc.objects[i..] == [o] + sc.objects[i + 1..];
      if o.kind == ArmatureKind && o.data.Some? {
        var d := o.data.value;
        var armatureType := "Unknown";
        var actorName := d.actorName.GetOr("Unknown actor");
        if d.isActor == Some(true) {
          armatureType := d.armatureType.GetOr("Unknown");
        } else {
          actorName := "Unknown Armature";
        }
        sc.actors := sc.actors + [Actor(actorName, Some(o.id), armatureType)];
      }
      i := i + 1;
    }
    assert sc.objects[i..] == [];
  }

  /**
   * `DeleteActor.execute`: out of range nothing changes. Otherwise the actor's armature
   * (if any) is deleted, the entry removed and the index moved to `max(0, index - 1)`;
   * that write runs the index hook, which selects the new current actor's armature (or
   * empties the selection when that armature is outside the view layer). The deletion
   * itself clears every pin and every reference to the armature.
   */
  method DeleteActor(sc: Scene)
    modifies sc
    ensures !(0 <= old(sc.actorsIndex) < |old(sc.actors)|) ==> unchanged(sc)
    ensures 0 <= old(sc.actorsIndex) < |old(sc.actors)| ==>
      var i := old(sc.actorsIndex);
      var gone := if old(sc.actors)[i].armature.Some? then {old(sc.actors)[i].armature.value} else {};
      sc.objects == WithoutObjects(old(sc.objects), gone)
      && sc.actors == RemoveAt(ClearedActors(old(sc.actors), gone), i)
      && sc.actorsIndex == (if i - 1 > 0 then i - 1 else 0)
      && sc.pins == ClearedPins(old(sc.pins), gone)
      && sc.viewLayer == old(sc.viewLayer) - gone
      && sc.hidden == old(sc.hidden) - gone
      && sc.handlers == old(sc.handlers)
      && sc.pinsIndex == old(sc.pinsIndex) && sc.suppressPins == old(sc.suppressPins)
      && var kept := if old(sc.active).Some? && old(sc.active).value in gone then None else old(sc.active);
      var n := sc.actorsIndex;
      if 0 <= n < |sc.actors| && sc.actors[n].armature.Some? then
        var a := sc.actors[n].armature.value;
        if a in sc.viewLayer then sc.selected == {a} && sc.active == Some(a)
        else sc.selected == {} && sc.active == kept
      else sc.selected == old(sc.selected) - gone && sc.active == kept
  {
    if |sc.actors| > 0 && 0 <= sc.actorsIndex < |sc.actors| {
      var actor := sc.actors[sc.actorsIndex];
      var gone: set<ObjId> := {};
      if actor.armature.Some? {
        gone := {actor.armature.value};
      }
      sc.RemoveObjects(gone);
      sc.actors := RemoveAt(sc.actors, sc.actorsIndex);
      var newIndex := if sc.actorsIndex - 1 > 0 then sc.actorsIndex - 1 else 0;
      Actors.WriteActorsIndex(sc, newIndex);
    }
  }
}
