/**
 * The actors list kept in step with the viewport (mektools/libs/actors.py): the
 * `actors_index` update hook, re-syncing the index with the selected armatures,
 * dropping actors whose armature left the view layer, and the handler registration.
 * Unlike the pins list there is no suppression flag, so every index write selects.
 */
module Actors {
  import opened Wrappers
  import opened SceneState
  import opened Lists
  import opened Handlers

  /** The selected objects that are armatures (`selected_armatures`). */
  function SelectedArmatures(objs: seq<Obj>, selected: set<ObjId>): (r: set<ObjId>)
    ensures forall x :: x in r <==> x in selected && exists o :: o in objs && o.id == x && o.kind == ArmatureKind
  {
    set o | o in objs && o.id in selected && o.kind == ArmatureKind :: o.id
  }

  /** The first actor whose armature is in `armatures`, or -1. */
  function FirstActorIn(actors: seq<Actor>, armatures: set<ObjId>): (r: int)
    ensures -1 <= r < |actors|
    ensures r == -1 <==> forall i :: 0 <= i < |actors| ==> !(actors[i].armature.Some? && actors[i].armature.value in armatures)
    ensures r >= 0 ==> actors[r].armature.Some? && actors[r].armature.value in armatures
    ensures r >= 0 ==> forall j :: 0 <= j < r ==> !(actors[j].armature.Some? && actors[j].armature.value in armatures)
    decreases |actors|
  {
    if |actors| == 0 then -1
    else if actors[0].armature.Some? && actors[0].armature.value in armatures then 0
    else
      var k := FirstActorIn(actors[1..], armatures);
      if k == -1 then -1 else k + 1
  }

  /** An actor is stale when its armature is set and no longer in the view layer. */
  function StaleActor(viewLayer: set<ObjId>): Actor -> bool {
    (a: Actor) => a.armature.Some? && a.armature.value !in viewLayer
  }

  /** The actors that survive `cleanup_actor_list`, in their original order. */
  function LiveActors(actors: seq<Actor>, viewLayer: set<ObjId>): seq<Actor> {
    Keep(actors, StaleActor(viewLayer))
  }

  /** Clean-up removes exactly the actors whose armature is set and outside the view layer. */
  lemma LiveActorsExact(actors: seq<Actor>, viewLayer: set<ObjId>, a: Actor)
    ensures a in LiveActors(actors, viewLayer) <==> a in actors && (a.armature.None? || a.armature.value in viewLayer)
  {
    KeepMembers(actors, StaleActor(viewLayer), a);
  }

  /** Cleaning up twice is cleaning up once. */
  lemma LiveActorsIdempotent(actors: seq<Actor>, viewLayer: set<ObjId>)
    ensures LiveActors(LiveActors(actors, viewLayer), viewLayer) == LiveActors(actors, viewLayer)
  {
    KeepIdempotent(actors, StaleActor(viewLayer));
  }

  /**
   * `update_selected_actor`, the `actors_index` update hook: an in-range index whose actor
   * has an armature makes that armature the only selected and the active object (an
   * armature outside the view layer cannot be selected: the host raises after the
   * deselection).
   */
  method UpdateSelectedActor(sc: Scene)
    modifies sc`selected, sc`active
    ensures var idx := sc.actorsIndex;
      if 0 <= idx < |sc.actors| && sc.actors[idx].armature.Some? then
        var a := sc.actors[idx].armature.value;
        if a in sc.viewLayer then sc.selected == {a} && sc.active == Some(a)
        else sc.selected == {} && sc.active == old(sc.active)
      else sc.selected == old(sc.selected) && sc.active == old(sc.active)
  {
    if |sc.actors| > 0 && 0 <= sc.actorsIndex < |sc.actors| {
      var actor := sc.actors[sc.actorsIndex];
      if actor.armature.Some? {
        sc.selected := {};
        if actor.armature.value !in sc.viewLayer {
          return;
        }
        sc.selected := {actor.armature.value};
        sc.active := actor.armature;
      }
    }
  }

  /** Assigning `scene.actors_index`: the property's update hook runs after every write. */
  method WriteActorsIndex(sc: Scene, v: int)
    modifies sc`actorsIndex, sc`selected, sc`active
    ensures sc.actorsIndex == v
    ensures 0 <= v < |sc.actors| && sc.actors[v].armature.Some? && sc.actors[v].armature.value in sc.viewLayer ==>
      sc.selected == {sc.actors[v].armature.value} && sc.active == sc.actors[v].armature
    ensures 0 <= v < |sc.actors| && sc.actors[v].armature.Some? && sc.actors[v].armature.value !in sc.viewLayer ==>
      sc.selected == {} && sc.active == old(sc.active)
    ensures !(0 <= v < |sc.actors| && sc.actors[v].armature.Some?) ==>
      sc.selected == old(sc.selected) && sc.active == old(sc.active)
  {
    sc.actorsIndex := v;
    UpdateSelectedActor(sc);
  }

  /**
   * `update_active_actor`: the index becomes the first actor whose armature is selected
   * (-1 if none). A changed index is written, and the hook then narrows the selection
   * to that actor's armature, dropping every other selected object (or empties it, when
   * that armature is outside the view layer).
   */
  method UpdateActiveActor(sc: Scene)
    modifies sc`actorsIndex, sc`selected, sc`active
    ensures sc.actorsIndex == FirstActorIn(sc.actors, SelectedArmatures(sc.objects, old(sc.selected)))
    ensures sc.actorsIndex == old(sc.actorsIndex) || sc.actorsIndex == -1 ==>
      sc.selected == old(sc.selected) && sc.active == old(sc.active)
    ensures sc.actorsIndex != old(sc.actorsIndex) && sc.actorsIndex >= 0 ==>
      var a := sc.actors[sc.actorsIndex].armature.value;
      (a in sc.viewLayer ==> sc.selected == {a} && sc.active == Some(a))
      && (a !in sc.viewLayer ==> sc.selected == {} && sc.active == old(sc.active))
  {
    var armatures := set o | o in sc.objects && o.id in sc.selected && o.kind == ArmatureKind :: o.id;
    var newIndex := -1;
    var i := 0;
    while i < |sc.actors|
      invariant 0 <= i <= |sc.actors|
      invariant forall j :: 0 <= j < i ==> !(sc.actors[j].armature.Some? && sc.actors[j].armature.value in armatures)
    {
      if sc.actors[i].armature.Some? && sc.actors[i].armature.value in armatures {
        newIndex := i;
        break;
      }
      i := i + 1;
    }
    if sc.actorsIndex != newIndex {
      WriteActorsIndex(sc, newIndex);
    }
  }

  /** `cleanup_actor_list`: the same two-pass removal as the pins list. */
  method CleanupActorList(sc: Scene)
    modifies sc`actors
    ensures sc.actors == LiveActors(old(sc.actors), sc.viewLayer)
  {
    var stale := StaleActor(sc.viewLayer);
    ghost var start := sc.actors;
    var toRemove: seq<nat> := [];
    var i := 0;
    while i < |sc.actors|
      invariant 0 <= i <= |sc.actors|
      invariant forall k :: 0 <= k < |toRemove| ==> toRemove[k] < i
      invariant forall k, l :: 0 <= k < l < |toRemove| ==> toRemove[k] < toRemove[l]
      invariant forall j :: 0 <= j < i ==> (stale(sc.actors[j]) <==> j in toRemove)
    {
      var a := sc.actors[i];
      if a.armature.Some? && a.armature.value !in sc.viewLayer {
        toRemove := toRemove + [i];
      }
      i := i + 1;
    }
    assert StaleIndices(start, stale, toRemove);
    var k := |toRemove|;
    RemovalStart(start, stale, toRemove);
    while k > 0
      invariant 0 <= k <= |toRemove|
      invariant Cut(start, toRemove, k) <= |start|
      invariant sc.actors == start[..Cut(start, toRemove, k)] + Keep(start[Cut(start, toRemove, k)..], stale)
    {
      RemoveStep(start, stale, toRemove, k);
      sc.actors := RemoveAt(sc.actors, toRemove[k - 1]);
      k := k - 1;
    }
    RemovalEnd(start, stale, toRemove);
  }

  /** `add_callback`: appends the actors handler only when it is not registered yet. */
  method AddCallback(sc: Scene)
    modifies sc`handlers
    ensures sc.handlers == Registered(old(sc.handlers), ActorsUpdate)
  {
    if ActorsUpdate !in sc.handlers {
      sc.handlers := sc.handlers + [ActorsUpdate];
    }
  }

  /** `remove_callback`: removes the actors handler only when it is registered. */
  method RemoveCallback(sc: Scene)
    modifies sc`handlers
    ensures sc.handlers == Unregistered(old(sc.handlers), ActorsUpdate)
  {
    if ActorsUpdate in sc.handlers {
      sc.handlers := RemoveFirst(sc.handlers, ActorsUpdate);
    }
  }

  /**
   * `on_update_callback`: unregister, re-sync the index, drop stale actors, register again.
   * A changed index selects its actor's armature through the index hook, before the clean-up.
   */
  method OnUpdateCallback(sc: Scene)
    modifies sc`handlers, sc`actorsIndex, sc`selected, sc`active, sc`actors
    ensures sc.handlers == Registered(Unregistered(old(sc.handlers), ActorsUpdate), ActorsUpdate)
    ensures sc.actorsIndex == FirstActorIn(old(sc.actors), SelectedArmatures(sc.objects, old(sc.selected)))
    ensures sc.actors == LiveActors(old(sc.actors), sc.viewLayer)
    ensures sc.actorsIndex == old(sc.actorsIndex) || sc.actorsIndex == -1 ==>
      sc.selected == old(sc.selected) && sc.active == old(sc.active)
    ensures sc.actorsIndex != old(sc.actorsIndex) && sc.actorsIndex >= 0 ==>
      var a := old(sc.actors)[sc.actorsIndex].armature.value;
      (a in sc.viewLayer ==> sc.selected == {a} && sc.active == Some(a))
      && (a !in sc.viewLayer ==> sc.selected == {} && sc.active == old(sc.active))
  {
    RemoveCallback(sc);
    UpdateActiveActor(sc);
    CleanupActorList(sc);
    AddCallback(sc);
  }
}
