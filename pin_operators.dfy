/**
 * The pin operators (mektools/operators/pins_ot.py), at the level of the pins list,
 * the stored hide flags and the hidden set. An uncaught Python exception is the
 * `Raised` outcome; whatever the operator changed before it stays changed.
 */
module PinOperators {
  import opened Wrappers
  import opened SceneState
  import opened Lists
  import opened Handlers
  import Helper
  import Pins

  /** The position of the first object named `name` in `bpy.data.objects`. */
  function IndexOfName(objs: seq<Obj>, name: string): (r: Option<nat>)
    ensures r.Some? ==> r.value < |objs| && objs[r.value].name == name
    ensures r.Some? ==> forall j :: 0 <= j < r.value ==> objs[j].name != name
    ensures r.None? ==> forall j :: 0 <= j < |objs| ==> objs[j].name != name
    decreases |objs|
  {
    if |objs| == 0 then None
    else if objs[0].name == name then Some(0)
    else match IndexOfName(objs[1..], name)
      case None => None
      case Some(k) => Some(k + 1)
  }

  /**
   * The hidden set `TogglePinVisibility` produces: the children in the view layer get
   * `hideObject`; the object itself, when it is an armature in the view layer, gets the
   * armature flag, forced on by `hideObject`; nothing else changes.
   */
  function ToggledHidden(hidden: set<ObjId>, viewLayer: set<ObjId>, o: ObjId, isArmature: bool,
                         children: seq<ObjId>, hideArmature: bool, hideObject: bool): set<ObjId>
  {
    var universe := hidden + {o} + (set c | c in children);
    set x | x in universe &&
      if x in children && x in viewLayer then hideObject
      else if x == o && isArmature && o in viewLayer then hideArmature || hideObject
      else x in hidden
  }

  /** Hiding the pin forces its armature hidden, whatever armature flag was passed. */
  lemma HiddenPinHidesArmature(hidden: set<ObjId>, viewLayer: set<ObjId>, o: ObjId,
                               children: seq<ObjId>, hideArmature: bool)
    requires o in viewLayer && o !in children
    ensures o in ToggledHidden(hidden, viewLayer, o, true, children, hideArmature, true)
  {
  }

  /**
   * `TogglePinVisibility.execute`. An unknown name cancels with nothing changed; an
   * object without a data block raises before anything changes. Otherwise the flags
   * are stored as passed (the stored armature flag may be False while the armature
   * ends up hidden), then the armature and its children are hidden or shown.
   */
  method TogglePinVisibility(sc: Scene, objectName: string, hideArmature: bool, hideObject: bool)
    returns (status: Status)
    modifies sc`objects, sc`hidden
    ensures var i := IndexOfName(old(sc.objects), objectName);
      if i.None? then status == Cancelled && sc.objects == old(sc.objects) && sc.hidden == old(sc.hidden)
      else
        var o := old(sc.objects)[i.value];
        if o.data.None? then status == Raised && sc.objects == old(sc.objects) && sc.hidden == old(sc.hidden)
        else
          status == Finished
          && sc.objects == old(sc.objects)[i.value := o.(data := Some(o.data.value.(
               hideArmature := Some(hideArmature), hideObject := Some(hideObject))))]
          && (o.id !in ChildrenOf(old(sc.objects), o.id) ==>
               sc.hidden == ToggledHidden(old(sc.hidden), sc.viewLayer, o.id, o.kind == ArmatureKind,
                                          ChildrenOf(old(sc.objects), o.id), hideArmature, hideObject))
  {
    var found := IndexOfName(sc.objects, objectName);
    if found.None? {
      return Cancelled;
    }
    var i := found.value;
    var o := sc.objects[i];
    if o.data.None? {
      return Raised;
    }
    var children := ChildrenOf(sc.objects, o.id);
    sc.objects := sc.objects[i := o.(data := Some(o.data.value.(
      hideArmature := Some(hideArmature), hideObject := Some(hideObject))))];
    var armatureFlag := hideArmature;
    if hideObject {
      armatureFlag := true;
    }
    ghost var before := sc.hidden;
    if o.kind == ArmatureKind {
      Helper.SafeHideSet(sc, Some(o.id), armatureFlag);
    }
    ghost var afterArmature := sc.hidden;
    var k := 0;
    while k < |children|
      invariant 0 <= k <= |children|
      modifies sc`hidden
      invariant forall x :: x in sc.hidden <==>
        if x in children[..k] && x in sc.viewLayer then hideObject else x in afterArmature
    {
      Helper.SafeHideSet(sc, Some(children[k]), hideObject);
      assert children[..k + 1] == children[..k] + [children[k]];
      k := k + 1;
    }
    assert children[..k] == children;
    if o.id !in children {
      forall x
        ensures x in sc.hidden <==> x in ToggledHidden(before, sc.viewLayer, o.id, o.kind == ArmatureKind,
                                                      children, hideArmature, hideObject)
      {
      }
    }
    return Finished;
  }

  /** The pins list after toggling `o`: its first pin removed, or a new pin appended. */
  function TogglePin(pins: seq<Pin>, o: ObjId): (r: seq<Pin>)
    ensures Pins.FirstPinOf(pins, Some(o)) >= 0 ==>
      exists i :: 0 <= i < |pins| && pins[i].obj == Some(o)
                  && (forall j :: 0 <= j < i ==> pins[j].obj != Some(o))
                  && r == pins[..i] + pins[i + 1..]
    ensures Pins.FirstPinOf(pins, Some(o)) == -1 ==> r == pins + [Pin(Some(o))]
  {
    var i := Pins.FirstPinOf(pins, Some(o));
    if i >= 0 then RemoveAt(pins, i) else pins + [Pin(Some(o))]
  }

  /** Pinning an unpinned object and toggling it again gives the original list back. */
  lemma TogglePinRoundTrip(pins: seq<Pin>, o: ObjId)
    requires Pins.FirstPinOf(pins, Some(o)) == -1
    ensures TogglePin(TogglePin(pins, o), o) == pins
  {
    var p := pins + [Pin(Some(o))];
    assert p[|pins|].obj == Some(o);
    assert Pins.FirstPinOf(p, Some(o)) == |pins|;
    assert p[..|pins|] == pins;
  }

  /**
   * With the object pinned at most once, toggling twice keeps the same pins: the
   * removed pin comes back at the end.
   */
  lemma ToggleTwiceSamePins(pins: seq<Pin>, o: ObjId)
    requires multiset(pins)[Pin(Some(o))] <= 1
    ensures multiset(TogglePin(TogglePin(pins, o), o)) == multiset(pins)
  {
    var i := Pins.FirstPinOf(pins, Some(o));
    if i == -1 {
      TogglePinRoundTrip(pins, o);
    } else {
      var r := RemoveAt(pins, i);
      assert pins == pins[..i] + [pins[i]] + pins[i + 1..];
      assert multiset(pins) == multiset(r) + multiset{Pin(Some(o))};
      assert Pin(Some(o)) !in multiset(r);
      assert Pins.FirstPinOf(r, Some(o)) == -1 by {
        forall j | 0 <= j < |r|
          ensures r[j].obj != Some(o)
        {
          assert r[j] in multiset(r);
        }
      }
    }
  }

  /**
   * `SetIsPinned.execute`: with no active object it cancels; otherwise the active
   * object's first pin is removed, or a pin for it is appended.
   */
  method SetIsPinned(sc: Scene) returns (status: Status)
    modifies sc`pins
    ensures old(sc.active).None? ==> status == Cancelled && sc.pins == old(sc.pins)
    ensures old(sc.active).Some? ==> status == Finished && sc.pins == TogglePin(old(sc.pins), old(sc.active).value)
  {
    if sc.active.None? {
      return Cancelled;
    }
    var o := sc.active.value;
    var i := -1;
    var k := 0;
    while k < |sc.pins|
      invariant 0 <= k <= |sc.pins|
      invariant forall j :: 0 <= j < k ==> sc.pins[j].obj != Some(o)
    {
      if sc.pins[k].obj == Some(o) {
        i := k;
        break;
      }
      k := k + 1;
    }
    if i >= 0 {
      sc.pins := RemoveAt(sc.pins, i);
    } else {
      sc.pins := sc.pins + [Pin(Some(o))];
    }
    return Finished;
  }

  /** Python's subscript on a collection: negative indices count from the end. */
  function PyIndex(n: nat, i: int): Option<nat> {
    if 0 <= i < n then Some(i) else if i < 0 && 0 <= n + i then Some(n + i) else None
  }

  /**
   * The objects `DeletePin` deletes for the pinned object `o`: with the flag set and a
   * collection to hand, every object linked to `o`'s first collection; otherwise `o` and
   * its children.
   */
  function DeletedBy(objs: seq<Obj>, o: Obj, deleteParentCollection: bool): set<ObjId> {
    if deleteParentCollection && |o.collections| > 0 then
      set x | x in objs && o.collections[0] in x.collections :: x.id
    else
      {o.id} + set c | c in ChildrenOf(objs, o.id)
  }

  function FindById(objs: seq<Obj>, id: ObjId): (r: Option<Obj>)
    ensures r.Some? ==> r.value in objs && r.value.id == id
    ensures r.None? ==> forall x :: x in objs ==> x.id != id
  {
    if |objs| == 0 then None
    else if objs[0].id == id then Some(objs[0])
    else FindById(objs[1..], id)
  }

  /**
   * `DeletePin.execute`. The pin is read at `pins_index` with Python's subscript (an index
   * out of both ranges raises before anything changes; -1 reads the last pin). A pin
   * without an object raises. Otherwise the objects are deleted; the entry is then
   * removed only when `pins_index` is a valid non-negative index, and the host's removal
   * raises for a negative one, after the objects are gone.
   */
  method DeletePin(sc: Scene, deleteParentCollection: bool) returns (status: Status)
    modifies sc
    ensures sc.pinsIndex == old(sc.pinsIndex) && sc.suppressPins == old(sc.suppressPins)
    ensures sc.handlers == old(sc.handlers)
    ensures var at := PyIndex(|old(sc.pins)|, old(sc.pinsIndex));
      at.None? || old(sc.pins)[at.value].obj.None? ==>
        status == Raised && sc.pins == old(sc.pins) && sc.objects == old(sc.objects)
        && sc.viewLayer == old(sc.viewLayer) && sc.hidden == old(sc.hidden)
        && sc.active == old(sc.active) && sc.actors == old(sc.actors)
        && sc.selected == (if at.Some? && !deleteParentCollection then {} else old(sc.selected))
    ensures var at := PyIndex(|old(sc.pins)|, old(sc.pinsIndex));
      at.Some? && old(sc.pins)[at.value].obj.Some? ==>
        var o := FindById(old(sc.objects), old(sc.pins)[at.value].obj.value);
        var gone := if o.Some? then DeletedBy(old(sc.objects), o.value, deleteParentCollection) else {};
        var deselected := o.Some? && !(deleteParentCollection && |o.value.collections| > 0);
        sc.objects == WithoutObjects(old(sc.objects), gone)
        && sc.viewLayer == old(sc.viewLayer) - gone && sc.hidden == old(sc.hidden) - gone
        && sc.selected == (if deselected then {} else old(sc.selected) - gone)
        && sc.active == (if old(sc.active).Some? && old(sc.active).value in gone then None else old(sc.active))
        && sc.actors == ClearedActors(old(sc.actors), gone)
        && (status == Finished <==> old(sc.pinsIndex) >= 0)
        && (status == Finished ==> sc.pins == RemoveAt(ClearedPins(old(sc.pins), gone), at.value))
        && (status == Raised ==> sc.pins == ClearedPins(old(sc.pins), gone))
  {
    var at := PyIndex(|sc.pins|, sc.pinsIndex);
    if at.None? {
      return Raised;
    }
    var pin := sc.pins[at.value];
    if pin.obj.None? {
      if !deleteParentCollection {
        sc.selected := {};
      }
      return Raised;
    }
    var found := FindById(sc.objects, pin.obj.value);
    var gone: set<ObjId> := {};
    if found.Some? {
      gone := DeletedBy(sc.objects, found.value, deleteParentCollection);
      if !(deleteParentCollection && |found.value.collections| > 0) {
        // Everything is deselected, the object and its children selected and deleted.
        sc.selected := {};
      }
    }
    sc.RemoveObjects(gone);
    if !(0 <= sc.pinsIndex < |sc.pins|) {
      return Raised;
    }
    sc.pins := RemoveAt(sc.pins, sc.pinsIndex);
    return Finished;
  }

  /**
   * The active object after `duplicate_move` copied `originals` to `copies` (position
   * by position): when the active object was one of the originals its copy becomes
   * active; otherwise the active object stays.
   */
  function ActiveAfterDuplicate(originals: seq<ObjId>, copies: seq<Obj>, active: Option<ObjId>): (r: Option<ObjId>)
    requires |copies| == |originals|
    ensures active.None? || active.value !in originals ==> r == active
    ensures active.Some? && active.value in originals ==>
      exists k :: 0 <= k < |originals| && originals[k] == active.value && r == Some(copies[k].id)
    decreases |originals|
  {
    if |originals| == 0 then active
    else if active == Some(originals[0]) then Some(copies[0].id)
    else ActiveAfterDuplicate(originals[1..], copies[1..], active)
  }

  /**
   * After duplicating, the pins index is the one of the unchanged active object when
   * that object was not duplicated; when it was, the fresh copy is active and no pin
   * holds it, so the index reads -1.
   */
  lemma {:induction false} DuplicatedPinIndex(pins: seq<Pin>, originals: seq<ObjId>, copies: seq<Obj>, active: Option<ObjId>)
    requires |copies| == |originals|
    requires forall k, i :: 0 <= k < |copies| && 0 <= i < |pins| ==> pins[i].obj != Some(copies[k].id)
    ensures Pins.FirstPinOf(pins, ActiveAfterDuplicate(originals, copies, active))
      == if active.Some? && active.value in originals then -1 else Pins.FirstPinOf(pins, active)
  {
    if active.Some? && active.value in originals {
      var k :| 0 <= k < |originals| && originals[k] == active.value
               && ActiveAfterDuplicate(originals, copies, active) == Some(copies[k].id);
    }
  }

  /** A copy moved from collection `from` into `to`: unlinked from one, linked to the other. */
  function Relinked(c: Obj, from: string, to: string): Obj {
    c.(collections := Keep(c.collections, (x: string) => x == from) + [to])
  }

  /** A moved copy keeps its identity, is in `to` and no longer in `from`. */
  lemma RelinkedMoves(c: Obj, from: string, to: string)
    requires from != to
    ensures Relinked(c, from, to).id == c.id
    ensures to in Relinked(c, from, to).collections && from !in Relinked(c, from, to).collections
  {
    KeepMembers(c.collections, (x: string) => x == from, from);
  }

  /** The position of the first copy not linked to `from` (`|copies|` when there is none). */
  function FirstUnlinked(copies: seq<Obj>, from: string): (r: nat)
    ensures r <= |copies|
    ensures forall j :: 0 <= j < r ==> from in copies[j].collections
    ensures r < |copies| ==> from !in copies[r].collections
    decreases |copies|
  {
    if |copies| == 0 || from !in copies[0].collections then 0
    else 1 + FirstUnlinked(copies[1..], from)
  }

  /**
   * The copies after the loop over the selection that moves them from `from` to `to`:
   * each copy is moved until the first one not linked to `from`, whose `unlink` raises
   * and leaves it and the rest where they were.
   */
  function MovedCopies(copies: seq<Obj>, from: string, to: string): (r: seq<Obj>)
    ensures |r| == |copies|
  {
    var k := FirstUnlinked(copies, from);
    seq(k, j requires 0 <= j < k => Relinked(copies[j], from, to)) + copies[k..]
  }

  /**
   * When every copy is linked to `from`, all of them end up in `to` and out of `from`;
   * otherwise the copies before the first unlinked one are moved and the others are untouched.
   */
  lemma MovedCopiesExact(copies: seq<Obj>, from: string, to: string, j: nat)
    requires from != to && j < |copies|
    ensures MovedCopies(copies, from, to)[j].id == copies[j].id
    ensures j < FirstUnlinked(copies, from) ==>
      to in MovedCopies(copies, from, to)[j].collections && from !in MovedCopies(copies, from, to)[j].collections
    ensures j >= FirstUnlinked(copies, from) ==> MovedCopies(copies, from, to)[j] == copies[j]
  {
    var k := FirstUnlinked(copies, from);
    if j < k {
      RelinkedMoves(copies[j], from, to);
    }
  }

  /**
   * `DuplicatePin.execute`. The pins handler is unregistered first. Reading the pin fails
   * for an index out of both ranges; a pin without an object fails too, after everything
   * was deselected unless the parent collection was asked for (then `obj.users_collection`
   * fails first). Otherwise the object and its children are selected and duplicated:
   * `copies[k]` is the copy of the `k`-th of them, the copies alone are selected, and the
   * active object moves to its copy only when it was duplicated. With
   * `duplicateWithParent` and a collection to hand, the copies move from the object's
   * first collection into the new collection `newCollection`, and a copy not linked to
   * the first collection raises. Then the index is re-synced and the handler registered
   * again.
   */
  method DuplicatePin(sc: Scene, duplicateWithParent: bool, copies: seq<Obj>, newCollection: string)
    returns (status: Status)
    requires var at := PyIndex(|sc.pins|, sc.pinsIndex);
      at.Some? && sc.pins[at.value].obj.Some? ==>
        |copies| == 1 + |ChildrenOf(sc.objects, sc.pins[at.value].obj.value)|
    modifies sc
    ensures sc.pins == old(sc.pins)
    ensures var at := PyIndex(|old(sc.pins)|, old(sc.pinsIndex));
      at.None? || old(sc.pins)[at.value].obj.None? ==>
        status == Raised
        && sc.handlers == Unregistered(old(sc.handlers), PinsUpdate)
        && sc.objects == old(sc.objects)
        && sc.selected == (if at.Some? && !duplicateWithParent then {} else old(sc.selected))
    ensures var at := PyIndex(|old(sc.pins)|, old(sc.pinsIndex));
      at.Some? && old(sc.pins)[at.value].obj.Some? ==>
        var o := old(sc.pins)[at.value].obj.value;
        var originals := [o] + ChildrenOf(old(sc.objects), o);
        var home := FindById(old(sc.objects), o);
        var moving := duplicateWithParent && home.Some? && |home.value.collections| > 0;
        var from := if moving then home.value.collections[0] else "";
        sc.active == ActiveAfterDuplicate(originals, copies, old(sc.active))
        && sc.selected == (set c | c in copies :: c.id)
        && (!moving ==> status == Finished && sc.objects == old(sc.objects) + copies)
        && (moving ==> sc.objects == old(sc.objects) + MovedCopies(copies, from, newCollection)
                       && (status == Finished <==> FirstUnlinked(copies, from) == |copies|))
        && sc.viewLayer == old(sc.viewLayer) + (set c | c in copies :: c.id)
        && (status == Finished ==>
              sc.handlers == Registered(Unregistered(old(sc.handlers), PinsUpdate), PinsUpdate)
              && sc.pinsIndex == Pins.FirstPinOf(old(sc.pins), sc.active) && !sc.suppressPins)
        && (status == Raised ==>
              sc.handlers == Unregistered(old(sc.handlers), PinsUpdate)
              && sc.pinsIndex == old(sc.pinsIndex) && sc.suppressPins == old(sc.suppressPins))
    ensures sc.hidden == old(sc.hidden) && sc.actors == old(sc.actors)
    ensures var at := PyIndex(|old(sc.pins)|, old(sc.pinsIndex));
      at.None? || old(sc.pins)[at.value].obj.None? ==>
        sc.viewLayer == old(sc.viewLayer) && sc.active == old(sc.active)
        && sc.pinsIndex == old(sc.pinsIndex) && sc.suppressPins == old(sc.suppressPins)
  {
    Pins.RemoveCallback(sc);
    var at := PyIndex(|sc.pins|, sc.pinsIndex);
    if at.None? {
      return Raised;
    }
    var pinned := sc.pins[at.value].obj;
    if pinned.None? {
      if !duplicateWithParent {
        sc.selected := {};
      }
      return Raised;
    }
    status := DuplicatePinned(sc, pinned.value, duplicateWithParent, copies, newCollection);
  }

  /**
   * The part of `DuplicatePin.execute` after the pinned object `o` was found, with the
   * pins handler already unregistered: duplicate, move the copies when asked to, re-sync
   * the index and register the handler again.
   */
  method DuplicatePinned(sc: Scene, o: ObjId, duplicateWithParent: bool, copies: seq<Obj>, newCollection: string)
    returns (status: Status)
    requires |copies| == 1 + |ChildrenOf(sc.objects, o)|
    modifies sc
    ensures sc.pins == old(sc.pins) && sc.hidden == old(sc.hidden) && sc.actors == old(sc.actors)
    ensures var originals := [o] + ChildrenOf(old(sc.objects), o);
      var home := FindById(old(sc.objects), o);
      var moving := duplicateWithParent && home.Some? && |home.value.collections| > 0;
      var from := if moving then home.value.collections[0] else "";
      sc.active == ActiveAfterDuplicate(originals, copies, old(sc.active))
      && sc.selected == (set c | c in copies :: c.id)
      && sc.viewLayer == old(sc.viewLayer) + (set c | c in copies :: c.id)
      && (!moving ==> status == Finished && sc.objects == old(sc.objects) + copies)
      && (moving ==> sc.objects == old(sc.objects) + MovedCopies(copies, from, newCollection)
                     && (status == Finished <==> FirstUnlinked(copies, from) == |copies|))
    ensures status == Finished ==>
      sc.handlers == Registered(old(sc.handlers), PinsUpdate)
      && sc.pinsIndex == Pins.FirstPinOf(old(sc.pins), sc.active) && !sc.suppressPins
    ensures status == Raised ==>
      sc.handlers == old(sc.handlers) && sc.pinsIndex == old(sc.pinsIndex) && sc.suppressPins == old(sc.suppressPins)
  {
    var home := FindById(sc.objects, o);
    var moving := duplicateWithParent && home.Some? && |home.value.collections| > 0;
    var base := sc.objects;
    DuplicateMove(sc, [o] + ChildrenOf(sc.objects, o), copies);
    if moving {
      var raised := MoveCopies(sc, base, copies, home.value.collections[0], newCollection);
      if raised {
        return Raised;
      }
    }
    Pins.SyncListWithViewportSelection(sc);
    Pins.AddCallback(sc);
    return Finished;
  }

  /**
   * `dupe_with_childs`: the object and its children (`originals`) alone are selected and
   * `duplicate_move` copies them; the copies join the data and the view layer, they alone
   * are selected, and the active object moves to its copy when it was duplicated.
   */
  method DuplicateMove(sc: Scene, originals: seq<ObjId>, copies: seq<Obj>)
    requires |copies| == |originals|
    modifies sc`objects, sc`viewLayer, sc`selected, sc`active
    ensures sc.objects == old(sc.objects) + copies
    ensures sc.viewLayer == old(sc.viewLayer) + (set c | c in copies :: c.id)
    ensures sc.selected == (set c | c in copies :: c.id)
    ensures sc.active == ActiveAfterDuplicate(originals, copies, old(sc.active))
  {
    sc.objects := sc.objects + copies;
    var ids := set c | c in copies :: c.id;
    sc.viewLayer := sc.viewLayer + ids;
    sc.selected := ids;
    sc.active := ActiveAfterDuplicate(originals, copies, sc.active);
  }

  /**
   * The loop over the selected copies with the parent collection: each is unlinked from
   * `from` and linked to `to`, until a copy not linked to `from` raises.
   */
  method MoveCopies(sc: Scene, base: seq<Obj>, copies: seq<Obj>, from: string, to: string) returns (raised: bool)
    requires sc.objects == base + copies
    modifies sc`objects
    ensures sc.objects == base + MovedCopies(copies, from, to)
    ensures raised <==> FirstUnlinked(copies, from) < |copies|
  {
    var k := 0;
    while k < |copies|
      invariant 0 <= k <= |copies|
      invariant forall j :: 0 <= j < k ==> from in copies[j].collections
      invariant sc.objects == base + seq(k, j requires 0 <= j < k => Relinked(copies[j], from, to)) + copies[k..]
    {
      if from !in copies[k].collections {
        assert FirstUnlinked(copies, from) == k;
        return true;
      }
      sc.objects := sc.objects[|base| + k := Relinked(copies[k], from, to)];
      k := k + 1;
    }
    assert FirstUnlinked(copies, from) == |copies|;
    return false;
  }
}
