/**
 * The pins list kept in step with the viewport (mektools/libs/pins.py): the
 * `pins_index` update hook, re-syncing the index with the active object, dropping
 * pins whose object left the view layer, and the idempotent handler registration.
 */
module Pins {
  import opened Wrappers
  import opened SceneState
  import opened Lists
  import opened Handlers

  /** The first index whose pin holds `target` (compared as Python's `==`, None included), or -1. */
  function FirstPinOf(pins: seq<Pin>, target: Option<ObjId>): (r: int)
    ensures -1 <= r < |pins|
    ensures r == -1 <==> forall i :: 0 <= i < |pins| ==> pins[i].obj != target
    ensures r >= 0 ==> pins[r].obj == target && forall j :: 0 <= j < r ==> pins[j].obj != target
    decreases |pins|
  {
    if |pins| == 0 then -1
    else if pins[0].obj == target then 0
    else
      var k := FirstPinOf(pins[1..], target);
      if k == -1 then -1 else k + 1
  }

  /** A pin is stale when it points at an object that is no longer in the view layer. */
  function StalePin(viewLayer: set<ObjId>): Pin -> bool {
    (p: Pin) => p.obj.Some? && p.obj.value !in viewLayer
  }

  /** The pins that survive `cleanup_pin_list`, in their original order. */
  function LivePins(pins: seq<Pin>, viewLayer: set<ObjId>): seq<Pin> {
    Keep(pins, StalePin(viewLayer))
  }

  /**
   * Clean-up removes exactly the stale pins: a pin survives iff its object is unset or
   * still in the view layer.
   */
  lemma LivePinsExact(pins: seq<Pin>, viewLayer: set<ObjId>, p: Pin)
    ensures p in LivePins(pins, viewLayer) <==> p in pins && (p.obj.None? || p.obj.value in viewLayer)
  {
    KeepMembers(pins, StalePin(viewLayer), p);
  }

  /** A list whose pins all point into the view layer (or nowhere) is left as it is. */
  lemma LivePinsUnchanged(pins: seq<Pin>, viewLayer: set<ObjId>)
    requires forall i :: 0 <= i < |pins| ==> pins[i].obj.None? || pins[i].obj.value in viewLayer
    ensures LivePins(pins, viewLayer) == pins
  {
    KeepAllFresh(pins, StalePin(viewLayer));
  }

  /**
   * The `pins_index` update hook `select_pin`. Unless suppressed, an in-range index whose
   * pin holds an object makes that object the only selected and the active one. An
   * object outside the view layer cannot be selected: the host raises after the
   * deselection, leaving nothing selected and the active object as it was.
   */
  method SelectPin(sc: Scene)
    modifies sc`selected, sc`active
    ensures var idx := sc.pinsIndex;
      if !sc.suppressPins && 0 <= idx < |sc.pins| && sc.pins[idx].obj.Some? then
        var o := sc.pins[idx].obj.value;
        if o in sc.viewLayer then sc.selected == {o} && sc.active == Some(o)
        else sc.selected == {} && sc.active == old(sc.active)
      else sc.selected == old(sc.selected) && sc.active == old(sc.active)
  {
    if sc.suppressPins {
      return;
    }
    if |sc.pins| > 0 && 0 <= sc.pinsIndex < |sc.pins| {
      var pin := sc.pins[sc.pinsIndex];
      if pin.obj.Some? {
        sc.selected := {};
        if pin.obj.value !in sc.viewLayer {
          return;
        }
        sc.selected := {pin.obj.value};
        sc.active := pin.obj;
      }
    }
  }

  /** Assigning `scene.pins_index`: the property's update hook runs after every write. */
  method WritePinsIndex(sc: Scene, v: int)
    modifies sc`pinsIndex, sc`selected, sc`active
    ensures sc.pinsIndex == v
    ensures sc.suppressPins ==> sc.selected == old(sc.selected) && sc.active == old(sc.active)
    ensures !sc.suppressPins ==>
      if 0 <= v < |sc.pins| && sc.pins[v].obj.Some? then
        var o := sc.pins[v].obj.value;
        if o in sc.viewLayer then sc.selected == {o} && sc.active == Some(o)
        else sc.selected == {} && sc.active == old(sc.active)
      else sc.selected == old(sc.selected) && sc.active == old(sc.active)
  {
    sc.pinsIndex := v;
    SelectPin(sc);
  }

  /**
   * `sync_list_with_viewport_selection`: the index becomes the first pin holding the
   * active object (-1 if none); the hook stays silent because `suppress_pins` is raised
   * around the write, and it is lowered again on exit.
   */
  method SyncListWithViewportSelection(sc: Scene)
    modifies sc`pinsIndex, sc`selected, sc`active, sc`suppressPins
    ensures sc.pinsIndex == FirstPinOf(sc.pins, sc.active)
    ensures !sc.suppressPins
    ensures sc.selected == old(sc.selected) && sc.active == old(sc.active)
  {
    sc.suppressPins := true;
    var activeObj := sc.active;
    var newIndex := -1;
    var i := 0;
    while i < |sc.pins|
      invariant 0 <= i <= |sc.pins|
      invariant forall j :: 0 <= j < i ==> sc.pins[j].obj != activeObj
    {
      if sc.pins[i].obj == activeObj {
        newIndex := i;
        break;
      }
      i := i + 1;
    }
    if sc.pinsIndex != newIndex {
      WritePinsIndex(sc, newIndex);
    }
    sc.suppressPins := false;
  }

  /**
   * `cleanup_pin_list`: collects the indices of the stale pins, then removes them from
   * the highest down, so the survivors keep their order.
   */
  method CleanupPinList(sc: Scene)
    modifies sc`pins
    ensures sc.pins == LivePins(old(sc.pins), sc.viewLayer)
  {
    var stale := StalePin(sc.viewLayer);
    ghost var start := sc.pins;
    var toRemove: seq<nat> := [];
    var i := 0;
    while i < |sc.pins|
      invariant 0 <= i <= |sc.pins|
      invariant forall k :: 0 <= k < |toRemove| ==> toRemove[k] < i
      invariant forall k, l :: 0 <= k < l < |toRemove| ==> toRemove[k] < toRemove[l]
      invariant forall j :: 0 <= j < i ==> (stale(sc.pins[j]) <==> j in toRemove)
    {
      var p := sc.pins[i];
      if p.obj.Some? && p.obj.value !in sc.viewLayer {
        toRemove := toRemove + [i];
      }
      i := i + 1;
    }
    assert StaleIndices(start, stale, toRemove);
    var k := |toRemove|;
    RemovalStart(start, stale, toRemove);
    while k > 0
      invariant 0 <= k <= |toRemove|
      invariant Cut(start, toRemove, k) <= |start|
      invariant sc.pins == start[..Cut(start, toRemove, k)] + Keep(start[Cut(start, toRemove, k)..], stale)
    {
      RemoveStep(start, stale, toRemove, k);
      sc.pins := RemoveAt(sc.pins, toRemove[k - 1]);
      k := k - 1;
    }
    RemovalEnd(start, stale, toRemove);
  }

  /** `add_callback`: appends the pins handler only when it is not registered yet. */
  method AddCallback(sc: Scene)
    modifies sc`handlers
    ensures sc.handlers == Registered(old(sc.handlers), PinsUpdate)
  {
    if PinsUpdate !in sc.handlers {
      sc.handlers := sc.handlers + [PinsUpdate];
    }
  }

  /** `remove_callback`: removes the pins handler only when it is registered. */
  method RemoveCallback(sc: Scene)
    modifies sc`handlers
    ensures sc.handlers == Unregistered(old(sc.handlers), PinsUpdate)
  {
    if PinsUpdate in sc.handlers {
      sc.handlers := RemoveFirst(sc.handlers, PinsUpdate);
    }
  }

  /**
   * `on_update_callback`: unregister, re-sync the index, drop stale pins, register again.
   * The index is computed on the list before clean-up.
   */
  method OnUpdateCallback(sc: Scene)
    modifies sc`handlers, sc`pinsIndex, sc`selected, sc`active, sc`suppressPins, sc`pins
    ensures sc.handlers == Registered(Unregistered(old(sc.handlers), PinsUpdate), PinsUpdate)
    ensures sc.pinsIndex == FirstPinOf(old(sc.pins), old(sc.active))
    ensures sc.pins == LivePins(old(sc.pins), sc.viewLayer)
    ensures !sc.suppressPins && sc.selected == old(sc.selected) && sc.active == old(sc.active)
  {
    RemoveCallback(sc);
    SyncListWithViewportSelection(sc);
    CleanupPinList(sc);
    AddCallback(sc);
  }

  /** A pin for another object in front shifts the first pin of `target` by one. */
  lemma FirstPinBehind(p: Pin, pins: seq<Pin>, target: Option<ObjId>)
    requires p.obj != target && FirstPinOf(pins, target) >= 0
    ensures FirstPinOf([p] + pins, target) == FirstPinOf(pins, target) + 1
  {
    assert ([p] + pins)[1..] == pins;
  }

  /**
   * After the clean-up the active object's first pin sits behind exactly the surviving
   * pins that preceded it.
   */
  lemma {:induction false} LiveIndex(pins: seq<Pin>, viewLayer: set<ObjId>, o: ObjId)
    requires o in viewLayer && FirstPinOf(pins, Some(o)) >= 0
    ensures FirstPinOf(LivePins(pins, viewLayer), Some(o)) == |LivePins(pins[..FirstPinOf(pins, Some(o))], viewLayer)|
    decreases |pins|
  {
    var i := FirstPinOf(pins, Some(o));
    var live := LivePins(pins, viewLayer);
    var rest := pins[1..];
    assert live == Keep([pins[0]], StalePin(viewLayer)) + LivePins(rest, viewLayer);
    if pins[0].obj == Some(o) {
      assert live[0] == pins[0];
      assert pins[..i] == [];
    } else {
      var k := FirstPinOf(rest, Some(o));
      LiveIndex(rest, viewLayer, o);
      assert pins[..i] == [pins[0]] + rest[..k];
      KeepAppend([pins[0]], rest[..k], StalePin(viewLayer));
      if StalePin(viewLayer)(pins[0]) {
        assert live == LivePins(rest, viewLayer);
      } else {
        FirstPinBehind(pins[0], LivePins(rest, viewLayer), Some(o));
      }
    }
  }

  /**
   * Because the index is synced before the clean-up, a stale pin in front of the active
   * object's pin leaves the stored index past where that pin ends up.
   */
  lemma IndexSyncedBeforeCleanup(pins: seq<Pin>, viewLayer: set<ObjId>, o: ObjId, j: nat)
    requires o in viewLayer && FirstPinOf(pins, Some(o)) >= 0
    requires j < FirstPinOf(pins, Some(o)) && StalePin(viewLayer)(pins[j])
    ensures FirstPinOf(LivePins(pins, viewLayer), Some(o)) < FirstPinOf(pins, Some(o))
  {
    var i := FirstPinOf(pins, Some(o));
    LiveIndex(pins, viewLayer, o);
    KeepDropsStale(pins[..i], StalePin(viewLayer), j);
  }
}
