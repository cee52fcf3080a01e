/**
 * The `depsgraph_update_post` registration idiom shared by the pins and actors
 * libraries: append only when absent, remove (Python's `list.remove`, the first
 * occurrence) only when present.
 */
module Handlers {
  import opened SceneState

  /** How many times `h` occurs in the handler list. */
  function Count(hs: seq<Handler>, h: Handler): nat {
    multiset(hs)[h]
  }

  /** The list after `add_callback`. */
  function Registered(hs: seq<Handler>, h: Handler): seq<Handler> {
    if h in hs then hs else hs + [h]
  }

  /** `hs.remove(h)`: drops the first occurrence; the caller checks that there is one. */
  function RemoveFirst(hs: seq<Handler>, h: Handler): (r: seq<Handler>)
    requires h in hs
  {
    assert hs == [hs[0]] + hs[1..];
    if hs[0] == h then hs[1..]
    else [hs[0]] + RemoveFirst(hs[1..], h)
  }

  /** The first position holding `h`. */
  function FirstIndex(hs: seq<Handler>, h: Handler): (k: nat)
    requires h in hs
    ensures k < |hs| && hs[k] == h
    ensures forall j :: 0 <= j < k ==> hs[j] != h
    decreases |hs|
  {
    if hs[0] == h then 0 else 1 + FirstIndex(hs[1..], h)
  }

  /**
   * `list.remove` takes out the FIRST occurrence and keeps the order of everything
   * else: the result is the list with the first position holding `h` cut out.
   */
  lemma {:induction false} RemoveFirstExact(hs: seq<Handler>, h: Handler)
    requires h in hs
    ensures RemoveFirst(hs, h) == hs[..FirstIndex(hs, h)] + hs[FirstIndex(hs, h) + 1..]
    decreases |hs|
  {
    var k := FirstIndex(hs, h);
    if k == 0 {
      assert hs[..k] + hs[k + 1..] == hs[1..];
    } else {
      var t := hs[1..];
      assert h in t by {
        assert hs[k] == t[k - 1];
      }
      assert FirstIndex(t, h) == k - 1;
      RemoveFirstExact(t, h);
      calc {
        RemoveFirst(hs, h);
        [hs[0]] + RemoveFirst(t, h);
        [hs[0]] + (t[..k - 1] + t[k..]);
        { assert hs[..k] == [hs[0]] + t[..k - 1]; assert hs[k + 1..] == t[k..]; }
        hs[..k] + hs[k + 1..];
      }
    }
  }

  /** Removing takes exactly one occurrence of `h` away and keeps every other entry. */
  lemma RemoveFirstCount(hs: seq<Handler>, h: Handler)
    requires h in hs
    ensures multiset(RemoveFirst(hs, h)) == multiset(hs) - multiset{h}
  {
    var k := FirstIndex(hs, h);
    RemoveFirstExact(hs, h);
    assert hs == hs[..k] + [hs[k]] + hs[k + 1..];
  }

  /** The list after `remove_callback`. */
  function Unregistered(hs: seq<Handler>, h: Handler): seq<Handler> {
    if h in hs then RemoveFirst(hs, h) else hs
  }

  /** After registering, the handler is present, at least once and never duplicated by the call. */
  lemma RegisteredCount(hs: seq<Handler>, h: Handler)
    ensures h in Registered(hs, h)
    ensures Count(Registered(hs, h), h) == if Count(hs, h) == 0 then 1 else Count(hs, h)
    ensures forall g :: g != h ==> Count(Registered(hs, h), g) == Count(hs, g)
  {
    if h !in hs {
      assert multiset(hs + [h]) == multiset(hs) + multiset{h};
    }
  }

  /** Registering twice is registering once. */
  lemma RegisteredIdempotent(hs: seq<Handler>, h: Handler)
    ensures Registered(Registered(hs, h), h) == Registered(hs, h)
  {
  }

  /**
   * Unregistering takes exactly one occurrence away when there is one, nothing when
   * there is none, and no other handler is touched.
   */
  lemma UnregisteredCount(hs: seq<Handler>, h: Handler)
    ensures Count(Unregistered(hs, h), h) == if Count(hs, h) == 0 then 0 else Count(hs, h) - 1
    ensures forall g :: g != h ==> Count(Unregistered(hs, h), g) == Count(hs, g)
  {
    if h in hs {
      RemoveFirstCount(hs, h);
    }
  }

  /** Removing a handler that a registration just appended gives back the original list. */
  lemma {:induction false} UnregisterAfterRegister(hs: seq<Handler>, h: Handler)
    requires h !in hs
    ensures Unregistered(Registered(hs, h), h) == hs
    decreases |hs|
  {
    if |hs| > 0 {
      assert (hs + [h])[1..] == hs[1..] + [h];
      UnregisterAfterRegister(hs[1..], h);
    }
  }

  /** With the handler at most once, remove-then-add leaves it registered exactly once. */
  lemma ReRegisterOnce(hs: seq<Handler>, h: Handler)
    requires Count(hs, h) <= 1
    ensures Count(Registered(Unregistered(hs, h), h), h) == 1
  {
    UnregisteredCount(hs, h);
    RegisteredCount(Unregistered(hs, h), h);
  }
}
