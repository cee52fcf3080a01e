/**
 * Index-addressed list edits shared by the pins and actors lists: removing one entry
 * (`collection.remove(i)`), and the two-pass clean-up both libraries use, which first
 * collects the indices of the stale entries and then removes them from the highest
 * index down.
 */
module Lists {

  /** `collection.remove(i)`: the entry at `i` leaves, the others keep their order. */
  function RemoveAt<T>(s: seq<T>, i: nat): (r: seq<T>)
    requires i < |s|
    ensures |r| == |s| - 1
    ensures forall j :: 0 <= j < i ==> r[j] == s[j]
    ensures forall j :: i <= j < |r| ==> r[j] == s[j + 1]
  {
    s[..i] + s[i + 1..]
  }

  /** The entries that are not stale, in their original order. */
  function Keep<T>(s: seq<T>, stale: T -> bool): (r: seq<T>)
    ensures |r| <= |s|
    decreases |s|
  {
    if |s| == 0 then []
    else (if stale(s[0]) then [] else [s[0]]) + Keep(s[1..], stale)
  }

  /** `Keep` holds exactly the fresh entries. */
  lemma {:induction false} KeepMembers<T>(s: seq<T>, stale: T -> bool, x: T)
    ensures x in Keep(s, stale) <==> x in s && !stale(x)
    decreases |s|
  {
    if |s| > 0 {
      KeepMembers(s[1..], stale, x);
      assert s == [s[0]] + s[1..];
    }
  }

  lemma {:induction false} KeepAppend<T>(a: seq<T>, b: seq<T>, stale: T -> bool)
    ensures Keep(a + b, stale) == Keep(a, stale) + Keep(b, stale)
    decreases |a|
  {
    if |a| == 0 {
      assert a + b == b;
    } else {
      assert (a + b)[0] == a[0];
      assert (a + b)[1..] == a[1..] + b;
      KeepAppend(a[1..], b, stale);
    }
  }

  /** A list with a stale entry loses at least that one. */
  lemma KeepDropsStale<T>(s: seq<T>, stale: T -> bool, j: nat)
    requires j < |s| && stale(s[j])
    ensures |Keep(s, stale)| < |s|
  {
    assert s == s[..j] + ([s[j]] + s[j + 1..]);
    KeepAppend(s[..j], [s[j]] + s[j + 1..], stale);
    KeepAppend([s[j]], s[j + 1..], stale);
    assert Keep([s[j]], stale) == [];
  }

  /** A list without stale entries is left as it is. */
  lemma {:induction false} KeepAllFresh<T>(s: seq<T>, stale: T -> bool)
    requires forall i :: 0 <= i < |s| ==> !stale(s[i])
    ensures Keep(s, stale) == s
    decreases |s|
  {
    if |s| > 0 {
      KeepAllFresh(s[1..], stale);
    }
  }

  /** Cleaning up twice is cleaning up once. */
  lemma KeepIdempotent<T>(s: seq<T>, stale: T -> bool)
    ensures Keep(Keep(s, stale), stale) == Keep(s, stale)
  {
    var k := Keep(s, stale);
    forall i | 0 <= i < |k|
      ensures !stale(k[i])
    {
      KeepMembers(s, stale, k[i]);
    }
    KeepAllFresh(k, stale);
  }

  /** `t` lists, in increasing order, exactly the indices of the stale entries of `s`. */
  predicate StaleIndices<T>(s: seq<T>, stale: T -> bool, t: seq<nat>) {
    (forall i :: 0 <= i < |t| ==> t[i] < |s|) &&
    (forall i, j :: 0 <= i < j < |t| ==> t[i] < t[j]) &&
    (forall j :: 0 <= j < |s| ==> (stale(s[j]) <==> j in t))
  }

  /** Where the removal pass stands after the entries `t[k..]` were removed. */
  function Cut<T>(s: seq<T>, t: seq<nat>, k: nat): nat
    requires k <= |t|
  {
    if k == |t| then |s| else t[k]
  }

  /** Between two consecutive stale indices every entry is fresh. */
  lemma FreshBetween<T>(s: seq<T>, stale: T -> bool, t: seq<nat>, k: nat)
    requires StaleIndices(s, stale, t)
    requires 0 < k <= |t|
    ensures t[k - 1] < Cut(s, t, k) <= |s|
    ensures forall j :: t[k - 1] < j < Cut(s, t, k) ==> !stale(s[j])
  {
    forall j | t[k - 1] < j < Cut(s, t, k)
      ensures !stale(s[j])
    {
      forall m | 0 <= m < |t|
        ensures t[m] != j
      {
        if m < k - 1 {
          assert t[m] < t[k - 1];
        } else if m >= k {
          assert t[k] <= t[m];
        }
      }
    }
  }

  lemma RemoveAtJoin<T>(p: seq<T>, e: T, m: seq<T>, q: seq<T>)
    ensures RemoveAt(p + [e] + m + q, |p|) == p + m + q
  {
    var x := p + [e] + m + q;
    assert x[..|p|] == p;
    assert x[|p| + 1..] == m + q;
  }

  /**
   * One step of the removal pass: removing the stale entry at `t[k-1]` from a list
   * whose tail beyond `Cut(k)` is already clean gives the list whose tail beyond
   * `t[k-1]` is clean.
   */
  lemma RemoveStep<T>(s: seq<T>, stale: T -> bool, t: seq<nat>, k: nat)
    requires StaleIndices(s, stale, t)
    requires 0 < k <= |t|
    ensures Cut(s, t, k) <= |s| && t[k - 1] < Cut(s, t, k)
    ensures RemoveAt(s[..Cut(s, t, k)] + Keep(s[Cut(s, t, k)..], stale), t[k - 1])
         == s[..t[k - 1]] + Keep(s[t[k - 1]..], stale)
  {
    var a, c := t[k - 1], Cut(s, t, k);
    FreshBetween(s, stale, t, k);
    var mid := s[a + 1..c];
    assert s[a..] == [s[a]] + mid + s[c..];
    KeepStaleThenFresh(s[a], mid, s[c..], stale);
    assert s[..c] == s[..a] + [s[a]] + mid;
    RemoveAtJoin(s[..a], s[a], mid, Keep(s[c..], stale));
  }

  /** A stale entry followed by fresh ones cleans up to the fresh ones. */
  lemma KeepStaleThenFresh<T>(x: T, mid: seq<T>, rest: seq<T>, stale: T -> bool)
    requires stale(x) && forall i :: 0 <= i < |mid| ==> !stale(mid[i])
    ensures Keep([x] + mid + rest, stale) == mid + Keep(rest, stale)
  {
    KeepAllFresh(mid, stale);
    assert Keep([x], stale) == [];
    KeepAppend([x] + mid, rest, stale);
    KeepAppend([x], mid, stale);
  }

  /** Before the removal pass starts, the list is its own clean-tail form. */
  lemma RemovalStart<T>(s: seq<T>, stale: T -> bool, t: seq<nat>)
    ensures s[..Cut(s, t, |t|)] + Keep(s[Cut(s, t, |t|)..], stale) == s
  {
    assert s[|s|..] == [];
    assert s[..|s|] == s;
  }

  /** When the removal pass ends, the list is `Keep(s)`: the entries before `t[0]` are fresh. */
  lemma RemovalEnd<T>(s: seq<T>, stale: T -> bool, t: seq<nat>)
    requires StaleIndices(s, stale, t)
    ensures Cut(s, t, 0) <= |s|
    ensures s[..Cut(s, t, 0)] + Keep(s[Cut(s, t, 0)..], stale) == Keep(s, stale)
  {
    var c := Cut(s, t, 0);
    var head := s[..c];
    forall j | 0 <= j < c
      ensures !stale(head[j])
    {
      forall m | 0 <= m < |t|
        ensures t[m] != j
      {
        if m > 0 {
          assert t[0] < t[m];
        }
      }
    }
    KeepAllFresh(head, stale);
    assert s == head + s[c..];
    KeepAppend(head, s[c..], stale);
  }
}
