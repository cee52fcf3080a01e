/** Name generation and guarded hiding shared by the add-on's operators (mektools/libs/helper.py). */
module Helper {
  import opened Text
  import opened Wrappers
  import opened SceneState

  /** The `k`-th numbered variant of `base`: `base.001`, `base.002`, … */
  function Candidate(base: string, k: nat): string {
    base + "." + Pad3(k)
  }

  /** Different indices give different candidates, so the search below cannot cycle. */
  lemma CandidateInjective(base: string, a: nat, b: nat)
    requires Candidate(base, a) == Candidate(base, b)
    ensures a == b
  {
    assert Pad3(a) == Candidate(base, a)[|base| + 1..];
    assert Pad3(b) == Candidate(base, b)[|base| + 1..];
    Pad3Injective(a, b);
  }

  /** The candidates with indices 1..n, as a set. */
  function CandidatesUpTo(base: string, n: nat): set<string> {
    set k | 1 <= k <= n :: Candidate(base, k)
  }

  lemma {:induction false} CandidatesUpToSize(base: string, n: nat)
    ensures |CandidatesUpTo(base, n)| == n
    decreases n
  {
    if n > 0 {
      CandidatesUpToSize(base, n - 1);
      assert CandidatesUpTo(base, n) == CandidatesUpTo(base, n - 1) + {Candidate(base, n)};
      if Candidate(base, n) in CandidatesUpTo(base, n - 1) {
        var k :| 1 <= k <= n - 1 && Candidate(base, k) == Candidate(base, n);
        CandidateInjective(base, k, n);
      }
    }
  }

  /** A finite set cannot hold more than |existing| distinct candidates. */
  lemma TakenCandidatesBounded(base: string, existing: set<string>, n: nat)
    requires forall k :: 1 <= k <= n ==> Candidate(base, k) in existing
    ensures n <= |existing|
  {
    CandidatesUpToSize(base, n);
    assert CandidatesUpTo(base, n) <= existing;
    SubsetCardinality(CandidatesUpTo(base, n), existing);
  }

  lemma SubsetCardinality<T>(a: set<T>, b: set<T>)
    requires a <= b
    ensures |a| <= |b|
  {
    assert b == a + (b - a);
  }

  /**
   * `get_unique_name`: `base` itself when free, otherwise the first free numbered
   * variant, counting from 1.
   */
  method GetUniqueName(base: string, existing: set<string>) returns (r: string)
    ensures r !in existing
    ensures base !in existing ==> r == base
    ensures base in existing ==>
      exists k: nat :: 1 <= k && r == Candidate(base, k) &&
        forall j :: 1 <= j < k ==> Candidate(base, j) in existing
  {
    if base !in existing {
      return base;
    }
    var index: nat := 1;
    while Candidate(base, index) in existing
      invariant 1 <= index
      invariant forall j :: 1 <= j < index ==> Candidate(base, j) in existing
      invariant index - 1 <= |existing|
      decreases |existing| - (index - 1)
    {
      TakenCandidatesBounded(base, existing, index);
      index := index + 1;
    }
    r := Candidate(base, index);
  }

  /** The hidden set after `obj.hide_set(...)` on an object of the view layer. */
  function HideSet(hidden: set<ObjId>, o: ObjId, doHide: bool): (r: set<ObjId>)
    ensures o in r <==> doHide
    ensures forall x :: x != o ==> (x in r <==> x in hidden)
  {
    if doHide then hidden + {o} else hidden - {o}
  }

  /**
   * `safe_hide_set`: hides or shows `obj` only when there is one and it belongs to the
   * view layer (objects are identified by id; Blender's object names are unique, so
   * the source's test by name is the same test).
   */
  method SafeHideSet(sc: Scene, obj: Option<ObjId>, doHide: bool)
    modifies sc`hidden
    ensures sc.hidden == if obj.Some? && obj.value in sc.viewLayer
                         then HideSet(old(sc.hidden), obj.value, doHide) else old(sc.hidden)
  {
    if obj.Some? && obj.value in sc.viewLayer {
      sc.hidden := HideSet(sc.hidden, obj.value, doHide);
    }
  }
}
