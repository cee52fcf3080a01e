/**
 * The add-on's `manifest.json` as the version logic reads it, and the two pieces of
 * Python the panels and the updater rely on: `str()`/`".".join` of a version value and
 * the ordering of tuples built from it.
 */
module Manifests {
  import opened Wrappers
  import opened Text

  /** A JSON scalar that can sit in a version list. */
  datatype Scalar = Int(i: int) | Str(s: string)

  /** A `version` value: a JSON list, or a JSON string. */
  datatype VersionValue = VersionList(items: seq<Scalar>) | VersionString(text: string)

  /**
   * A parsed manifest: the three keys the version logic reads (`None` when absent)
   * and whether the object holds any other key.
   */
  datatype Manifest = Manifest(version: Option<VersionValue>, featureName: Option<string>,
                               featurePatch: Option<int>, otherKeys: bool)

  /** Python's truth value of the loaded manifest: `None` and `{}` are false. */
  predicate Truthy(m: Option<Manifest>) {
    m.Some? && (m.value.version.Some? || m.value.featureName.Some? || m.value.featurePatch.Some? || m.value.otherKeys)
  }

  // ---------------------------------------------------------------- str() and ".".join

  function ScalarText(x: Scalar): string {
    match x
    case Int(i) => IntToString(i)
    case Str(s) => s
  }

  /** `".".join(map(str, v))` for a list, `str(v)` otherwise. */
  function VersionText(v: VersionValue): string {
    match v
    case VersionList(items) => Join(seq(|items|, k requires 0 <= k < |items| => ScalarText(items[k])), ".")
    case VersionString(text) => text
  }

  /** `feature_name.split("/")[-1] if "/" in feature_name else feature_name`. */
  function LastSegment(name: string): string {
    if Contains(name, "/") then var parts := Split(name, "/"); parts[|parts| - 1] else name
  }

  lemma {:induction false} NatToStringNoDot(n: nat, k: nat)
    requires k < |NatToString(n)|
    ensures NatToString(n)[k] != '.' && NatToString(n)[k] != '/'
  {
  }

  /** A number list reads back: splitting its text at "." gives each number's digits, in order. */
  lemma VersionTextSplits(v: seq<nat>)
    requires |v| > 0
    ensures var items := seq(|v|, k requires 0 <= k < |v| => Int(v[k]));
      Split(VersionText(VersionList(items)), ".") == seq(|v|, k requires 0 <= k < |v| => NatToString(v[k]))
  {
    var items := seq(|v|, k requires 0 <= k < |v| => Int(v[k]));
    var parts := seq(|items|, k requires 0 <= k < |items| => ScalarText(items[k]));
    assert parts == seq(|v|, k requires 0 <= k < |v| => NatToString(v[k]));
    forall k, i | 0 <= k < |parts| && 0 <= i < |parts[k]|
      ensures parts[k][i] != "."[0]
    {
      NatToStringNoDot(v[k], i);
    }
    SplitJoin(parts, ".");
  }

  /** The segment kept from a feature name holds no "/", and a name without one is kept whole. */
  lemma LastSegmentClean(name: string)
    ensures !Contains(LastSegment(name), "/")
    ensures !Contains(name, "/") ==> LastSegment(name) == name
  {
    if Contains(name, "/") {
      SplitLastClean(name, "/");
      var parts := Split(name, "/");
      NoSlashNoContains(parts[|parts| - 1]);
    }
  }

  lemma NoSlashNoContains(s: string)
    requires IndexOf(s, "/") == None
    ensures !Contains(s, "/")
  {
    forall i | 0 <= i < |s|
      ensures s[i] != "/"[0]
    {
      if s[i] == '/' {
        assert s[i..i + 1] == "/";
        IndexOfFinds(s, "/", i);
      }
    }
    NoCharNoContains(s, "/", 0);
  }

  /** `IndexOf` finds an occurrence whenever there is one. */
  lemma {:induction false} IndexOfFinds(s: string, sep: string, i: nat)
    requires i + |sep| <= |s| && s[i..i + |sep|] == sep
    ensures IndexOf(s, sep).Some?
    decreases i
  {
    if s[..|sep|] != sep {
      assert i > 0;
      assert s[1..][i - 1..i - 1 + |sep|] == sep;
      IndexOfFinds(s[1..], sep, i - 1);
    }
  }

  // ---------------------------------------------------------------- tuple ordering

  /** The items of `tuple(v)`: a list's elements, or a string's characters. */
  function Items(v: VersionValue): (r: seq<Scalar>) {
    match v
    case VersionList(items) => items
    case VersionString(text) => seq(|text|, k requires 0 <= k < |text| => Str([text[k]]))
  }

  /** `a > b` on strings: code-point order, a proper prefix being smaller. */
  function StringGreater(a: string, b: string): bool
    decreases |a|
  {
    if |a| == 0 then false
    else if |b| == 0 then true
    else if a[0] == b[0] then StringGreater(a[1..], b[1..])
    else a[0] > b[0]
  }

  /** `a > b` on two scalars; an int and a string cannot be ordered (`TypeError`). */
  function ScalarGreater(a: Scalar, b: Scalar): Outcome<bool> {
    match (a, b)
    case (Int(x), Int(y)) => Returned(x > y)
    case (Str(x), Str(y)) => Returned(StringGreater(x, y))
    case _ => Raises
  }

  /** `tuple(a) > tuple(b)`: decided at the first position where the items differ. */
  function TupleGreater(a: seq<Scalar>, b: seq<Scalar>): Outcome<bool>
    decreases |a|
  {
    if |a| == 0 then Returned(false)
    else if |b| == 0 then Returned(true)
    else if a[0] == b[0] then TupleGreater(a[1..], b[1..])
    else ScalarGreater(a[0], b[0])
  }

  /** The length of the longest common prefix. */
  function CommonPrefix(a: seq<Scalar>, b: seq<Scalar>): (d: nat)
    ensures d <= |a| && d <= |b| && a[..d] == b[..d]
    ensures d < |a| && d < |b| ==> a[d] != b[d]
    decreases |a|
  {
    if |a| == 0 || |b| == 0 || a[0] != b[0] then 0
    else
      var d := CommonPrefix(a[1..], b[1..]);
      assert a[..d + 1] == [a[0]] + a[1..][..d];
      assert b[..d + 1] == [b[0]] + b[1..][..d];
      d + 1
  }

  /**
   * Tuple comparison, stated position-wise: equal up to the first difference `d`; then
   * `a` is greater when `b` ran out, not when `a` did, and otherwise as the items at `d` compare.
   */
  lemma {:induction false} TupleGreaterAtDifference(a: seq<Scalar>, b: seq<Scalar>)
    ensures var d := CommonPrefix(a, b);
      TupleGreater(a, b) == if d == |a| then Returned(false) else if d == |b| then Returned(true) else ScalarGreater(a[d], b[d])
    decreases |a|
  {
    if |a| > 0 && |b| > 0 && a[0] == b[0] {
      TupleGreaterAtDifference(a[1..], b[1..]);
    }
  }

  lemma {:induction false} StringGreaterAsymmetric(a: string, b: string)
    ensures !(StringGreater(a, b) && StringGreater(b, a))
    ensures !StringGreater(a, a)
    decreases |a|
  {
    if |a| > 0 && |b| > 0 && a[0] == b[0] {
      StringGreaterAsymmetric(a[1..], b[1..]);
    }
    if |a| > 0 {
      StringGreaterAsymmetric(a[1..], a[1..]);
    }
  }

  /** No tuple is greater than itself. */
  lemma {:induction false} TupleGreaterIrreflexive(a: seq<Scalar>)
    ensures TupleGreater(a, a) == Returned(false)
    decreases |a|
  {
    if |a| > 0 {
      TupleGreaterIrreflexive(a[1..]);
    }
  }

  /** Two tuples are never each greater than the other. */
  lemma {:induction false} TupleGreaterAsymmetric(a: seq<Scalar>, b: seq<Scalar>)
    requires TupleGreater(a, b) == Returned(true)
    ensures TupleGreater(b, a) == Returned(false)
    decreases |a|
  {
    if |b| > 0 && a[0] == b[0] {
      TupleGreaterAsymmetric(a[1..], b[1..]);
    } else if |b| > 0 && a[0].Str? {
      StringGreaterAsymmetric(a[0].s, b[0].s);
    }
  }

  predicate AllInts(a: seq<Scalar>) {
    forall k :: 0 <= k < |a| ==> a[k].Int?
  }

  /** Lists of numbers always compare, and two different ones compare one way or the other. */
  lemma {:induction false} TupleGreaterTotal(a: seq<Scalar>, b: seq<Scalar>)
    requires AllInts(a) && AllInts(b)
    ensures TupleGreater(a, b).Returned? && TupleGreater(b, a).Returned?
    ensures a != b ==> TupleGreater(a, b) == Returned(true) || TupleGreater(b, a) == Returned(true)
    decreases |a|
  {
    if |a| > 0 && |b| > 0 {
      TupleGreaterTotal(a[1..], b[1..]);
      if a[0] == b[0] && a != b {
        assert a == [a[0]] + a[1..] && b == [b[0]] + b[1..];
      }
    }
  }
}
