/**
 * The info panel's version label and update flag, computed from the local and the
 * remote manifest (reading and fetching them is left to the caller).
 */
module InfoPanel {
  import opened Wrappers
  import opened Text
  import opened Manifests

  const UnknownLabel := "MekTools Unknown Version"

  /** The part after the version: nothing on `main`, else ` (name)` or ` (name.patch)`. */
  function FeatureSuffix(name: string, patch: int): string {
    if Lower(name) == "main" then ""
    else " (" + name + (if patch != 0 && Lower(name) != "dev" then "." + IntToString(patch) else "") + ")"
  }

  /** `format_version_string`, for the manifest the caller loaded (`None` when loading failed). */
  function FormatVersionString(m: Option<Manifest>): (r: string)
    ensures !Truthy(m) ==> r == UnknownLabel
    ensures StartsWith(r, "MekTools ")
  {
    if !Truthy(m) then UnknownLabel
    else
      var name := LastSegment(m.value.featureName.GetOr("main"));
      var shown := "MekTools " + VersionText(m.value.version.GetOr(VersionList([Str("Unknown")])))
        + FeatureSuffix(name, m.value.featurePatch.GetOr(0));
      assert shown[..9] == "MekTools ";
      shown
  }

  /**
   * What the label shows of a loaded manifest: the version text, then the suffix of the
   * last "/"-segment of the feature name, a segment that holds no "/".
   */
  lemma FormatVersionStringParts(m: Manifest)
    requires Truthy(Some(m))
    ensures var name := LastSegment(m.featureName.GetOr("main"));
      var version := VersionText(m.version.GetOr(VersionList([Str("Unknown")])));
      !Contains(name, "/") && FormatVersionString(Some(m)) == "MekTools " + version + FeatureSuffix(name, m.featurePatch.GetOr(0))
  {
    LastSegmentClean(m.featureName.GetOr("main"));
  }

  /** `compare_versions(local, remote)`: the value `update_available` ends with. */
  function UpdateAvailable(local: Option<Manifest>, remote: Option<Manifest>): (r: Outcome<bool>)
    ensures !Truthy(local) || !Truthy(remote) ==> r == Returned(false)
  {
    if !Truthy(local) || !Truthy(remote) then Returned(false)
    else
      var zero := VersionList([Int(0), Int(0), Int(0)]);
      var lv, rv := Items(local.value.version.GetOr(zero)), Items(remote.value.version.GetOr(zero));
      match TupleGreater(rv, lv)
      case Raises => Raises
      case Returned(newer) =>
        if newer then Returned(true)
        else if rv == lv then
          Returned(local.value.featureName.GetOr("main") == remote.value.featureName.GetOr("main")
                   && remote.value.featurePatch.GetOr(0) > local.value.featurePatch.GetOr(0))
        else Returned(false)
  }

  /** Numeric versions; a missing version reads as `[0, 0, 0]`. */
  predicate NumericVersion(m: Manifest) {
    m.version.None? || (m.version.value.VersionList? && AllInts(m.version.value.items))
  }

  /** A manifest never announces an update over itself. */
  lemma NoUpdateOverItself(m: Manifest)
    ensures UpdateAvailable(Some(m), Some(m)) == Returned(false)
  {
    TupleGreaterIrreflexive(Items(m.version.GetOr(VersionList([Int(0), Int(0), Int(0)]))));
  }

  /** An update is never announced in both directions, and numeric versions never raise. */
  lemma UpdateOneWay(local: Manifest, remote: Manifest)
    requires NumericVersion(local) && NumericVersion(remote)
    ensures UpdateAvailable(Some(local), Some(remote)).Returned?
    ensures UpdateAvailable(Some(local), Some(remote)) == Returned(true) ==>
      UpdateAvailable(Some(remote), Some(local)) == Returned(false)
  {
    var zero := VersionList([Int(0), Int(0), Int(0)]);
    var lv, rv := Items(local.version.GetOr(zero)), Items(remote.version.GetOr(zero));
    TupleGreaterTotal(rv, lv);
    if TupleGreater(rv, lv) == Returned(true) {
      TupleGreaterAsymmetric(rv, lv);
    }
  }

  /**
   * The update rule through the first differing version number: a newer remote version
   * always announces an update; an older one never does; equal versions defer to the
   * feature patch on the same feature.
   */
  lemma UpdateByFirstDifference(local: Manifest, remote: Manifest)
    requires Truthy(Some(local)) && Truthy(Some(remote)) && NumericVersion(local) && NumericVersion(remote)
    ensures var zero := VersionList([Int(0), Int(0), Int(0)]);
      var lv, rv := Items(local.version.GetOr(zero)), Items(remote.version.GetOr(zero));
      var d := CommonPrefix(rv, lv);
      var r := UpdateAvailable(Some(local), Some(remote));
      (d < |rv| && d < |lv| ==> r == Returned(rv[d].i > lv[d].i))
      && (d == |lv| < |rv| ==> r == Returned(true))
      && (d == |rv| < |lv| ==> r == Returned(false))
      && (rv == lv ==> r == Returned(local.featureName.GetOr("main") == remote.featureName.GetOr("main")
                                     && remote.featurePatch.GetOr(0) > local.featurePatch.GetOr(0)))
  {
    var zero := VersionList([Int(0), Int(0), Int(0)]);
    var lv, rv := Items(local.version.GetOr(zero)), Items(remote.version.GetOr(zero));
    TupleGreaterAtDifference(rv, lv);
    var d := CommonPrefix(rv, lv);
    if d == |rv| && d == |lv| {
      assert rv == rv[..d] && lv == lv[..d];
    }
    if rv == lv {
      TupleGreaterIrreflexive(rv);
    }
  }
}
