/**
 * The update check of the older add-on: whether the remote manifest of the local
 * feature branch is newer, and so whether the update pop-up is scheduled.
 */
module UpdateCheck {
  import opened Wrappers
  import opened Manifests

  /**
   * `compare_versions(local, remote)`: on `main` and `dev` the version tuples decide;
   * on any other feature, a missing one included, only the feature patches do.
   */
  function CompareVersions(local: Manifest, remote: Manifest): (r: Outcome<bool>)
    ensures var feature := local.featureName.GetOr("");
      feature != "main" && feature != "dev" ==>
        r.Returned? && (r.value <==> remote.featurePatch.GetOr(0) > local.featurePatch.GetOr(0))
    ensures var feature := local.featureName.GetOr("");
      var rv, lv := Items(remote.version.GetOr(Zero)), Items(local.version.GetOr(Zero));
      var d := CommonPrefix(rv, lv);
      feature == "main" || feature == "dev" ==>
        (r.Raises? <==> d < |rv| && d < |lv| && rv[d].Int? != lv[d].Int?)
        && (r == Returned(true) <==> d < |rv| && (d == |lv| || ScalarGreater(rv[d], lv[d]) == Returned(true)))
  {
    var feature := local.featureName.GetOr("");
    if feature == "main" || feature == "dev" then
      var rv, lv := Items(remote.version.GetOr(Zero)), Items(local.version.GetOr(Zero));
      TupleGreaterAtDifference(rv, lv);
      TupleGreater(rv, lv)
    else Returned(remote.featurePatch.GetOr(0) > local.featurePatch.GetOr(0))
  }

  /** The version read when the manifest has none. */
  const Zero := VersionList([Int(0), Int(0), Int(0)])

  /**
   * `check_for_updates`, with the network fetch of a branch's manifest as `fetch`:
   * `Some(branch)` when the pop-up for that branch is scheduled.
   */
  function CheckForUpdates(local: Option<Manifest>, fetch: string -> Option<Manifest>): (r: Outcome<Option<string>>)
    ensures !Truthy(local) ==> r == Returned(None)
    ensures Truthy(local) ==>
      var branch := local.value.featureName.GetOr("main");
      (!Truthy(fetch(branch)) ==> r == Returned(None))
      && (Truthy(fetch(branch)) ==>
            var c := CompareVersions(local.value, fetch(branch).value);
            (r.Raises? <==> c.Raises?)
            && (r == Returned(Some(branch)) <==> c == Returned(true))
            && (r == Returned(None) <==> c == Returned(false)))
  {
    if !Truthy(local) then Returned(None)
    else
      var branch := local.value.featureName.GetOr("main");
      var remote := fetch(branch);
      if !Truthy(remote) then Returned(None)
      else match CompareVersions(local.value, remote.value) {
        case Raises => Raises
        case Returned(newer) => Returned(if newer then Some(branch) else None)
      }
  }

  /**
   * A pop-up is scheduled only for the local manifest's branch (`main` when unnamed), and
   * only when both manifests are there and the comparison says the remote is newer.
   */
  lemma PopupOnlyWhenNewer(local: Option<Manifest>, fetch: string -> Option<Manifest>)
    requires CheckForUpdates(local, fetch) != Returned(None)
    ensures CheckForUpdates(local, fetch).Returned? ==>
      var branch := CheckForUpdates(local, fetch).value.value;
      Truthy(local) && branch == local.value.featureName.GetOr("main") && Truthy(fetch(branch))
      && CompareVersions(local.value, fetch(branch).value) == Returned(true)
  {
  }

  /** Off `main` and `dev` the version numbers play no part; on them the patches play none. */
  lemma CompareIgnores(local: Manifest, remote: Manifest, version: Option<VersionValue>, patch: Option<int>)
    ensures var feature := local.featureName.GetOr("");
      (feature != "main" && feature != "dev" ==>
        CompareVersions(local, remote) == CompareVersions(local.(version := version), remote.(version := version))
        && CompareVersions(local, remote) == CompareVersions(local, remote.(version := version)))
      && (feature == "main" || feature == "dev" ==>
        CompareVersions(local, remote) == CompareVersions(local.(featurePatch := patch), remote.(featurePatch := patch))
        && CompareVersions(local, remote) == CompareVersions(local, remote.(featurePatch := patch)))
  {
  }

  /**
   * A manifest without a feature name fetches the `main` manifest, yet the comparison
   * then reads only the feature patches: a newer `main` version with an equal patch
   * schedules no pop-up.
   */
  lemma UnnamedFeatureComparesPatches()
    ensures var local := Manifest(Some(VersionList([Int(1), Int(0), Int(0)])), None, None, false);
      var remote := Manifest(Some(VersionList([Int(2), Int(0), Int(0)])), Some("main"), None, false);
      CheckForUpdates(Some(local), (b: string) => if b == "main" then Some(remote) else None) == Returned(None)
  {
  }

  /** On `main` and `dev` an update is never announced both ways, nor over the same version. */
  lemma CompareOneWay(local: Manifest, remote: Manifest)
    requires local.featureName == remote.featureName && local.featureName.GetOr("") in {"main", "dev"}
    requires CompareVersions(local, remote) == Returned(true)
    ensures CompareVersions(remote, local) == Returned(false)
    ensures CompareVersions(local, local) == Returned(false)
  {
    TupleGreaterAsymmetric(Items(remote.version.GetOr(Zero)), Items(local.version.GetOr(Zero)));
    TupleGreaterIrreflexive(Items(local.version.GetOr(Zero)));
  }
}
