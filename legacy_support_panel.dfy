/** The header of the older support panel, built from the manifest next to the add-on. */
module LegacySupportPanel {
  import opened Wrappers
  import opened Text
  import opened Manifests
  import InfoPanel

  /**
   * `get_version_from_json`, for the parsed manifest (`None` when reading or parsing
   * raised): the version text, with ` (feature)` off `main`; no patch, no "/" trimming.
   */
  function VersionFromJson(m: Option<Manifest>): (r: string)
    ensures m.None? ==> r == "Unknown Version"
    ensures m.Some? ==>
      var version := VersionText(m.value.version.GetOr(VersionList([Str("Unknown")])));
      var feature := m.value.featureName.GetOr("main");
      StartsWith(r, version)
      && (Lower(feature) == "main" <==> |r| == |version|)
      && (Lower(feature) != "main" ==> r[|version|..] == " (" + feature + ")")
  {
    if m.None? then "Unknown Version"
    else
      var version := VersionText(m.value.version.GetOr(VersionList([Str("Unknown")])));
      var feature := m.value.featureName.GetOr("main");
      if Lower(feature) != "main" then version + " (" + feature + ")" else version
  }

  /** `draw_header`: the panel's label. */
  function Header(m: Option<Manifest>): (r: string)
    ensures StartsWith(r, "MekTools ")
  {
    var r := "MekTools " + VersionFromJson(m);
    assert r[..9] == "MekTools ";
    r
  }

  /** The header never depends on the feature patch. */
  lemma HeaderIgnoresPatch(m: Manifest, patch: Option<int>)
    ensures Header(Some(m)) == Header(Some(m.(featurePatch := patch)))
  {
  }

  /**
   * Against the newer panels: a loaded manifest whose feature name holds no "/" gets the
   * same label from both whenever no patch is shown (on `main`, or with patch 0).
   */
  lemma HeaderAgainstNewerLabel(m: Manifest)
    requires Truthy(Some(m)) && !Contains(m.featureName.GetOr("main"), "/")
    requires Lower(m.featureName.GetOr("main")) == "main" || m.featurePatch.GetOr(0) == 0
    ensures Header(Some(m)) == InfoPanel.FormatVersionString(Some(m))
  {
    NewerLabelParts(m);
    HeaderParts(m);
  }

  /** The label the old header would show: the version, then the feature name off `main`. */
  function OldLabel(m: Manifest): string {
    var version := VersionText(m.version.GetOr(VersionList([Str("Unknown")])));
    var name := m.featureName.GetOr("main");
    "MekTools " + version + (if Lower(name) != "main" then " (" + name + ")" else "")
  }

  /** The old header spelled out. */
  lemma HeaderParts(m: Manifest)
    ensures Header(Some(m)) == OldLabel(m)
  {
    var version := VersionText(m.version.GetOr(VersionList([Str("Unknown")])));
    var name := m.featureName.GetOr("main");
    var suffix := if Lower(name) != "main" then " (" + name + ")" else "";
    assert VersionFromJson(Some(m)) == version + suffix;
    ConcatAssoc("MekTools ", version, suffix);
  }

  lemma ConcatAssoc(a: string, b: string, c: string)
    ensures a + (b + c) == a + b + c
  {
  }

  /** The newer label agrees with the old one when no patch is shown and no "/" is cut. */
  lemma NewerLabelParts(m: Manifest)
    requires Truthy(Some(m)) && !Contains(m.featureName.GetOr("main"), "/")
    requires Lower(m.featureName.GetOr("main")) == "main" || m.featurePatch.GetOr(0) == 0
    ensures InfoPanel.FormatVersionString(Some(m)) == OldLabel(m)
  {
    var name := m.featureName.GetOr("main");
    InfoPanel.FormatVersionStringParts(m);
    LastSegmentClean(name);
    if Lower(name) != "main" {
      assert " (" + name + "" + ")" == " (" + name + ")";
    }
  }

  /** On `main` the feature name never holds "/", so both panels agree there. */
  lemma HeaderOnMain(m: Manifest)
    requires Truthy(Some(m)) && Lower(m.featureName.GetOr("main")) == "main"
    ensures Header(Some(m)) == InfoPanel.FormatVersionString(Some(m))
  {
    MainHasNoSlash(m.featureName.GetOr("main"));
    HeaderAgainstNewerLabel(m);
  }

  /** An empty manifest reads "Unknown" here but "Unknown Version" in the newer panels. */
  lemma HeaderOnEmptyManifest()
    ensures var m := Manifest(None, None, None, false);
      Header(Some(m)) == "MekTools Unknown" && InfoPanel.FormatVersionString(Some(m)) == "MekTools Unknown Version"
  {
    assert VersionText(VersionList([Str("Unknown")])) == "Unknown";
  }

  /** A name that lowers to "main" holds no "/". */
  lemma MainHasNoSlash(name: string)
    requires Lower(name) == "main"
    ensures !Contains(name, "/")
  {
    forall i | 0 <= i < |name|
      ensures name[i] != "/"[0]
    {
      assert LowerChar(name[i]) == "main"[i];
    }
    NoCharNoContains(name, "/", 0);
  }
}
