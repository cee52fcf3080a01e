/**
 * The support panel of the packaged add-on: its label is built by the same code as the
 * info panel's (`InfoPanel.FormatVersionString`), and its version comparison is forced.
 */
module SupportPanel {
  import opened Wrappers
  import opened Manifests

  /** `compare_versions`: `update_available` is set whatever the manifests say. */
  function UpdateAvailable(local: Option<Manifest>, remote: Option<Manifest>): (r: bool)
    ensures r
  {
    true
  }
}
