/**
 * Save-format versions: get_save_version maps a firmware version string to
 * a save-format number, update_save_version compares the version stored in
 * flash with the running firmware's and dispatches the (stub) migration.
 * Both version strings are parameters here.
 */
module Versions {

  /** The one firmware release with save format 2. */
  const SAVE_V2_RELEASE: string := "1.1.0"

  /** get_save_version: 2 for "1.1.0", 1 for every other string. */
  function GetSaveVersion(version: string): (v: int)
    ensures v == 1 || v == 2
    ensures v == 2 <==> version == SAVE_V2_RELEASE
  {
    if version == SAVE_V2_RELEASE then 2 else 1
  }

  /**
   * update_save_version: 1 ("migration needed") exactly when flash holds a
   * format-1 marker while the firmware expects format 2; 0 when the formats
   * agree or flash is ahead (the default arm of the dispatch).
   */
  function UpdateSaveVersion(flashVersion: string, firmwareVersion: string): (r: int)
    ensures r == 0 || r == 1
    ensures r == 1 <==> flashVersion != SAVE_V2_RELEASE && firmwareVersion == SAVE_V2_RELEASE
  {
    var version := GetSaveVersion(flashVersion);
    if version == GetSaveVersion(firmwareVersion) then 0
    else match version
      case 1 => 1
      case _ => 0
  }
}
