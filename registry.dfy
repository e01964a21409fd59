/** The process-wide "HEIF opener registered" flag (`_HEIF_REGISTERED`, `_ensure_heif_registered`). */
module Registry {
  import opened Wrappers

  /** The RuntimeError raised when the pillow-heif plugin cannot be imported ("pillow-heif is
      missing; to convert HEIC files install the package: pip install pillow-heif"). */
  const DependencyMissingMessage: string := "Brak zależności pillow-heif. Aby przekonwertować pliki HEIC, zainstaluj pakiet:\n    pip install pillow-heif"

  class HeifRegistry {
    var registered: bool

    /** The flag at import time. */
    constructor ()
      ensures !registered
    {
      registered := false;
    }

    /** Registers the opener at most once per process; `pluginInstalled` says whether importing
        the plugin would succeed. A failed attempt leaves the flag down, so a later call tries again. */
    method EnsureRegistered(pluginInstalled: bool) returns (r: Outcome<string>)
      modifies this
      ensures old(registered) ==> r == Pass && registered
      ensures !old(registered) && pluginInstalled ==> r == Pass && registered
      ensures !old(registered) && !pluginInstalled ==> r == Fail(DependencyMissingMessage) && !registered
    {
      if registered {
        return Pass;
      }
      if !pluginInstalled {
        return Fail(DependencyMissingMessage);
      }
      registered := true;
      r := Pass;
    }
  }
}
