/** `os_type()`: the host family, from `os.name` and `sys.platform`. */
module Platform {

  /** The two values `os_type()` inspects. */
  datatype Host = Host(osName: string, sysPlatform: string)

  predicate StartsWith(s: string, prefix: string) {
    |prefix| <= |s| && s[..|prefix|] == prefix
  }

  /** `os_type()`: "Windows", "macOS", "Linux" or "Unknown". */
  function OsType(h: Host): (r: string)
    ensures r == "Windows" || r == "macOS" || r == "Linux" || r == "Unknown"
    ensures r == "Windows" <==> h.osName == "nt"
    ensures r == "macOS" <==> h.osName == "posix" && StartsWith(h.sysPlatform, "darwin")
    ensures r == "Linux" <==> h.osName == "posix" && !StartsWith(h.sysPlatform, "darwin")
  {
    if h.osName == "nt" then "Windows"
    else if h.osName == "posix" then
      if StartsWith(h.sysPlatform, "darwin") then "macOS" else "Linux"
    else "Unknown"
  }

  /** The test the script repeats before its Windows-only fallbacks. */
  predicate IsWindows(h: Host) {
    OsType(h) == "Windows"
  }
}
