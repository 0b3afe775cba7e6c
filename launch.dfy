/**
 * `print_launch_params`: one line per collected mod name, each the path
 * `MODS_DIR/<name>` taken relative to `SERVER_DIR`, followed by the
 * separator the server's `-mod=` parameter needs on the host: `;` on
 * Windows and the shell-escaped `\;` elsewhere.
 */
module LaunchParams {
  import opened Base
  import opened Text
  import Platform

  /** A configured path: its anchor (drive and root, or "/" or "") and its parts, as `pathlib` splits it. */
  datatype Path = Path(anchor: string, parts: seq<string>)

  /** What a call ends with: no mod names, a mods directory outside the server root (`ValueError`), or the text written to `ModsParam.txt`. */
  datatype Outcome = NoMods | NotUnderServer | Written(text: string)

  /** The form in which `pathlib` compares parts: case-folded on Windows, exact elsewhere. */
  function Norm(s: string, windows: bool): string {
    if windows then AsciiLower(s) else s
  }

  predicate SamePart(a: string, b: string, windows: bool) {
    Norm(a, windows) == Norm(b, windows)
  }

  /** `p.relative_to(base)`: the parts after `base`, or None when `p` is not below it. */
  function RelativeTo(p: Path, base: Path, windows: bool): (r: Option<seq<string>>)
    ensures r.Some? <==>
      SamePart(p.anchor, base.anchor, windows) && |base.parts| <= |p.parts|
      && forall i :: 0 <= i < |base.parts| ==> SamePart(p.parts[i], base.parts[i], windows)
    ensures r.Some? ==> r.value == p.parts[|base.parts|..]
  {
    if SamePart(p.anchor, base.anchor, windows) && |base.parts| <= |p.parts|
      && forall i :: 0 <= i < |base.parts| ==> SamePart(p.parts[i], base.parts[i], windows)
    then Some(p.parts[|base.parts|..])
    else None
  }

  /** The separator `str()` puts between the parts of a relative path. */
  function PathSep(windows: bool): char {
    if windows then '\\' else '/'
  }

  /** `str()` of a relative path with the given parts (a mod name is never empty). */
  function JoinParts(parts: seq<string>, sep: char): (r: string)
    ensures parts != [] ==> |r| >= |parts[|parts| - 1]|
  {
    if |parts| == 0 then []
    else if |parts| == 1 then parts[0]
    else JoinParts(parts[..|parts| - 1], sep) + [sep] + parts[|parts| - 1]
  }

  /** The separator after each line: `;` on Windows, `\;` elsewhere. */
  function LineEnd(windows: bool): string {
    if windows then ";" else "\\;"
  }

  /** One launch line: `str(rel_path / name)` followed by the separator. */
  function LaunchLine(rel: seq<string>, name: string, windows: bool): string {
    JoinParts(rel + [name], PathSep(windows)) + LineEnd(windows)
  }

  /** All launch lines, in the order of the mod names. */
  function LaunchLines(rel: seq<string>, names: seq<string>, windows: bool): (r: seq<string>)
    ensures |r| == |names|
  {
    seq(|names|, i requires 0 <= i < |names| => LaunchLine(rel, names[i], windows))
  }

  /** `print_launch_params()`: what it ends with, given `A3Modnames`, `MODS_DIR`, `SERVER_DIR` and the host. */
  function Launch(names: seq<string>, modsDir: Path, serverDir: Path, host: Platform.Host): (r: Outcome)
    ensures r == NoMods <==> names == []
    ensures r == NotUnderServer <==> names != [] && RelativeTo(modsDir, serverDir, Platform.IsWindows(host)).None?
  {
    if names == [] then NoMods
    else
      var windows := Platform.IsWindows(host);
      match RelativeTo(modsDir, serverDir, windows)
      case None => NotUnderServer
      case Some(rel) => Written(JoinLines(LaunchLines(rel, names, windows)))
  }

  /** Taking a path below `base` relative to `base` gives back the added parts. */
  lemma RelativeToBelow(base: Path, rel: seq<string>, windows: bool)
    ensures RelativeTo(Path(base.anchor, base.parts + rel), base, windows) == Some(rel)
  {
    var p := Path(base.anchor, base.parts + rel);
    assert forall i :: 0 <= i < |base.parts| ==> p.parts[i] == base.parts[i];
    assert p.parts[|base.parts|..] == rel;
  }

  /** A joined path holds a line break only where one of its parts does. */
  lemma {:induction false} JoinPartsNoBreak(parts: seq<string>, sep: char)
    requires !IsBreak(sep)
    requires forall i :: 0 <= i < |parts| ==> NoBreak(parts[i])
    ensures NoBreak(JoinParts(parts, sep))
    decreases |parts|
  {
    if |parts| > 1 {
      var init := parts[..|parts| - 1];
      forall i | 0 <= i < |init|
        ensures NoBreak(init[i])
      {
        assert init[i] == parts[i];
      }
      JoinPartsNoBreak(init, sep);
    }
  }

  /** The joined path ends with its last part. */
  lemma JoinPartsEndsWith(parts: seq<string>, sep: char)
    requires parts != []
    ensures var r := JoinParts(parts, sep); var w := parts[|parts| - 1];
      r[|r| - |w|..] == w
  {
  }

  /**
   * Reading `ModsParam.txt` back line by line gives one line per mod name,
   * in order: the relative path of its folder, then the separator.
   */
  lemma LaunchReadBack(names: seq<string>, modsDir: Path, serverDir: Path, host: Platform.Host)
    requires names != []
    requires forall i :: 0 <= i < |names| ==> NoBreak(names[i])
    requires forall i :: 0 <= i < |modsDir.parts| ==> NoBreak(modsDir.parts[i])
    ensures Launch(names, modsDir, serverDir, host).Written? ==>
      var windows := Platform.IsWindows(host);
      var rel := modsDir.parts[|serverDir.parts|..];
      var ls := Lines(Launch(names, modsDir, serverDir, host).text);
      && |ls| == |names|
      && forall i :: 0 <= i < |names| ==>
        ls[i] == JoinParts(rel + [names[i]], PathSep(windows)) + LineEnd(windows)
  {
    var windows := Platform.IsWindows(host);
    if RelativeTo(modsDir, serverDir, windows).Some? {
      var rel := modsDir.parts[|serverDir.parts|..];
      var ls := LaunchLines(rel, names, windows);
      forall i | 0 <= i < |ls|
        ensures NoBreak(ls[i])
      {
        var parts := rel + [names[i]];
        forall j | 0 <= j < |parts|
          ensures NoBreak(parts[j])
        {
          if j < |rel| {
            assert parts[j] == modsDir.parts[|serverDir.parts| + j];
          }
        }
        JoinPartsNoBreak(parts, PathSep(windows));
        assert ls[i] == JoinParts(parts, PathSep(windows)) + LineEnd(windows);
      }
      LinesJoinLines(ls);
    }
  }

  /** Every line ends with the host's separator, whatever the names. */
  lemma LaunchLineEnds(rel: seq<string>, name: string, windows: bool)
    ensures var l := LaunchLine(rel, name, windows);
      |l| >= |name| + |LineEnd(windows)| && l[|l| - |LineEnd(windows)|..] == LineEnd(windows)
      && l[|l| - |LineEnd(windows)| - |name|..|l| - |LineEnd(windows)|] == name
  {
    var p := JoinParts(rel + [name], PathSep(windows));
    JoinPartsEndsWith(rel + [name], PathSep(windows));
    var l := p + LineEnd(windows);
    assert l[|l| - |LineEnd(windows)|..] == LineEnd(windows);
    assert l[|l| - |LineEnd(windows)| - |name|..|l| - |LineEnd(windows)|] == p[|p| - |name|..];
  }

  /** When the mods directory lies below the server root, the file holds the joined launch lines. */
  lemma LaunchWritten(names: seq<string>, modsDir: Path, serverDir: Path, host: Platform.Host, rel: seq<string>)
    requires names != [] && RelativeTo(modsDir, serverDir, Platform.IsWindows(host)) == Some(rel)
    ensures Launch(names, modsDir, serverDir, host) == Written(JoinLines(LaunchLines(rel, names, Platform.IsWindows(host))))
  {
  }

  /** On Linux, with `MODS_DIR` = `/srv/arma3/mods` and `SERVER_DIR` = `/srv/arma3`, the file reads `mods/@CBA_A3\;` then `mods/@ace\;`. */
  lemma LinuxExample()
    ensures Launch(["@CBA_A3", "@ace"], Path("/", ["srv", "arma3", "mods"]), Path("/", ["srv", "arma3"]), Platform.Host("posix", "linux"))
      == Written("mods/@CBA_A3\\;\nmods/@ace\\;")
  {
    var host := Platform.Host("posix", "linux");
    assert !Platform.IsWindows(host) by {
      assert "posix"[0] != "nt"[0];
    }
    LinuxBelow();
    LaunchWritten(["@CBA_A3", "@ace"], Path("/", ["srv", "arma3", "mods"]), Path("/", ["srv", "arma3"]), host, ["mods"]);
    LinuxLines();
    JoinTwoLines("mods/@CBA_A3\\;", "mods/@ace\\;");
  }

  /** The two Linux lines of the example. */
  lemma LinuxLines()
    ensures LaunchLines(["mods"], ["@CBA_A3", "@ace"], false) == ["mods/@CBA_A3\\;", "mods/@ace\\;"]
  {
    var first := LinuxLine("@CBA_A3");
    var second := LinuxLine("@ace");
    assert first == "mods/@CBA_A3\\;";
    assert second == "mods/@ace\\;";
  }

  /** Two lines are joined with one line break between them. */
  lemma JoinTwoLines(a: string, b: string)
    ensures JoinLines([a, b]) == a + "\n" + b
  {
    assert [a, b][1..] == [b];
  }

  /** `/srv/arma3/mods` lies below `/srv/arma3`, with `mods` left over. */
  lemma LinuxBelow()
    ensures RelativeTo(Path("/", ["srv", "arma3", "mods"]), Path("/", ["srv", "arma3"]), false) == Some(["mods"])
  {
    var serverDir := Path("/", ["srv", "arma3"]);
    assert ["srv", "arma3", "mods"] == serverDir.parts + ["mods"];
    RelativeToBelow(serverDir, ["mods"], false);
  }

  /** One Linux line for a mods directory `mods` below the server root. */
  lemma LinuxLine(name: string) returns (line: string)
    ensures line == LaunchLine(["mods"], name, false) == "mods/" + name + "\\;"
  {
    line := LaunchLine(["mods"], name, false);
    var parts := ["mods"] + [name];
    assert parts[..1] == ["mods"] && parts[1] == name;
    assert JoinParts(parts, '/') == "mods" + ['/'] + name;
  }

  /** On Windows the drive letter and folders match whatever their case, and the path uses backslashes. */
  lemma WindowsExample()
    ensures Launch(["@CBA_A3"], Path("C:\\", ["Arma3", "Mods"]), Path("c:\\", ["arma3"]), Platform.Host("nt", "win32"))
      == Written("Mods\\@CBA_A3;")
  {
    assert Platform.IsWindows(Platform.Host("nt", "win32"));
    WindowsBelow();
    var rel := ["Mods"];
    var parts := rel + ["@CBA_A3"];
    assert parts[..1] == rel && parts[1] == "@CBA_A3";
    assert JoinParts(parts, '\\') == "Mods" + ['\\'] + "@CBA_A3";
    var line := LaunchLine(rel, "@CBA_A3", true);
    assert line == "Mods\\@CBA_A3;";
    assert LaunchLines(rel, ["@CBA_A3"], true) == [line];
  }

  /** `C:\Arma3\Mods` lies below `c:\arma3` on Windows, with `Mods` left over. */
  lemma WindowsBelow()
    ensures RelativeTo(Path("C:\\", ["Arma3", "Mods"]), Path("c:\\", ["arma3"]), true) == Some(["Mods"])
  {
    assert AsciiLower("C:\\") == "c:\\" == AsciiLower("c:\\");
    assert AsciiLower("Arma3") == "arma3" == AsciiLower("arma3");
    assert ["Arma3", "Mods"][1..] == ["Mods"];
  }

  /** A mods directory that is not below the server root makes the call fail. */
  lemma OutsideExample()
    ensures Launch(["@ace"], Path("/", ["opt", "mods"]), Path("/", ["srv", "arma3"]), Platform.Host("posix", "linux"))
      == NotUnderServer
  {
    assert "opt"[0] != "srv"[0];
    assert !SamePart(["opt", "mods"][0], ["srv", "arma3"][0], false);
  }
}
