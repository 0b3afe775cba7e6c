/**
 * The part of the host filesystem the script reads and changes, as values:
 * the workshop content directory (one folder per workshop id), the server's
 * mods directory (one entry per `@name`), the server's keys directory (one
 * entry per key file name) and the failed-mods ledger. The environment the
 * script cannot see into (the download tool, the changelog page, the
 * platform's link and copy calls) is a set of oracles.
 */
module FileSystem {
  import opened Base
  import Platform

  /** An entry inside a mod folder: a sub-folder with its listing (in `os.listdir` order) or a plain file. */
  datatype Child = Folder(entries: seq<string>) | File

  /** A folder `WORKSHOP_DIR/<id>` (or a real folder in `MODS_DIR`): its ctime and its entries. */
  datatype Dir = Dir(ctime: int, children: map<string, Child>)

  /** `os.symlink` gives a symbolic link, `mklink /J` a directory junction. */
  datatype LinkKind = Symlink | Junction

  /** What sits at `MODS_DIR/<name>`: a link to `WORKSHOP_DIR/<target>`, a real folder or a plain file. */
  datatype ModEntry = ModLink(kind: LinkKind, target: string) | ModFolder(dir: Dir) | ModFile

  /**
   * Where a key link points: `MODS_DIR/<mod>/<folder>/<file>`, as the script
   * creates them, or some other path, which either exists or does not.
   */
  datatype KeyTarget = ModKey(mod: string, folder: string, file: string) | Outside(path: string, live: bool)

  /** What sits at `KEYS_DIR/<key>`: a symbolic link or a regular file (a copy). */
  datatype KeyEntry = KeyLink(to: KeyTarget) | KeyFile

  /** The real folder a file lives in, after following every link. */
  datatype Location = InWorkshop(id: string) | InMods(name: string)

  /** A file's identity after following links: what `os.path.samefile` compares. */
  datatype FileId = FileId(at: Location, folder: string, file: string) | ExternalFile(path: string)

  /** One observable effect or tool invocation, in the order the script performs them. */
  datatype Op =
    | DeleteLedger
    | AppendLedger(id: string)
    | RemoveInstall(id: string)
    | Fetch(id: string)
    | CreateModLink(name: string, kind: LinkKind, target: string)
    | UnlinkKey(key: string)
    | LinkKey(key: string, to: KeyTarget)
    | CopyKey(key: string, from: KeyTarget)

  /** The installed content: the workshop folders and the mods directory. */
  datatype Content = Content(workshop: map<string, Dir>, mods: map<string, ModEntry>)

  /**
   * Everything the engine reads or writes: the three directories, the text
   * of `failed_mods.txt` (None when the file does not exist), the journal of
   * effects so far and the global `lowercase` flag.
   */
  datatype State = State(
    workshop: map<string, Dir>,
    mods: map<string, ModEntry>,
    keys: map<string, KeyEntry>,
    ledger: Option<string>,
    journal: seq<Op>,
    lowercase: bool)
  {
    function Contents(): Content {
      Content(workshop, mods)
    }
  }

  /**
   * The outside world as oracles. `fetch(n)` is what the download tool leaves
   * at the requested id when it is the `n`-th effect of the run (None: the
   * folder is left as it was); `changelog(id)` is the timestamp matched on
   * the mod's changelog page (None: no match or a request error).
   */
  datatype Env = Env(
    host: Platform.Host,
    maxTries: int,
    changelog: string -> Option<int>,
    fetch: nat -> Option<Dir>,
    modSymlinkOk: string -> bool,
    junctionOk: string -> bool,
    keySymlinkOk: (string, string) -> bool,
    keyCopyOk: (string, string) -> bool)

  /** `(MODS_DIR / name).is_dir()`, following a link: the real folder and where it lives. */
  function ModDir(c: Content, name: string): Option<(Location, Dir)> {
    if name !in c.mods then None
    else match c.mods[name]
      case ModLink(_, id) => if id in c.workshop then Some((InWorkshop(id), c.workshop[id])) else None
      case ModFolder(d) => Some((InMods(name), d))
      case ModFile => None
  }

  /** `(MODS_DIR / name).exists()`: something is there and, if it is a link, its target exists. */
  predicate ModExists(c: Content, name: string) {
    name in c.mods && (c.mods[name].ModLink? ==> c.mods[name].target in c.workshop)
  }

  /** Whether a folder has a sub-folder `name`. */
  predicate IsFolder(d: Dir, name: string) {
    name in d.children && d.children[name].Folder?
  }

  /** The file a key link leads to, or None when the link dangles. */
  function Resolve(c: Content, t: KeyTarget): Option<FileId> {
    match t
    case Outside(p, live) => if live then Some(ExternalFile(p)) else None
    case ModKey(m, f, k) =>
      match ModDir(c, m)
      case None => None
      case Some(found) =>
        var (loc, d) := found;
        if IsFolder(d, f) && k in d.children[f].entries then Some(FileId(loc, f, k)) else None
  }

  /** The key folder of a mod: `keys` when it is a folder, else `key`, with its listing. */
  function KeyFolder(c: Content, name: string): Option<(string, seq<string>)> {
    match ModDir(c, name)
    case None => None
    case Some(found) =>
      var d := found.1;
      if IsFolder(d, "keys") then Some(("keys", d.children["keys"].entries))
      else if IsFolder(d, "key") then Some(("key", d.children["key"].entries))
      else None
  }

  /** A key entry that is a link whose target does not exist. */
  predicate Dangling(c: Content, e: KeyEntry) {
    e.KeyLink? && Resolve(c, e.to).None?
  }

  /** `KEYS_DIR` holds no dangling link. */
  predicate NoDangling(s: State) {
    forall k :: k in s.keys ==> !Dangling(s.Contents(), s.keys[k])
  }

  /** `shutil.rmtree(WORKSHOP_DIR / id)`. */
  function Uninstall(s: State, id: string): State {
    s.(workshop := s.workshop - {id}, journal := s.journal + [RemoveInstall(id)])
  }
}
