/** The filesystem as the core observes it: which paths exist, which are
    directories (readable or not, with their listing), what the files
    contain, and what `realpath` answers. Nothing here performs I/O; a
    `Host` value stands for the state of the machine during one call. */
module HostFs {
  import opened Wrappers
  import opened Paths

  /** A file (its text, or `None` when reading it fails) or a directory
      (whether it may be read, and the names `readdir` lists, in order). */
  datatype Entry = File(content: Option<string>) | Dir(readable: bool, names: seq<string>)

  /** `realpath` answers only for the paths in its map; `cwd` and `home`
      are `process.cwd()` and `os.homedir()`. */
  datatype Host = Host(fs: map<Path, Entry>, realpath: map<Path, Path>, cwd: Path, home: Path)

  /** `fs.access(p)`: the path exists (file or directory). */
  predicate FileExists(h: Host, p: Path) {
    p in h.fs
  }

  /** `fs.stat(p)` succeeds and `isDirectory()` holds. */
  predicate DirectoryExists(h: Host, p: Path) {
    p in h.fs && h.fs[p].Dir?
  }

  /** A directory that also passes `fs.access(p, R_OK)`. */
  predicate ReadableDirectory(h: Host, p: Path) {
    DirectoryExists(h, p) && h.fs[p].readable
  }

  /** `fs.readFile(p, "utf8")`, or `None` where it throws. */
  function ReadFile(h: Host, p: Path): Option<string> {
    if p in h.fs && h.fs[p].File? then h.fs[p].content else None
  }

  /** `readdirSync(p)`, or nothing where it throws. */
  function ReadDir(h: Host, p: Path): seq<string> {
    if ReadableDirectory(h, p) then h.fs[p].names else []
  }

  /** `fs.realpath(p)`, or `None` where it throws. */
  function Realpath(h: Host, p: Path): Option<Path> {
    if p in h.realpath then Some(h.realpath[p]) else None
  }

  /** What the operating system guarantees: the working and home
      directories and every answer of `realpath` are normalized absolute
      paths. */
  ghost predicate WellFormedHost(h: Host) {
    && ValidPath(h.cwd) && ValidPath(h.home)
    && forall p :: p in h.realpath ==> ValidPath(h.realpath[p])
  }
}
