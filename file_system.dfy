/**
 * The filesystem as the logger sees it: a set of existing folders, text files
 * keyed by (folder, name), and zip archives keyed the same way, each archive a
 * map from entry name to entry contents. `Disk` holds that state and offers
 * the primitive operations the logger calls (`mkdir`, writing a file, opening
 * one for append, `rename`, `remove`, and creating, closing, removing and
 * renaming archives).
 */
module FileSystem {

  datatype Path = Path(dir: string, name: string)

  /** The contents of a zip file: entry name to entry bytes (text here). */
  type Archive = map<string, string>

  datatype DiskState = DiskState(dirs: set<string>, files: map<Path, string>, archives: map<Path, Archive>)

  /** Every file and archive lives in an existing folder. */
  ghost predicate WellFormed(s: DiskState) {
    (forall p | p in s.files :: p.dir in s.dirs) && (forall p | p in s.archives :: p.dir in s.dirs)
  }

  /** The names of the text files in one folder. */
  function DirNames(files: map<Path, string>, dir: string): (r: set<string>)
    ensures forall n :: n in r <==> Path(dir, n) in files
  {
    var r := set p | p in files && p.dir == dir :: p.name;
    assert forall n :: Path(dir, n) in files ==> Path(dir, n).name in r;
    r
  }

  /** The paths of the named files of one folder. */
  function PathsIn(dir: string, names: set<string>): (r: set<Path>)
    ensures forall p :: p in r <==> p.dir == dir && p.name in names
  {
    set n | n in names :: Path(dir, n)
  }

  class Disk {
    var dirs: set<string>
    var files: map<Path, string>
    var archives: map<Path, Archive>

    function State(): DiskState
      reads this
    {
      DiskState(dirs, files, archives)
    }

    ghost predicate Valid()
      reads this
    {
      WellFormed(State())
    }

    constructor (s: DiskState)
      ensures State() == s
    {
      dirs, files, archives := s.dirs, s.files, s.archives;
    }

    /** `mkdir(parents=True, exist_ok=True)` of one folder. */
    method MakeDir(d: string)
      requires Valid()
      modifies this
      ensures Valid()
      ensures State() == old(State()).(dirs := old(dirs) + {d})
    {
      dirs := dirs + {d};
    }

    /** `open(p, "w").write(text)`: creates or truncates `p`, then writes `text`. */
    method WriteText(p: Path, text: string)
      requires Valid() && p.dir in dirs
      modifies this
      ensures Valid()
      ensures State() == old(State()).(files := old(files)[p := text])
    {
      files := files[p := text];
    }

    /** `open(p, "a")`: creates `p` empty when it does not exist, otherwise leaves it. */
    method OpenForAppend(p: Path)
      requires Valid() && p.dir in dirs
      modifies this
      ensures Valid()
      ensures State() == old(State()).(files := if p in old(files) then old(files) else old(files)[p := ""])
    {
      if p !in files {
        files := files[p := ""];
      }
    }

    /** `Path.rename` on POSIX: moves `src` to `dst`, replacing a file already at `dst`. */
    method Rename(src: Path, dst: Path)
      requires Valid() && src in files && dst.dir in dirs
      modifies this
      ensures Valid()
      ensures State() == old(State()).(files := (old(files) - {src})[dst := old(files)[src]])
    {
      files := (files - {src})[dst := files[src]];
    }

    /** `os.remove` of a text file. */
    method Remove(p: Path)
      requires Valid() && p in files
      modifies this
      ensures Valid()
      ensures State() == old(State()).(files := old(files) - {p})
    {
      files := files - {p};
    }

    /** `zipfile.ZipFile(p, "w")`: creates or truncates `p` as an empty archive. */
    method CreateArchive(p: Path)
      requires Valid() && p.dir in dirs
      modifies this
      ensures Valid()
      ensures State() == old(State()).(archives := old(archives)[p := map[]])
    {
      archives := archives[p := map[]];
    }

    /** Closing an archive open for writing: its entries are stored under `p`. */
    method CloseArchive(p: Path, entries: Archive)
      requires Valid() && p.dir in dirs
      modifies this
      ensures Valid()
      ensures State() == old(State()).(archives := old(archives)[p := entries])
    {
      archives := archives[p := entries];
    }

    /** `os.remove` of an archive. */
    method RemoveArchive(p: Path)
      requires Valid() && p in archives
      modifies this
      ensures Valid()
      ensures State() == old(State()).(archives := old(archives) - {p})
    {
      archives := archives - {p};
    }

    /** `os.rename` of an archive on POSIX, replacing an archive already at `dst`. */
    method RenameArchive(src: Path, dst: Path)
      requires Valid() && src in archives && dst.dir in dirs
      modifies this
      ensures Valid()
      ensures State() == old(State()).(archives := (old(archives) - {src})[dst := old(archives)[src]])
    {
      archives := (archives - {src})[dst := archives[src]];
    }
  }
}
