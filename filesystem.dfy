/**
 * The part of the file system the configuration engine touches: text files
 * as sequences of lines (each line without its newline terminator) with a
 * modification time, and the set of directories that exist. Modification
 * times come from a counter that every write advances, so a write is always
 * newer than everything before it.
 */
module FileSystem {

  /** A file path: its directory (as path components), stem and suffix. */
  datatype Path = Path(dir: seq<string>, stem: string, suffix: string)

  datatype FileData = FileData(lines: seq<string>, mtime: nat)

  /** The path lies in directory `d` or one of its sub-directories (what `rglob("*")` walks). */
  predicate Under(p: Path, d: seq<string>) {
    |d| <= |p.dir| && p.dir[..|d|] == d
  }

  class Disk {
    var files: map<Path, FileData>
    var dirs: set<seq<string>>
    /** The modification time the next write receives. */
    var clock: nat

    predicate Valid()
      reads this
    {
      forall p :: p in files ==> files[p].mtime < clock
    }

    constructor (files: map<Path, FileData>, dirs: set<seq<string>>, clock: nat)
      requires forall p :: p in files ==> files[p].mtime < clock
      ensures Valid()
      ensures this.files == files && this.dirs == dirs && this.clock == clock
    {
      this.files := files;
      this.dirs := dirs;
      this.clock := clock;
    }

    /** Replace (or create) a file; its modification time is newer than every other. */
    method Write(p: Path, lines: seq<string>)
      requires Valid()
      modifies this
      ensures Valid()
      ensures files == old(files)[p := FileData(lines, old(clock))]
      ensures dirs == old(dirs) && clock == old(clock) + 1
    {
      files := files[p := FileData(lines, clock)];
      clock := clock + 1;
    }

    /** `mkdir` */
    method MakeDir(d: seq<string>)
      requires Valid()
      modifies this
      ensures Valid()
      ensures dirs == old(dirs) + {d} && files == old(files) && clock == old(clock)
    {
      dirs := dirs + {d};
    }
  }
}
