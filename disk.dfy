/** The part of the file system the benchmark touches: which directories and
    files exist, and how many bytes each file holds. `mkdir`, `open` with
    `O_CREAT | O_EXCL` and `write` change it in place. */
module Disk {

  class FileSystem {
    var dirs: set<string>
    var files: map<string, nat>

    predicate Exists(path: string)
      reads this
    {
      path in dirs || path in files
    }

    /** `mkdir(path, 0755)`: fails when anything of that name exists. */
    method Mkdir(path: string) returns (ok: bool)
      modifies this
      ensures ok == !old(Exists(path))
      ensures dirs == if ok then old(dirs) + {path} else old(dirs)
      ensures files == old(files)
    {
      ok := !Exists(path);
      if ok {
        dirs := dirs + {path};
      }
    }

    /** `open(path, O_WRONLY | O_CREAT | O_EXCL, 0644)`: creates an empty file,
        and fails when anything of that name exists. */
    method CreateExclusive(path: string) returns (ok: bool)
      modifies this
      ensures ok == !old(Exists(path))
      ensures files == if ok then old(files)[path := 0] else old(files)
      ensures dirs == old(dirs)
    {
      ok := !Exists(path);
      if ok {
        files := files[path := 0];
      }
    }

    /** The effect of a `write` that accepted `count` bytes at the end of `path`. */
    method Append(path: string, count: nat)
      requires path in files
      modifies this
      ensures files == old(files)[path := old(files[path]) + count]
      ensures dirs == old(dirs)
    {
      files := files[path := files[path] + count];
    }
  }
}
