/** The upload directory: the files under it, by path relative to the upload root, with their
    bytes, and the owner sub-directories that exist. */
module Storage {

  newtype byte = b: int | 0 <= b < 256

  class Disk {
    var files: map<string, seq<byte>>
    var dirs: set<string>

    constructor ()
      ensures files == map[] && dirs == {}
    {
      files := map[];
      dirs := {};
    }

    /** `path.is_file()` (and `path.exists()` for the paths the core uses). */
    function IsFile(path: string): bool
      reads this
    {
      path in files
    }

    /** `mkdir(parents=True, exist_ok=True)`. */
    method MakeDir(dir: string)
      modifies this
      ensures dirs == old(dirs) + {dir} && files == old(files)
    {
      dirs := dirs + {dir};
    }

    /** Opening for writing in binary mode: the file exists and is empty. */
    method OpenForWrite(path: string)
      modifies this
      ensures files == old(files)[path := []] && dirs == old(dirs)
    {
      files := files[path := []];
    }

    /** One successful write of a chunk to an open file. */
    method Append(path: string, chunk: seq<byte>)
      requires path in files
      modifies this
      ensures files == old(files)[path := old(files[path]) + chunk] && dirs == old(dirs)
    {
      files := files[path := files[path] + chunk];
    }

    /** `unlink`. */
    method Unlink(path: string)
      modifies this
      ensures files == old(files) - {path} && dirs == old(dirs)
    {
      files := files - {path};
    }
  }
}
