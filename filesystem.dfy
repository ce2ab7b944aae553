/** The part of the file system the resolver sees: a map from path to what
    `fs.readFileSync(path, 'utf8')` returns. A path is a key exactly when
    `fs.existsSync(path)` is true; the value is None when the path exists but cannot be
    read as a file (a directory, no permission). */
module FileSystem {
  import opened Wrappers
  import opened Paths

  datatype Disk = Disk(files: map<Path, Option<string>>)

  /** `fs.existsSync(p)`. */
  predicate Exists(disk: Disk, p: Path)
  {
    p in disk.files
  }

  /** `fs.readFileSync(p, 'utf8')`: None stands for the exception it throws. */
  function ReadFile(disk: Disk, p: Path): (r: Option<string>)
    ensures !Exists(disk, p) ==> r.None?
  {
    if p in disk.files then disk.files[p] else None
  }
}
