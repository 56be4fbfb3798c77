/** What the dispatcher of an `HttpServer` reads: the server's fields at the
    moment a request is handled, and the disk. */
module ServerState {
  import opened Wrappers
  import opened Text
  import opened Paths
  import opened Routes

  /** An entry of `moved_routes`: `{"new_path": ..., "status_code": ...}`. */
  datatype Moved = Moved(newPath: Path, status: int)

  /** The fields of an `HttpServer`, each route read through its current
      fields (`add_error_code_page` may have rewritten a route's `path`). */
  datatype ServerView = ServerView(
    root: Path,
    routes: map<Path, RouteView>,
    allowed: seq<Path>,
    moved: map<Path, Moved>,
    blacklisted: seq<Path>,
    errorPages: map<int, RouteView>,
    defaultErrorPage: Option<RouteView>)

  /** `add_moved_route` stores 301 or 302, and nothing else writes
      `moved_routes`. */
  predicate MovedStatuses(moved: map<Path, Moved>) {
    forall p :: p in moved ==> moved[p].status == 301 || moved[p].status == 302
  }

  /** The disk as `exists()`, `is_file()`, `os.access(path, os.R_OK)` and
      `open(path, "rb").read()` see it. */
  datatype FileSystem = FileSystem(
    existing: set<Path>,
    files: set<Path>,
    readable: set<Path>,
    contents: map<Path, Bytes>)

  /** Regular files exist, and exactly the readable regular files can be
      read. */
  predicate Coherent(fs: FileSystem) {
    fs.files <= fs.existing && fs.contents.Keys == fs.files * fs.readable
  }

  /** `open(path, "rb").read()`: raises unless the file can be read. */
  function ReadFile(fs: FileSystem, p: Path): Outcome<Bytes> {
    if p in fs.contents then Ok(fs.contents[p]) else Crash
  }
}
