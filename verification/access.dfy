/** `HttpServer.__is_file_accessible` and `HttpServer.__get_file_code`: which
    files the server hands out, and the status it answers with otherwise. */
module Access {
  import opened Wrappers
  import opened Paths
  import opened Constants
  import opened ServerState

  /** `__is_file_accessible`. The `for` loop returns on its first iteration,
      so only the first allowed directory is ever consulted; with no allowed
      directory, a path is accessible when it is a route key. */
  predicate IsFileAccessible(v: ServerView, p: Path) {
    if |v.allowed| > 0 then IsUnder(p, v.allowed[0]) else p in v.routes
  }

  /** What the allow-list reads as: a path lies under one of the allowed
      directories. */
  predicate UnderSomeAllowed(v: ServerView, p: Path) {
    exists k :: 0 <= k < |v.allowed| && IsUnder(p, v.allowed[k])
  }

  /** An accessible path is under an allowed directory, or, when there is
      none, a route key; with a single allowed directory the check is exact. */
  lemma AccessibleSound(v: ServerView, p: Path)
    ensures IsFileAccessible(v, p) ==> UnderSomeAllowed(v, p) || (|v.allowed| == 0 && p in v.routes)
    ensures |v.allowed| == 1 ==> (IsFileAccessible(v, p) <==> UnderSomeAllowed(v, p))
    ensures |v.allowed| == 0 ==> (IsFileAccessible(v, p) <==> p in v.routes)
  {
    if IsFileAccessible(v, p) && |v.allowed| > 0 {
      assert IsUnder(p, v.allowed[0]);
    }
  }

  /** A file under the second allowed directory is refused: with `/pub` and
      `/static` allowed, `/static/app.js` is not accessible. */
  lemma SecondDirectoryIgnored(v: ServerView)
    requires v.allowed == [["pub"], ["static"]]
    ensures UnderSomeAllowed(v, ["static", "app.js"])
    ensures !IsFileAccessible(v, ["static", "app.js"])
  {
    var p := ["static", "app.js"];
    assert IsUnder(p, v.allowed[1]) by {
      assert p[..1] == ["static"];
    }
    assert p[..1] != ["pub"] by {
      assert p[..1][0] == "static";
    }
  }

  /** With `/` allowed first, a route whose path has the root `//` is still
      refused: its target does not lie under `/`, so it answers 403. */
  lemma DoubleRootedRefused(v: ServerView, fs: FileSystem, key: Path, target: Path)
    requires |v.allowed| > 0 && v.allowed[0] == []
    requires key in v.routes && v.routes[key].path == PObj(target) && DoubleRooted(target)
    ensures !IsFileAccessible(v, target)
    ensures GetFileCode(v, fs, key) == Ok(Forbidden)
  {
    DoubleRootedNotUnderSlash(target);
  }

  /** The checks of `__get_file_code` on a path whose route has already been
      substituted: blacklisted, inaccessible, moved, missing, not a regular
      file, unreadable; the first that applies decides. */
  function FileCode(v: ServerView, fs: FileSystem, p: Path): int {
    if p in v.blacklisted then Forbidden
    else if !IsFileAccessible(v, p) then Forbidden
    else if p in v.moved then v.moved[p].status
    else if p !in fs.existing then NotFound
    else if p !in fs.files then NotImplemented
    else if p !in fs.readable then Forbidden
    else OK
  }

  /** Lines 106-107 of `__get_file_code`: a route key is replaced by the
      route's own path, which `__make_path` refuses when it is `None`. */
  function RouteTarget(v: ServerView, p: Path): (r: Outcome<Path>)
    ensures r.Crash? <==> p in v.routes && v.routes[p].path.PNone?
    ensures p !in v.routes ==> r == Ok(p)
  {
    if p in v.routes then MakePath(v.root, v.routes[p].path) else Ok(p)
  }

  /** `HttpServer.__get_file_code` */
  function GetFileCode(v: ServerView, fs: FileSystem, p: Path): (r: Outcome<int>)
    ensures r.Crash? <==> p in v.routes && v.routes[p].path.PNone?
    ensures p !in v.routes ==> r == Ok(FileCode(v, fs, p))
    ensures p in v.routes && v.routes[p].path.PObj? ==> r == Ok(FileCode(v, fs, v.routes[p].path.p))
  {
    var target :- RouteTarget(v, p);
    Ok(FileCode(v, fs, target))
  }

  // The chain as a table of rules

  /** One check of the chain. */
  datatype Check = Blacklisted | Inaccessible | Relocated | Missing | NotRegular | Unreadable

  /** The checks in the order `__get_file_code` makes them. */
  const Chain: seq<Check> := [Blacklisted, Inaccessible, Relocated, Missing, NotRegular, Unreadable]

  predicate Fires(v: ServerView, fs: FileSystem, p: Path, c: Check) {
    match c
    case Blacklisted => p in v.blacklisted
    case Inaccessible => !IsFileAccessible(v, p)
    case Relocated => p in v.moved
    case Missing => p !in fs.existing
    case NotRegular => p !in fs.files
    case Unreadable => p !in fs.readable
  }

  /** The status a check answers with when it fires. */
  function Verdict(v: ServerView, p: Path, c: Check): int
    requires c == Relocated ==> p in v.moved
  {
    match c
    case Relocated => v.moved[p].status
    case Missing => NotFound
    case NotRegular => NotImplemented
    case _ => Forbidden
  }

  /** The verdict of the first check in `checks` that fires; 200 when none
      does. */
  function FirstHit(v: ServerView, fs: FileSystem, p: Path, checks: seq<Check>): int {
    if |checks| == 0 then OK
    else if Fires(v, fs, p, checks[0]) then Verdict(v, p, checks[0])
    else FirstHit(v, fs, p, checks[1..])
  }

  lemma FileCodeIsFirstHit(v: ServerView, fs: FileSystem, p: Path)
    ensures FileCode(v, fs, p) == FirstHit(v, fs, p, Chain)
  {
    var t5: seq<Check> := [Unreadable];
    assert t5[1..] == [];
    var t4 := [NotRegular] + t5;
    assert t4[1..] == t5;
    var t3 := [Missing] + t4;
    assert t3[1..] == t4;
    var t2 := [Relocated] + t3;
    assert t2[1..] == t3;
    var t1 := [Inaccessible] + t2;
    assert t1[1..] == t2;
    assert Chain == [Blacklisted] + t1;
    assert Chain[1..] == t1;
    assert FirstHit(v, fs, p, t5) == if p !in fs.readable then Forbidden else OK;
    assert FirstHit(v, fs, p, t4) == if p !in fs.files then NotImplemented else FirstHit(v, fs, p, t5);
    assert FirstHit(v, fs, p, t3) == if p !in fs.existing then NotFound else FirstHit(v, fs, p, t4);
    assert FirstHit(v, fs, p, t2) == if p in v.moved then v.moved[p].status else FirstHit(v, fs, p, t3);
    assert FirstHit(v, fs, p, t1) == if !IsFileAccessible(v, p) then Forbidden else FirstHit(v, fs, p, t2);
  }

  /** In a table of rules, the first rule that fires decides. */
  lemma {:induction false} FirstHitAt(v: ServerView, fs: FileSystem, p: Path, checks: seq<Check>, i: nat)
    requires i < |checks| && Fires(v, fs, p, checks[i])
    requires forall j :: 0 <= j < i ==> !Fires(v, fs, p, checks[j])
    ensures checks[i] == Relocated ==> p in v.moved
    ensures FirstHit(v, fs, p, checks) == Verdict(v, p, checks[i])
  {
    if i > 0 {
      assert !Fires(v, fs, p, checks[0]);
      FirstHitAt(v, fs, p, checks[1..], i - 1);
    }
  }

  /** When no rule fires, the answer is 200. */
  lemma {:induction false} FirstHitNone(v: ServerView, fs: FileSystem, p: Path, checks: seq<Check>)
    requires forall j :: 0 <= j < |checks| ==> !Fires(v, fs, p, checks[j])
    ensures FirstHit(v, fs, p, checks) == OK
  {
    if |checks| > 0 {
      assert !Fires(v, fs, p, checks[0]);
      FirstHitNone(v, fs, p, checks[1..]);
    }
  }

  /** The first check of the chain that fires decides the status. */
  lemma FileCodeFirstHitWins(v: ServerView, fs: FileSystem, p: Path, i: nat)
    requires i < |Chain| && Fires(v, fs, p, Chain[i])
    requires forall j :: 0 <= j < i ==> !Fires(v, fs, p, Chain[j])
    ensures Chain[i] == Relocated ==> p in v.moved
    ensures FileCode(v, fs, p) == Verdict(v, p, Chain[i])
  {
    FileCodeIsFirstHit(v, fs, p);
    FirstHitAt(v, fs, p, Chain, i);
  }

  /** A blacklisted path is refused with 403 even when it is also moved,
      missing or unreadable. */
  lemma BlacklistFirst(v: ServerView, fs: FileSystem, p: Path)
    requires p in v.blacklisted
    ensures FileCode(v, fs, p) == Forbidden
  {
    FileCodeFirstHitWins(v, fs, p, 0);
  }

  /** A moved path that is accessible and not blacklisted answers with its
      stored status, whether or not it exists on disk. */
  lemma MovedBeforeDisk(v: ServerView, fs: FileSystem, p: Path)
    requires p !in v.blacklisted && IsFileAccessible(v, p) && p in v.moved
    ensures FileCode(v, fs, p) == v.moved[p].status
  {
    FileCodeFirstHitWins(v, fs, p, 2);
  }

  /** With the statuses `add_moved_route` stores, 200 means that no check of
      the chain fired, and the answer is one of six statuses. */
  lemma FileCodeOk(v: ServerView, fs: FileSystem, p: Path)
    requires MovedStatuses(v.moved)
    ensures FileCode(v, fs, p) == OK <==> forall j :: 0 <= j < |Chain| ==> !Fires(v, fs, p, Chain[j])
    ensures FileCode(v, fs, p) in {OK, MovedPermanently, MovedTemporarily, Forbidden, NotFound, NotImplemented}
  {
    FileCodeIsFirstHit(v, fs, p);
    if forall j :: 0 <= j < |Chain| ==> !Fires(v, fs, p, Chain[j]) {
      FirstHitNone(v, fs, p, Chain);
    } else {
      var i :| 0 <= i < |Chain| && Fires(v, fs, p, Chain[i]) && forall j :: 0 <= j < i ==> !Fires(v, fs, p, Chain[j]);
      FirstHitAt(v, fs, p, Chain, i);
    }
  }

  /** A path that passes the chain can be opened: on a coherent disk, the
      read that follows a 200 does not raise. */
  lemma ReadableAfterOk(v: ServerView, fs: FileSystem, p: Path)
    requires MovedStatuses(v.moved) && Coherent(fs) && FileCode(v, fs, p) == OK
    ensures ReadFile(fs, p).Ok?
  {
    FileCodeOk(v, fs, p);
    assert !Fires(v, fs, p, Chain[4]) && !Fires(v, fs, p, Chain[5]);
  }
}
