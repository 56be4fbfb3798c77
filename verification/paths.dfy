/** Filesystem paths as `pathlib` treats them, without consulting the disk. */
module Paths {
  import opened Wrappers
  import opened Text

  /** The segments of an absolute path; `/` itself is the empty sequence. A
      leading empty segment stands for the root `//`, which POSIX `pathlib`
      keeps apart from `/`: `//srv/a` is `["", "srv", "a"]`. */
  type Path = seq<string>

  predicate IsSegment(x: string) {
    x != "" && x != "." && '/' !in x
  }

  /** A path as `resolve()` leaves it: no empty, `.` or `..` segment. */
  predicate Canonical(p: Path) {
    forall k :: 0 <= k < |p| ==> IsSegment(p[k]) && p[k] != ".."
  }

  /** `str(path)` */
  function PathString(p: Path): string {
    if p == [""] then "//" else "/" + Join(p, "/")
  }

  /** `os.path.isabs` on POSIX. */
  predicate IsAbs(s: string) {
    |s| > 0 && s[0] == '/'
  }

  /** The parts `pathlib` keeps when it parses a path: empty and `.` parts are
      dropped, `..` is kept. */
  function KeepSegments(parts: seq<string>): (r: Path)
    ensures (forall k :: 0 <= k < |parts| ==> '/' !in parts[k]) ==> forall k :: 0 <= k < |r| ==> IsSegment(r[k])
    ensures |r| <= |parts|
  {
    if |parts| == 0 then []
    else (if parts[0] == "" || parts[0] == "." then [] else [parts[0]]) + KeepSegments(parts[1..])
  }

  /** Exactly two leading slashes: the root `pathlib` keeps as `//`. One
      slash, or three and more, make the root `/`. */
  predicate DoubleSlashRoot(s: string) {
    |s| >= 2 && s[0] == '/' && s[1] == '/' && (|s| == 2 || s[2] != '/')
  }

  /** `pathlib.Path(s)` for an absolute string `s`. */
  function PurePath(s: string): Path {
    (if DoubleSlashRoot(s) then [""] else []) + KeepSegments(Split(s, "/"))
  }

  /** One step of `resolve()`: `..` drops the last segment (there is nothing
      above `/`), empty and `.` parts are skipped, anything else is appended. */
  function Step(acc: Path, part: string): Path {
    if part == "" || part == "." then acc
    else if part == ".." then (if |acc| == 0 then [] else acc[..|acc| - 1])
    else acc + [part]
  }

  /** `resolve()` of the parts `parts` below `acc`, symbolic links aside. */
  function Collapse(acc: Path, parts: seq<string>): Path
    decreases |parts|
  {
    if |parts| == 0 then acc else Collapse(Step(acc, parts[0]), parts[1..])
  }

  /** `(base / s).absolute().resolve()` for a relative string `s`. */
  function Resolve(base: Path, s: string): Path {
    Collapse([], base + Split(s, "/"))
  }

  /** `HttpServer.__make_path` on a string: an absolute string is only parsed,
      a relative one is resolved below the server root. */
  function StrPath(root: Path, s: string): Path {
    if IsAbs(s) then PurePath(s) else Resolve(root, s)
  }

  /** What a `path` attribute holds: a string, a `pathlib.Path`, or `None`. */
  datatype PathValue = PStr(s: string) | PObj(p: Path) | PNone

  /** `HttpServer.__make_path`: a `Path` is returned as it is, a string is
      parsed or resolved, and `None` makes `os.path.isabs` raise. */
  function MakePath(root: Path, v: PathValue): (r: Outcome<Path>)
    ensures r.Crash? <==> v.PNone?
    ensures v.PObj? ==> r == Ok(v.p)
  {
    match v
    case PObj(p) => Ok(p)
    case PStr(s) => Ok(StrPath(root, s))
    case PNone => Crash
  }

  /** `str(v)` */
  function ValueString(v: PathValue): string {
    match v
    case PStr(s) => s
    case PObj(p) => PathString(p)
    case PNone => "None"
  }

  /** The path has the root `//` rather than `/`. */
  predicate DoubleRooted(p: Path) {
    |p| > 0 && p[0] == ""
  }

  /** `path.relative_to(dir)` succeeds: both have the same root, `/` or
      `//`, and `dir`'s segments begin `path`. */
  predicate IsUnder(path: Path, dir: Path) {
    DoubleRooted(path) == DoubleRooted(dir) && |dir| <= |path| && path[..|dir|] == dir
  }

  /** The pieces of `s.split("/")` contain no slash. */
  lemma SplitSlashFree(s: string)
    ensures forall k :: 0 <= k < |Split(s, "/")| ==> '/' !in Split(s, "/")[k]
  {
    var parts := Split(s, "/");
    SplitPiecesFree(s, "/");
    forall k | 0 <= k < |parts|
      ensures '/' !in parts[k]
    {
      NoCharOccurrence(parts[k], '/');
    }
  }

  /** Resolving keeps a path canonical: whatever the parts, the result has no
      empty, `.` or `..` segment. */
  lemma {:induction false} CollapseCanonical(acc: Path, parts: seq<string>)
    requires Canonical(acc)
    requires forall k :: 0 <= k < |parts| ==> '/' !in parts[k]
    ensures Canonical(Collapse(acc, parts))
    decreases |parts|
  {
    if |parts| > 0 {
      CollapseCanonical(Step(acc, parts[0]), parts[1..]);
    }
  }

  /** Without a `..` part, resolving never leaves the starting directory. */
  lemma {:induction false} CollapseStaysUnder(acc: Path, parts: seq<string>)
    requires forall k :: 0 <= k < |parts| ==> parts[k] != ".."
    ensures IsUnder(Collapse(acc, parts), acc)
    decreases |parts|
  {
    if |parts| > 0 {
      var next := Step(acc, parts[0]);
      CollapseStaysUnder(next, parts[1..]);
      var r := Collapse(next, parts[1..]);
      assert r[..|acc|] == r[..|next|][..|acc|];
      if |acc| == 0 && |next| > 0 {
        assert r[0] == next[0] == parts[0] != "";
      }
    }
  }

  /** Resolving a canonical path on its own gives it back. */
  lemma {:induction false} CollapseCanonicalBase(acc: Path, base: Path)
    requires Canonical(base)
    ensures Collapse(acc, base) == acc + base
    decreases |base|
  {
    if |base| == 0 {
      assert acc + base == acc;
    } else {
      assert IsSegment(base[0]) && base[0] != "..";
      assert Step(acc, base[0]) == acc + [base[0]];
      CollapseCanonicalBase(acc + [base[0]], base[1..]);
      assert acc + [base[0]] + base[1..] == acc + base;
    }
  }

  /** Resolving `base + parts` first resolves `base`, then the parts. */
  lemma {:induction false} CollapseAppend(acc: Path, base: seq<string>, parts: seq<string>)
    ensures Collapse(acc, base + parts) == Collapse(Collapse(acc, base), parts)
    decreases |base|
  {
    if |base| == 0 {
      assert base + parts == parts;
    } else {
      assert (base + parts)[0] == base[0];
      assert (base + parts)[1..] == base[1..] + parts;
      CollapseAppend(Step(acc, base[0]), base[1..], parts);
    }
  }

  /** `pathlib.Path(str(p)) == p` for a path whose segments are plain names. */
  lemma PurePathOfString(p: Path)
    requires forall k :: 0 <= k < |p| ==> IsSegment(p[k])
    ensures PurePath(PathString(p)) == p && !DoubleSlashRoot(PathString(p))
  {
    var body := Join(p, "/");
    assert PathString(p) == "" + "/" + body;
    assert !DoubleSlashRoot(PathString(p)) by {
      if |p| > 0 {
        assert p[0] != "" && '/' !in p[0];
        assert body[0] == p[0][0];
      }
    }
    SplitConcat("", body, "/");
    SplitSingle("", "/");
    if |p| == 0 {
      assert Split(PathString(p), "/") == ["", ""];
      assert KeepSegments(["", ""]) == [];
    } else {
      forall k | 0 <= k < |p|
        ensures NoOccurrence(p[k], "/")
      {
        NoCharOccurrence(p[k], '/');
      }
      SplitJoin(p, "/");
      assert Split(PathString(p), "/") == [""] + p;
      assert ([""] + p)[1..] == p;
      KeepPlainSegments(p);
    }
  }

  lemma {:induction false} KeepPlainSegments(p: Path)
    requires forall k :: 0 <= k < |p| ==> IsSegment(p[k])
    ensures KeepSegments(p) == p
  {
    if |p| > 0 {
      KeepPlainSegments(p[1..]);
      assert KeepSegments(p) == [p[0]] + KeepSegments(p[1..]);
    }
  }

  /** A path resolved below a canonical base is canonical, whatever the
      string: `resolve()` leaves no empty, `.` or `..` segment. */
  lemma ResolveCanonical(base: Path, s: string)
    requires Canonical(base)
    ensures Canonical(Resolve(base, s))
  {
    SplitSlashFree(s);
    var parts := base + Split(s, "/");
    forall k | 0 <= k < |parts|
      ensures '/' !in parts[k]
    {
      if k >= |base| {
        assert parts[k] == Split(s, "/")[k - |base|];
      }
    }
    CollapseCanonical([], parts);
  }

  /** `__make_path(str(p))` gives back a canonical `p`. */
  lemma MakePathOfString(root: Path, p: Path)
    requires Canonical(p)
    ensures MakePath(root, PStr(PathString(p))) == Ok(p)
  {
    PurePathOfString(p);
  }

  /** A slash-free name, a slash and the rest split into the name followed
      by the pieces of the rest. */
  lemma SplitFirstName(x: string, rest: string)
    requires '/' !in x
    ensures Split(x + "/" + rest, "/") == [x] + Split(rest, "/")
  {
    SplitOnChar(x, rest, '/');
  }

  /** Three slash-free names joined by slashes split back into the three. */
  lemma SplitThree(x: string, y: string, z: string)
    requires '/' !in x && '/' !in y && '/' !in z
    ensures Split(x + "/" + y + "/" + z, "/") == [x, y, z]
  {
    var yz := y + "/" + z;
    assert x + "/" + y + "/" + z == x + "/" + yz;
    SplitFirstName(x, yz);
    SplitPair(y, z, '/');
  }

  lemma SplitTraversal()
    ensures Split("./../etc", "/") == [".", "..", "etc"]
  {
    assert "./../etc" == "." + "/" + ".." + "/" + "etc";
    SplitThree(".", "..", "etc");
  }

  /** Resolving does not confine a path to its base: `..` parts climb above
      it, so `/../etc` resolved below `/srv` is `/etc`. */
  lemma ResolveCanLeaveBase()
    ensures Resolve(["srv"], "./../etc") == ["etc"]
    ensures !IsUnder(Resolve(["srv"], "./../etc"), ["srv"])
  {
    SplitTraversal();
    assert ["srv"] + [".", "..", "etc"] == ["srv", ".", "..", "etc"];
    CollapseTraversal();
  }

  lemma CollapseTraversal()
    ensures Collapse([], ["srv", ".", "..", "etc"]) == ["etc"]
  {
    var parts := ["srv", ".", "..", "etc"];
    assert Collapse([], parts) == Collapse(["srv"], parts[1..]);
    assert Collapse(["srv"], parts[1..]) == Collapse(["srv"], parts[2..]);
    assert Collapse(["srv"], parts[2..]) == Collapse([], parts[3..]);
    assert Collapse([], parts[3..]) == Collapse(["etc"], []);
  }

  /** `pathlib` keeps a `//` root apart from `/`: `//a/b` is not `/a/b`, and
      no canonical path, so no resolved path, equals it; three slashes make
      `/` again. */
  lemma DoubleSlashKept(p: Path)
    requires |p| > 0 && Canonical(p)
    ensures PurePath("/" + PathString(p)) == [""] + p
    ensures PathString([""] + p) == "/" + PathString(p)
    ensures PurePath("//" + PathString(p)) == p
    ensures !Canonical([""] + p) && [""] + p != p
  {
    var s := PathString(p);
    var j := Join(p, "/");
    PurePathOfString(p);
    assert KeepSegments(Split(s, "/")) == p;
    assert s == "/" + j && |j| > 0 && j[0] != '/' by {
      assert p[0] != "" && '/' !in p[0];
    }
    SplitFirstName("", s);
    assert "" + "/" + s == "/" + s;
    assert ([""] + Split(s, "/"))[1..] == Split(s, "/");
    assert DoubleSlashRoot("/" + s);
    SplitFirstName("", "/" + s);
    assert "" + "/" + ("/" + s) == "//" + s;
    assert ([""] + Split("/" + s, "/"))[1..] == Split("/" + s, "/");
    assert !DoubleSlashRoot("//" + s);
    assert ([""] + p)[1..] == p;
    assert ([""] + p)[0] == "";
  }

  /** Nothing with the root `//` lies under `/`: `relative_to("/")` refuses
      `//a/b`, whose anchor differs. */
  lemma DoubleRootedNotUnderSlash(p: Path)
    requires DoubleRooted(p)
    ensures !IsUnder(p, []) && IsUnder(p, [""])
  {
  }
}
