/**
 * The POSIX adapter (src/Adapter/Posix.php): separator `/`, delimiter `:`,
 * case-sensitive; `isAbsolute`, `normalize`, `join`, `resolve` and
 * `relative` built on the shared segment algebra.
 */
module Posix {
  import opened Php
  import opened Segments

  const Separator: string := "/"
  const Delimiter: string := ":"
  const IsCaseSensitive: bool := true

  predicate IsAbsolute(path: string) {
    |path| > 0 && path[0] == '/'
  }

  /** The segments `normalize` keeps: the `/`-parts of `path`, collapsed. */
  function BodySegments(path: string): seq<string> {
    NormalizeSegments(Explode('/', path), !IsAbsolute(path))
  }

  /** `normalize($path)`. */
  function Normalize(path: string): string {
    var isAbsolute := IsAbsolute(path);
    var trailingSlash := EndsWith(path, '/');
    var p := Implode('/', BodySegments(path));
    var p1 := if !Truthy(p) && !isAbsolute then "." else p;
    var p2 := if Truthy(p1) && trailingSlash then p1 + "/" else p1;
    (if isAbsolute then "/" else "") + p2
  }

  // ---------------------------------------------------------------------
  // normalize
  // ---------------------------------------------------------------------

  /** The kept segments are truthy, `/`-free and in collapsed shape. */
  lemma BodySegmentsFacts(path: string)
    ensures var segs := BodySegments(path);
            && Collapsed(segs, !IsAbsolute(path))
            && (forall i | 0 <= i < |segs| :: Truthy(segs[i]) && '/' !in segs[i])
  {
    var parts := Explode('/', path);
    NormalizeCollapsed(parts, !IsAbsolute(path));
    NormalizeIsSubsequence(parts, !IsAbsolute(path));
    var segs := BodySegments(path);
    forall i | 0 <= i < |segs|
      ensures '/' !in segs[i]
    {
      assert segs[i] in parts;
    }
  }

  /** Gluing truthy `/`-free segments: empty iff none, never `"0"`, no `/` at either end. */
  lemma GluedSegments(segs: seq<string>)
    requires forall i | 0 <= i < |segs| :: Truthy(segs[i]) && '/' !in segs[i]
    ensures Truthy(Implode('/', segs)) <==> segs != []
    ensures Implode('/', segs) != "0"
    ensures segs != [] ==> Implode('/', segs)[0] != '/'
    ensures !EndsWith(Implode('/', segs), '/')
  {
    ImplodeTruthy('/', segs);
    if segs != [] {
      ImplodeEnds('/', segs);
      var s := Implode('/', segs);
      var l := segs[|segs| - 1];
      assert s[0] == segs[0][0];
      assert s[|s| - 1] == l[|l| - 1];
    }
  }

  /** `normalize` keeps the path absolute exactly when it was, and never returns "". */
  lemma NormalizeKeepsAbsolute(path: string)
    ensures IsAbsolute(Normalize(path)) <==> IsAbsolute(path)
    ensures Normalize(path) != ""
  {
    BodySegmentsFacts(path);
    GluedSegments(BodySegments(path));
  }

  /**
   * A relative path whose segments all collapse away normalises to `.`
   * (`./` when it ended in a slash).
   */
  lemma NormalizeEmptyRelative(path: string)
    requires !IsAbsolute(path) && BodySegments(path) == []
    ensures Normalize(path) == if EndsWith(path, '/') then "./" else "."
  {
  }

  /**
   * `normalize` ends in `/` exactly when the input did, or when the result is
   * the bare root `/`: the trailing slash is kept only after a non-empty body.
   */
  lemma NormalizeTrailingSlash(path: string)
    ensures EndsWith(Normalize(path), '/') <==> EndsWith(path, '/') || Normalize(path) == "/"
  {
    BodySegmentsFacts(path);
    GluedSegments(BodySegments(path));
  }

  /** A leading `/` adds an empty first part. */
  lemma ExplodeLeadingSlash(s: string)
    ensures Explode('/', "/" + s) == [""] + Explode('/', s)
  {
    ExplodeConcat('/', "", s);
    assert "" + ['/'] + s == "/" + s;
  }

  /** A trailing `/` adds an empty last part. */
  lemma ExplodeTrailingSlash(s: string)
    ensures Explode('/', s + "/") == Explode('/', s) + [""]
  {
    ExplodeConcat('/', s, "");
    assert s + ['/'] + "" == s + "/";
  }

  /** The `/`-parts of a glued body, with an optional trailing `/`. */
  lemma ExplodeMid(segs: seq<string>, trailing: bool)
    requires segs != []
    requires forall i | 0 <= i < |segs| :: '/' !in segs[i]
    ensures var b := Implode('/', segs);
            Explode('/', if trailing then b + "/" else b) == if trailing then segs + [""] else segs
  {
    var b := Implode('/', segs);
    ExplodeImplode('/', segs);
    if trailing {
      ExplodeTrailingSlash(b);
    }
  }

  /** A collapsed body normalises to itself, also with `""` parts around it. */
  lemma NormalizeFramedParts(segs: seq<string>, abs: bool, trailing: bool)
    requires Collapsed(segs, !abs)
    ensures var parts := if trailing then segs + [""] else segs;
            && NormalizeSegments(parts, !abs) == segs
            && NormalizeSegments([""] + parts, !abs) == segs
  {
    CollapsedIsFixpoint(segs, !abs);
    var parts := if trailing then segs + [""] else segs;
    if trailing {
      NormalizeIgnoresFalsyEnds(segs, "", !abs);
    }
    NormalizeIgnoresFalsyEnds(parts, "", !abs);
  }

  /**
   * A non-empty collapsed body with an optional trailing `/` starts with no
   * `/`, ends with one exactly when asked, and its `/`-parts normalise back to
   * the body, also after one more leading `""` part.
   */
  lemma FramedMid(segs: seq<string>, abs: bool, trailing: bool)
    requires segs != [] && Collapsed(segs, !abs)
    requires forall i | 0 <= i < |segs| :: Truthy(segs[i]) && '/' !in segs[i]
    ensures var b := Implode('/', segs);
            var mid := if trailing then b + "/" else b;
            && mid != "" && mid[0] != '/' && EndsWith(mid, '/') == trailing
            && NormalizeSegments(Explode('/', mid), !abs) == segs
            && NormalizeSegments([""] + Explode('/', mid), !abs) == segs
  {
    var b := Implode('/', segs);
    GluedSegments(segs);
    ExplodeMid(segs, trailing);
    NormalizeFramedParts(segs, abs, trailing);
    var mid := if trailing then b + "/" else b;
    assert mid[0] == b[0];
    if trailing {
      assert mid[|mid| - 1] == '/';
    }
  }

  /**
   * A non-empty collapsed body, framed by an optional root `/` and an
   * optional trailing `/`, reads back as the same body, root and trailer.
   */
  lemma FramedBody(segs: seq<string>, abs: bool, trailing: bool)
    requires segs != [] && Collapsed(segs, !abs)
    requires forall i | 0 <= i < |segs| :: Truthy(segs[i]) && '/' !in segs[i]
    ensures var b := Implode('/', segs);
            var r := (if abs then "/" else "") + (if trailing then b + "/" else b);
            && BodySegments(r) == segs && IsAbsolute(r) == abs && EndsWith(r, '/') == trailing
  {
    var b := Implode('/', segs);
    var mid := if trailing then b + "/" else b;
    FramedMid(segs, abs, trailing);
    if abs {
      ExplodeLeadingSlash(mid);
      assert ("/" + mid)[1..] == mid;
    } else {
      assert "" + mid == mid;
    }
  }

  /** `normalize` is idempotent. */
  lemma NormalizeIdempotent(path: string)
    ensures Normalize(Normalize(path)) == Normalize(path)
  {
    var segs := BodySegments(path);
    BodySegmentsFacts(path);
    GluedSegments(segs);
    if segs == [] {
      if IsAbsolute(path) {
        NormalizeRoot();
      } else {
        NormalizeEmptyRelative(path);
        NormalizeDot();
      }
    } else {
      FramedBody(segs, IsAbsolute(path), EndsWith(path, '/'));
    }
  }

  /** The bare root normalises to itself. */
  lemma NormalizeRoot()
    ensures Normalize("/") == "/"
  {
    ExplodeLeadingSlash("");
    assert Explode('/', "") == [""];
    NormalizeIgnoresFalsyEnds([""], "", false);
    NormalizeIgnoresFalsyEnds([], "", false);
    assert BodySegments("/") == [];
  }

  /** `.` and `./` normalise to themselves. */
  lemma NormalizeDot()
    ensures Normalize(".") == "." && Normalize("./") == "./"
  {
    assert Explode('/', ".") == ["."] by {
      ExplodeWithoutSep('/', ".");
    }
    ExplodeTrailingSlash(".");
    assert NormalizeSegments(["."], true) == [] by {
      assert ["."][..0] == [];
    }
    NormalizeIgnoresFalsyEnds(["."], "", true);
    assert BodySegments(".") == [];
    assert BodySegments("./") == [];
  }

  // ---------------------------------------------------------------------
  // join
  // ---------------------------------------------------------------------

  /** The truthy arguments, in order (what `join` glues). */
  function TruthySegments(paths: seq<string>): seq<string>
    decreases |paths|
  {
    if paths == [] then []
    else
      var init := TruthySegments(paths[..|paths| - 1]);
      var last := paths[|paths| - 1];
      if Truthy(last) then init + [last] else init
  }

  lemma TruthySegmentsAreTruthy(paths: seq<string>)
    ensures forall i | 0 <= i < |TruthySegments(paths)| :: Truthy(TruthySegments(paths)[i])
    ensures TruthySegments(paths) == [] <==> forall i | 0 <= i < |paths| :: !Truthy(paths[i])
    decreases |paths|
  {
    if paths != [] {
      TruthySegmentsAreTruthy(paths[..|paths| - 1]);
    }
  }

  /** What `join($paths)` returns: `normalize` of the `/`-concatenation of its truthy arguments. */
  function Joined(paths: seq<string>): string {
    Normalize(Implode('/', TruthySegments(paths)))
  }

  /** Two truthy arguments: `join(a, b)` is `normalize(a . '/' . b)`. */
  lemma JoinTwo(a: string, b: string)
    requires Truthy(a) && Truthy(b)
    ensures Joined([a, b]) == Normalize(a + "/" + b)
  {
    assert [a, b][..1] == [a];
    assert [a][..0] == [];
    assert TruthySegments([a]) == [a];
    assert TruthySegments([a, b]) == [a, b];
    assert Implode('/', [a, b]) == a + "/" + b by {
      assert [a, b][1..] == [b];
    }
  }

  method Join(paths: seq<string>) returns (r: string)
    ensures r == Normalize(Implode('/', TruthySegments(paths)))
    ensures (forall i | 0 <= i < |paths| :: !Truthy(paths[i])) ==> r == "."
  {
    var path := "";
    for i := 0 to |paths|
      invariant path == Implode('/', TruthySegments(paths[..i]))
    {
      assert paths[..i + 1][..i] == paths[..i];
      TruthySegmentsAreTruthy(paths[..i]);
      ImplodeTruthy('/', TruthySegments(paths[..i]));
      var segment := paths[i];
      if Truthy(segment) {
        if !Truthy(path) {
          path := path + segment;
        } else {
          ImplodeSnoc('/', TruthySegments(paths[..i]), segment);
          path := path + "/" + segment;
        }
      }
    }
    assert paths[..|paths|] == paths;
    TruthySegmentsAreTruthy(paths);
    r := Normalize(path);
  }

  // ---------------------------------------------------------------------
  // resolve
  // ---------------------------------------------------------------------

  /** The state of `resolve`'s loop: the gathered path and whether it is absolute. */
  datatype Gathered = Gathered(path: string, absolute: bool)

  /**
   * What `resolve`'s loop gathers from `args[k..]`, scanned right to left:
   * each non-empty argument and a `/` are prepended until one is absolute.
   */
  function GatherFrom(args: seq<string>, k: nat): Gathered
    requires k <= |args|
    decreases |args| - k
  {
    if k == |args| then Gathered("", false)
    else
      var rest := GatherFrom(args, k + 1);
      if rest.absolute || args[k] == "" then rest
      else Gathered(args[k] + "/" + rest.path, IsAbsolute(args[k]))
  }

  /** What `resolve($paths)` returns, with `getcwd()` as `cwd`. */
  function Resolved(paths: seq<string>, cwd: string): string {
    Finish(GatherFrom([cwd] + paths, 0))
  }

  /** The normalisation `resolve` applies to what its loop gathered. */
  function Finish(g: Gathered): string {
    var p := Implode('/', NormalizeSegments(Explode('/', g.path), !g.absolute));
    var r := (if g.absolute then "/" else "") + p;
    if Truthy(r) then r else "."
  }

  /** Once a suffix is absolute, the arguments to its left change nothing. */
  lemma {:induction false} GatherStopsAtAbsolute(args: seq<string>, k: nat)
    requires k <= |args| && GatherFrom(args, k).absolute
    ensures GatherFrom(args, 0) == GatherFrom(args, k)
    decreases k
  {
    if k > 0 {
      GatherStopsAtAbsolute(args, k - 1);
    }
  }

  /** Gathering depends only on the arguments still to be scanned. */
  lemma {:induction false} GatherSameSuffix(a: seq<string>, i: nat, b: seq<string>, j: nat)
    requires i <= |a| && j <= |b| && a[i..] == b[j..]
    ensures GatherFrom(a, i) == GatherFrom(b, j)
    decreases |a| - i
  {
    if i < |a| {
      assert a[i] == a[i..][0] == b[j..][0] == b[j];
      assert a[i + 1..] == a[i..][1..];
      assert b[j + 1..] == b[j..][1..];
      GatherSameSuffix(a, i + 1, b, j + 1);
    }
  }

  /** The gathered path is absolute exactly when some scanned argument is. */
  lemma {:induction false} GatherAbsolute(args: seq<string>, k: nat)
    requires k <= |args|
    ensures GatherFrom(args, k).absolute <==> exists i | k <= i < |args| :: IsAbsolute(args[i])
    decreases |args| - k
  {
    if k < |args| {
      GatherAbsolute(args, k + 1);
    }
  }

  method Resolve(paths: seq<string>, cwd: string) returns (r: string)
    ensures r == Resolved(paths, cwd)
  {
    ghost var args := [cwd] + paths;
    var resolvedPath := "";
    var resolvedAbsolute := false;

    var i := |paths| - 1;
    while i >= -1 && !resolvedAbsolute
      invariant -2 <= i < |paths|
      invariant Gathered(resolvedPath, resolvedAbsolute) == GatherFrom(args, i + 2)
      decreases i + 2
    {
      var path := if i >= 0 then paths[i] else cwd;
      assert path == args[i + 1];

      // Skip empty entries
      if path == "" {
        i := i - 1;
        continue;
      }

      resolvedPath := path + "/" + resolvedPath;
      resolvedAbsolute := |path| > 0 && path[0] == '/';
      i := i - 1;
    }
    if resolvedAbsolute {
      GatherStopsAtAbsolute(args, i + 2);
    }

    // Normalize the path
    var parts := NormalizeArray(Explode('/', resolvedPath), !resolvedAbsolute);
    resolvedPath := Implode('/', parts);

    r := (if resolvedAbsolute then "/" else "") + resolvedPath;
    if !Truthy(r) {
      r := ".";
    }
  }

  /**
   * `resolve` ignores every argument to the left of an absolute one, and then
   * does not consult the working directory either.
   */
  lemma ResolveIgnoresLeftOfAbsolute(paths: seq<string>, k: nat, cwd: string, cwd': string)
    requires k < |paths| && IsAbsolute(paths[k])
    ensures Resolved(paths, cwd) == Resolved(paths[k..], cwd')
  {
    var a := [cwd] + paths;
    var b := [cwd'] + paths[k..];
    assert a[k + 1..] == b[1..];
    GatherSameSuffix(a, k + 1, b, 1);
    assert GatherFrom(a, k + 1).absolute by {
      GatherAbsolute(a, k + 1);
      assert IsAbsolute(a[k + 1]);
    }
    GatherStopsAtAbsolute(a, k + 1);
    GatherStopsAtAbsolute(b, 1);
  }

  /** `resolve` never returns "", and its result is absolute exactly when the gathered path is. */
  lemma FinishAbsolute(g: Gathered)
    ensures Finish(g) != ""
    ensures IsAbsolute(Finish(g)) <==> g.absolute
  {
    var parts := Explode('/', g.path);
    var segs := NormalizeSegments(parts, !g.absolute);
    NormalizeIsSubsequence(parts, !g.absolute);
    NormalizeCollapsed(parts, !g.absolute);
    forall i | 0 <= i < |segs|
      ensures Truthy(segs[i]) && '/' !in segs[i]
    {
      assert segs[i] in parts;
    }
    GluedSegments(segs);
    var p := Implode('/', segs);
    if g.absolute {
      assert Finish(g) == "/" + p;
    } else if Truthy(p) {
      assert Finish(g) == p && p[0] != '/';
    } else {
      assert p == "" && Finish(g) == ".";
    }
  }

  /**
   * `resolve` never returns "", and its result is absolute exactly when the
   * working directory or some argument is absolute.
   */
  lemma ResolveAbsolute(paths: seq<string>, cwd: string)
    ensures Resolved(paths, cwd) != ""
    ensures IsAbsolute(Resolved(paths, cwd)) <==>
            IsAbsolute(cwd) || exists i | 0 <= i < |paths| :: IsAbsolute(paths[i])
  {
    var args := [cwd] + paths;
    GatherAbsolute(args, 0);
    FinishAbsolute(GatherFrom(args, 0));
    if exists i | 0 <= i < |paths| :: IsAbsolute(paths[i]) {
      var i :| 0 <= i < |paths| && IsAbsolute(paths[i]);
      assert IsAbsolute(args[i + 1]);
    }
    if exists i | 0 <= i < |args| :: IsAbsolute(args[i]) {
      var i :| 0 <= i < |args| && IsAbsolute(args[i]);
      if i > 0 {
        assert IsAbsolute(paths[i - 1]);
      }
    }
  }

  /** The `/`-parts of `/..//x//`. */
  lemma ExplodeAboveRoot(x: string)
    requires '/' !in x
    ensures Explode('/', "/..//" + x + "//") == ["", "..", "", x, "", ""]
  {
    var parts := ["", "..", "", x, "", ""];
    assert parts[5..] == [""];
    assert parts[4..][1..] == parts[5..];
    assert parts[3..][1..] == parts[4..];
    assert parts[2..][1..] == parts[3..];
    assert parts[1..][1..] == parts[2..];
    assert Implode('/', parts[5..]) == "";
    assert Implode('/', parts[4..]) == "/";
    assert Implode('/', parts[3..]) == x + "//";
    assert Implode('/', parts[2..]) == "/" + x + "//";
    assert Implode('/', parts[1..]) == "..//" + x + "//";
    assert Implode('/', parts) == "/..//" + x + "//";
    ExplodeImplode('/', parts);
  }

  /** Normalising `/..//x//` from the root keeps only `x`. */
  lemma NormalizeAboveRoot(x: string)
    requires Truthy(x) && x != "." && x != ".."
    ensures NormalizeSegments(["", "..", "", x, "", ""], false) == [x]
  {
    var q := ["..", "", x];
    assert NormalizeSegments(q, false) == [x] by {
      assert Fold([], q[..1], false) == [] by {
        assert q[..1][..0] == [];
      }
      assert Fold([], q[..2], false) == [] by {
        assert q[..2][..1] == q[..1];
      }
      assert q[..3][..2] == q[..2];
      assert q[..3] == q;
    }
    NormalizeIgnoresFalsyEnds(q, "", false);
    NormalizeIgnoresFalsyEnds(q + [""], "", false);
    NormalizeIgnoresFalsyEnds(q + [""] + [""], "", false);
    assert ["", "..", "", x, "", ""] == [""] + (q + [""] + [""]);
  }

  /**
   * `..` at the root stays at the root: `resolve([first, '/../', x + '/'])`
   * is `'/' + x` for a plain segment `x` (e.g. `/var/lib`, `/../`, `file/`
   * resolve to `/file`), whatever the working directory.
   */
  lemma ResolveAboveRoot(x: string, first: string, cwd: string)
    requires Truthy(x) && '/' !in x && x != "." && x != ".."
    ensures Resolved([first, "/../", x + "/"], cwd) == "/" + x
  {
    var paths := [first, "/../", x + "/"];
    ResolveIgnoresLeftOfAbsolute(paths, 1, cwd, "/");
    var args := ["/", "/../", x + "/"];
    assert ["/"] + paths[1..] == args;
    assert GatherFrom(args, 2) == Gathered(x + "/" + "/", false);
    assert GatherFrom(args, 1) == Gathered("/..//" + x + "//", true);
    GatherStopsAtAbsolute(args, 1);
    ExplodeAboveRoot(x);
    NormalizeAboveRoot(x);
    assert Implode('/', [x]) == x;
  }

  // ---------------------------------------------------------------------
  // relative
  // ---------------------------------------------------------------------

  /** The trimmed `/`-parts of a resolved path after its leading character. */
  function RelativeParts(path: string, cwd: string): seq<string> {
    TrimRelative(Explode('/', DropFirst(Resolved([path], cwd))))
  }

  /** What `relative` returns once both paths are split into parts. */
  function RelativeBetween(fromParts: seq<string>, toParts: seq<string>): string {
    var same := CommonPrefixLen(fromParts, toParts);
    Implode('/', Dots(|fromParts| - same) + toParts[same..])
  }

  /** What `relative($from, $to)` returns. */
  function Relativized(from: string, to: string, cwd: string): string {
    RelativeBetween(RelativeParts(from, cwd), RelativeParts(to, cwd))
  }

  method Relative(from: string, to: string, cwd: string) returns (r: string)
    ensures r == Relativized(from, to, cwd)
  {
    var f := Resolve([from], cwd);
    f := DropFirst(f);
    var t := Resolve([to], cwd);
    t := DropFirst(t);

    var fromParts := TrimRelativeArray(Explode('/', f));
    var toParts := TrimRelativeArray(Explode('/', t));

    var samePartsLength := SamePartsLength(fromParts, toParts);

    var outputParts: seq<string> := [];
    var j := samePartsLength;
    while j < |fromParts|
      invariant samePartsLength <= j <= |fromParts|
      invariant outputParts == Dots(j - samePartsLength)
    {
      outputParts := outputParts + [".."];
      j := j + 1;
    }

    outputParts := outputParts + toParts[samePartsLength..];
    r := Implode('/', outputParts);
  }

  /** After its first character, a resolved path never ends with `/`. */
  lemma FinishNoTrailingSlash(g: Gathered)
    ensures !EndsWith(DropFirst(Finish(g)), '/')
  {
    var parts := Explode('/', g.path);
    var segs := NormalizeSegments(parts, !g.absolute);
    NormalizeIsSubsequence(parts, !g.absolute);
    NormalizeCollapsed(parts, !g.absolute);
    forall i | 0 <= i < |segs|
      ensures Truthy(segs[i]) && '/' !in segs[i]
    {
      assert segs[i] in parts;
    }
    GluedSegments(segs);
    var p := Implode('/', segs);
    if g.absolute {
      assert DropFirst(Finish(g)) == p;
    } else if Truthy(p) {
      assert Finish(g) == p;
    } else {
      assert Finish(g) == ".";
    }
  }

  /**
   * The `relative` parts are the same whether `trimRelativeArray` slices by
   * length, as written, or by end index: the bug it carries never shows here.
   */
  lemma RelativePartsAsWritten(path: string, cwd: string)
    ensures TrimRelativeAsWritten(Explode('/', DropFirst(Resolved([path], cwd))))
         == RelativeParts(path, cwd)
  {
    var s := DropFirst(Resolved([path], cwd));
    FinishNoTrailingSlash(GatherFrom([cwd] + [path], 0));
    ExplodeLastEmpty('/', s);
    var arr := Explode('/', s);
    if s == "" {
      assert arr == [""];
    }
    TrimAsWrittenAgrees(arr);
  }

  /** `relative(a, a)` is the empty string. */
  lemma RelativeToItself(path: string, cwd: string)
    ensures Relativized(path, path, cwd) == ""
  {
    var parts := RelativeParts(path, cwd);
    assert CommonPrefixLen(parts, parts) == |parts|;
    assert Dots(0) + parts[|parts|..] == [];
  }

  /**
   * The output of `relative` is one `..` for every `from` segment past the
   * longest common leading run, then the `to` segments past that run.
   */
  lemma RelativeShape(from: string, to: string, cwd: string)
    ensures var fromParts := RelativeParts(from, cwd);
            var toParts := RelativeParts(to, cwd);
            exists k: nat | k <= |fromParts| && k <= |toParts| ::
              && fromParts[..k] == toParts[..k]
              && (k < |fromParts| && k < |toParts| ==> fromParts[k] != toParts[k])
              && Relativized(from, to, cwd) == Implode('/', Dots(|fromParts| - k) + toParts[k..])
  {
    RelativeBetweenShape(RelativeParts(from, cwd), RelativeParts(to, cwd));
  }

  lemma RelativeBetweenShape(fromParts: seq<string>, toParts: seq<string>)
    ensures exists k: nat | k <= |fromParts| && k <= |toParts| ::
              && fromParts[..k] == toParts[..k]
              && (k < |fromParts| && k < |toParts| ==> fromParts[k] != toParts[k])
              && RelativeBetween(fromParts, toParts) == Implode('/', Dots(|fromParts| - k) + toParts[k..])
  {
    var k := CommonPrefixLen(fromParts, toParts);
    assert RelativeBetween(fromParts, toParts) == Implode('/', Dots(|fromParts| - k) + toParts[k..]);
  }

  // ---------------------------------------------------------------------
  // resolve undoes relative
  // ---------------------------------------------------------------------

  /** A relative last argument is appended to what the loop gathers, followed by a `/`. */
  lemma {:induction false} GatherSnoc(args: seq<string>, x: string, k: nat)
    requires k <= |args| && !IsAbsolute(x)
    ensures var g := GatherFrom(args, k);
            GatherFrom(args + [x], k) == if x == "" then g else Gathered(g.path + x + "/", g.absolute)
    decreases |args| - k
  {
    var a := args + [x];
    assert a[k] == if k == |args| then x else args[k];
    if k == |args| {
      assert GatherFrom(a, k + 1) == Gathered("", false);
    } else {
      GatherSnoc(args, x, k + 1);
    }
  }

  /**
   * One path resolved against an absolute working directory: the gathered
   * path is absolute and ends with `/`, and its collapsed segments are both
   * the body of the resolved path and the parts `relative` compares.
   */
  lemma ResolvedOne(path: string, cwd: string) returns (segs: seq<string>)
    requires IsAbsolute(cwd)
    ensures var g := GatherFrom([cwd, path], 0);
            && g.absolute && EndsWith(g.path, '/')
            && segs == NormalizeSegments(Explode('/', g.path), false)
    ensures Resolved([path], cwd) == "/" + Implode('/', segs)
    ensures RelativeParts(path, cwd) == segs
    ensures Collapsed(segs, false)
    ensures forall i | 0 <= i < |segs| :: Truthy(segs[i]) && '/' !in segs[i]
  {
    var args := [cwd, path];
    assert [cwd] + [path] == args;
    assert GatherFrom(args, 2) == Gathered("", false);
    var g1 := GatherFrom(args, 1);
    assert g1 == if path == "" then Gathered("", false) else Gathered(path + "/", IsAbsolute(path));
    var g := GatherFrom(args, 0);
    assert g == if g1.absolute then g1 else Gathered(cwd + "/" + g1.path, true);
    assert EndsWith(g.path, '/');
    var parts := Explode('/', g.path);
    segs := NormalizeSegments(parts, false);
    NormalizeCollapsed(parts, false);
    NormalizeIsSubsequence(parts, false);
    forall i | 0 <= i < |segs|
      ensures '/' !in segs[i]
    {
      assert segs[i] in parts;
    }
    var p := Implode('/', segs);
    assert Resolved([path], cwd) == "/" + p;
    assert DropFirst("/" + p) == p;
    if segs == [] {
      assert Explode('/', p) == [""];
      assert TrimRelative([""]) == [];
    } else {
      ExplodeImplode('/', segs);
      TrimKeepsNonEmpty(segs);
    }
  }

  /** Appending `rel/` to a gathered path that ends in `/` continues its segments with `rel`'s parts. */
  lemma NormalizeAppended(p: string, rel: string, allowAboveRoot: bool)
    requires EndsWith(p, '/')
    ensures NormalizeSegments(Explode('/', p + rel + "/"), allowAboveRoot)
         == Fold(NormalizeSegments(Explode('/', p), allowAboveRoot), Explode('/', rel), allowAboveRoot)
  {
    var x := p[..|p| - 1];
    assert p == x + ['/'] + "";
    assert p + rel + "/" == x + ['/'] + (rel + "/");
    ExplodeConcat('/', x, "");
    ExplodeConcat('/', x, rel + "/");
    ExplodeTrailingSlash(rel);
    var ex := Explode('/', x);
    var er := Explode('/', rel);
    assert Explode('/', "") == [""];
    NormalizeIgnoresFalsyEnds(ex, "", allowAboveRoot);
    NormalizeIgnoresFalsyEnds(ex + er, "", allowAboveRoot);
    assert ex + (er + [""]) == (ex + er) + [""];
    FoldAppend([], ex, er, allowAboveRoot);
  }

  /** The finishing step on an absolute gathered path whose segments are `segs`. */
  lemma FinishAppended(p: string, rel: string, segs: seq<string>)
    requires NormalizeSegments(Explode('/', p + rel + "/"), false) == segs
    ensures Finish(Gathered(p + rel + "/", true)) == "/" + Implode('/', segs)
  {
  }

  /**
   * From the `from` segments, one `..` per segment past the common run and
   * then the `to` segments past it lead to exactly the `to` segments.
   */
  lemma FoldRelative(fs: seq<string>, ts: seq<string>, k: nat)
    requires Collapsed(fs, false) && Collapsed(ts, false)
    requires k <= |fs| && k <= |ts| && fs[..k] == ts[..k]
    ensures Fold(fs, Dots(|fs| - k) + ts[k..], false) == ts
  {
    var m := |fs| - k;
    FoldDots(fs, m);
    assert Fold(fs, Dots(m), false) == ts[..k] by {
      assert |fs| - m == k;
    }
    var rest := ts[k..];
    forall i | 0 <= i < |rest|
      ensures Truthy(rest[i]) && rest[i] != "." && rest[i] != ".."
    {
      assert rest[i] == ts[k + i];
    }
    FoldPlain(ts[..k], rest, false);
    SplitAt(ts, k);
    FoldAppend(fs, Dots(m), rest, false);
  }

  lemma SplitAt(s: seq<string>, k: nat)
    requires k <= |s|
    ensures s[..k] + s[k..] == s
  {
  }

  /**
   * `resolve` undoes `relative`: resolving the relative path from `from`
   * leads to where `to` resolves, `resolve(from, relative(from, to)) ==
   * resolve(to)`, whenever the working directory is absolute.
   */
  lemma ResolveRelative(from: string, to: string, cwd: string)
    requires IsAbsolute(cwd)
    ensures Resolved([from, Relativized(from, to, cwd)], cwd) == Resolved([to], cwd)
  {
    var fs := ResolvedOne(from, cwd);
    var ts := ResolvedOne(to, cwd);
    RelativizedOnParts(from, to, cwd, fs, ts);
    var k, out := RelativeOut(fs, ts);
    if out != [] {
      FoldRelative(fs, ts, k);
    }
    ResolveAppended(from, cwd, Implode('/', out), fs, ts);
  }

  /** Resolving `from` and then a relative `rel` whose parts lead from `fs` to `ts`. */
  lemma ResolveAppended(from: string, cwd: string, rel: string, fs: seq<string>, ts: seq<string>)
    requires var g := GatherFrom([cwd, from], 0);
             && g.absolute && EndsWith(g.path, '/')
             && fs == NormalizeSegments(Explode('/', g.path), false)
    requires rel == "" ==> fs == ts && Resolved([from], cwd) == "/" + Implode('/', fs)
    requires rel != "" ==> !IsAbsolute(rel) && Fold(fs, Explode('/', rel), false) == ts
    ensures Resolved([from, rel], cwd) == "/" + Implode('/', ts)
  {
    var g := GatherFrom([cwd, from], 0);
    assert [cwd] + [from, rel] == [cwd, from] + [rel];
    GatherSnoc([cwd, from], rel, 0);
    if rel != "" {
      NormalizeAppended(g.path, rel, false);
      FinishAppended(g.path, rel, ts);
    }
  }

  lemma RelativizedOnParts(from: string, to: string, cwd: string, fs: seq<string>, ts: seq<string>)
    requires RelativeParts(from, cwd) == fs && RelativeParts(to, cwd) == ts
    ensures Relativized(from, to, cwd) == RelativeBetween(fs, ts)
  {
  }

  /**
   * The parts `relative` glues: `""` exactly when the two segment lists are
   * equal, and otherwise a relative path that splits back into those parts.
   */
  lemma RelativeOut(fs: seq<string>, ts: seq<string>) returns (k: nat, out: seq<string>)
    requires forall i | 0 <= i < |fs| :: Truthy(fs[i]) && '/' !in fs[i]
    requires forall i | 0 <= i < |ts| :: Truthy(ts[i]) && '/' !in ts[i]
    ensures k == CommonPrefixLen(fs, ts) && out == Dots(|fs| - k) + ts[k..]
    ensures RelativeBetween(fs, ts) == Implode('/', out)
    ensures out == [] ==> fs == ts && Implode('/', out) == ""
    ensures out != [] ==> && Implode('/', out) != "" && !IsAbsolute(Implode('/', out))
                          && Explode('/', Implode('/', out)) == out
  {
    k := CommonPrefixLen(fs, ts);
    out := Dots(|fs| - k) + ts[k..];
    forall i | 0 <= i < |out|
      ensures Truthy(out[i]) && '/' !in out[i]
    {
      if i >= |fs| - k {
        assert out[i] == ts[k + (i - (|fs| - k))];
      }
    }
    ImplodeTruthy('/', out);
    if out == [] {
      assert fs == fs[..k] && ts == ts[..k];
    } else {
      ImplodeEnds('/', out);
      assert Implode('/', out)[0] == out[0][0];
      ExplodeImplode('/', out);
    }
  }
}
