/**
 * The facade (src/Path.php): strips stream-wrapper schemes such as
 * `glob://` or `compress.zlib://php://`, routes each call to the selected
 * adapter, and re-attaches the last scheme to the resolved path. The two
 * static fields `$adapter` and `$posix` are the state of class `Path`.
 */
module Path {
  import opened Php
  import opened Adapters
  import Posix

  // ---------------------------------------------------------------------
  // scheme_re = |^[^/\\]{2,}://|
  // ---------------------------------------------------------------------

  /** A whole scheme: at least two non-slash characters, then `://`. */
  predicate SchemeShape(t: string) {
    |t| >= 5 && NoSlash(t[..|t| - 3])
    && t[|t| - 3] == ':' && t[|t| - 2] == '/' && t[|t| - 1] == '/'
  }

  /** No upper-case ASCII letter: `strtolower` leaves the string as it is. */
  predicate IsLower(s: string) {
    forall i | 0 <= i < |s| :: !('A' <= s[i] <= 'Z')
  }

  /**
   * The length of the scheme `scheme_re` matches at the start of `s`.
   * The greedy class run can only give back its last character, so the
   * match exists exactly when the first slash-free run ends in `:` and is
   * followed by `//`.
   */
  function SchemeLength(s: string): Option<nat> {
    var n := NonSlashRun(s);
    if 3 <= n && s[n - 1] == ':' && n + 2 <= |s| && s[n] == '/' && s[n + 1] == '/' then Some(n + 2)
    else None
  }

  /** What `scheme_re` matches is a whole scheme at the start of `s`. */
  lemma SchemeLengthShape(s: string)
    requires SchemeLength(s).Some?
    ensures SchemeLength(s).value <= |s| && SchemeShape(s[..SchemeLength(s).value])
  {
    var n := NonSlashRun(s);
    assert s[..n + 2][..n - 1] == s[..n - 1];
  }

  /** A scheme followed by anything is matched as exactly that scheme. */
  lemma SchemeLengthOfShape(t: string, x: string)
    requires SchemeShape(t)
    ensures SchemeLength(t + x) == Some(|t|)
  {
    var s := t + x;
    var n := |t| - 2;
    assert s[..n] == t[..|t| - 3] + [':'];
    NonSlashRunExact(s, n);
  }

  /** `scheme_re` matches `s` exactly when some prefix of `s` is a scheme, and then that prefix. */
  lemma SchemeLengthUnique(s: string, k: nat)
    requires k <= |s| && SchemeShape(s[..k])
    ensures SchemeLength(s) == Some(k)
  {
    assert s == s[..k] + s[k..];
    SchemeLengthOfShape(s[..k], s[k..]);
  }

  /** `scheme_re` finds no match exactly when no prefix of `s` is a scheme. */
  lemma SchemeLengthNone(s: string)
    ensures SchemeLength(s).None? <==> forall k | 0 <= k <= |s| :: !SchemeShape(s[..k])
  {
    if k :| 0 <= k <= |s| && SchemeShape(s[..k]) {
      SchemeLengthUnique(s, k);
    } else if SchemeLength(s).Some? {
      SchemeLengthShape(s);
    }
  }

  lemma SchemeShapeLower(t: string)
    requires SchemeShape(t)
    ensures SchemeShape(Lower(t)) && IsLower(Lower(t))
  {
  }

  // ---------------------------------------------------------------------
  // stripScheme and getPrefix
  // ---------------------------------------------------------------------

  /** What `stripScheme($path, $acc)` returns, with `$acc` after the call. */
  datatype Stripped = Stripped(rest: string, prefixes: seq<string>)

  /** Each entry is a lower-case scheme and no two neighbours repeat, nor the first `last`. */
  ghost predicate Canonical(ps: seq<string>, last: seq<string>) {
    (forall i | 0 <= i < |ps| :: SchemeShape(ps[i]) && IsLower(ps[i]))
    && (forall i, j | 0 <= i < j < |ps| && j == i + 1 :: ps[i] != ps[j])
    && (ps != [] && last != [] ==> ps[0] != last[|last| - 1])
  }

  /** `$acc[] = $prefix` unless `$prefix` repeats the last entry. */
  function Push(acc: seq<string>, prefix: string): (r: seq<string>)
    ensures r == acc || r == acc + [prefix]
    ensures r != [] && r[|r| - 1] == prefix
  {
    if |acc| == 0 || prefix != acc[|acc| - 1] then acc + [prefix] else acc
  }

  /**
   * `stripScheme`: peels schemes off the front one at a time, appending each
   * lower-cased one to `acc` unless it repeats the last entry.
   */
  function StripScheme(path: string, acc: seq<string>): (r: Stripped)
    ensures SchemeLength(r.rest).None?
    decreases |path|
  {
    match SchemeLength(path)
    case None => Stripped(path, acc)
    case Some(k) =>
      var prefix := Lower(path[..k]);
      StripScheme(path[k..], Push(acc, prefix))
  }

  /** One unfolding of `stripScheme` when `scheme_re` matches. */
  lemma StripSchemeOnce(path: string, acc: seq<string>) returns (k: nat, acc': seq<string>)
    requires SchemeLength(path).Some?
    ensures k == SchemeLength(path).value && 0 < k <= |path|
    ensures acc' == Push(acc, Lower(path[..k]))
    ensures StripScheme(path, acc) == StripScheme(path[k..], acc')
  {
    k := SchemeLength(path).value;
    acc' := Push(acc, Lower(path[..k]));
  }

  /** What `stripScheme` returns is what is left at the end of `path`. */
  lemma {:induction false} StripSchemeSuffix(path: string, acc: seq<string>)
    ensures var r := StripScheme(path, acc);
            |r.rest| <= |path| && r.rest == path[|path| - |r.rest|..]
    decreases |path|
  {
    if SchemeLength(path).Some? {
      var k, acc' := StripSchemeOnce(path, acc);
      StripSchemeSuffix(path[k..], acc');
      SuffixOfSuffix(path, k, StripScheme(path[k..], acc').rest);
    }
  }

  /** A suffix of `path[k..]` is a suffix of `path`. */
  lemma SuffixOfSuffix(path: string, k: nat, rest: string)
    requires k <= |path| && |rest| <= |path[k..]| && rest == path[k..][|path[k..]| - |rest|..]
    ensures |rest| <= |path| && rest == path[|path| - |rest|..]
  {
    assert path[k..][|path[k..]| - |rest|..] == path[|path| - |rest|..];
  }

  /** `stripScheme` only appends to `acc`, and what it appends is canonical. */
  lemma {:induction false} StripSchemeAppends(path: string, acc: seq<string>)
    ensures var r := StripScheme(path, acc);
            && |acc| <= |r.prefixes| && r.prefixes[..|acc|] == acc
            && Canonical(r.prefixes[|acc|..], acc)
    decreases |path|, 0
  {
    var r := StripScheme(path, acc);
    if SchemeLength(path).None? {
      assert r.prefixes[|acc|..] == [];
    } else {
      var k := SchemeLength(path).value;
      var prefix := Lower(path[..k]);
      SchemeLengthShape(path);
      SchemeShapeLower(path[..k]);
      if |acc| == 0 || prefix != acc[|acc| - 1] {
        StripSchemeAppendsStep(path[k..], acc, prefix);
      } else {
        StripSchemeAppends(path[k..], acc);
      }
    }
  }

  /** The step of `StripSchemeAppends` that appends a new scheme. */
  lemma {:induction false} StripSchemeAppendsStep(rest: string, acc: seq<string>, prefix: string)
    requires SchemeShape(prefix) && IsLower(prefix)
    requires |acc| == 0 || prefix != acc[|acc| - 1]
    ensures var r := StripScheme(rest, acc + [prefix]);
            && |acc| <= |r.prefixes| && r.prefixes[..|acc|] == acc
            && Canonical(r.prefixes[|acc|..], acc)
    decreases |rest|, 1
  {
    StripSchemeAppends(rest, acc + [prefix]);
    var ps := StripScheme(rest, acc + [prefix]).prefixes;
    PrefixSplit(ps, acc, prefix);
    CanonicalCons(prefix, ps[|acc| + 1..], acc);
  }

  lemma PrefixSplit(ps: seq<string>, acc: seq<string>, p: string)
    requires |acc + [p]| <= |ps| && ps[..|acc + [p]|] == acc + [p]
    ensures ps[..|acc|] == acc && ps[|acc|..] == [p] + ps[|acc| + 1..]
  {
    assert ps[..|acc|] == ps[..|acc| + 1][..|acc|];
    assert ps[|acc|] == ps[..|acc| + 1][|acc|];
  }

  /** A canonical list stays canonical with one more scheme in front that differs from `last`'s end. */
  lemma CanonicalCons(p: string, ps: seq<string>, last: seq<string>)
    requires SchemeShape(p) && IsLower(p) && (last == [] || p != last[|last| - 1])
    requires Canonical(ps, last + [p])
    ensures Canonical([p] + ps, last)
  {
    var qs := [p] + ps;
    forall i, j | 0 <= i < j < |qs| && j == i + 1
      ensures qs[i] != qs[j]
    {
      if i > 0 {
        assert qs[i] == ps[i - 1] && qs[j] == ps[j - 1];
      }
    }
  }

  /** The path with every scheme taken off the front. */
  function Bare(path: string): string {
    StripScheme(path, []).rest
  }

  /** `getPrefix($path, $def)`: the glued schemes of `path`, or `def` when it has none. */
  function GetPrefix(path: string, def: string): string {
    var ps := StripScheme(path, []).prefixes;
    if |ps| > 0 then Concat(ps) else def
  }

  lemma LowerOfLower(t: string)
    requires IsLower(t)
    ensures Lower(t) == t
  {
  }

  /** One step of `stripScheme` on a lower-case scheme glued in front of `tail`. */
  lemma StripSchemeStep(p: string, tail: string, acc: seq<string>)
    requires SchemeShape(p) && IsLower(p)
    ensures StripScheme(p + tail, acc)
         == StripScheme(tail, Push(acc, p))
  {
    var s := p + tail;
    SchemeLengthOfShape(p, tail);
    assert s[..|p|] == p && s[|p|..] == tail;
    LowerOfLower(p);
  }

  /** Stripping canonical schemes glued in front of a scheme-free rest gives them back. */
  lemma {:induction false} StripConcat(ps: seq<string>, rest: string, acc: seq<string>)
    requires Canonical(ps, acc) && SchemeLength(rest).None?
    ensures StripScheme(Concat(ps) + rest, acc) == Stripped(rest, acc + ps)
    decreases |ps|
  {
    if ps == [] {
      assert Concat(ps) + rest == rest;
    } else {
      assert acc + [ps[0]] + ps[1..] == acc + ps by {
        assert ps == [ps[0]] + ps[1..];
      }
      var tail := Concat(ps[1..]) + rest;
      assert Concat(ps) + rest == ps[0] + tail;
      StripSchemeStep(ps[0], tail, acc);
      assert Canonical(ps[1..], acc + [ps[0]]);
      StripConcat(ps[1..], rest, acc + [ps[0]]);
    }
  }

  /** Stripping is canonical: re-stripping the glued prefixes plus the rest changes nothing. */
  lemma StripSchemeCanonical(path: string)
    ensures var r := StripScheme(path, []);
            StripScheme(Concat(r.prefixes) + r.rest, []) == r
  {
    var r := StripScheme(path, []);
    StripSchemeCanonicalPrefixes(path);
    StripConcat(r.prefixes, r.rest, []);
    assert [] + r.prefixes == r.prefixes;
  }

  /** The schemes `stripScheme($path)` reports are canonical. */
  lemma StripSchemeCanonicalPrefixes(path: string)
    ensures Canonical(StripScheme(path, []).prefixes, [])
  {
    var ps := StripScheme(path, []).prefixes;
    StripSchemeAppends(path, []);
    assert ps[0..] == ps;
  }

  /** A prefix from `getPrefix` in front of a scheme-free path is reported back unchanged. */
  lemma GetPrefixStable(path: string, x: string, def: string)
    requires StripScheme(path, []).prefixes != [] && SchemeLength(x).None?
    ensures GetPrefix(GetPrefix(path, def) + x, def) == GetPrefix(path, def)
  {
    var ps := StripScheme(path, []).prefixes;
    StripSchemeCanonicalPrefixes(path);
    GetPrefixOfGlued(ps, x, def);
    GetPrefixOfStripped(path, def, ps);
  }

  /** A path without a scheme reports the default and is its own bare path. */
  lemma GetPrefixDefault(path: string, def: string)
    requires SchemeLength(path).None?
    ensures GetPrefix(path, def) == def && Bare(path) == path
  {
  }

  /** One step of `stripScheme` on any scheme glued in front of `tail`. */
  lemma StripSchemeLowers(p: string, tail: string, acc: seq<string>)
    requires SchemeShape(p)
    ensures StripScheme(p + tail, acc)
         == StripScheme(tail, Push(acc, Lower(p)))
  {
    var s := p + tail;
    SchemeLengthOfShape(p, tail);
    assert s[..|p|] == p && s[|p|..] == tail;
  }

  /**
   * Two schemes in front of a scheme-free path: both are reported, lower-cased,
   * and a scheme repeated right after itself is reported once.
   */
  lemma GetPrefixTwo(s: string, t: string, x: string, def: string)
    requires SchemeShape(s) && SchemeShape(t) && SchemeLength(x).None?
    ensures GetPrefix(s + t + x, def)
         == if Lower(s) == Lower(t) then Lower(s) else Lower(s) + Lower(t)
  {
    var ps := StripTwo(s, t, x);
    ConcatOneTwo(Lower(s), Lower(t));
  }

  /** The schemes `stripScheme` reports for two schemes in front of a scheme-free path. */
  lemma StripTwo(s: string, t: string, x: string) returns (ps: seq<string>)
    requires SchemeShape(s) && SchemeShape(t) && SchemeLength(x).None?
    ensures ps == StripScheme(s + t + x, []).prefixes
    ensures ps == if Lower(s) == Lower(t) then [Lower(s)] else [Lower(s), Lower(t)]
  {
    var ls := Lower(s);
    assert s + t + x == s + (t + x);
    StripSchemeLowers(s, t + x, []);
    assert [] + [ls] == [ls];
    StripSchemeLowers(t, x, [ls]);
    ps := if ls == Lower(t) then [ls] else [ls, Lower(t)];
    StripSchemeNone(x, ps);
  }

  /** `stripScheme` stops at once when `scheme_re` does not match. */
  lemma StripSchemeNone(x: string, acc: seq<string>)
    requires SchemeLength(x).None?
    ensures StripScheme(x, acc) == Stripped(x, acc)
  {
  }

  lemma ConcatOneTwo(a: string, b: string)
    ensures Concat([a]) == a && Concat([a, b]) == a + b
  {
    assert Concat([b]) == b + Concat([]);
    assert Concat([a]) == a + Concat([]);
    assert [a, b][1..] == [b];
  }

  // ---------------------------------------------------------------------
  // resolve: the foreach over the arguments
  // ---------------------------------------------------------------------

  /**
   * The variables of `resolve`'s loop. `imploded` is "" while it is still
   * `null`: both are falsy, and once set it glues at least one scheme.
   */
  datatype Routing = Routing(prefix: seq<string>, imploded: string, stripped: seq<string>)

  const Unrouted: Routing := Routing([], "", [])

  /** One pass of the loop: a new, different scheme drops what was gathered (a root change). */
  function Route(st: Routing, path: string): Routing {
    var r := StripScheme(path, []);
    var st1 :=
      if |r.prefixes| > 0 then
        var imploded := Concat(r.prefixes);
        var stripped := if Truthy(st.imploded) && st.imploded != imploded then [] else st.stripped;
        Routing(r.prefixes, imploded, stripped)
      else st;
    if Truthy(r.rest) then st1.(stripped := st1.stripped + [r.rest]) else st1
  }

  /** The loop run over `paths`, left to right, from `st`. */
  function RouteFrom(st: Routing, paths: seq<string>): Routing
    decreases |paths|
  {
    if paths == [] then st
    else Route(RouteFrom(st, paths[..|paths| - 1]), paths[|paths| - 1])
  }

  /** The schemes kept after the loop: none if every one is `file://`. */
  function KeptPrefix(prefix: seq<string>): seq<string> {
    if forall i | 0 <= i < |prefix| :: prefix[i] == "file://" then [] else prefix
  }

  /** Some scheme is `vfs://` or not local to `stream_is_local`: join POSIX-style. */
  predicate NonAbsolutable(prefix: seq<string>, isLocal: string -> bool) {
    exists i | 0 <= i < |prefix| :: prefix[i] == "vfs://" || !isLocal(prefix[i] + "/foo")
  }

  /** The adapter call `resolve` ends with: a POSIX `join` or the adapter's own `resolve`. */
  function Dispatched(a: Adapter, prefix: seq<string>, stripped: seq<string>, host: Host,
                      isLocal: string -> bool): string
  {
    if NonAbsolutable(prefix, isLocal) then Posix.Joined(stripped) else Resolved(a, stripped, host)
  }

  /** What `Path::resolve($paths)` returns with adapter `a`. */
  function Routed(a: Adapter, paths: seq<string>, host: Host, isLocal: string -> bool): string {
    var st := RouteFrom(Unrouted, paths);
    var prefix := KeptPrefix(st.prefix);
    Concat(prefix) + Dispatched(a, prefix, st.stripped, host, isLocal)
  }

  /** The loop's state is consistent: `imploded` glues `prefix`, and all gathered paths are truthy and bare. */
  ghost predicate WellRouted(st: Routing) {
    st.imploded == Concat(st.prefix)
    && Canonical(st.prefix, [])
    && (forall i | 0 <= i < |st.stripped| :: Truthy(st.stripped[i]) && SchemeLength(st.stripped[i]).None?)
  }

  lemma {:induction false} RouteKeepsWellRouted(paths: seq<string>)
    ensures WellRouted(RouteFrom(Unrouted, paths))
    decreases |paths|
  {
    if paths != [] {
      RouteKeepsWellRouted(paths[..|paths| - 1]);
      RouteStepWellRouted(RouteFrom(Unrouted, paths[..|paths| - 1]), paths[|paths| - 1]);
    }
  }

  /** One pass of the loop keeps its state consistent. */
  lemma RouteStepWellRouted(st: Routing, path: string)
    requires WellRouted(st)
    ensures WellRouted(Route(st, path))
  {
    StripSchemeCanonicalPrefixes(path);
  }

  lemma {:induction false} RouteFromAppend(st: Routing, a: seq<string>, b: seq<string>)
    ensures RouteFrom(st, a + b) == RouteFrom(RouteFrom(st, a), b)
    decreases |b|
  {
    if b == [] {
      assert a + b == a;
    } else {
      assert (a + b)[..|a + b| - 1] == a + b[..|b| - 1];
      RouteFromAppend(st, a, b[..|b| - 1]);
    }
  }

  /**
   * A new scheme different from the one in force is a root change: the
   * arguments before it are forgotten.
   */
  lemma SchemeSwitchRestarts(pre: seq<string>, p: string, post: seq<string>)
    requires StripScheme(p, []).prefixes != []
    requires var imploded := RouteFrom(Unrouted, pre).imploded;
             Truthy(imploded) && imploded != Concat(StripScheme(p, []).prefixes)
    ensures RouteFrom(Unrouted, pre + [p] + post) == RouteFrom(Unrouted, [p] + post)
  {
    RouteFromAppend(Unrouted, pre + [p], post);
    RouteFromAppend(Unrouted, [p], post);
    assert (pre + [p])[..|pre|] == pre;
    assert [p][..0] == [];
  }

  /** The same scheme again keeps gathering, under that scheme. */
  lemma SameSchemeAccumulates(pre: seq<string>, p: string)
    requires StripScheme(p, []).prefixes != []
    requires RouteFrom(Unrouted, pre).imploded == Concat(StripScheme(p, []).prefixes)
    ensures var before := RouteFrom(Unrouted, pre);
            var after := RouteFrom(Unrouted, pre + [p]);
            var r := StripScheme(p, []);
            && after.prefix == r.prefixes
            && after.stripped == before.stripped + (if Truthy(r.rest) then [r.rest] else [])
  {
    assert (pre + [p])[..|pre|] == pre;
  }

  /** The truthy bare paths, in order. */
  function TruthyBare(paths: seq<string>): (r: seq<string>)
    ensures forall i | 0 <= i < |r| :: Truthy(r[i])
    decreases |paths|
  {
    if paths == [] then []
    else
      var init := TruthyBare(paths[..|paths| - 1]);
      var b := Bare(paths[|paths| - 1]);
      if Truthy(b) then init + [b] else init
  }

  /** No scheme, or only `file://`. */
  predicate FileOnly(ps: seq<string>) {
    ps == [] || ps == ["file://"]
  }

  lemma KeptPrefixFileOnly(ps: seq<string>)
    requires FileOnly(ps)
    ensures KeptPrefix(ps) == []
  {
  }

  /** Arguments whose only scheme (if any) is `file://` gather all their truthy bare paths. */
  lemma {:induction false} FileSchemeGathersAll(paths: seq<string>)
    requires forall i | 0 <= i < |paths| :: FileOnly(StripScheme(paths[i], []).prefixes)
    ensures var st := RouteFrom(Unrouted, paths);
            && st.stripped == TruthyBare(paths)
            && FileOnly(st.prefix)
            && st.imploded == Concat(st.prefix)
    decreases |paths|
  {
    if paths != [] {
      FileSchemeGathersAll(paths[..|paths| - 1]);
      assert Concat(["file://"]) == "file://";
    }
  }

  /**
   * `file://` is transparent: when it is the only scheme used, `resolve`
   * is the adapter's resolve of the truthy bare paths, with no prefix.
   */
  lemma FileSchemeTransparent(a: Adapter, paths: seq<string>, host: Host, isLocal: string -> bool)
    requires forall i | 0 <= i < |paths| :: FileOnly(StripScheme(paths[i], []).prefixes)
    ensures Routed(a, paths, host, isLocal) == Resolved(a, TruthyBare(paths), host)
  {
    FileSchemeGathersAll(paths);
    KeptPrefixFileOnly(RouteFrom(Unrouted, paths).prefix);
    RoutedWithoutPrefix(a, paths, host, isLocal);
  }

  /** With no scheme kept, `resolve` is the adapter's resolve of the gathered paths. */
  lemma RoutedWithoutPrefix(a: Adapter, paths: seq<string>, host: Host, isLocal: string -> bool)
    requires KeptPrefix(RouteFrom(Unrouted, paths).prefix) == []
    ensures Routed(a, paths, host, isLocal) == Resolved(a, RouteFrom(Unrouted, paths).stripped, host)
  {
    assert !NonAbsolutable([], isLocal);
    assert Concat([]) == "";
  }

  /**
   * A `vfs://` (or remote) scheme in force joins the gathered paths
   * POSIX-style and puts the schemes back in front.
   */
  lemma NonLocalJoins(a: Adapter, paths: seq<string>, host: Host, isLocal: string -> bool)
    requires var prefix := RouteFrom(Unrouted, paths).prefix;
             exists i | 0 <= i < |prefix| :: prefix[i] == "vfs://"
    ensures var st := RouteFrom(Unrouted, paths);
            Routed(a, paths, host, isLocal) == Concat(st.prefix) + Posix.Joined(st.stripped)
  {
    var st := RouteFrom(Unrouted, paths);
    var i :| 0 <= i < |st.prefix| && st.prefix[i] == "vfs://";
    assert st.prefix[i] != "file://";
    assert KeptPrefix(st.prefix) == st.prefix;
  }

  /** Canonical schemes in front of a scheme-free path are what `getPrefix` reports. */
  lemma GetPrefixOfGlued(ps: seq<string>, x: string, def: string)
    requires ps != [] && Canonical(ps, []) && SchemeLength(x).None?
    ensures GetPrefix(Concat(ps) + x, def) == Concat(ps)
  {
    StripConcat(ps, x, []);
    assert [] + ps == ps;
    GetPrefixOfStripped(Concat(ps) + x, def, ps);
  }

  lemma GetPrefixOfStripped(path: string, def: string, ps: seq<string>)
    requires ps != [] && StripScheme(path, []).prefixes == ps
    ensures GetPrefix(path, def) == Concat(ps)
  {
  }

  /**
   * The schemes `resolve` puts in front of its result are the ones
   * `getPrefix` reports for that result, unless the adapter's part itself
   * starts with a scheme.
   */
  lemma RoutedKeepsPrefix(a: Adapter, paths: seq<string>, host: Host, isLocal: string -> bool)
    requires var st := RouteFrom(Unrouted, paths);
             var prefix := KeptPrefix(st.prefix);
             prefix != [] && SchemeLength(Dispatched(a, prefix, st.stripped, host, isLocal)).None?
    ensures var prefix := KeptPrefix(RouteFrom(Unrouted, paths).prefix);
            GetPrefix(Routed(a, paths, host, isLocal), "file://") == Concat(prefix)
  {
    RouteKeepsWellRouted(paths);
    var st := RouteFrom(Unrouted, paths);
    var prefix := KeptPrefix(st.prefix);
    assert prefix == st.prefix;
    GetPrefixOfGlued(prefix, Dispatched(a, prefix, st.stripped, host, isLocal), "file://");
  }

  // ---------------------------------------------------------------------
  // isInside
  // ---------------------------------------------------------------------

  /** `stripTrailingSep`: drops one final separator. */
  function StripTrailingSep(path: string, sep: char): (r: string)
    ensures r == path || path == r + [sep]
  {
    if EndsWith(path, sep) then path[..|path| - 1] else path
  }

  /** The intended test: `path` is `parent` or continues it after a separator. */
  predicate StartsBelow(path: string, parent: string, sep: char) {
    |parent| <= |path| && path[..|parent|] == parent
    && (|path| == |parent| || path[|parent|] == sep)
  }

  /**
   * The test as written: `strrpos($path, $parent, 0) === 0` finds the LAST
   * occurrence of `parent`, then the character after it must be a separator.
   */
  predicate LastMatchBelow(path: string, parent: string, sep: char) {
    LastIndexOf(path, parent) == Some(0)
    && (|path| <= |parent| || path[|parent|] == sep)
  }

  /** The two resolved paths after the trailing separator is dropped and, if needed, case is folded. */
  function Comparable(a: Adapter, path: string): string {
    var p := StripTrailingSep(path, Separator(a)[0]);
    if IsCaseSensitive(a) then p else Lower(p)
  }

  /** `isInside` on two resolved paths, as written in the source. */
  predicate InsideAsWritten(a: Adapter, path: string, parent: string) {
    path != parent && LastMatchBelow(Comparable(a, path), Comparable(a, parent), Separator(a)[0])
  }

  /** `isInside` on two resolved paths, with the prefix test the code evidently intends. */
  predicate Inside(a: Adapter, path: string, parent: string) {
    path != parent && StartsBelow(Comparable(a, path), Comparable(a, parent), Separator(a)[0])
  }

  /** The intended test holds exactly for `parent` itself and for `parent`, a separator and more. */
  lemma StartsBelowIff(path: string, parent: string, sep: char)
    ensures StartsBelow(path, parent, sep)
        <==> path == parent || (|path| > |parent| && path == parent + [sep] + path[|parent| + 1..])
  {
    if |path| > |parent| && path == parent + [sep] + path[|parent| + 1..] {
      assert path[..|parent|] == parent;
    }
    if StartsBelow(path, parent, sep) && |path| > |parent| {
      assert path == path[..|parent|] + [path[|parent|]] + path[|parent| + 1..];
    }
  }

  /** The written test is the intended one minus every case where `parent` occurs again later in `path`. */
  lemma LastMatchBelowIff(path: string, parent: string, sep: char)
    ensures LastMatchBelow(path, parent, sep)
        <==> StartsBelow(path, parent, sep) && forall j: nat | 0 < j :: !OccursAt(path, parent, j)
  {
    var r := LastIndexOf(path, parent);
    if StartsBelow(path, parent, sep) {
      assert OccursAt(path, parent, 0);
    }
    if r == Some(0) {
      assert OccursAt(path, parent, 0);
    }
  }

  /** A child path is inside its parent, for either adapter. */
  lemma ChildIsInside(a: Adapter, parent: string, child: string)
    requires !EndsWith(parent, Separator(a)[0])
    requires child != "" && !EndsWith(child, Separator(a)[0])
    ensures Inside(a, parent + [Separator(a)[0]] + child, parent)
  {
    var sep := Separator(a)[0];
    var path := parent + [sep] + child;
    assert EndsWith(path, sep) <==> EndsWith(child, sep);
    assert Comparable(a, parent) == if IsCaseSensitive(a) then parent else Lower(parent);
    if !IsCaseSensitive(a) {
      LowerConcat(parent + [sep], child);
      LowerConcat(parent, [sep]);
      assert Lower([sep]) == [sep];
      assert Lower(path) == Lower(parent) + [sep] + Lower(child);
      StartsBelowIff(Lower(path), Lower(parent), sep);
    } else {
      StartsBelowIff(path, parent, sep);
    }
  }

  /** The written test never claims a path is inside one it is not inside. */
  lemma InsideAsWrittenSound(a: Adapter, path: string, parent: string)
    ensures InsideAsWritten(a, path, parent) ==> Inside(a, path, parent)
  {
    LastMatchBelowIff(Comparable(a, path), Comparable(a, parent), Separator(a)[0]);
  }

  /** Finding: when `parent` reappears further on (`/a/b/a` below `/a`), the written test says no. */
  lemma InsideAsWrittenMissesRepeat(parent: string, x: string, sep: char)
    ensures var path := parent + [sep] + x + parent;
            StartsBelow(path, parent, sep) && !LastMatchBelow(path, parent, sep)
  {
    var path := parent + [sep] + x + parent;
    assert path == parent + [sep] + path[|parent| + 1..];
    StartsBelowIff(path, parent, sep);
    var j := |parent| + 1 + |x|;
    assert path[j..j + |parent|] == parent;
    assert OccursAt(path, parent, j);
    LastMatchBelowIff(path, parent, sep);
  }

  /** Finding: below the POSIX root `/` the written test fails for every path, since "" matches last at the end. */
  lemma InsideAsWrittenMissesRoot(t: string)
    requires t != "" && !EndsWith(t, '/')
    ensures Inside(PosixAdapter, "/" + t, "/")
    ensures !InsideAsWritten(PosixAdapter, "/" + t, "/")
  {
    var path := "/" + t;
    assert EndsWith(path, '/') <==> EndsWith(t, '/');
    assert Comparable(PosixAdapter, "/") == "";
    assert Comparable(PosixAdapter, path) == path;
    assert OccursAt(path, "", |path|);
  }

  // ---------------------------------------------------------------------
  // The static state: Path::$adapter and Path::$posix
  // ---------------------------------------------------------------------

  /** The adapter `selectAdapter()` picks from `PHP_OS`: Windows when it starts with "WIN" in any case. */
  function DefaultAdapter(phpOs: string): (a: Adapter)
    ensures a == WindowsAdapter <==> |phpOs| >= 3 && Upper(phpOs[..3]) == "WIN"
  {
    if Upper(Head(phpOs, 3)) == "WIN" then WindowsAdapter else PosixAdapter
  }

  class Path {
    /** `self::$adapter`. */
    var adapter: Adapter
    /** Whether `self::$posix` (always a POSIX adapter) has been created, on the first `selectAdapter` call. */
    var posixCreated: bool

    /** Loading Path.php ends with `Path::selectAdapter()` on both statics still `null`. */
    constructor (phpOs: string)
      ensures adapter == DefaultAdapter(phpOs) && posixCreated
    {
      posixCreated := true;
      adapter := DefaultAdapter(phpOs);
    }

    /** `selectAdapter($adapter)`: an explicit choice wins, else `PHP_OS` decides. */
    method SelectAdapter(choice: Option<Adapter>, phpOs: string) returns (a: Adapter)
      modifies this
      ensures posixCreated
      ensures adapter == (if choice.Some? then choice.value else DefaultAdapter(phpOs))
      ensures a == adapter
    {
      if !posixCreated {
        posixCreated := true;
      }
      if choice.Some? {
        adapter := choice.value;
      } else {
        var isWindows := Upper(Head(phpOs, 3)) == "WIN";
        adapter := if isWindows then WindowsAdapter else PosixAdapter;
      }
      a := adapter;
    }

    /** `Path::resolve(...$paths)`. */
    method Resolve(paths: seq<string>, host: Host, isLocal: string -> bool) returns (r: string)
      ensures r == Routed(adapter, paths, host, isLocal)
    {
      var prefix: seq<string> := [];
      var imploded := "";
      var stripped: seq<string> := [];
      for i := 0 to |paths|
        invariant Routing(prefix, imploded, stripped) == RouteFrom(Unrouted, paths[..i])
      {
        assert paths[..i + 1][..i] == paths[..i];
        var s := StripScheme(paths[i], []);
        var path := s.rest;
        var newPrefix := s.prefixes;
        if |newPrefix| > 0 {
          if Truthy(imploded) && imploded != Concat(newPrefix) {
            stripped := [];
          }
          prefix := newPrefix;
          imploded := Concat(prefix);
        }
        if Truthy(path) {
          stripped := stripped + [path];
        }
      }
      assert paths[..|paths|] == paths;
      if forall i | 0 <= i < |prefix| :: prefix[i] == "file://" {
        prefix := [];
      }
      var resolved := Dispatch(prefix, stripped, host, isLocal);
      r := Concat(prefix) + resolved;
    }

    /** The call at the end of `Path::resolve`: `$adapter->$method($stripped)`. */
    method Dispatch(prefix: seq<string>, stripped: seq<string>, host: Host, isLocal: string -> bool)
      returns (resolved: string)
      ensures resolved == Dispatched(adapter, prefix, stripped, host, isLocal)
    {
      if exists i | 0 <= i < |prefix| :: prefix[i] == "vfs://" || !isLocal(prefix[i] + "/foo") {
        resolved := Posix.Join(stripped);
      } else {
        resolved := Adapters.Resolve(adapter, stripped, host);
      }
    }

    /** `Path::isAbsolute($path)`: the adapter's test on the bare path. */
    predicate IsAbsolute(path: string)
      reads this
    {
      Adapters.IsAbsolute(adapter, Bare(path))
    }

    /** `Path::relative($from, $to)`: the adapter's relative path between the bare paths. */
    method Relative(from: string, to: string, host: Host) returns (r: string)
      ensures r == Relativized(adapter, Bare(from), Bare(to), host)
    {
      r := Adapters.Relative(adapter, Bare(from), Bare(to), host);
    }

    /** `Path::separator()`: `\\` on Windows, `/` otherwise. */
    function Separator(): (r: string)
      reads this
      ensures |r| == 1 && IsSlash(r[0]) && (r[0] == '\\' <==> adapter == WindowsAdapter)
    {
      Adapters.Separator(adapter)
    }

    /** `Path::delimiter()`: one character that is never a separator. */
    function Delimiter(): (r: string)
      reads this
      ensures |r| == 1 && !IsSlash(r[0])
    {
      Adapters.Delimiter(adapter)
    }

    /** `Path::isCaseSensitive()`: only the POSIX adapter is case-sensitive. */
    function IsCaseSensitive(): (r: bool)
      reads this
      ensures r <==> adapter == PosixAdapter
    {
      Adapters.IsCaseSensitive(adapter)
    }

    /** `Path::isInside($path, $parent)` on both resolved paths, with the corrected prefix test. */
    method IsInside(path: string, potentialParent: string, host: Host, isLocal: string -> bool)
      returns (r: bool)
      ensures r == Inside(adapter, Routed(adapter, [path], host, isLocal),
                          Routed(adapter, [potentialParent], host, isLocal))
    {
      var p := Resolve([path], host, isLocal);
      var q := Resolve([potentialParent], host, isLocal);
      if p == q {
        return false;
      }
      var sep := Separator()[0];
      p := StripTrailingSep(p, sep);
      q := StripTrailingSep(q, sep);
      if !IsCaseSensitive() {
        p := Lower(p);
        q := Lower(q);
      }
      r := |q| <= |p| && p[..|q|] == q && (|p| == |q| || p[|q|] == sep);
    }

    /**
     * `Path::join(...$paths)`: only the POSIX adapter has `join`; on Windows
     * the call is to an undefined method, a fatal error (`None`).
     */
    method Join(paths: seq<string>) returns (r: Option<string>)
      ensures adapter == PosixAdapter ==> r == Some(Posix.Joined(paths))
      ensures adapter == WindowsAdapter ==> r == None
    {
      if adapter == PosixAdapter {
        var j := Posix.Join(paths);
        r := Some(j);
      } else {
        r := None;
      }
    }

    /** `Path::normalize($path)`: as for `join`, only the POSIX adapter has it. */
    method Normalize(path: string) returns (r: Option<string>)
      ensures adapter == PosixAdapter ==> r == Some(Posix.Normalize(path))
      ensures adapter == WindowsAdapter ==> r == None
    {
      if adapter == PosixAdapter {
        r := Some(Posix.Normalize(path));
      } else {
        r := None;
      }
    }
  }
}
