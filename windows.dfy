/**
 * The Windows adapter (src/Adapter/Windows.php): separator `\`, delimiter
 * `;`, case-insensitive; `isAbsolute`, `resolve` (with drive-relative
 * working directories and UNC roots) and `relative`.
 *
 * The device regex `splitDeviceRe` is modelled by `DeviceOf`, `HasRoot` and
 * `TailOf`; the process working directory and the `$_ENV` table are
 * parameters of `resolve`.
 */
module Windows {
  import opened Php
  import opened Segments

  const Separator: string := "\\"
  const Delimiter: string := ";"
  const IsCaseSensitive: bool := false

  // ---------------------------------------------------------------------
  // splitDeviceRe
  // ---------------------------------------------------------------------

  predicate IsLetter(c: char) {
    'a' <= c <= 'z' || 'A' <= c <= 'Z'
  }

  /** The string starts with a drive, `[a-zA-Z]:`. */
  predicate DriveAt(s: string) {
    |s| >= 2 && IsLetter(s[0]) && s[1] == ':'
  }

  /** A bare drive device such as `C:`. */
  predicate IsDrive(d: string) {
    |d| == 2 && DriveAt(d)
  }

  /**
   * The first group of `splitDeviceRe`: a drive, or a UNC root made of two
   * slashes, a server, a run of slashes and a share (each run as long as
   * possible), or "" when neither is at the start.
   */
  function DeviceOf(s: string): (d: string)
    ensures |d| <= |s| && d == s[..|d|]
    ensures DriveAt(s) ==> d == s[..2]
    ensures d == "" || IsDrive(d) ||
            (&& !DriveAt(s) && |d| >= 5 && IsSlash(d[0]) && IsSlash(d[1]) && !IsSlash(d[2])
             && !IsSlash(d[|d| - 1]) && (|d| < |s| ==> IsSlash(s[|d|])))
  {
    if DriveAt(s) then s[..2]
    else if |s| >= 2 && IsSlash(s[0]) && IsSlash(s[1]) then s[..UncLength(s)]
    else ""
  }

  /**
   * The length of the UNC alternative of `splitDeviceRe` at the start of `s`
   * (two slashes, a server, a run of slashes and a share), or 0 when one of
   * the three runs is empty.
   */
  function UncLength(s: string): (n: nat)
    requires |s| >= 2
    ensures n == 0 || (5 <= n <= |s| && !IsSlash(s[2]) && !IsSlash(s[n - 1]) && (n < |s| ==> IsSlash(s[n])))
  {
    var i := 2 + NonSlashRun(s[2..]);
    var j := i + SlashRun(s[i..]);
    var e := j + NonSlashRun(s[j..]);
    if i == 2 || j == i || e == j then 0
    else
      assert !IsSlash(s[e - 1]) by {
        assert s[j..][..e - j][e - j - 1] == s[e - 1];
      }
      assert !IsSlash(s[2]) by {
        assert s[2..][..i - 2][0] == s[2];
      }
      assert e < |s| ==> IsSlash(s[e]) by {
        assert e < |s| ==> s[j..][e - j] == s[e];
      }
      e
  }

  /** The second group of `splitDeviceRe`: a slash right after the device. */
  predicate HasRoot(s: string) {
    |DeviceOf(s)| < |s| && IsSlash(s[|DeviceOf(s)|])
  }

  /**
   * PCRE's `$` also matches before a final newline, so the lazy third group
   * of `splitDeviceRe` stops short of one.
   */
  function DropFinalNewline(s: string): (r: string)
    ensures r == s || (s == r + "\n")
  {
    if |s| > 0 && s[|s| - 1] == '\n' then s[..|s| - 1] else s
  }

  /** The third group of `splitDeviceRe`: what follows the device and root. */
  function TailOf(s: string): string {
    DropFinalNewline(s[|DeviceOf(s)| + (if HasRoot(s) then 1 else 0)..])
  }

  /**
   * The test `$device && $device[1] !== ':'` (a one-byte device would read
   * "" at index 1, which is not `:`).
   */
  predicate IsUncDevice(d: string) {
    Truthy(d) && (|d| < 2 || d[1] != ':')
  }

  /** `isAbsolute($path)`: a root slash, or a UNC device. */
  predicate IsAbsolute(path: string) {
    HasRoot(path) || IsUncDevice(DeviceOf(path))
  }

  /**
   * The UNC alternative of `splitDeviceRe` matches exactly when the string
   * starts with two slashes, a server, a run of slashes and a non-slash.
   */
  lemma DeviceOfMatchesUncPattern(s: string)
    requires !DriveAt(s)
    ensures DeviceOf(s) != "" <==>
            exists m, j | 2 < m < j < |s| ::
              IsSlash(s[0]) && IsSlash(s[1]) && NoSlash(s[2..m]) && AllSlash(s[m..j]) && !IsSlash(s[j])
  {
    if DeviceOf(s) != "" {
      UncDeviceHasPattern(s);
    }
    if exists m, j | 2 < m < j < |s| ::
         IsSlash(s[0]) && IsSlash(s[1]) && NoSlash(s[2..m]) && AllSlash(s[m..j]) && !IsSlash(s[j]) {
      var m, j :| 2 < m < j < |s| &&
         IsSlash(s[0]) && IsSlash(s[1]) && NoSlash(s[2..m]) && AllSlash(s[m..j]) && !IsSlash(s[j]);
      UncPatternHasDevice(s, m, j);
    }
  }

  lemma UncDeviceHasPattern(s: string)
    requires !DriveAt(s) && DeviceOf(s) != ""
    ensures exists m, j | 2 < m < j < |s| ::
              IsSlash(s[0]) && IsSlash(s[1]) && NoSlash(s[2..m]) && AllSlash(s[m..j]) && !IsSlash(s[j])
  {
    var m, j, n := UncDeviceSplit(s);
    assert 2 < m < j < |s| && NoSlash(s[2..m]) && AllSlash(s[m..j]) && !IsSlash(s[j]);
  }

  lemma UncPatternHasDevice(s: string, m: nat, j: nat)
    requires !DriveAt(s) && 2 < m < j < |s|
    requires IsSlash(s[0]) && IsSlash(s[1]) && NoSlash(s[2..m]) && AllSlash(s[m..j]) && !IsSlash(s[j])
    ensures DeviceOf(s) != ""
  {
    assert s[2..][..m - 2] == s[2..m];
    assert s[2..][m - 2] == s[m];
    assert IsSlash(s[m]) by {
      assert s[m..j][0] == s[m];
    }
    NonSlashRunExact(s[2..], m - 2);
    assert s[m..][..j - m] == s[m..j];
    SlashRunExact(s[m..], j - m);
    assert 2 + (m - 2) == m;
    assert s[j..][0] == s[j];
  }

  /**
   * `isAbsolute` in terms of characters: a leading slash, or a drive followed
   * by a slash.
   */
  lemma IsAbsoluteChars(path: string)
    ensures IsAbsolute(path) <==>
            (|path| > 0 && IsSlash(path[0])) || (DriveAt(path) && |path| > 2 && IsSlash(path[2]))
  {
    var d := DeviceOf(path);
    if |path| > 0 && IsSlash(path[0]) && d == "" {
      assert HasRoot(path);
    }
  }

  /** UNC paths are absolute, with either kind of slash. */
  lemma IsAbsoluteUncExamples()
    ensures IsAbsolute("//server/file") && IsAbsolute("\\\\server\\file")
  {
    IsAbsoluteChars("//server/file");
    IsAbsoluteChars("\\\\server\\file");
  }

  /** A drive followed by a slash is absolute. */
  lemma IsAbsoluteDriveExamples()
    ensures IsAbsolute("C:/Users/") && IsAbsolute("C:\\Users\\")
  {
    IsAbsoluteChars("C:/Users/");
    IsAbsoluteChars("C:\\Users\\");
  }

  /** A drive without a slash is relative to that drive's working directory. */
  lemma IsAbsoluteDriveRelativeExamples()
    ensures !IsAbsolute("C:cwd/another") && !IsAbsolute("C:cwd\\another")
  {
    IsAbsoluteChars("C:cwd/another");
    IsAbsoluteChars("C:cwd\\another");
  }

  /** A path with neither device nor root is relative. */
  lemma IsAbsoluteRelativeExamples()
    ensures !IsAbsolute("directory/directory") && !IsAbsolute("directory\\directory")
  {
    IsAbsoluteChars("directory/directory");
    IsAbsoluteChars("directory\\directory");
  }

  // ---------------------------------------------------------------------
  // normalizeUNCRoot
  // ---------------------------------------------------------------------

  /** `preg_replace('|[\\\/]+|', '\\', $s)`: every run of slashes becomes one `\`. */
  function CollapseSlashes(s: string): (r: string)
    ensures forall i | 0 <= i < |r| :: r[i] != '/'
    decreases |s|
  {
    if s == "" then ""
    else if IsSlash(s[0]) then
      "\\" + CollapseSlashes(SkipSlashes(s))
    else [s[0]] + CollapseSlashes(s[1..])
  }

  /** `normalizeUNCRoot($device)`. */
  function NormalizeUncRoot(device: string): string {
    "\\\\" + CollapseSlashes(SkipSlashes(device))
  }

  lemma {:induction false} SkipSlashesPrefix(lead: string, rest: string)
    requires AllSlash(lead) && (rest == "" || !IsSlash(rest[0]))
    ensures SkipSlashes(lead + rest) == rest
    decreases |lead|
  {
    if lead != "" {
      assert (lead + rest)[1..] == lead[1..] + rest;
      SkipSlashesPrefix(lead[1..], rest);
    }
  }

  lemma {:induction false} CollapseSlashesKeepsPlain(plain: string, rest: string)
    requires NoSlash(plain)
    ensures CollapseSlashes(plain + rest) == plain + CollapseSlashes(rest)
    decreases |plain|
  {
    if plain != "" {
      assert (plain + rest)[0] == plain[0] && !IsSlash(plain[0]);
      assert NoSlash(plain[1..]) by {
        forall i | 0 <= i < |plain| - 1
          ensures !IsSlash(plain[1..][i])
        {
          assert plain[1..][i] == plain[i + 1];
        }
      }
      assert (plain + rest)[1..] == plain[1..] + rest;
      CollapseSlashesKeepsPlain(plain[1..], rest);
      var s := plain + rest;
      assert s != "" && !IsSlash(s[0]);
      assert CollapseSlashes(s) == [s[0]] + CollapseSlashes(s[1..]);
      assert plain + CollapseSlashes(rest) == [plain[0]] + (plain[1..] + CollapseSlashes(rest));
    } else {
      assert plain + rest == rest;
    }
  }

  /** A run of slashes before a plain share collapses to one `\`. */
  lemma CollapseSlashesRun(seps: string, share: string)
    requires seps != "" && AllSlash(seps)
    requires share != "" && NoSlash(share)
    ensures CollapseSlashes(seps + share) == "\\" + share
  {
    var s := seps + share;
    assert s[0] == seps[0];
    SkipSlashesPrefix(seps, share);
    assert CollapseSlashes(s) == "\\" + CollapseSlashes(share);
    CollapseSlashesKeepsPlain(share, "");
    assert share + "" == share;
  }

  /**
   * A UNC device, whatever its slashes, becomes `\\server\share`: two
   * backslashes, the server, one backslash and the share.
   */
  lemma NormalizeUncRootCanonical(lead: string, server: string, seps: string, share: string)
    requires lead != "" && AllSlash(lead)
    requires server != "" && NoSlash(server)
    requires seps != "" && AllSlash(seps)
    requires share != "" && NoSlash(share)
    ensures NormalizeUncRoot(lead + server + seps + share) == "\\\\" + server + "\\" + share
  {
    var x := server + (seps + share);
    assert lead + server + seps + share == lead + x;
    assert x[0] == server[0];
    SkipSlashesPrefix(lead, x);
    CollapseServerShare(server, seps, share);
  }

  /** Server, slashes and share collapse to the server, one `\` and the share. */
  lemma CollapseServerShare(server: string, seps: string, share: string)
    requires server != "" && NoSlash(server)
    requires seps != "" && AllSlash(seps)
    requires share != "" && NoSlash(share)
    ensures CollapseSlashes(server + (seps + share)) == server + "\\" + share
  {
    CollapseSlashesKeepsPlain(server, seps + share);
    CollapseSlashesRun(seps, share);
    assert server + ("\\" + share) == server + "\\" + share;
  }

  /** The device of every UNC path splits into slashes, server, slashes and share. */
  lemma UncDeviceParts(s: string) returns (server: string, seps: string, share: string)
    requires IsUncDevice(DeviceOf(s))
    ensures server != "" && NoSlash(server) && seps != "" && AllSlash(seps)
    ensures share != "" && NoSlash(share)
    ensures |s| >= 2 && AllSlash(s[..2])
    ensures DeviceOf(s) == s[..2] + server + seps + share
  {
    assert !DriveAt(s);
    var i, j, n := UncDeviceSplit(s);
    server, seps, share := SliceFour(s, i, j, n);
  }

  /** Cutting `s[..n]` after the two slashes and at `i` and `j`. */
  lemma SliceFour(s: string, i: nat, j: nat, n: nat) returns (server: string, seps: string, share: string)
    requires 2 < i < j < n <= |s| && IsSlash(s[0]) && IsSlash(s[1])
    requires NoSlash(s[2..i]) && AllSlash(s[i..j]) && NoSlash(s[j..n])
    ensures server != "" && NoSlash(server) && seps != "" && AllSlash(seps)
    ensures share != "" && NoSlash(share) && AllSlash(s[..2])
    ensures s[..n] == s[..2] + server + seps + share
  {
    server, seps, share := s[2..i], s[i..j], s[j..n];
  }

  /**
   * Where `DeviceOf` cuts a UNC device: the server ends at `i`, the slashes
   * after it at `j` and the share at `n`.
   */
  lemma UncDeviceSplit(s: string) returns (i: nat, j: nat, n: nat)
    requires !DriveAt(s) && DeviceOf(s) != ""
    ensures 2 < i < j < n <= |s| && DeviceOf(s) == s[..n]
    ensures IsSlash(s[0]) && IsSlash(s[1]) && !IsSlash(s[j])
    ensures NoSlash(s[2..i]) && AllSlash(s[i..j]) && NoSlash(s[j..n])
  {
    DeviceOfWithoutDrive(s);
    i, j, n := UncLengthSplit(s);
  }

  /** Where `UncLength` ends the server, the slashes after it and the share. */
  lemma UncLengthSplit(s: string) returns (i: nat, j: nat, n: nat)
    requires |s| >= 2 && UncLength(s) > 0
    ensures 2 < i < j < n <= |s| && n == UncLength(s) && !IsSlash(s[j])
    ensures NoSlash(s[2..i]) && AllSlash(s[i..j]) && NoSlash(s[j..n])
  {
    i := NonSlashRunFrom(s, 2);
    j := SlashRunFrom(s, i);
    n := NonSlashRunFrom(s, j);
  }

  /** `DeviceOf` when no drive starts the string. */
  lemma DeviceOfWithoutDrive(s: string)
    requires !DriveAt(s)
    ensures DeviceOf(s) == if |s| >= 2 && IsSlash(s[0]) && IsSlash(s[1]) then s[..UncLength(s)] else ""
  {
  }

  // ---------------------------------------------------------------------
  // resolve
  // ---------------------------------------------------------------------

  /**
   * The variables of `resolve`'s loop: the resolved device, tail and
   * absoluteness, and `$isUnc` as the last examined path left it.
   */
  datatype WinState = WinState(device: string, tail: string, absolute: bool, isUnc: bool)

  /** Before any path is examined (`$isUnc` is then still unset, i.e. falsy). */
  const Start := WinState("", "", false, false)

  /** The loop's exit test: both a device and an absolute path are known. */
  predicate Settled(st: WinState) {
    Truthy(st.device) && st.absolute
  }

  /** Two devices name different drives or shares, ignoring case. */
  predicate Foreign(device: string, resolvedDevice: string) {
    Truthy(device) && Truthy(resolvedDevice) && Lower(device) != Lower(resolvedDevice)
  }

  /** One turn of `resolve`'s loop, examining `path`. */
  function Examine(st: WinState, path: string): WinState {
    if path == "" then st
    else
      var device := DeviceOf(path);
      var isUnc := IsUncDevice(device);
      if Foreign(device, st.device) then st.(isUnc := isUnc)
      else
        var device' := if !Truthy(st.device) then device else st.device;
        var tail' := if !st.absolute then TailOf(path) + "\\" + st.tail else st.tail;
        var absolute' := if !st.absolute then IsAbsolute(path) else st.absolute;
        WinState(device', tail', absolute', isUnc)
  }

  /** The loop run over `paths[i..]`, right to left, stopping once settled. */
  function ScanDown(paths: seq<string>, i: nat): WinState
    requires i <= |paths|
    decreases |paths| - i
  {
    if i == |paths| then Start
    else
      var st := ScanDown(paths, i + 1);
      if Settled(st) then st else Examine(st, paths[i])
  }

  /**
   * The working directory of a drive: `$_ENV['=C:']` when it is set and lies
   * on that drive, otherwise the drive's root.
   */
  function DriveCwd(device: string, env: map<string, string>): string {
    var path := if "=" + device in env then env["=" + device] else "";
    if !Truthy(path) || Lower(Head(path, 3)) != Lower(device) + "\\" then device + "\\"
    else path
  }

  /** The path the loop examines last, at `$i == -1`. */
  function FallbackPath(resolvedDevice: string, cwd: string, env: map<string, string>): string {
    if !Truthy(resolvedDevice) then cwd else DriveCwd(resolvedDevice, env)
  }

  /** The path examined at index `i` of `resolve`'s loop. */
  method PathAt(paths: seq<string>, i: int, resolvedDevice: string, cwd: string, env: map<string, string>)
    returns (path: string)
    requires -1 <= i < |paths|
    ensures path == if i >= 0 then paths[i] else FallbackPath(resolvedDevice, cwd, env)
  {
    if i >= 0 {
      path := paths[i];
    } else if !Truthy(resolvedDevice) {
      path := cwd;
    } else {
      // Drive-relative: look up the drive's own working directory, and fall
      // back to the drive's root unless it lies on that drive.
      path := if "=" + resolvedDevice in env then env["=" + resolvedDevice] else "";
      if !Truthy(path) || Lower(Head(path, 3)) != Lower(resolvedDevice) + "\\" {
        path := resolvedDevice + "\\";
      }
    }
  }

  /** The loop's final state. */
  function Final(paths: seq<string>, cwd: string, env: map<string, string>): WinState {
    var st := ScanDown(paths, 0);
    if Settled(st) then st else Examine(st, FallbackPath(st.device, cwd, env))
  }

  /** The normalised tail segments. */
  function TailSegments(st: WinState): seq<string> {
    NormalizeSegments(SplitSlashRuns(st.tail), !st.absolute)
  }

  /** What `resolve` builds from its loop's final state. */
  function Compose(st: WinState): string {
    var device := if st.isUnc then NormalizeUncRoot(st.device) else st.device;
    var tail := Implode('\\', TailSegments(st));
    var r := device + (if st.absolute then "\\" else "") + tail;
    if Truthy(r) then r else "."
  }

  /** What `resolve($paths)` returns, with `getcwd()` as `cwd` and `$_ENV` as `env`. */
  function Resolved(paths: seq<string>, cwd: string, env: map<string, string>): string {
    Compose(Final(paths, cwd, env))
  }

  method Resolve(paths: seq<string>, cwd: string, env: map<string, string>) returns (r: string)
    ensures r == Resolved(paths, cwd, env)
  {
    var resolvedDevice, resolvedTail, resolvedAbsolute, isUnc := ResolveLoop(paths, cwd, env);
    ghost var st := WinState(resolvedDevice, resolvedTail, resolvedAbsolute, isUnc);
    assert st == Final(paths, cwd, env);

    if isUnc {
      resolvedDevice := NormalizeUncRoot(resolvedDevice);
    }

    // Normalize the tail path
    var parts := NormalizeArray(SplitSlashRuns(resolvedTail), !resolvedAbsolute);
    resolvedTail := Implode('\\', parts);

    r := resolvedDevice + (if resolvedAbsolute then "\\" else "") + resolvedTail;
    if !Truthy(r) {
      r := ".";
    }
  }

  /** `resolve`'s loop, from the last path down to the working directory. */
  method ResolveLoop(paths: seq<string>, cwd: string, env: map<string, string>)
    returns (resolvedDevice: string, resolvedTail: string, resolvedAbsolute: bool, isUnc: bool)
    ensures WinState(resolvedDevice, resolvedTail, resolvedAbsolute, isUnc) == Final(paths, cwd, env)
  {
    resolvedDevice := "";
    resolvedTail := "";
    resolvedAbsolute := false;
    isUnc := false;

    var i := |paths| - 1;
    ghost var st := Start;
    while i >= -1
      invariant -2 <= i < |paths|
      invariant st == WinState(resolvedDevice, resolvedTail, resolvedAbsolute, isUnc)
      invariant i >= -1 ==> st == ScanDown(paths, i + 1) && !Settled(st)
      invariant i == -2 ==> st == Final(paths, cwd, env)
      decreases i + 2
    {
      var path := PathAt(paths, i, resolvedDevice, cwd, env);
      resolvedDevice, resolvedTail, resolvedAbsolute, isUnc :=
        ExaminePath(resolvedDevice, resolvedTail, resolvedAbsolute, isUnc, path);
      ghost var before := st;
      st := WinState(resolvedDevice, resolvedTail, resolvedAbsolute, isUnc);
      ScanStep(paths, cwd, env, i, before, st);
      if Truthy(resolvedDevice) && resolvedAbsolute {
        break;
      }
      i := i - 1;
    }
  }

  /** One turn of the loop in terms of `ScanDown` and `Final`. */
  lemma ScanStep(paths: seq<string>, cwd: string, env: map<string, string>, i: int, before: WinState, after: WinState)
    requires -1 <= i < |paths| && before == ScanDown(paths, i + 1) && !Settled(before)
    requires after == Examine(before, if i >= 0 then paths[i] else FallbackPath(before.device, cwd, env))
    ensures i >= 0 ==> after == ScanDown(paths, i)
    ensures i == -1 || Settled(after) ==> after == Final(paths, cwd, env)
  {
    if i >= 0 && Settled(after) {
      ScanStopsWhenSettled(paths, i);
    }
  }

  /** The body of `resolve`'s loop for one `path`. */
  method ExaminePath(resolvedDevice: string, resolvedTail: string, resolvedAbsolute: bool, isUnc: bool, path: string)
    returns (device': string, tail': string, absolute': bool, isUnc': bool)
    ensures WinState(device', tail', absolute', isUnc') ==
            Examine(WinState(resolvedDevice, resolvedTail, resolvedAbsolute, isUnc), path)
  {
    device', tail', absolute', isUnc' := resolvedDevice, resolvedTail, resolvedAbsolute, isUnc;
    // Skip empty entries
    if path == "" {
      return;
    }

    var device := DeviceOf(path);
    isUnc' := IsUncDevice(device);
    var isAbsolute := IsAbsolute(path);
    var tail := TailOf(path);

    if Truthy(device) && Truthy(resolvedDevice) && Lower(device) != Lower(resolvedDevice) {
      // This path points to another device so it is not applicable
      return;
    }

    if !Truthy(resolvedDevice) {
      device' := device;
    }
    if !resolvedAbsolute {
      tail' := tail + "\\" + resolvedTail;
      absolute' := isAbsolute;
    }
  }

  // ---------------------------------------------------------------------
  // Properties of resolve
  // ---------------------------------------------------------------------

  /** Once the scan has settled at `paths[k]`, the paths to its left change nothing. */
  lemma {:induction false} ScanStopsWhenSettled(paths: seq<string>, k: nat)
    requires k <= |paths| && Settled(ScanDown(paths, k))
    ensures ScanDown(paths, 0) == ScanDown(paths, k)
    ensures Final(paths, "", map[]) == ScanDown(paths, k)
    decreases k
  {
    if k > 0 {
      ScanStopsWhenSettled(paths, k - 1);
    }
  }

  /** The scan depends only on the paths still to be examined. */
  lemma {:induction false} ScanSameSuffix(a: seq<string>, i: nat, b: seq<string>, j: nat)
    requires i <= |a| && j <= |b| && a[i..] == b[j..]
    ensures ScanDown(a, i) == ScanDown(b, j)
    decreases |a| - i
  {
    if i < |a| {
      assert a[i] == a[i..][0] == b[j..][0] == b[j];
      assert a[i + 1..] == a[i..][1..];
      assert b[j + 1..] == b[j..][1..];
      ScanSameSuffix(a, i + 1, b, j + 1);
    }
  }

  /**
   * Once a device and an absolute path are known from `paths[k..]`, `resolve`
   * ignores the paths to the left, the working directory and the environment.
   */
  lemma ResolveIgnoresLeftOfSettled(paths: seq<string>, k: nat, cwd: string, env: map<string, string>,
                                    cwd': string, env': map<string, string>)
    requires k <= |paths| && Settled(ScanDown(paths, k))
    ensures Resolved(paths, cwd, env) == Resolved(paths[k..], cwd', env')
  {
    ScanStopsWhenSettled(paths, k);
    ScanSameSuffix(paths, k, paths[k..], 0);
  }

  /** A path on another device is skipped; only `$isUnc` records it. */
  lemma ExamineSkipsForeignDevice(st: WinState, path: string)
    requires path != "" && Foreign(DeviceOf(path), st.device)
    ensures Examine(st, path).device == st.device
    ensures Examine(st, path).tail == st.tail
    ensures Examine(st, path).absolute == st.absolute
    ensures Examine(st, path).isUnc == IsUncDevice(DeviceOf(path))
  {
  }

  /** Once the path is absolute, later (further left) paths no longer change the tail. */
  lemma ExamineFreezesAbsoluteTail(st: WinState, path: string)
    requires st.absolute
    ensures Examine(st, path).tail == st.tail && Examine(st, path).absolute
  {
  }

  /**
   * A relative path on the resolved device (or on none) is prepended to the
   * tail with a `\`, and decides absoluteness.
   */
  lemma ExaminePrependsRelative(st: WinState, path: string)
    requires path != "" && !st.absolute && !Foreign(DeviceOf(path), st.device)
    ensures Examine(st, path).tail == TailOf(path) + "\\" + st.tail
    ensures Examine(st, path).absolute == IsAbsolute(path)
    ensures Examine(st, path).device == if Truthy(st.device) then st.device else DeviceOf(path)
  {
  }

  lemma LowerCharFacts(c: char)
    ensures IsLetter(LowerChar(c)) <==> IsLetter(c)
    ensures LowerChar(c) == ':' <==> c == ':'
    ensures LowerChar(c) == '\\' <==> c == '\\'
    ensures IsSlash(LowerChar(c)) <==> IsSlash(c)
  {
  }

  /**
   * The drive's working directory lies on that drive and is absolute, and is
   * the environment's entry whenever that entry qualifies.
   */
  lemma DriveCwdOnDrive(device: string, env: map<string, string>)
    requires IsDrive(device)
    ensures var p := DriveCwd(device, env);
            && DriveAt(p) && Lower(DeviceOf(p)) == Lower(device) && IsAbsolute(p)
    ensures "=" + device in env && Truthy(env["=" + device])
            && Lower(Head(env["=" + device], 3)) == Lower(device) + "\\"
            ==> DriveCwd(device, env) == env["=" + device]
  {
    var p := DriveCwd(device, env);
    var h := Head(p, 3);
    if p == device + "\\" {
      assert p[..2] == device;
    } else {
      assert Lower(h) == Lower(device) + "\\";
      assert |h| == 3 && h == p[..3];
      LowerCharFacts(p[0]);
      LowerCharFacts(p[1]);
      LowerCharFacts(p[2]);
      LowerCharFacts(device[0]);
      LowerCharFacts(device[1]);
      assert Lower(h)[0] == LowerChar(p[0]) && Lower(h)[1] == LowerChar(p[1]) && Lower(h)[2] == LowerChar(p[2]);
      assert Lower(device)[0] == LowerChar(device[0]) && Lower(device)[1] == LowerChar(device[1]);
      assert DriveAt(p);
      assert Lower(p[..2]) == Lower(device) by {
        assert Lower(p[..2])[0] == Lower(h)[0] && Lower(p[..2])[1] == Lower(h)[1];
      }
      assert IsSlash(p[2]);
    }
    IsAbsoluteChars(p);
  }

  /** Devices that agree ignoring case are both drives or both UNC roots. */
  lemma SameDeviceSameKind(d: string, e: string)
    requires Lower(d) == Lower(e) && IsDrive(e)
    ensures !IsUncDevice(d)
  {
    assert |d| == 2;
    assert Lower(d)[1] == LowerChar(d[1]) && Lower(e)[1] == LowerChar(e[1]);
    LowerCharFacts(d[1]);
  }

  /**
   * What the loop keeps true until it settles: a known device of an unsettled
   * state is a drive (UNC paths are always absolute); no device means no UNC
   * flag; and a settled state's flag tells whether its device is a UNC root.
   */
  predicate ScanInvariant(st: WinState) {
    && (Truthy(st.device) && !st.absolute ==> IsDrive(st.device))
    && (!Truthy(st.device) ==> !st.isUnc)
    && (Settled(st) ==> (st.isUnc <==> IsUncDevice(st.device)))
  }

  lemma DeviceKinds(path: string)
    ensures var d := DeviceOf(path);
            && (d == "" || IsDrive(d) || IsUncDevice(d))
            && (IsUncDevice(d) ==> IsAbsolute(path))
            && (IsDrive(d) ==> !IsUncDevice(d))
            && Truthy(d) == (d != "")
  {
  }

  lemma ExamineKeepsInvariant(st: WinState, path: string)
    requires ScanInvariant(st) && !Settled(st)
    ensures ScanInvariant(Examine(st, path))
  {
    DeviceKinds(path);
    var d := DeviceOf(path);
    if path != "" && !Foreign(d, st.device) && Truthy(st.device) && Truthy(d) {
      SameDeviceSameKind(d, st.device);
    }
  }

  lemma {:induction false} ScanKeepsInvariant(paths: seq<string>, i: nat)
    requires i <= |paths|
    ensures ScanInvariant(ScanDown(paths, i))
    decreases |paths| - i
  {
    if i < |paths| {
      ScanKeepsInvariant(paths, i + 1);
      if !Settled(ScanDown(paths, i + 1)) {
        ExamineKeepsInvariant(ScanDown(paths, i + 1), paths[i]);
      }
    }
  }

  /**
   * `resolve` always ends settled once some path named a device: the drive's
   * working directory supplies the missing absolute part.
   */
  lemma FinalSettledOnceDeviceKnown(paths: seq<string>, cwd: string, env: map<string, string>)
    requires Truthy(ScanDown(paths, 0).device)
    ensures Settled(Final(paths, cwd, env))
  {
    var st := ScanDown(paths, 0);
    ScanKeepsInvariant(paths, 0);
    if !Settled(st) {
      DriveCwdOnDrive(st.device, env);
    }
  }

  /**
   * `normalizeUNCRoot` is applied exactly when the resolved device is a UNC
   * root, even though `$isUnc` only records the last examined path.
   */
  lemma FinalUncFlag(paths: seq<string>, cwd: string, env: map<string, string>)
    ensures Final(paths, cwd, env).isUnc <==> IsUncDevice(Final(paths, cwd, env).device)
  {
    var st := ScanDown(paths, 0);
    ScanKeepsInvariant(paths, 0);
    if !Settled(st) {
      if Truthy(st.device) {
        FinalSettledOnceDeviceKnown(paths, cwd, env);
        ExamineKeepsInvariant(st, FallbackPath(st.device, cwd, env));
      } else {
        ExamineKeepsInvariant(st, cwd);
        DeviceKinds(cwd);
      }
    }
  }

  /**
   * The tail of the result: its segments are truthy, free of slashes and of
   * `.`, with any `..` leading and only when the path stayed relative.
   */
  lemma TailSegmentsCollapsed(st: WinState)
    ensures Collapsed(TailSegments(st), !st.absolute)
    ensures forall i | 0 <= i < |TailSegments(st)| :: NoSlash(TailSegments(st)[i])
  {
    var parts := SplitSlashRuns(st.tail);
    NormalizeCollapsed(parts, !st.absolute);
    NormalizeIsSubsequence(parts, !st.absolute);
    forall i | 0 <= i < |TailSegments(st)|
      ensures NoSlash(TailSegments(st)[i])
    {
      assert TailSegments(st)[i] in parts;
    }
  }

  /** `resolve` never returns "", and an absolute result ends its device part with `\`. */
  lemma ResolvedShape(paths: seq<string>, cwd: string, env: map<string, string>)
    ensures Resolved(paths, cwd, env) != ""
    ensures var st := Final(paths, cwd, env);
            var device := if st.isUnc then NormalizeUncRoot(st.device) else st.device;
            st.absolute ==> Resolved(paths, cwd, env) == device + "\\" + Implode('\\', TailSegments(st))
  {
  }

  /** What a resolved device can be: none, a drive, or a UNC root. */
  predicate DeviceShape(d: string) {
    d == "" || IsDrive(d) || IsUncDevice(d)
  }

  /** Every device the scan records comes from some examined path. */
  lemma ExamineDeviceShape(st: WinState, path: string)
    requires DeviceShape(st.device)
    ensures DeviceShape(Examine(st, path).device)
  {
    DeviceKinds(path);
  }

  lemma {:induction false} ScanDeviceShape(paths: seq<string>, i: nat)
    requires i <= |paths|
    ensures DeviceShape(ScanDown(paths, i).device)
    decreases |paths| - i
  {
    if i < |paths| {
      ScanDeviceShape(paths, i + 1);
      ExamineDeviceShape(ScanDown(paths, i + 1), paths[i]);
    }
  }

  /**
   * One step keeps absoluteness and a known device, and an absolute path
   * leaves the state absolute or with a known device: it is skipped only when
   * it lies on another device than the one already resolved.
   */
  lemma ExamineSeesAbsolute(st: WinState, path: string)
    ensures st.absolute ==> Examine(st, path).absolute
    ensures Truthy(st.device) ==> Truthy(Examine(st, path).device)
    ensures IsAbsolute(path) ==> Examine(st, path).absolute || Truthy(Examine(st, path).device)
  {
    if IsAbsolute(path) {
      IsAbsoluteChars(path);
    }
  }

  /** An absolute `paths[j]` leaves the scan from `i <= j` absolute or with a known device. */
  lemma {:induction false} ScanSeesAbsolute(paths: seq<string>, i: nat, j: nat)
    requires i <= j < |paths| && IsAbsolute(paths[j])
    ensures ScanDown(paths, i).absolute || Truthy(ScanDown(paths, i).device)
    decreases |paths| - i
  {
    if i < j {
      ScanSeesAbsolute(paths, i + 1, j);
    }
    ScanStepSees(paths, i);
  }

  /** One turn of the scan keeps what `ExamineSeesAbsolute` promises. */
  lemma ScanStepSees(paths: seq<string>, i: nat)
    requires i < |paths|
    requires var before := ScanDown(paths, i + 1);
             before.absolute || Truthy(before.device) || IsAbsolute(paths[i])
    ensures ScanDown(paths, i).absolute || Truthy(ScanDown(paths, i).device)
  {
    var before := ScanDown(paths, i + 1);
    if !Settled(before) {
      ExamineSeesAbsolute(before, paths[i]);
    }
  }

  /** With an absolute argument or working directory, the loop ends absolute. */
  lemma FinalAbsolute(paths: seq<string>, cwd: string, env: map<string, string>)
    requires IsAbsolute(cwd) || exists j | 0 <= j < |paths| :: IsAbsolute(paths[j])
    ensures Final(paths, cwd, env).absolute
  {
    var st := ScanDown(paths, 0);
    if exists j | 0 <= j < |paths| :: IsAbsolute(paths[j]) {
      var j :| 0 <= j < |paths| && IsAbsolute(paths[j]);
      ScanSeesAbsolute(paths, 0, j);
    }
    if Truthy(st.device) {
      FinalSettledOnceDeviceKnown(paths, cwd, env);
    } else if !Settled(st) {
      ExamineSeesAbsolute(st, cwd);
    }
  }

  /** A final state that is absolute composes to an absolute path. */
  lemma ComposeAbsolute(st: WinState)
    requires st.absolute && DeviceShape(st.device) && (st.isUnc <==> IsUncDevice(st.device))
    ensures IsAbsolute(Compose(st))
  {
    var r := Compose(st);
    var device := if st.isUnc then NormalizeUncRoot(st.device) else st.device;
    var tail := Implode('\\', TailSegments(st));
    assert r == device + "\\" + tail;
    if st.isUnc {
      assert r[0] == '\\';
    } else if device == "" {
      assert r[0] == '\\';
    } else {
      assert IsDrive(device);
      assert r[..2] == device && r[2] == '\\';
    }
    IsAbsoluteChars(r);
  }

  /**
   * `resolve` returns an absolute path whenever some argument, or the
   * working directory, is absolute.
   */
  lemma ResolveAbsolute(paths: seq<string>, cwd: string, env: map<string, string>)
    requires IsAbsolute(cwd) || exists j | 0 <= j < |paths| :: IsAbsolute(paths[j])
    ensures IsAbsolute(Resolved(paths, cwd, env))
  {
    var st := Final(paths, cwd, env);
    FinalAbsolute(paths, cwd, env);
    FinalUncFlag(paths, cwd, env);
    ScanDeviceShape(paths, 0);
    var s0 := ScanDown(paths, 0);
    if !Settled(s0) {
      ExamineDeviceShape(s0, FallbackPath(s0.device, cwd, env));
    }
    ComposeAbsolute(st);
  }

  // ---------------------------------------------------------------------
  // relative
  // ---------------------------------------------------------------------

  /** The trimmed `\`-parts of a string. */
  function TrimmedParts(s: string): seq<string> {
    TrimRelative(Explode('\\', s))
  }

  /** `array_slice($arr, $k)` for a non-negative offset. */
  function SliceFrom(arr: seq<string>, k: nat): seq<string> {
    if k <= |arr| then arr[k..] else []
  }

  /**
   * What `relative` returns from the trimmed parts of the resolved `to`
   * and of both lower-cased resolved paths.
   */
  function RelativeFromParts(t: string, toParts: seq<string>, lowerFromParts: seq<string>,
                             lowerToParts: seq<string>): string {
    var same := CommonPrefixLen(lowerFromParts, lowerToParts);
    if same == 0 then t
    else Implode('\\', Dots(|lowerFromParts| - same) + SliceFrom(toParts, same))
  }

  /** What `relative` returns once both arguments are resolved to `f` and `t`. */
  function RelativeBetween(f: string, t: string): string {
    RelativeFromParts(t, TrimmedParts(t), TrimmedParts(Lower(f)), TrimmedParts(Lower(t)))
  }

  /** What `relative($from, $to)` returns. */
  function Relativized(from: string, to: string, cwd: string, env: map<string, string>): string {
    RelativeBetween(Resolved([from], cwd, env), Resolved([to], cwd, env))
  }

  method Relative(from: string, to: string, cwd: string, env: map<string, string>) returns (r: string)
    ensures r == Relativized(from, to, cwd, env)
  {
    var f := Resolve([from], cwd, env);
    var t := Resolve([to], cwd, env);
    r := RelativeResolved(f, t);
  }

  /** The rest of `relative`, from the two resolved paths on. */
  method RelativeResolved(f: string, t: string) returns (r: string)
    ensures r == RelativeBetween(f, t)
  {
    // windows is not case sensitive
    var lowerFrom := Lower(f);
    var lowerTo := Lower(t);

    var toParts := TrimRelativeArray(Explode('\\', t));
    var lowerFromParts := TrimRelativeArray(Explode('\\', lowerFrom));
    var lowerToParts := TrimRelativeArray(Explode('\\', lowerTo));
    assert toParts == TrimmedParts(t);
    assert lowerFromParts == TrimmedParts(Lower(f)) && lowerToParts == TrimmedParts(Lower(t));

    var samePartsLength := SamePartsLength(lowerFromParts, lowerToParts);

    if samePartsLength == 0 {
      return t;
    }

    var outputParts: seq<string> := [];
    var j := samePartsLength;
    while j < |lowerFromParts|
      invariant samePartsLength <= j <= |lowerFromParts|
      invariant outputParts == Dots(j - samePartsLength)
    {
      outputParts := outputParts + [".."];
      j := j + 1;
    }

    outputParts := outputParts + SliceFrom(toParts, samePartsLength);
    r := Implode('\\', outputParts);
  }

  /** Lower-casing commutes with trimming the `\`-parts. */
  lemma TrimmedPartsLower(s: string)
    ensures TrimmedParts(Lower(s)) == LowerAll(TrimmedParts(s))
  {
    var parts := Explode('\\', s);
    ExplodeLower('\\', s);
    TrimLowerAll(parts);
  }

  /**
   * The output of `relative` is the resolved `to` when the two paths share no
   * leading part ignoring case (e.g. they lie on different drives), and is
   * otherwise one `..` per remaining `from` part followed by the remaining
   * `to` parts in their own case.
   */
  lemma RelativeBetweenShape(f: string, t: string)
    ensures var fromParts := TrimmedParts(f);
            var toParts := TrimmedParts(t);
            exists k: nat | k <= |fromParts| && k <= |toParts| ::
              && LowerAll(fromParts[..k]) == LowerAll(toParts[..k])
              && (k < |fromParts| && k < |toParts| ==> Lower(fromParts[k]) != Lower(toParts[k]))
              && RelativeBetween(f, t)
                 == if k == 0 then t else Implode('\\', Dots(|fromParts| - k) + toParts[k..])
  {
    var fromParts := TrimmedParts(f);
    var toParts := TrimmedParts(t);
    RelativeBetweenOnParts(f, t);
    var k := CommonIgnoringCase(fromParts, toParts);
    assert SliceFrom(toParts, k) == toParts[k..];
    var r := if k == 0 then t else Implode('\\', Dots(|fromParts| - k) + toParts[k..]);
    assert RelativeBetween(f, t) == r;
  }

  /** `relative` after resolution, read on the trimmed parts in their own case. */
  lemma RelativeBetweenOnParts(f: string, t: string)
    ensures var fromParts := TrimmedParts(f);
            var toParts := TrimmedParts(t);
            var k := CommonPrefixLen(LowerAll(fromParts), LowerAll(toParts));
            RelativeBetween(f, t)
            == if k == 0 then t else Implode('\\', Dots(|fromParts| - k) + SliceFrom(toParts, k))
  {
    TrimmedPartsLower(f);
    TrimmedPartsLower(t);
    assert |TrimmedParts(Lower(f))| == |TrimmedParts(f)|;
  }

  /** The longest common run of the lower-cased parts, read back on the parts themselves. */
  lemma CommonIgnoringCase(fromParts: seq<string>, toParts: seq<string>) returns (k: nat)
    ensures k == CommonPrefixLen(LowerAll(fromParts), LowerAll(toParts))
    ensures k <= |fromParts| && k <= |toParts|
    ensures LowerAll(fromParts[..k]) == LowerAll(toParts[..k])
    ensures k < |fromParts| && k < |toParts| ==> Lower(fromParts[k]) != Lower(toParts[k])
  {
    var lf := LowerAll(fromParts);
    var lt := LowerAll(toParts);
    k := CommonPrefixLen(lf, lt);
    assert LowerAll(fromParts[..k]) == lf[..k];
    assert LowerAll(toParts[..k]) == lt[..k];
  }

  /**
   * `relative(p, p)` is "" unless the resolved path has no non-empty part
   * (a bare root such as `\`), in which case it is that resolved path.
   */
  lemma RelativeToItself(path: string, cwd: string, env: map<string, string>)
    ensures var r := Resolved([path], cwd, env);
            Relativized(path, path, cwd, env) == if TrimmedParts(r) == [] then r else ""
  {
    var r := Resolved([path], cwd, env);
    var parts := TrimmedParts(Lower(r));
    TrimmedPartsLower(r);
    assert CommonPrefixLen(parts, parts) == |parts|;
    assert Dots(0) + SliceFrom(TrimmedParts(r), |parts|) == [];
  }

  // ---------------------------------------------------------------------
  // relative with trimRelativeArray as written (see Findings)
  // ---------------------------------------------------------------------

  /** `trimRelativeArray(explode('\\', $s))` as written, slicing by length. */
  function TrimmedPartsAsWritten(s: string): seq<string> {
    TrimRelativeAsWritten(Explode('\\', s))
  }

  /** What `relative` returns after resolution when the trim slices by length, as written. */
  function RelativeBetweenAsWritten(f: string, t: string): string {
    RelativeFromParts(t, TrimmedPartsAsWritten(t), TrimmedPartsAsWritten(Lower(f)),
                      TrimmedPartsAsWritten(Lower(t)))
  }

  /** What `relative($from, $to)` returns as written. */
  function RelativizedAsWritten(from: string, to: string, cwd: string, env: map<string, string>): string {
    RelativeBetweenAsWritten(Resolved([from], cwd, env), Resolved([to], cwd, env))
  }

  /** The device of a path on a UNC share is the share's root, up to the next slash. */
  lemma UncDeviceOfParts(server: string, seps: string, share: string, rest: string)
    requires server != "" && NoSlash(server) && seps != "" && AllSlash(seps)
    requires share != "" && NoSlash(share) && (rest == "" || IsSlash(rest[0]))
    ensures DeviceOf("//" + server + seps + share + rest) == "//" + server + seps + share
  {
    var s := "//" + server + seps + share + rest;
    UncSuffixes(s, server, seps, share, rest);
    UncLengthOfParts(s, server, seps, share, rest);
    DeviceOfWithoutDrive(s);
    assert s[..2 + |server| + |seps| + |share|] == "//" + server + seps + share;
  }

  /** The three runs of `//server<seps>share<rest>` measure exactly its share root. */
  lemma UncLengthOfParts(s: string, server: string, seps: string, share: string, rest: string)
    requires server != "" && NoSlash(server) && seps != "" && AllSlash(seps)
    requires share != "" && NoSlash(share) && (rest == "" || IsSlash(rest[0]))
    requires |s| == 2 + |server| + |seps| + |share| + |rest|
    requires s[2..] == server + (seps + share + rest)
    requires s[2 + |server|..] == seps + (share + rest)
    requires s[2 + |server| + |seps|..] == share + rest
    ensures UncLength(s) == 2 + |server| + |seps| + |share|
  {
    var m := 2 + |server|;
    var j := m + |seps|;
    var n := j + |share|;
    assert (seps + share + rest)[0] == seps[0] && (share + rest)[0] == share[0];
    RunOfPlain(server, seps + share + rest, s[2..]);
    RunOfSlashes(seps, share + rest, s[m..]);
    RunOfPlain(share, rest, s[j..]);
    UncLengthExact(s, m, j, n);
  }

  /** The suffixes of `//server<seps>share<rest>` where each of its runs starts. */
  lemma UncSuffixes(s: string, server: string, seps: string, share: string, rest: string)
    requires s == "//" + server + seps + share + rest
    ensures |s| == 2 + |server| + |seps| + |share| + |rest|
    ensures s[2..] == server + (seps + share + rest)
    ensures s[2 + |server|..] == seps + (share + rest)
    ensures s[2 + |server| + |seps|..] == share + rest
  {
  }

  /** A slash-free run followed by a slash, or by nothing, is the whole leading run. */
  lemma RunOfPlain(plain: string, tail: string, t: string)
    requires NoSlash(plain) && (tail == "" || IsSlash(tail[0])) && t == plain + tail
    ensures NonSlashRun(t) == |plain|
  {
    assert t[..|plain|] == plain;
    NonSlashRunExact(t, |plain|);
  }

  /** An all-slash run followed by a non-slash, or by nothing, is the whole leading run. */
  lemma RunOfSlashes(seps: string, tail: string, t: string)
    requires AllSlash(seps) && (tail == "" || !IsSlash(tail[0])) && t == seps + tail
    ensures SlashRun(t) == |seps|
  {
    assert t[..|seps|] == seps;
    SlashRunExact(t, |seps|);
  }

  /** The UNC alternative ends where its three runs end. */
  lemma UncLengthExact(s: string, m: nat, j: nat, n: nat)
    requires 2 < m < j < n <= |s|
    requires NonSlashRun(s[2..]) == m - 2 && SlashRun(s[m..]) == j - m && NonSlashRun(s[j..]) == n - j
    ensures UncLength(s) == n
  {
  }

  /** The tail segments of a resolved path whose tail is `x\`. */
  lemma PlainTailSegments(x: string)
    requires x == "" || (Truthy(x) && NoSlash(x) && x != "." && x != "..")
    ensures NormalizeSegments(SplitSlashRuns(x + "\\"), false) == if x == "" then [] else [x]
  {
    assert SplitSlashRuns("\\") == ["", ""] by {
      assert SkipSlashes("\\") == "";
    }
    var r := SplitSlashRuns("\\");
    SplitSlashRunsPlain(x, "\\");
    var parts := SplitSlashRuns(x + "\\");
    assert r[0] == "" && r[1..] == [""];
    assert x + r[0] == x;
    assert parts == [x] + [""];
    NormalizeIgnoresFalsyEnds([x], "", false);
    assert [x] + [""] == parts;
    if x == "" {
      NormalizeIgnoresFalsyEnds([], "", false);
      assert [] + [""] == [x];
    } else {
      FoldPlain([], [x], false);
      assert [] + [x] == [x];
    }
  }

  /**
   * `resolve` of one path on a UNC share: the canonical root `\\server\share`,
   * a `\` and the rest (e.g. `//server/share` resolves to `\\server\share\`).
   */
  lemma ResolveUncPath(server: string, seps: string, share: string, x: string,
                       cwd: string, env: map<string, string>)
    requires server != "" && NoSlash(server) && seps != "" && AllSlash(seps) && share != "" && NoSlash(share)
    requires x == "" || (Truthy(x) && NoSlash(x) && x != "." && x != ".." && x[|x| - 1] != '\n')
    ensures Resolved(["//" + server + seps + share + (if x == "" then "" else "/" + x)], cwd, env)
         == "\\\\" + server + "\\" + share + "\\" + x
  {
    var d := "//" + server + seps + share;
    var rest := if x == "" then "" else "/" + x;
    var p := d + rest;
    UncDeviceOfParts(server, seps, share, rest);
    UncTailOf(d, x);
    UncFinal(p, x, cwd, env);
    ComposeUnc(server, seps, share, x);
  }

  /** What follows a UNC device and its root slash. */
  lemma UncTailOf(d: string, x: string)
    requires DeviceOf(d + (if x == "" then "" else "/" + x)) == d
    requires x == "" || x[|x| - 1] != '\n'
    ensures TailOf(d + (if x == "" then "" else "/" + x)) == x
  {
    var rest := if x == "" then "" else "/" + x;
    var p := d + rest;
    assert p[|d|..] == rest;
    if x != "" {
      assert HasRoot(p);
      assert p[|d| + 1..] == x;
    }
  }

  /** A single path with a UNC device settles the loop at once. */
  lemma UncFinal(p: string, x: string, cwd: string, env: map<string, string>)
    requires p != "" && IsUncDevice(DeviceOf(p)) && TailOf(p) == x
    ensures Final([p], cwd, env) == WinState(DeviceOf(p), x + "\\", true, true)
  {
    assert x + "\\" + "" == x + "\\";
    assert ScanDown([p], 1) == Start;
  }

  /** The settled state of a UNC path composes to the canonical root, `\` and the tail. */
  lemma ComposeUnc(server: string, seps: string, share: string, x: string)
    requires server != "" && NoSlash(server) && seps != "" && AllSlash(seps) && share != "" && NoSlash(share)
    requires x == "" || (Truthy(x) && NoSlash(x) && x != "." && x != "..")
    ensures Compose(WinState("//" + server + seps + share, x + "\\", true, true))
         == "\\\\" + server + "\\" + share + "\\" + x
  {
    var st := WinState("//" + server + seps + share, x + "\\", true, true);
    NormalizeUncRootCanonical("//", server, seps, share);
    PlainTailSegments(x);
    assert Implode('\\', TailSegments(st)) == x;
  }

  /** The `\`-parts of `\\server\share\x`. */
  lemma UncRootParts(server: string, share: string, x: string)
    requires NoSlash(server) && NoSlash(share) && NoSlash(x)
    ensures Explode('\\', "\\\\" + server + "\\" + share + "\\" + x) == ["", "", server, share, x]
  {
    ExplodeWithoutSep('\\', server);
    ExplodeWithoutSep('\\', share);
    ExplodeWithoutSep('\\', x);
    var s3 := share + ['\\'] + x;
    ExplodeConcat('\\', share, x);
    var s2 := server + ['\\'] + s3;
    ExplodeConcat('\\', server, s3);
    var s1 := "" + ['\\'] + s2;
    ExplodeConcat('\\', "", s2);
    var s0 := "" + ['\\'] + s1;
    ExplodeConcat('\\', "", s1);
    assert Explode('\\', "") == [""];
    UncRootRegroup(server, share, x);
  }

  /** `\\server\share\x`, grouped from the right. */
  lemma UncRootRegroup(server: string, share: string, x: string)
    ensures "\\\\" + server + "\\" + share + "\\" + x
         == "" + ['\\'] + ("" + ['\\'] + (server + ['\\'] + (share + ['\\'] + x)))
  {
  }

  /** Lower-casing keeps a string non-empty and slash-free. */
  lemma LowerNoSlash(s: string)
    requires NoSlash(s)
    ensures NoSlash(Lower(s)) && |Lower(s)| == |s|
  {
    forall i | 0 <= i < |s|
      ensures !IsSlash(Lower(s)[i])
    {
      LowerCharFacts(s[i]);
    }
  }

  /** Both trims of the parts of `\\server\share\x`, and of its lower-cased form. */
  lemma UncRootTrims(server: string, share: string, x: string, s: string)
    returns (ls: string, lsh: string, lx: string)
    requires server != "" && NoSlash(server) && share != "" && NoSlash(share) && NoSlash(x)
    requires s == "\\\\" + server + "\\" + share + "\\" + x
    ensures ls == Lower(server) && lsh == Lower(share) && lx == Lower(x) && (lx == "" <==> x == "")
    ensures TrimmedPartsAsWritten(s) == [server, share, x]
    ensures TrimmedPartsAsWritten(Lower(s)) == [ls, lsh, lx]
    ensures TrimmedParts(s) == (if x == "" then [server, share] else [server, share, x])
    ensures TrimmedParts(Lower(s)) == (if x == "" then [ls, lsh] else [ls, lsh, lx])
  {
    ls, lsh, lx := Lower(server), Lower(share), Lower(x);
    UncRootParts(server, share, x);
    ExplodeLower('\\', s);
    assert LowerAll(["", "", server, share, x]) == ["", "", Lower(server), Lower(share), Lower(x)];
    LowerNoSlash(server);
    LowerNoSlash(share);
    LowerNoSlash(x);
    TrimUncParts(server, share, x);
    TrimUncParts(Lower(server), Lower(share), Lower(x));
  }

  /**
   * The UNC share root as `trimRelativeArray` is written: from
   * `//server/share` to `//server/share/x` the code as written answers
   * `..\x`, one level too many, where the corrected trim gives `x`; in the
   * other direction it answers `..\` where the corrected trim gives `..`.
   */
  lemma RelativeUncRootAsWritten(server: string, share: string, x: string,
                                 cwd: string, env: map<string, string>)
    requires server != "" && NoSlash(server) && share != "" && NoSlash(share)
    requires Truthy(x) && NoSlash(x) && x != "." && x != ".." && x[|x| - 1] != '\n'
    ensures var root := "//" + server + "/" + share;
            && RelativizedAsWritten(root, root + "/" + x, cwd, env) == "..\\" + x
            && Relativized(root, root + "/" + x, cwd, env) == x
            && RelativizedAsWritten(root + "/" + x, root, cwd, env) == "..\\"
            && Relativized(root + "/" + x, root, cwd, env) == ".."
  {
    var root := "//" + server + "/" + share;
    var f := "\\\\" + server + "\\" + share + "\\";
    var t := f + x;
    UncResolvedShareRoot(server, share, root, f, cwd, env);
    UncResolvedChild(server, share, x, root + "/" + x, t, cwd, env);
    UncRelativeDown(server, share, x);
    UncRelativeUp(server, share, x);
  }

  /** `resolve` of a share root: its canonical form with a closing `\`. */
  lemma UncResolvedShareRoot(server: string, share: string, root: string, f: string,
                             cwd: string, env: map<string, string>)
    requires server != "" && NoSlash(server) && share != "" && NoSlash(share)
    requires root == "//" + server + "/" + share && f == "\\\\" + server + "\\" + share + "\\"
    ensures Resolved([root], cwd, env) == f
  {
    ResolveUncPath(server, "/", share, "", cwd, env);
    assert root == "//" + server + "/" + share + "";
    assert f == "\\\\" + server + "\\" + share + "\\" + "";
  }

  /** `resolve` of a file directly under a share root. */
  lemma UncResolvedChild(server: string, share: string, x: string, child: string, t: string,
                         cwd: string, env: map<string, string>)
    requires server != "" && NoSlash(server) && share != "" && NoSlash(share)
    requires Truthy(x) && NoSlash(x) && x != "." && x != ".." && x[|x| - 1] != '\n'
    requires child == "//" + server + "/" + share + "/" + x
    requires t == "\\\\" + server + "\\" + share + "\\" + x
    ensures Resolved([child], cwd, env) == t
  {
    var root := "//" + server + "/" + share;
    Regroup(root, "/", x);
    assert child == root + (if x == "" then "" else "/" + x);
    ResolveUncPath(server, "/", share, x, cwd, env);
  }

  /** Concatenation regrouped to the right. */
  lemma Regroup(a: string, b: string, c: string)
    ensures a + b + c == a + (b + c)
  {
  }

  /** From the share root down to `x`: `..\x` as written, `x` corrected. */
  lemma UncRelativeDown(server: string, share: string, x: string)
    requires server != "" && NoSlash(server) && share != "" && NoSlash(share) && x != "" && NoSlash(x)
    ensures var f := "\\\\" + server + "\\" + share + "\\";
            var t := f + x;
            RelativeBetweenAsWritten(f, t) == "..\\" + x && RelativeBetween(f, t) == x
  {
    var f := "\\\\" + server + "\\" + share + "\\";
    var t := f + x;
    var ls, lsh, _ := UncRootTrims(server, share, "", f + "");
    assert f + "" == f;
    var _, _, lx := UncRootTrims(server, share, x, t);
    UncPartsDown(server, share, x, ls, lsh, lx, t);
  }

  /** From `x` up to the share root: `..\` as written, `..` corrected. */
  lemma UncRelativeUp(server: string, share: string, x: string)
    requires server != "" && NoSlash(server) && share != "" && NoSlash(share) && x != "" && NoSlash(x)
    ensures var f := "\\\\" + server + "\\" + share + "\\";
            var t := f + x;
            RelativeBetweenAsWritten(t, f) == "..\\" && RelativeBetween(t, f) == ".."
  {
    var f := "\\\\" + server + "\\" + share + "\\";
    var t := f + x;
    var ls, lsh, _ := UncRootTrims(server, share, "", f + "");
    assert f + "" == f;
    var _, _, lx := UncRootTrims(server, share, x, t);
    UncPartsUp(server, share, ls, lsh, lx, f);
  }

  /** The parts of a share root and of a path below it, going down. */
  lemma UncPartsDown(a: string, b: string, x: string, la: string, lb: string, lx: string, t: string)
    requires lx != ""
    ensures RelativeFromParts(t, [a, b, x], [la, lb, ""], [la, lb, lx]) == "..\\" + x
    ensures RelativeFromParts(t, [a, b, x], [la, lb], [la, lb, lx]) == x
  {
    CommonPrefixLenUnique([la, lb, ""], [la, lb, lx], 2);
    CommonPrefixLenUnique([la, lb], [la, lb, lx], 2);
    assert Dots(1) == [".."] && Dots(0) == [];
    assert SliceFrom([a, b, x], 2) == [x];
    assert [".."] + [x] == ["..", x];
    assert Implode('\\', ["..", x]) == "..\\" + x by {
      assert ["..", x][1..] == [x];
    }
  }

  /** The parts of a path below a share root and of the root, going up. */
  lemma UncPartsUp(a: string, b: string, la: string, lb: string, lx: string, f: string)
    requires lx != ""
    ensures RelativeFromParts(f, [a, b, ""], [la, lb, lx], [la, lb, ""]) == "..\\"
    ensures RelativeFromParts(f, [a, b], [la, lb, lx], [la, lb]) == ".."
  {
    CommonPrefixLenUnique([la, lb, lx], [la, lb, ""], 2);
    CommonPrefixLenUnique([la, lb, lx], [la, lb], 2);
    assert Dots(1) == [".."];
    assert SliceFrom([a, b, ""], 2) == [""] && SliceFrom([a, b], 2) == [];
    assert [".."] + [""] == ["..", ""] && [".."] + [] == [".."];
    assert Implode('\\', ["..", ""]) == "..\\" by {
      assert ["..", ""][1..] == [""];
    }
  }
}
