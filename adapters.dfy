/**
 * The two adapters behind one interface (src/Adapter/AdapterInterface.php):
 * which one is in use is a value, and each operation dispatches on it.
 */
module Adapters {
  import opened Php
  import Posix
  import Windows

  datatype Adapter = PosixAdapter | WindowsAdapter

  /** What the adapters read from the process: `getcwd()` and `$_ENV`. */
  datatype Host = Host(cwd: string, env: map<string, string>)

  function Separator(a: Adapter): (r: string)
    ensures |r| == 1 && IsSlash(r[0])
  {
    match a
    case PosixAdapter => Posix.Separator
    case WindowsAdapter => Windows.Separator
  }

  function Delimiter(a: Adapter): (r: string)
    ensures |r| == 1 && !IsSlash(r[0]) && r[0] != Separator(a)[0]
  {
    match a
    case PosixAdapter => Posix.Delimiter
    case WindowsAdapter => Windows.Delimiter
  }

  /** Only the Windows adapter compares paths ignoring case. */
  function IsCaseSensitive(a: Adapter): (r: bool)
    ensures r <==> a == PosixAdapter
  {
    match a
    case PosixAdapter => Posix.IsCaseSensitive
    case WindowsAdapter => Windows.IsCaseSensitive
  }

  predicate IsAbsolute(a: Adapter, path: string) {
    match a
    case PosixAdapter => Posix.IsAbsolute(path)
    case WindowsAdapter => Windows.IsAbsolute(path)
  }

  /** What `resolve($paths)` returns on adapter `a`. */
  function Resolved(a: Adapter, paths: seq<string>, host: Host): string {
    match a
    case PosixAdapter => Posix.Resolved(paths, host.cwd)
    case WindowsAdapter => Windows.Resolved(paths, host.cwd, host.env)
  }

  /** What `relative($from, $to)` returns on adapter `a`. */
  function Relativized(a: Adapter, from: string, to: string, host: Host): string {
    match a
    case PosixAdapter => Posix.Relativized(from, to, host.cwd)
    case WindowsAdapter => Windows.Relativized(from, to, host.cwd, host.env)
  }

  method Resolve(a: Adapter, paths: seq<string>, host: Host) returns (r: string)
    ensures r == Resolved(a, paths, host)
  {
    match a
    case PosixAdapter =>
      r := Posix.Resolve(paths, host.cwd);
    case WindowsAdapter =>
      r := Windows.Resolve(paths, host.cwd, host.env);
  }

  method Relative(a: Adapter, from: string, to: string, host: Host) returns (r: string)
    ensures r == Relativized(a, from, to, host)
  {
    match a
    case PosixAdapter =>
      r := Posix.Relative(from, to, host.cwd);
    case WindowsAdapter =>
      r := Windows.Relative(from, to, host.cwd, host.env);
  }

  /** Both adapters: `resolve` never returns "". */
  lemma ResolvedNeverEmpty(a: Adapter, paths: seq<string>, host: Host)
    ensures Resolved(a, paths, host) != ""
  {
    match a
    case PosixAdapter =>
      Posix.ResolveAbsolute(paths, host.cwd);
    case WindowsAdapter =>
      Windows.ResolvedShape(paths, host.cwd, host.env);
  }
}
