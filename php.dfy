/**
 * The PHP string built-ins that the path code relies on. PHP strings are
 * byte strings; here they are `string`, one `char` per byte, and only the
 * ASCII behaviour of the built-ins matters.
 */
module Php {

  datatype Option<+T> = None | Some(value: T)

  /** PHP truthiness of a string: "" and "0" are the only falsy strings. */
  predicate Truthy(s: string) {
    s != "" && s != "0"
  }

  /** A character of the class `[\\/]`. */
  predicate IsSlash(c: char) {
    c == '/' || c == '\\'
  }

  predicate NoSlash(s: string) {
    forall i | 0 <= i < |s| :: !IsSlash(s[i])
  }

  predicate AllSlash(s: string) {
    forall i | 0 <= i < |s| :: IsSlash(s[i])
  }

  /** `strtolower` on one byte: only A-Z change. */
  function LowerChar(c: char): char {
    if 'A' <= c <= 'Z' then (c as int + 32) as char else c
  }

  /** `strtoupper` on one byte: only a-z change. */
  function UpperChar(c: char): char {
    if 'a' <= c <= 'z' then (c as int - 32) as char else c
  }

  function Lower(s: string): string {
    seq(|s|, i requires 0 <= i < |s| => LowerChar(s[i]))
  }

  function Upper(s: string): string {
    seq(|s|, i requires 0 <= i < |s| => UpperChar(s[i]))
  }

  /** `implode('', $parts)`. */
  function Concat(parts: seq<string>): string
    decreases |parts|
  {
    if parts == [] then "" else parts[0] + Concat(parts[1..])
  }

  /** `substr($s, 0, $n)` for a non-negative `$n`. */
  function Head(s: string, n: nat): string {
    if |s| <= n then s else s[..n]
  }

  /** `substr($s, 1)`. */
  function DropFirst(s: string): string {
    if s == "" then "" else s[1..]
  }

  /** `substr($s, -1) === $c` for a one-byte `$c`. */
  predicate EndsWith(s: string, c: char) {
    |s| > 0 && s[|s| - 1] == c
  }

  /** `explode($sep, $s)` for a one-byte separator: always at least one part. */
  function Explode(sep: char, s: string): (parts: seq<string>)
    ensures |parts| >= 1
    ensures forall i | 0 <= i < |parts| :: sep !in parts[i]
    decreases |s|
  {
    if s == "" then [""]
    else
      var rest := Explode(sep, s[1..]);
      if s[0] == sep then [""] + rest
      else [[s[0]] + rest[0]] + rest[1..]
  }

  /** `implode($sep, $parts)` for a one-byte glue. */
  function Implode(sep: char, parts: seq<string>): string
    decreases |parts|
  {
    if parts == [] then ""
    else if |parts| == 1 then parts[0]
    else parts[0] + [sep] + Implode(sep, parts[1..])
  }

  /** Drops the leading run of `[\\/]` characters. */
  function SkipSlashes(s: string): (r: string)
    ensures |r| <= |s| && r == s[|s| - |r|..]
    ensures r == "" || !IsSlash(r[0])
    ensures AllSlash(s[..|s| - |r|])
    decreases |s|
  {
    if s != "" && IsSlash(s[0]) then SkipSlashes(s[1..]) else s
  }

  /** `preg_split('|[\\\/]+|', $s)`: split on every maximal run of slashes. */
  function SplitSlashRuns(s: string): (parts: seq<string>)
    ensures |parts| >= 1
    ensures forall i | 0 <= i < |parts| :: NoSlash(parts[i])
    decreases |s|
  {
    if s == "" then [""]
    else if IsSlash(s[0]) then [""] + SplitSlashRuns(SkipSlashes(s))
    else
      var rest := SplitSlashRuns(s[1..]);
      [[s[0]] + rest[0]] + rest[1..]
  }

  /** Length of the leading run of characters of the class `[^\\/]`. */
  function NonSlashRun(s: string): (n: nat)
    ensures n <= |s|
    ensures NoSlash(s[..n])
    ensures n < |s| ==> IsSlash(s[n])
    decreases |s|
  {
    if s == "" || IsSlash(s[0]) then 0 else 1 + NonSlashRun(s[1..])
  }

  /** Length of the leading run of characters of the class `[\\/]`. */
  function SlashRun(s: string): (n: nat)
    ensures n <= |s|
    ensures AllSlash(s[..n])
    ensures n < |s| ==> !IsSlash(s[n])
    decreases |s|
  {
    if s != "" && IsSlash(s[0]) then 1 + SlashRun(s[1..]) else 0
  }

  /** The runs measured from position `a` of `s`, as slices of `s` itself. */
  lemma NonSlashRunFrom(s: string, a: nat) returns (e: nat)
    requires a <= |s|
    ensures e == a + NonSlashRun(s[a..]) && e <= |s|
    ensures NoSlash(s[a..e]) && (e < |s| ==> IsSlash(s[e]))
  {
    e := a + NonSlashRun(s[a..]);
    assert s[a..][..e - a] == s[a..e];
    if e < |s| {
      assert s[a..][e - a] == s[e];
    }
  }

  lemma SlashRunFrom(s: string, a: nat) returns (e: nat)
    requires a <= |s|
    ensures e == a + SlashRun(s[a..]) && e <= |s|
    ensures AllSlash(s[a..e]) && (e < |s| ==> !IsSlash(s[e]))
  {
    e := a + SlashRun(s[a..]);
    assert s[a..][..e - a] == s[a..e];
    if e < |s| {
      assert s[a..][e - a] == s[e];
    }
  }

  /** A slash-free prefix that ends at a slash (or at the end) is the whole leading run. */
  lemma {:induction false} NonSlashRunExact(s: string, k: nat)
    requires k <= |s| && NoSlash(s[..k]) && (k < |s| ==> IsSlash(s[k]))
    ensures NonSlashRun(s) == k
    decreases k
  {
    if k > 0 {
      assert !IsSlash(s[..k][0]);
      assert s[1..][..k - 1] == s[1..k];
      NonSlashRunExact(s[1..], k - 1);
    }
  }

  /** An all-slash prefix that ends at a non-slash (or at the end) is the whole leading run. */
  lemma {:induction false} SlashRunExact(s: string, k: nat)
    requires k <= |s| && AllSlash(s[..k]) && (k < |s| ==> !IsSlash(s[k]))
    ensures SlashRun(s) == k
    decreases k
  {
    if k > 0 {
      assert IsSlash(s[..k][0]);
      assert s[1..][..k - 1] == s[1..k];
      SlashRunExact(s[1..], k - 1);
    }
  }

  /** A slash-free prefix joins the first part of what follows it. */
  lemma {:induction false} SplitSlashRunsPlain(plain: string, rest: string)
    requires NoSlash(plain)
    ensures var r := SplitSlashRuns(rest);
            SplitSlashRuns(plain + rest) == [plain + r[0]] + r[1..]
    decreases |plain|
  {
    var r := SplitSlashRuns(rest);
    if plain == "" {
      assert plain + rest == rest;
      assert plain + r[0] == r[0];
      assert [r[0]] + r[1..] == r;
    } else {
      var s := plain + rest;
      assert s[0] == plain[0] && !IsSlash(s[0]);
      assert s[1..] == plain[1..] + rest;
      assert NoSlash(plain[1..]) by {
        forall i | 0 <= i < |plain| - 1
          ensures !IsSlash(plain[1..][i])
        {
          assert plain[1..][i] == plain[i + 1];
        }
      }
      SplitSlashRunsPlain(plain[1..], rest);
      assert [s[0]] + (plain[1..] + r[0]) == plain + r[0];
    }
  }

  /** `$n` occurs in `$h` at index `j`. */
  predicate OccursAt(h: string, n: string, j: nat) {
    j + |n| <= |h| && h[j..j + |n|] == n
  }

  /** `strrpos($h, $n, 0)`: the last index at which `$n` occurs in `$h`. */
  function LastIndexOf(h: string, n: string): (r: Option<nat>)
    ensures r.Some? ==> OccursAt(h, n, r.value)
    ensures r.Some? ==> forall j: nat | r.value < j :: !OccursAt(h, n, j)
    ensures r.None? ==> forall j: nat :: !OccursAt(h, n, j)
  {
    if |n| > |h| then None else LastIndexFrom(h, n, |h| - |n|)
  }

  function LastIndexFrom(h: string, n: string, i: nat): (r: Option<nat>)
    requires i + |n| <= |h|
    requires forall j: nat | i < j :: !OccursAt(h, n, j)
    ensures r.Some? ==> OccursAt(h, n, r.value)
    ensures r.Some? ==> forall j: nat | r.value < j :: !OccursAt(h, n, j)
    ensures r.None? ==> forall j: nat :: !OccursAt(h, n, j)
    decreases i
  {
    if OccursAt(h, n, i) then Some(i)
    else if i == 0 then None
    else LastIndexFrom(h, n, i - 1)
  }

  // ---------------------------------------------------------------------
  // Facts about the built-ins
  // ---------------------------------------------------------------------

  lemma ExplodeWithoutSep(sep: char, s: string)
    requires sep !in s
    ensures Explode(sep, s) == [s]
    decreases |s|
  {
    if s != "" {
      ExplodeWithoutSep(sep, s[1..]);
      assert [s[0]] + s[1..] == s;
    }
  }

  /** Splitting at one separator splits the two sides independently. */
  lemma {:induction false} ExplodeConcat(sep: char, a: string, b: string)
    ensures Explode(sep, a + [sep] + b) == Explode(sep, a) + Explode(sep, b)
    decreases |a|
  {
    var s := a + [sep] + b;
    if a == "" {
      assert s[1..] == b;
    } else {
      assert s[1..] == a[1..] + [sep] + b;
      ExplodeConcat(sep, a[1..], b);
    }
  }

  /** `explode` undoes `implode` when no part holds the separator. */
  lemma {:induction false} ExplodeImplode(sep: char, parts: seq<string>)
    requires parts != []
    requires forall i | 0 <= i < |parts| :: sep !in parts[i]
    ensures Explode(sep, Implode(sep, parts)) == parts
    decreases |parts|
  {
    if |parts| == 1 {
      ExplodeWithoutSep(sep, parts[0]);
    } else {
      ExplodeImplode(sep, parts[1..]);
      ExplodeConcat(sep, parts[0], Implode(sep, parts[1..]));
      ExplodeWithoutSep(sep, parts[0]);
      assert [parts[0]] + parts[1..] == parts;
    }
  }

  /** The last part of `explode` is empty only when the string is or ends with the separator. */
  lemma {:induction false} ExplodeLastEmpty(sep: char, s: string)
    ensures var parts := Explode(sep, s);
            parts[|parts| - 1] == "" ==> s == "" || EndsWith(s, sep)
    decreases |s|
  {
    if s != "" {
      ExplodeLastEmpty(sep, s[1..]);
    }
  }

  lemma {:induction false} ImplodeSnoc(sep: char, parts: seq<string>, x: string)
    requires parts != []
    ensures Implode(sep, parts + [x]) == Implode(sep, parts) + [sep] + x
    decreases |parts|
  {
    if |parts| > 1 {
      assert (parts + [x])[1..] == parts[1..] + [x];
      ImplodeSnoc(sep, parts[1..], x);
    }
  }

  /** The glued string starts with the first part and ends with the last one. */
  lemma {:induction false} ImplodeEnds(sep: char, parts: seq<string>)
    requires parts != []
    ensures |Implode(sep, parts)| >= |parts[0]| && Implode(sep, parts)[..|parts[0]|] == parts[0]
    ensures |Implode(sep, parts)| >= |parts[|parts| - 1]|
    ensures var s := Implode(sep, parts); var l := parts[|parts| - 1];
            s[|s| - |l|..] == l
    decreases |parts|
  {
    if |parts| > 1 {
      ImplodeEnds(sep, parts[1..]);
    }
  }

  /** Gluing truthy parts gives a truthy string exactly when there is a part. */
  lemma {:induction false} ImplodeTruthy(sep: char, parts: seq<string>)
    requires forall i | 0 <= i < |parts| :: Truthy(parts[i])
    ensures Truthy(Implode(sep, parts)) <==> parts != []
  {
    if |parts| > 1 {
      assert |Implode(sep, parts)| >= |parts[0]| + 1;
    }
  }

  lemma LowerIdempotent(s: string)
    ensures Lower(Lower(s)) == Lower(s)
  {
  }

  lemma LowerConcat(a: string, b: string)
    ensures Lower(a + b) == Lower(a) + Lower(b)
  {
  }

  function LowerAll(parts: seq<string>): (r: seq<string>)
    ensures |r| == |parts|
  {
    seq(|parts|, i requires 0 <= i < |parts| => Lower(parts[i]))
  }

  /** Lower-casing commutes with `explode` on a separator that is not a letter. */
  lemma {:induction false} ExplodeLower(sep: char, s: string)
    requires !('A' <= sep <= 'Z') && !('a' <= sep <= 'z')
    ensures Explode(sep, Lower(s)) == LowerAll(Explode(sep, s))
    decreases |s|
  {
    if s != "" {
      ExplodeLower(sep, s[1..]);
      assert Lower(s)[1..] == Lower(s[1..]);
      var rest := Explode(sep, s[1..]);
      if s[0] != sep {
        assert Lower([s[0]] + rest[0]) == [LowerChar(s[0])] + Lower(rest[0]);
      }
    }
  }
}
