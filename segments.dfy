/**
 * The segment algebra both adapters share (src/Adapter/AbstractAdapter.php):
 * `normalizeArray`, which collapses empty, `.` and `..` segments in one
 * push/pop pass, and `trimRelativeArray`, which drops empty segments from the
 * two ends of an array (as PHP's `array_slice` computes it).
 */
module Segments {
  import opened Php

  // ---------------------------------------------------------------------
  // normalizeArray
  // ---------------------------------------------------------------------

  /** One turn of the loop of `normalizeArray`: the result after seeing `p`. */
  function Step(res: seq<string>, p: string, allowAboveRoot: bool): seq<string> {
    if !Truthy(p) || p == "." then res
    else if p == ".." then
      if |res| > 0 && res[|res| - 1] != ".." then res[..|res| - 1]
      else if allowAboveRoot then res + [".."]
      else res
    else res + [p]
  }

  /** The loop of `normalizeArray` run over `parts`, starting from `res`. */
  function Fold(res: seq<string>, parts: seq<string>, allowAboveRoot: bool): seq<string>
    decreases |parts|
  {
    if parts == [] then res
    else Step(Fold(res, parts[..|parts| - 1], allowAboveRoot), parts[|parts| - 1], allowAboveRoot)
  }

  /** What `normalizeArray($parts, $allowAboveRoot)` returns. */
  function NormalizeSegments(parts: seq<string>, allowAboveRoot: bool): seq<string> {
    Fold([], parts, allowAboveRoot)
  }

  /**
   * The shape of a normalised segment array: no falsy (`""`, `"0"`) and no
   * `"."` segment, every `".."` in a leading run, and no `".."` at all unless
   * going above the root is allowed.
   */
  predicate Collapsed(s: seq<string>, allowAboveRoot: bool) {
    && (forall i | 0 <= i < |s| :: Truthy(s[i]) && s[i] != ".")
    && (forall i, j | 0 <= i < j < |s| && s[j] == ".." :: s[i] == "..")
    && (!allowAboveRoot ==> forall i | 0 <= i < |s| :: s[i] != "..")
  }

  method NormalizeArray(parts: seq<string>, allowAboveRoot: bool) returns (res: seq<string>)
    ensures res == NormalizeSegments(parts, allowAboveRoot)
  {
    res := [];
    for i := 0 to |parts|
      invariant res == Fold([], parts[..i], allowAboveRoot)
    {
      assert parts[..i + 1][..i] == parts[..i];
      var p := parts[i];

      // ignore empty paths
      if !Truthy(p) || p == "." {
        continue;
      }

      if p == ".." {
        if |res| > 0 && res[|res| - 1] != ".." {
          res := res[..|res| - 1];
        } else if allowAboveRoot {
          res := res + [".."];
        }
      } else {
        res := res + [p];
      }
    }
    assert parts[..|parts|] == parts;
  }

  lemma StepKeepsCollapsed(res: seq<string>, p: string, allowAboveRoot: bool)
    requires Collapsed(res, allowAboveRoot)
    ensures Collapsed(Step(res, p, allowAboveRoot), allowAboveRoot)
  {
  }

  /** Every run of the loop keeps the collapsed shape. */
  lemma {:induction false} FoldCollapsed(res: seq<string>, parts: seq<string>, allowAboveRoot: bool)
    requires Collapsed(res, allowAboveRoot)
    ensures Collapsed(Fold(res, parts, allowAboveRoot), allowAboveRoot)
    decreases |parts|
  {
    if parts != [] {
      FoldCollapsed(res, parts[..|parts| - 1], allowAboveRoot);
      StepKeepsCollapsed(Fold(res, parts[..|parts| - 1], allowAboveRoot), parts[|parts| - 1], allowAboveRoot);
    }
  }

  /**
   * The output of `normalizeArray` holds no `""`, `"0"` or `"."` segment;
   * its `".."` segments form a leading run, and there are none when going
   * above the root is not allowed.
   */
  lemma NormalizeCollapsed(parts: seq<string>, allowAboveRoot: bool)
    ensures Collapsed(NormalizeSegments(parts, allowAboveRoot), allowAboveRoot)
  {
    FoldCollapsed([], parts, allowAboveRoot);
  }

  /** Each `..` removes the last kept segment while no `..` has been kept. */
  lemma {:induction false} FoldDots(res: seq<string>, m: nat)
    requires m <= |res| && forall i | 0 <= i < |res| :: res[i] != ".."
    ensures Fold(res, Dots(m), false) == res[..|res| - m]
    decreases m
  {
    if m > 0 {
      assert Dots(m)[..m - 1] == Dots(m - 1);
      FoldDots(res, m - 1);
      var before := res[..|res| - (m - 1)];
      assert before[|before| - 1] == res[|res| - m];
      assert before[..|before| - 1] == res[..|res| - m];
    }
  }

  /** Segments that are truthy and neither `.` nor `..` are kept as they come. */
  lemma {:induction false} FoldPlain(res: seq<string>, parts: seq<string>, allowAboveRoot: bool)
    requires forall i | 0 <= i < |parts| :: Truthy(parts[i]) && parts[i] != "." && parts[i] != ".."
    ensures Fold(res, parts, allowAboveRoot) == res + parts
    decreases |parts|
  {
    if parts != [] {
      var init := parts[..|parts| - 1];
      FoldPlain(res, init, allowAboveRoot);
      assert res + parts == res + init + [parts[|parts| - 1]];
    }
  }

  /** Running the loop over `a + b` is running it over `a`, then over `b`. */
  lemma {:induction false} FoldAppend(res: seq<string>, a: seq<string>, b: seq<string>, allowAboveRoot: bool)
    ensures Fold(res, a + b, allowAboveRoot) == Fold(Fold(res, a, allowAboveRoot), b, allowAboveRoot)
    decreases |b|
  {
    if b == [] {
      assert a + b == a;
    } else {
      assert (a + b)[..|a + b| - 1] == a + b[..|b| - 1];
      FoldAppend(res, a, b[..|b| - 1], allowAboveRoot);
    }
  }

  /** A collapsed array is a fixed point of `normalizeArray`. */
  lemma {:induction false} CollapsedIsFixpoint(s: seq<string>, allowAboveRoot: bool)
    requires Collapsed(s, allowAboveRoot)
    ensures NormalizeSegments(s, allowAboveRoot) == s
    decreases |s|
  {
    if s != [] {
      var init := s[..|s| - 1];
      assert Collapsed(init, allowAboveRoot);
      CollapsedIsFixpoint(init, allowAboveRoot);
      if s[|s| - 1] == ".." {
        assert init == [] || init[|init| - 1] == "..";
      }
      assert init + [s[|s| - 1]] == s;
    }
  }

  /** `normalizeArray` is idempotent for a fixed `allowAboveRoot`. */
  lemma NormalizeSegmentsIdempotent(parts: seq<string>, allowAboveRoot: bool)
    ensures NormalizeSegments(NormalizeSegments(parts, allowAboveRoot), allowAboveRoot)
         == NormalizeSegments(parts, allowAboveRoot)
  {
    NormalizeCollapsed(parts, allowAboveRoot);
    CollapsedIsFixpoint(NormalizeSegments(parts, allowAboveRoot), allowAboveRoot);
  }

  /** Leading and trailing falsy segments make no difference. */
  lemma NormalizeIgnoresFalsyEnds(parts: seq<string>, e: string, allowAboveRoot: bool)
    requires !Truthy(e)
    ensures NormalizeSegments([e] + parts, allowAboveRoot) == NormalizeSegments(parts, allowAboveRoot)
    ensures NormalizeSegments(parts + [e], allowAboveRoot) == NormalizeSegments(parts, allowAboveRoot)
  {
    FoldAppend([], [e], parts, allowAboveRoot);
    assert Fold([], [e], allowAboveRoot) == [] by {
      assert [e][..0] == [];
    }
    assert (parts + [e])[..|parts|] == parts;
  }

  // ---------------------------------------------------------------------
  // Subsequences
  // ---------------------------------------------------------------------

  /** `a` is a subsequence of `b` (matched greedily from the end). */
  predicate IsSubseq<T(==)>(a: seq<T>, b: seq<T>)
    decreases |b|
  {
    if a == [] then true
    else if b == [] then false
    else if a[|a| - 1] == b[|b| - 1] then IsSubseq(a[..|a| - 1], b[..|b| - 1])
    else IsSubseq(a, b[..|b| - 1])
  }

  lemma {:induction false} SubseqExtend<T>(a: seq<T>, b: seq<T>, x: T)
    requires IsSubseq(a, b)
    ensures IsSubseq(a, b + [x])
    decreases |b|, 1
  {
    assert (b + [x])[..|b|] == b;
    if a != [] && a[|a| - 1] == x {
      SubseqDropLast(a, b);
    }
  }

  lemma {:induction false} SubseqDropLast<T>(a: seq<T>, b: seq<T>)
    requires a != [] && IsSubseq(a, b)
    ensures IsSubseq(a[..|a| - 1], b)
    decreases |b|, 0
  {
    var b' := b[..|b| - 1];
    assert b' + [b[|b| - 1]] == b;
    if a[|a| - 1] == b[|b| - 1] {
      SubseqExtend(a[..|a| - 1], b', b[|b| - 1]);
    } else {
      SubseqDropLast(a, b');
      SubseqExtend(a[..|a| - 1], b', b[|b| - 1]);
    }
  }

  lemma {:induction false} SubseqFacts<T>(a: seq<T>, b: seq<T>)
    requires IsSubseq(a, b)
    ensures |a| <= |b|
    ensures forall x | x in a :: x in b
    decreases |b|
  {
    if a != [] {
      var b' := b[..|b| - 1];
      if a[|a| - 1] == b[|b| - 1] {
        SubseqFacts(a[..|a| - 1], b');
        assert a == a[..|a| - 1] + [a[|a| - 1]];
      } else {
        SubseqFacts(a, b');
      }
    }
  }

  /**
   * `normalizeArray` only drops segments: its output is a subsequence of its
   * input, and so never longer than it.
   */
  lemma {:induction false} NormalizeIsSubsequence(parts: seq<string>, allowAboveRoot: bool)
    ensures IsSubseq(NormalizeSegments(parts, allowAboveRoot), parts)
    ensures |NormalizeSegments(parts, allowAboveRoot)| <= |parts|
    ensures forall x | x in NormalizeSegments(parts, allowAboveRoot) :: x in parts
    decreases |parts|
  {
    var r := NormalizeSegments(parts, allowAboveRoot);
    if parts != [] {
      var init := parts[..|parts| - 1];
      var p := parts[|parts| - 1];
      var r' := NormalizeSegments(init, allowAboveRoot);
      NormalizeIsSubsequence(init, allowAboveRoot);
      assert init + [p] == parts;
      if !Truthy(p) || p == "." {
        SubseqExtend(r', init, p);
      } else if p == ".." && |r'| > 0 && r'[|r'| - 1] != ".." {
        SubseqDropLast(r', init);
        SubseqExtend(r'[..|r'| - 1], init, p);
      } else if p == ".." && !allowAboveRoot {
        SubseqExtend(r', init, p);
      } else {
        assert (r' + [p])[..|r'|] == r';
      }
    }
    SubseqFacts(r, parts);
  }

  // ---------------------------------------------------------------------
  // trimRelativeArray
  // ---------------------------------------------------------------------

  /** Index of the first non-empty element (`|arr|` when there is none). */
  function FirstNonEmpty(arr: seq<string>): (k: nat)
    ensures k <= |arr|
    ensures forall i | 0 <= i < k :: arr[i] == ""
    ensures k < |arr| ==> arr[k] != ""
    decreases |arr|
  {
    if arr == [] || arr[0] != "" then 0 else 1 + FirstNonEmpty(arr[1..])
  }

  /** Index of the last non-empty element (-1 when there is none). */
  function LastNonEmpty(arr: seq<string>): (k: int)
    ensures -1 <= k < |arr|
    ensures forall i | k < i < |arr| :: arr[i] == ""
    ensures k >= 0 ==> arr[k] != ""
    decreases |arr|
  {
    if arr == [] then -1
    else if arr[|arr| - 1] != "" then |arr| - 1
    else LastNonEmpty(arr[..|arr| - 1])
  }

  /**
   * What `trimRelativeArray($arr)` returns as written: `[]` when every
   * element is empty, else `array_slice($arr, $start, $end + 1)`, whose third
   * argument is a LENGTH, so the slice runs to `min($start + $end + 1, count($arr))`.
   */
  function TrimRelativeAsWritten(arr: seq<string>): seq<string> {
    var start := FirstNonEmpty(arr);
    var end := LastNonEmpty(arr);
    if start > end then []
    else arr[start..if start + end + 1 <= |arr| then start + end + 1 else |arr|]
  }

  /**
   * What `trimRelativeArray($arr)` is meant to return: the elements from the
   * first non-empty one to the last non-empty one (`arr.slice(start, end + 1)`
   * in the io.js original, whose second argument is an end index).
   */
  function TrimRelative(arr: seq<string>): seq<string> {
    var start := FirstNonEmpty(arr);
    var end := LastNonEmpty(arr);
    if start > end then [] else arr[start..end + 1]
  }

  method TrimRelativeArray(arr: seq<string>) returns (r: seq<string>)
    ensures r == TrimRelative(arr)
  {
    var start := 0;
    while start < |arr|
      invariant 0 <= start <= |arr|
      invariant forall i | 0 <= i < start :: arr[i] == ""
    {
      if arr[start] != "" {
        break;
      }
      start := start + 1;
    }
    assert start == FirstNonEmpty(arr);

    var end := |arr| - 1;
    while end >= 0
      invariant -1 <= end < |arr|
      invariant forall i | end < i < |arr| :: arr[i] == ""
    {
      if arr[end] != "" {
        break;
      }
      end := end - 1;
    }
    assert end == LastNonEmpty(arr);

    if start > end {
      return [];
    }
    r := arr[start..end + 1];
  }

  /**
   * The trim removes exactly the leading and the trailing `""` elements: what
   * it keeps is a contiguous run of `arr` that is empty or starts and ends
   * with a non-empty element, and everything around it is `""`.
   */
  lemma TrimRelativeStripsEnds(arr: seq<string>)
    ensures var r := TrimRelative(arr);
            var s := FirstNonEmpty(arr);
            && s + |r| <= |arr| && r == arr[s..s + |r|]
            && (forall i | 0 <= i < s :: arr[i] == "")
            && (forall i | s + |r| <= i < |arr| :: arr[i] == "")
            && (r != [] ==> r[0] != "" && r[|r| - 1] != "")
  {
    var start, stop := TrimRelativeCut(arr);
    var r := arr[start..stop];
    if start < stop {
      assert r[0] == arr[start] && r[|r| - 1] == arr[stop - 1];
    }
  }

  /** Where `trimRelativeArray` cuts: from the first non-empty element to just after the last. */
  lemma TrimRelativeCut(arr: seq<string>) returns (start: nat, stop: nat)
    ensures start == FirstNonEmpty(arr) && start <= stop <= |arr|
    ensures TrimRelative(arr) == arr[start..stop]
    ensures start < stop ==> arr[start] != "" && arr[stop - 1] != ""
    ensures forall i | stop <= i < |arr| :: arr[i] == ""
  {
    var end := LastNonEmpty(arr);
    start := FirstNonEmpty(arr);
    stop := if start <= end then end + 1 else start;
  }

  /** An array with no `""` element is kept whole. */
  lemma TrimKeepsNonEmpty(arr: seq<string>)
    requires forall i | 0 <= i < |arr| :: arr[i] != ""
    ensures TrimRelative(arr) == arr
  {
    if arr != [] {
      assert FirstNonEmpty(arr) == 0;
      assert LastNonEmpty(arr) == |arr| - 1;
    }
  }

  /** Lower-casing the elements first trims the same ends. */
  lemma TrimLowerAll(arr: seq<string>)
    ensures TrimRelative(LowerAll(arr)) == LowerAll(TrimRelative(arr))
  {
    NonEmptyEndsOfLower(arr);
    var start, end := FirstNonEmpty(arr), LastNonEmpty(arr);
    if start <= end {
      LowerAllSlice(arr, start, end + 1);
    }
  }

  /** Lower-casing keeps exactly the empty elements empty. */
  lemma LowerAllEmptyAt(arr: seq<string>)
    ensures var low := LowerAll(arr);
            forall i | 0 <= i < |arr| :: (low[i] == "" <==> arr[i] == "")
  {
    var low := LowerAll(arr);
    forall i | 0 <= i < |arr|
      ensures low[i] == "" <==> arr[i] == ""
    {
      assert |low[i]| == |Lower(arr[i])| == |arr[i]|;
    }
  }

  /** Lower-casing moves neither the first nor the last non-empty element. */
  lemma NonEmptyEndsOfLower(arr: seq<string>)
    ensures FirstNonEmpty(LowerAll(arr)) == FirstNonEmpty(arr)
    ensures LastNonEmpty(LowerAll(arr)) == LastNonEmpty(arr)
  {
    LowerAllEmptyAt(arr);
    FirstNonEmptySame(LowerAll(arr), arr);
    LastNonEmptySame(LowerAll(arr), arr);
  }

  lemma LowerAllSlice(arr: seq<string>, i: nat, j: nat)
    requires i <= j <= |arr|
    ensures LowerAll(arr[i..j]) == LowerAll(arr)[i..j]
  {
  }

  /** Two lists empty at the same places have their first non-empty element at the same index. */
  lemma {:induction false} FirstNonEmptySame(a: seq<string>, b: seq<string>)
    requires |a| == |b| && forall i | 0 <= i < |a| :: (a[i] == "" <==> b[i] == "")
    ensures FirstNonEmpty(a) == FirstNonEmpty(b)
    decreases |a|
  {
    if a != [] && a[0] == "" {
      FirstNonEmptySame(a[1..], b[1..]);
    }
  }

  /** Two lists empty at the same places have their last non-empty element at the same index. */
  lemma {:induction false} LastNonEmptySame(a: seq<string>, b: seq<string>)
    requires |a| == |b| && forall i | 0 <= i < |a| :: (a[i] == "" <==> b[i] == "")
    ensures LastNonEmpty(a) == LastNonEmpty(b)
    decreases |a|
  {
    if a != [] && a[|a| - 1] == "" {
      LastNonEmptySame(a[..|a| - 1], b[..|b| - 1]);
    }
  }

  /** `trimRelativeArray` returns `[]` exactly when every element is `""`. */
  lemma TrimEmptyIff(arr: seq<string>)
    ensures TrimRelative(arr) == [] <==> forall i | 0 <= i < |arr| :: arr[i] == ""
  {
    var start := FirstNonEmpty(arr);
    var end := LastNonEmpty(arr);
    if start <= end {
      assert arr[start] != "";
    } else {
      forall i | 0 <= i < |arr|
        ensures arr[i] == ""
      {
        assert i < start || end < i;
      }
    }
  }

  /**
   * Without a leading `""`, or without a trailing one, the slice length
   * reaches the same end as the end index, so the code as written trims
   * correctly.
   */
  lemma TrimAsWrittenAgrees(arr: seq<string>)
    requires arr == [] || arr[0] != "" || arr[|arr| - 1] != "" || forall i | 0 <= i < |arr| :: arr[i] == ""
    ensures TrimRelativeAsWritten(arr) == TrimRelative(arr)
  {
  }

  /**
   * The parts of a UNC root such as `\\server\share\`: after the two
   * leading `""` are skipped, the slice length counts from the wrong end and
   * the trailing `""` survives.
   */
  lemma TrimAsWrittenKeepsTrailingEmpty(server: string, share: string)
    requires server != "" && share != ""
    ensures TrimRelativeAsWritten(["", "", server, share, ""]) == [server, share, ""]
    ensures TrimRelative(["", "", server, share, ""]) == [server, share]
  {
    var arr := ["", "", server, share, ""];
    assert FirstNonEmpty(arr) == 2 by {
      assert arr[1..] == ["", server, share, ""];
      assert arr[1..][1..] == [server, share, ""];
      assert FirstNonEmpty(arr[1..][1..]) == 0;
      assert FirstNonEmpty(arr[1..]) == 1;
    }
    assert LastNonEmpty(arr) == 3 by {
      assert arr[..4] == ["", "", server, share];
    }
  }

  /**
   * The parts of a UNC path `\\a\b\c`: the corrected trim drops an empty
   * `c`, while the slice as written keeps all three.
   */
  lemma TrimUncParts(a: string, b: string, c: string)
    requires a != "" && b != ""
    ensures TrimRelative(["", "", a, b, c]) == if c == "" then [a, b] else [a, b, c]
    ensures TrimRelativeAsWritten(["", "", a, b, c]) == [a, b, c]
  {
    var arr := ["", "", a, b, c];
    assert FirstNonEmpty(arr) == 2 by {
      assert arr[1..] == ["", a, b, c];
      assert arr[1..][1..] == [a, b, c];
      assert FirstNonEmpty(arr[1..][1..]) == 0;
      assert FirstNonEmpty(arr[1..]) == 1;
    }
    if c == "" {
      assert LastNonEmpty(arr) == 3 by {
        assert arr[..4] == ["", "", a, b];
      }
    } else {
      assert LastNonEmpty(arr) == 4;
    }
  }

  // ---------------------------------------------------------------------
  // The common leading run that both `relative` implementations look for
  // ---------------------------------------------------------------------

  /** Length of the longest common leading run of `a` and `b`. */
  function CommonPrefixLen(a: seq<string>, b: seq<string>): (k: nat)
    ensures k <= |a| && k <= |b|
    ensures a[..k] == b[..k]
    ensures k < |a| && k < |b| ==> a[k] != b[k]
    decreases |a|
  {
    if a == [] || b == [] || a[0] != b[0] then 0
    else 1 + CommonPrefixLen(a[1..], b[1..])
  }

  /**
   * The loop `relative` runs in both adapters: the index of the first part
   * where the two arrays differ, or the shorter length.
   */
  method SamePartsLength(fromParts: seq<string>, toParts: seq<string>) returns (samePartsLength: nat)
    ensures samePartsLength == CommonPrefixLen(fromParts, toParts)
  {
    var length := if |fromParts| < |toParts| then |fromParts| else |toParts|;
    samePartsLength := length;
    var i := 0;
    while i < length
      invariant 0 <= i <= length
      invariant fromParts[..i] == toParts[..i]
      invariant samePartsLength == length
    {
      if fromParts[i] != toParts[i] {
        samePartsLength := i;
        break;
      }
      assert fromParts[..i + 1] == fromParts[..i] + [fromParts[i]];
      assert toParts[..i + 1] == toParts[..i] + [toParts[i]];
      i := i + 1;
    }
    CommonPrefixLenUnique(fromParts, toParts, samePartsLength);
  }

  /** Any common leading run that cannot be extended is the longest one. */
  lemma CommonPrefixLenUnique(a: seq<string>, b: seq<string>, m: nat)
    requires m <= |a| && m <= |b| && a[..m] == b[..m]
    requires m < |a| && m < |b| ==> a[m] != b[m]
    ensures CommonPrefixLen(a, b) == m
  {
  }

  /** `n` copies of `".."`. */
  function Dots(n: nat): (r: seq<string>)
    ensures |r| == n && forall i | 0 <= i < n :: r[i] == ".."
  {
    seq(n, _ => "..")
  }
}
