# php-path in Dafny

This project models php-path. php-path is a PHP port of the io.js `path` module, extended with stream-wrapper schemes such as `file://`, `glob://` or `vfs://`. The model is written in Dafny, and the project proves properties of it.

The system has two adapters behind one interface:

- a POSIX adapter, with `/` as separator and `:` as delimiter, case-sensitive;
- a Windows adapter, with `\` as separator and `;` as delimiter, case-insensitive, aware of drives and UNC roots.

A static facade, `Path`, selects the adapter. Before passing paths to the adapter it strips their schemes, keeps track of them across the arguments of `resolve`, and puts them back in front of the result.

Modules:

- `Php`: the PHP built-ins the code relies on, each written out. These include PHP truthiness (`""` and `"0"` are falsy), `explode`/`implode`, ASCII `strtolower`/`strtoupper`, `substr`, `strrpos` and the `[\\/]+` split.
- `Segments`: the shared `normalizeArray` and `trimRelativeArray` of the abstract adapter, and the common-prefix loop that both `relative` implementations run.
- `Posix`: `isAbsolute`, `normalize`, `join`, `resolve` and `relative` of the POSIX adapter.
- `Windows`: the `splitDeviceRe` device parse, `isAbsolute`, UNC root normalisation, `resolve` with per-drive working directories, and case-insensitive `relative`.
- `Adapters`: the adapter interface, as a choice between the two adapters.
- `Path`: the facade.
  - The functions cover `scheme_re`, `stripScheme`, `getPrefix`, the scheme routing of `resolve`, `isInside` and the default adapter choice.
  - A `Path` class holds the selected adapter. Its methods are the facade's static methods.

The environment enters as parameters:

- `getcwd()` and `$_ENV` form the `Host` value. A missing environment key reads as `""`.
- `stream_is_local` is a function `isLocal`.
- `PHP_OS` is a string.

Loops in the source are methods with loop invariants. Each is proved equal to a function, and the properties are proved about those functions.

Three defects are logged under Findings. They are in `isInside` (two) and `trimRelativeArray` (one). The model keeps the as-written behaviour as separate members with lemmas that exhibit each defect. The methods use the corrected definitions, and "## Left out" names each member that therefore differs from the code as written.

Where the code and its documented behaviour disagree, the model follows the code:

- The Windows adapter's `join` and `normalize` are commented out in src/Adapter/Windows.php, yet the class implements `AdapterInterface`, which declares both (src/Adapter/AdapterInterface.php:9-10). PHP therefore refuses to declare the class, and `new Adapter\Windows` (src/Path.php:26) ends in a fatal error. The model keeps the Windows methods the class does define (`isAbsolute`, `resolve`, `relative` and the constants) so that their behaviour can be stated, and returns `None` for `Path::join` and `Path::normalize` with that adapter.
- `relative` and `isInside` raise no error when the two paths carry different schemes. `relative` strips both schemes and compares the bare paths.

## Model

| member | source | states |
|---|---|---|
| Segments.NormalizeArray | src/Adapter/AbstractAdapter.php:30-51 | the loop over the parts returns the left fold of the one-element rule (skip falsy and `.`, pop on `..` unless the last kept part is `..`, keep `..` only when going above the root is allowed) |
| Segments.StepKeepsCollapsed | src/Adapter/AbstractAdapter.php:36-47 | handling one more part keeps the result collapsed |
| Segments.FoldCollapsed | src/Adapter/AbstractAdapter.php:33-48 | the loop keeps the result collapsed from any collapsed start |
| Segments.NormalizeCollapsed | src/Adapter/AbstractAdapter.php:30-51 | the result is collapsed: no falsy or `.` part, every `..` comes before every other part, and there is no `..` when going above the root is not allowed |
| Segments.FoldAppend | src/Adapter/AbstractAdapter.php:33-48 | running the loop over `a + b` is running it over `a` and then over `b` |
| Segments.CollapsedIsFixpoint | src/Adapter/AbstractAdapter.php:30-51 | a collapsed array is returned unchanged |
| Segments.NormalizeSegmentsIdempotent | src/Adapter/AbstractAdapter.php:30-51 | normalising twice is normalising once |
| Segments.NormalizeIgnoresFalsyEnds | src/Adapter/AbstractAdapter.php:37 | a falsy part at either end changes nothing |
| Segments.NormalizeIsSubsequence | src/Adapter/AbstractAdapter.php:30-51 | the result is a subsequence of the input: no longer, and every kept part comes from the input |
| Segments.FirstNonEmpty | src/Adapter/AbstractAdapter.php:54-58 | the index where the first loop stops: every earlier element is `""` and the one there is not |
| Segments.LastNonEmpty | src/Adapter/AbstractAdapter.php:60-64 | the index where the second loop stops: every later element is `""` and the one there is not |
| Segments.TrimRelativeArray | src/Adapter/AbstractAdapter.php:53-68 | the two loops find the ends, and the result is the corrected trim (see Findings) |
| Segments.TrimRelativeStripsEnds | src/Adapter/AbstractAdapter.php:53-68 | the trim removes exactly the leading and trailing `""` elements: it keeps a contiguous run that is empty or has non-empty ends, and everything around the run is `""` |
| Segments.TrimRelativeCut | src/Adapter/AbstractAdapter.php:53-68 | the trim is the slice from the first non-empty element to just after the last, with only `""` after it |
| Segments.TrimEmptyIff | src/Adapter/AbstractAdapter.php:66 | the trim is `[]` exactly when every element is `""` |
| Segments.TrimLowerAll | src/Adapter/Windows.php:150-155 | lower-casing the elements and then trimming equals trimming and then lower-casing |
| Segments.NonEmptyEndsOfLower | src/Adapter/Windows.php:150-155 | lower-casing moves neither the first nor the last non-empty element |
| Segments.TrimAsWrittenAgrees | src/Adapter/AbstractAdapter.php:67 | the as-written slice by length agrees with the end-index slice whenever the first or the last element is non-empty, or all are empty |
| Segments.TrimAsWrittenKeepsTrailingEmpty | src/Adapter/AbstractAdapter.php:67 | for the parts of a UNC root, `["", "", server, share, ""]`, the as-written slice keeps the trailing `""`, which the corrected trim drops |
| Segments.TrimKeepsNonEmpty | src/Adapter/AbstractAdapter.php:53-68 | an array with no `""` element is returned whole |
| Segments.TrimUncParts | src/Adapter/AbstractAdapter.php:53-68 | on `["", "", a, b, c]` the corrected trim gives `[a, b]` or `[a, b, c]` (dropping an empty `c`), and the as-written slice always gives `[a, b, c]` |
| Segments.FoldDots | src/Adapter/AbstractAdapter.php:42-44 | `m` copies of `..` pop the last `m` parts of a result that holds no `..` |
| Segments.FoldPlain | src/Adapter/AbstractAdapter.php:45-46 | parts that are truthy and neither `.` nor `..` are appended unchanged |
| Segments.CommonPrefixLen | src/Adapter/Posix.php:100-108 | a common leading run of both arrays that cannot be extended |
| Segments.SamePartsLength | src/Adapter/Posix.php:100-108 | the loop's `$samePartsLength` is the length of the longest common leading run |
| Segments.CommonPrefixLenUnique | src/Adapter/Posix.php:100-108 | any common leading run that cannot be extended is the longest one |
| Segments.Dots | src/Adapter/Posix.php:110-113 | `n` copies of `..` |
| Posix.BodySegmentsFacts | src/Adapter/Posix.php:54 | the normalised segments of a path are collapsed, truthy and free of `/` |
| Posix.GluedSegments | src/Adapter/Posix.php:54-57 | gluing such segments with `/` gives a string that is truthy exactly when there is a segment, never `"0"`, and that neither starts nor ends with `/` |
| Posix.NormalizeKeepsAbsolute | src/Adapter/Posix.php:47-60 | `normalize` never returns `""` and keeps absoluteness in both directions |
| Posix.NormalizeEmptyRelative | src/Adapter/Posix.php:56 | a relative path with no segment left normalises to `.`, or to `./` with a trailing slash |
| Posix.NormalizeTrailingSlash | src/Adapter/Posix.php:51-57 | the result ends with `/` exactly when the input does or the result is the root |
| Posix.ExplodeLeadingSlash | src/Adapter/Posix.php:54 | a leading `/` adds one leading `""` part |
| Posix.ExplodeTrailingSlash | src/Adapter/Posix.php:54 | a trailing `/` adds one trailing `""` part |
| Posix.FramedBody | src/Adapter/Posix.php:47-60 | a path built from collapsed segments, a root flag and a trailing-slash flag gives back exactly those three |
| Posix.FramedMid | src/Adapter/Posix.php:54-57 | a glued collapsed body with an optional trailing `/` starts with no `/`, ends with one exactly when asked, and its parts normalise back to the body |
| Posix.NormalizeIdempotent | src/Adapter/Posix.php:47-60 | `normalize(normalize(p)) == normalize(p)` |
| Posix.NormalizeRoot | src/Adapter/Posix.php:47-60 | `normalize('/') == '/'` |
| Posix.NormalizeDot | src/Adapter/Posix.php:47-60 | `.` and `./` normalise to themselves |
| Posix.TruthySegmentsAreTruthy | src/Adapter/Posix.php:35-42 | `join` glues only truthy arguments, and glues none exactly when no argument is truthy |
| Posix.JoinTwo | src/Adapter/Posix.php:32-45 | for two truthy arguments, `join(a, b) == normalize(a . '/' . b)` |
| Posix.Join | src/Adapter/Posix.php:32-45 | the loop glues the truthy arguments with `/` and normalises them; all-falsy arguments give `.` |
| Posix.GatherStopsAtAbsolute | src/Adapter/Posix.php:66 | once a suffix of the arguments is absolute, the arguments to its left change nothing |
| Posix.GatherSameSuffix | src/Adapter/Posix.php:66-78 | what the right-to-left loop gathers depends only on the suffix it scans |
| Posix.GatherAbsolute | src/Adapter/Posix.php:66-78 | the gathered path is absolute exactly when some scanned argument is |
| Posix.Resolve | src/Adapter/Posix.php:62-88 | the method computes the resolved path: the gathered path, with `getcwd()` as the last fallback, normalised, and `.` if that is empty |
| Posix.ResolveIgnoresLeftOfAbsolute | src/Adapter/Posix.php:66-78 | arguments to the left of an absolute one, and the working directory, do not affect the result |
| Posix.FinishAbsolute | src/Adapter/Posix.php:83-87 | the result is never `""`, and it is absolute exactly when the gathered path is |
| Posix.ResolveAbsolute | src/Adapter/Posix.php:62-88 | `resolve` never returns `""`, and its result is absolute exactly when the working directory or some argument is |
| Posix.ExplodeAboveRoot | src/Adapter/Posix.php:84-85 | how the gathered `/..//x//` splits |
| Posix.NormalizeAboveRoot | src/Adapter/Posix.php:84-85 | above an absolute root, `..` is dropped |
| Posix.ResolveAboveRoot | src/Adapter/Posix.php:62-88 | the vector `resolve(first, '/../', 'x/') == '/x'` of tests/PathTest.php:58, for every `first` and `x` |
| Posix.FinishNoTrailingSlash | src/Adapter/Posix.php:83-87 | after its first character, a resolved path never ends with `/` |
| Posix.RelativePartsAsWritten | src/Adapter/Posix.php:94-98 | on this adapter the as-written `trimRelativeArray` gives the same parts as the corrected one |
| Posix.Relative | src/Adapter/Posix.php:90-118 | the method computes the `..` run followed by the remaining `to` parts |
| Posix.RelativeToItself | src/Adapter/Posix.php:90-118 | `relative(p, p) == ""` |
| Posix.RelativeShape | src/Adapter/Posix.php:97-117 | the result is one `..` per `from` part past the longest common run, then the `to` parts past it |
| Posix.RelativeBetweenShape | src/Adapter/Posix.php:100-117 | on the trimmed parts: `..` per `from` part past the longest common run, then the `to` parts past it |
| Posix.ResolveRelative | src/Adapter/Posix.php:62-118 | for an absolute working directory, `resolve(from, relative(from, to)) == resolve(to)` |
| Posix.ResolvedOne | src/Adapter/Posix.php:62-98 | resolving one path against an absolute working directory gives `/` and its normalised segments, which are the parts `relative` compares |
| Posix.GatherSnoc | src/Adapter/Posix.php:66-78 | a relative argument added on the right is gathered in front of what the arguments to its left gather |
| Posix.NormalizeAppended | src/Adapter/Posix.php:84-85 | normalising a base that ends in `/` followed by more parts is continuing the normalisation loop of the base over those parts |
| Posix.FoldRelative | src/Adapter/AbstractAdapter.php:30-51 | from normalised `from` parts, the loop over `relative`'s `..` run and remaining `to` parts arrives exactly at the normalised `to` parts |
| Posix.RelativeOut | src/Adapter/Posix.php:100-117 | `relative`'s result is `""` exactly when both sides have the same parts; otherwise it is relative and splits back into its `..` run and `to` parts |
| Posix.ResolveAppended | src/Adapter/Posix.php:62-88 | resolving `from` and a relative path whose parts lead from `from`'s parts to some parts gives `/` and those parts |
| Windows.DeviceOf | src/Adapter/Windows.php:8 | the device group is a prefix of the path: a drive `x:`, or two slashes, a server, slashes and a share that ends at a slash or at the end |
| Windows.DropFinalNewline | src/Adapter/Windows.php:8 | the lazy tail group ends before a final newline, because the regex's `$` may match there |
| Windows.DeviceOfMatchesUncPattern | src/Adapter/Windows.php:8 | for a path that does not start with a drive, the device is found exactly when the path starts with the UNC pattern |
| Windows.UncLength | src/Adapter/Windows.php:8 | the UNC alternative is 0 or at least five characters long, starts with a non-slash after the two slashes, ends with a non-slash, and is followed by a slash or the end |
| Windows.UncLengthSplit | src/Adapter/Windows.php:8 | the UNC alternative cuts into a non-empty server, a slash run and a non-empty share |
| Windows.UncDeviceSplit | src/Adapter/Windows.php:8 | a UNC device is the path up to the end of the share, after two slashes, a server and a slash run |
| Windows.UncDeviceHasPattern | src/Adapter/Windows.php:8 | a UNC device implies the UNC pattern at the start of the path |
| Windows.UncPatternHasDevice | src/Adapter/Windows.php:8 | the UNC pattern at the start of the path implies a UNC device |
| Windows.DeviceOfWithoutDrive | src/Adapter/Windows.php:8 | without a drive the device is the UNC alternative after two leading slashes, else `""` |
| Windows.IsAbsoluteChars | src/Adapter/Windows.php:126-135 | a path is absolute exactly when it has a UNC device or a slash right after its (possibly empty) drive |
| Windows.IsAbsoluteUncExamples | tests/PathTest.php:73-74 | `//server/file` and `\\server\file` are absolute |
| Windows.IsAbsoluteDriveExamples | tests/PathTest.php:75-76 | `C:/Users/` and `C:\Users\` are absolute |
| Windows.IsAbsoluteDriveRelativeExamples | tests/PathTest.php:78-79 | `C:cwd/another` and `C:cwd\another` are not absolute |
| Windows.IsAbsoluteRelativeExamples | tests/PathTest.php:80-81 | `directory/directory` and `directory\directory` are not absolute |
| Windows.CollapseSlashes | src/Adapter/Windows.php:45 | no `/` survives replacing each slash run with `\` |
| Windows.SkipSlashesPrefix | src/Adapter/Windows.php:46 | removing the leading slash run gives back what follows it |
| Windows.CollapseSlashesKeepsPlain | src/Adapter/Windows.php:45 | slash-free text is copied unchanged |
| Windows.CollapseSlashesRun | src/Adapter/Windows.php:45 | a slash run followed by a share becomes one `\` and the share |
| Windows.NormalizeUncRootCanonical | src/Adapter/Windows.php:44-47 | every UNC device becomes `\\server\share` |
| Windows.CollapseServerShare | src/Adapter/Windows.php:45 | server, a slash run and share collapse to server, one `\` and share |
| Windows.UncDeviceParts | src/Adapter/Windows.php:8 | a UNC device splits into two slashes, a server, slashes and a share |
| Windows.PathAt | src/Adapter/Windows.php:55-71 | the path examined at each step: the argument, `getcwd()`, or the drive's working directory from the environment |
| Windows.DriveCwdOnDrive | src/Adapter/Windows.php:64-70 | the drive fallback is an absolute path on that drive, and it is the `=X:` environment entry whenever that entry names the drive |
| Windows.Resolve | src/Adapter/Windows.php:49-124 | the method computes the resolved path: the right-to-left scan, the UNC root normalisation, and the normalised tail joined with `\` |
| Windows.ResolveLoop | src/Adapter/Windows.php:54-104 | the loop ends in the state the right-to-left scan defines, including the drive working-directory fallback at `$i == -1` |
| Windows.ExaminePath | src/Adapter/Windows.php:75-99 | one pass of the loop body: empty paths and paths on another device change only `$isUnc` or nothing |
| Windows.ScanStep | src/Adapter/Windows.php:54-104 | one pass of the loop advances the scan, and a settled state is the final one |
| Windows.ScanStopsWhenSettled | src/Adapter/Windows.php:101-103 | once device and absoluteness are known, arguments to the left change nothing |
| Windows.ScanSameSuffix | src/Adapter/Windows.php:54-104 | the scan depends only on the suffix it reads |
| Windows.ResolveIgnoresLeftOfSettled | src/Adapter/Windows.php:101-103 | arguments to the left of a settled suffix, the working directory and the environment do not affect the result |
| Windows.ExamineSkipsForeignDevice | src/Adapter/Windows.php:86-91 | a path on another device leaves device, tail and absoluteness as they were |
| Windows.ExamineFreezesAbsoluteTail | src/Adapter/Windows.php:96-99 | once the tail is absolute it no longer grows |
| Windows.ExaminePrependsRelative | src/Adapter/Windows.php:93-99 | an applicable path prepends its tail and a `\`, and fixes the device if none was known |
| Windows.LowerCharFacts | src/Adapter/Windows.php:88 | lower-casing keeps letters, `:`, `\` and slashes what they are |
| Windows.SameDeviceSameKind | src/Adapter/Windows.php:86-88 | a device that equals a drive ignoring case is not a UNC device |
| Windows.DeviceKinds | src/Adapter/Windows.php:80-83 | a device is empty, a drive or UNC; a UNC device makes the path absolute |
| Windows.ExamineKeepsInvariant | src/Adapter/Windows.php:80-103 | one step keeps the scan invariant: an unsettled known device is a drive, no device means no UNC flag, and when settled the flag says whether the device is UNC |
| Windows.ScanKeepsInvariant | src/Adapter/Windows.php:54-104 | the whole scan keeps that invariant |
| Windows.FinalSettledOnceDeviceKnown | src/Adapter/Windows.php:57-71 | once a device is known, the fallbacks make the result absolute |
| Windows.FinalUncFlag | src/Adapter/Windows.php:108-110 | the `$isUnc` left by the loop says exactly whether the final device is UNC |
| Windows.TailSegmentsCollapsed | src/Adapter/Windows.php:117-120 | the normalised tail parts are collapsed and slash-free |
| Windows.ResolvedShape | src/Adapter/Windows.php:106-123 | the result is never `""`; an absolute result is the (UNC-normalised) device, `\`, and the normalised tail |
| Windows.ResolveAbsolute | src/Adapter/Windows.php:49-124 | when the working directory or some argument is absolute, so is the result |
| Windows.ExamineSeesAbsolute | src/Adapter/Windows.php:75-99 | one step keeps absoluteness and a known device, and an absolute path leaves the state absolute or with a known device |
| Windows.ScanSeesAbsolute | src/Adapter/Windows.php:54-104 | an absolute argument leaves the scan absolute or with a known device |
| Windows.ScanDeviceShape | src/Adapter/Windows.php:80-83 | the device the scan records is empty, a drive or a UNC device |
| Windows.FinalAbsolute | src/Adapter/Windows.php:54-104 | with an absolute argument or working directory, the loop ends absolute |
| Windows.ComposeAbsolute | src/Adapter/Windows.php:106-123 | an absolute final state composes to an absolute path |
| Windows.UncDeviceOfParts | src/Adapter/Windows.php:8 | the device of `//server<slashes>share` followed by a slash or nothing is exactly that prefix |
| Windows.PlainTailSegments | src/Adapter/Windows.php:117-120 | a tail `x\` normalises to the one part `x`, or to none |
| Windows.ResolveUncPath | src/Adapter/Windows.php:49-124 | one path on a UNC share resolves to `\\server\share\` followed by its rest (tests/PathTest.php:48-49) |
| Windows.UncResolvedShareRoot | src/Adapter/Windows.php:49-124 | `//server/share` resolves to `\\server\share\` |
| Windows.UncResolvedChild | src/Adapter/Windows.php:49-124 | `//server/share/x` resolves to `\\server\share\x` |
| Windows.Relative | src/Adapter/Windows.php:142-178 | the method computes the case-insensitive relative path between the resolved arguments |
| Windows.RelativeResolved | src/Adapter/Windows.php:150-177 | the method's loops compute the relative path between two resolved paths |
| Windows.TrimmedPartsLower | src/Adapter/Windows.php:150-155 | lower-casing commutes with splitting on `\` and trimming |
| Windows.RelativeBetweenShape | src/Adapter/Windows.php:150-177 | for resolved `f`, `t`: `t` itself when no leading part is shared ignoring case, else `..` per remaining `from` part and the remaining `to` parts in their own case |
| Windows.RelativeBetweenOnParts | src/Adapter/Windows.php:150-177 | the relative path read on the trimmed parts in their own case, with the common run counted on the lower-cased parts |
| Windows.CommonIgnoringCase | src/Adapter/Windows.php:157-164 | the common run of the lower-cased parts: equal ignoring case before it, different ignoring case at it |
| Windows.RelativeUncRootAsWritten | src/Adapter/Windows.php:142-178 | with `trimRelativeArray` as written, `relative('//server/share', '//server/share/x')` is `..\x` and the reverse is `..\`; with the corrected trim they are `x` and `..` |
| Windows.UncRelativeDown | src/Adapter/Windows.php:150-177 | from the resolved share root to a file under it: `..\x` as written, `x` corrected |
| Windows.UncRelativeUp | src/Adapter/Windows.php:150-177 | from a file under the resolved share root up to the root: `..\` as written, `..` corrected |
| Windows.UncRootTrims | src/Adapter/Windows.php:150-155 | both trims of the parts of `\\server\share\x` and of its lower-cased form |
| Windows.UncPartsDown | src/Adapter/Windows.php:157-177 | the common-run loop and the join going down from the share root, on the two trims' parts |
| Windows.UncPartsUp | src/Adapter/Windows.php:157-177 | the same going up to the share root |
| Windows.RelativeToItself | src/Adapter/Windows.php:142-178 | `relative(p, p)` is `""`, or the resolved path itself when it has no non-empty part |
| Adapters.Separator | src/Adapter/Posix.php:12-17 | each adapter's separator is one slash character (`/` here, `\` at src/Adapter/Windows.php:13) |
| Adapters.Delimiter | src/Adapter/Posix.php:13-21 | each adapter's delimiter is one character that is not a slash and not its separator |
| Adapters.IsCaseSensitive | src/Adapter/Posix.php:23-25 | only the POSIX adapter is case-sensitive |
| Adapters.Resolve | src/Adapter/AdapterInterface.php:6 | dispatches `resolve` to the selected adapter |
| Adapters.Relative | src/Adapter/AdapterInterface.php:8 | dispatches `relative` to the selected adapter |
| Adapters.ResolvedNeverEmpty | src/Adapter/Posix.php:87 | neither adapter's `resolve` returns `""` (the `?: '.'` here and at src/Adapter/Windows.php:122-123) |
| Path.SchemeLengthShape | src/Path.php:9 | what `scheme_re` matches is a prefix of at least two non-slash characters followed by `://` |
| Path.SchemeLengthOfShape | src/Path.php:9 | a scheme followed by anything is matched as exactly that scheme |
| Path.SchemeLengthUnique | src/Path.php:9 | if some prefix is a scheme, that prefix is the match |
| Path.SchemeLengthNone | src/Path.php:9 | there is no match exactly when no prefix is a scheme |
| Path.SchemeShapeLower | src/Path.php:86 | lower-casing a scheme keeps it a scheme, now lower-case |
| Path.StripScheme | src/Path.php:84-96 | what is left after stripping starts with no scheme |
| Path.Push | src/Path.php:89 | the scheme is appended unless it repeats the last entry, and it ends the list either way |
| Path.StripSchemeOnce | src/Path.php:85-92 | one step of `stripScheme` when `scheme_re` matches: lower-case the match, push it and continue after it |
| Path.StripSchemeNone | src/Path.php:95 | without a match `stripScheme` returns the path and leaves `$acc` alone |
| Path.StripSchemeSuffix | src/Path.php:92 | what is left is a suffix of the path |
| Path.StripSchemeAppends | src/Path.php:84-96 | stripping only appends to `$acc`, and what it appends is lower-case schemes with no scheme repeated right after itself |
| Path.StripSchemeAppendsStep | src/Path.php:89 | the same, after one appended scheme |
| Path.CanonicalCons | src/Path.php:89 | a new lower-case scheme that differs from the last entry keeps the list canonical |
| Path.StripSchemeStep | src/Path.php:85-92 | one step on a lower-case scheme: append it unless it repeats the last one, and continue after it |
| Path.StripSchemeLowers | src/Path.php:85-92 | one step on any scheme: append it lower-cased unless that repeats the last one |
| Path.StripConcat | src/Path.php:84-96 | canonical schemes glued in front of a scheme-free rest are stripped back to exactly those schemes and that rest |
| Path.StripSchemeCanonical | src/Path.php:84-96 | gluing the stripped schemes back on and stripping again gives the same result |
| Path.StripSchemeCanonicalPrefixes | src/Path.php:84-96 | the schemes stripped from a path form a canonical list |
| Path.GetPrefixStable | src/Path.php:103-107 | the prefix `getPrefix` reports, put in front of a scheme-free path, is reported back unchanged |
| Path.GetPrefixDefault | src/Path.php:103-107 | a path without a scheme reports the default and is its own bare path |
| Path.GetPrefixTwo | src/Path.php:103-107 | two schemes are reported lower-cased and glued, and a scheme repeated right after itself once (tests/PathTest.php:284-285, 289) |
| Path.StripTwo | src/Path.php:84-96 | two schemes in front of a scheme-free path are stripped lower-cased, once if the second repeats the first |
| Path.RouteKeepsWellRouted | src/Path.php:43-58 | during the loop `$imploded` glues `$prefix`, and every gathered path is truthy and scheme-free |
| Path.RouteStepWellRouted | src/Path.php:44-57 | one pass of the loop keeps `$imploded` gluing `$prefix` and the gathered paths truthy and scheme-free |
| Path.RouteFromAppend | src/Path.php:43-58 | the loop over `a + b` is the loop over `a` and then over `b` |
| Path.SchemeSwitchRestarts | src/Path.php:47-55 | a different scheme drops everything gathered before it, like a root change (tests/WrapperTest.php:43-47) |
| Path.SameSchemeAccumulates | src/Path.php:47-57 | the same scheme again keeps what was gathered and adds the new bare path (tests/WrapperTest.php:50-53) |
| Path.TruthyBare | src/Path.php:57 | the bare paths kept when no scheme intervenes are all truthy |
| Path.KeptPrefixFileOnly | src/Path.php:60-64 | a `file://`-only prefix is dropped |
| Path.FileSchemeGathersAll | src/Path.php:43-64 | when no argument carries a scheme other than a single `file://`, every truthy bare path is gathered and the prefix is `file://`-only |
| Path.FileSchemeTransparent | src/Path.php:60-79 | such arguments resolve exactly as their bare paths do on the adapter (tests/WrapperTest.php:28-29) |
| Path.RoutedWithoutPrefix | src/Path.php:64-81 | with no scheme kept, `resolve` is the adapter's resolve of the gathered paths |
| Path.NonLocalJoins | src/Path.php:66-81 | a `vfs://` scheme gives the prefix followed by a POSIX `join` of the gathered paths (tests/WrapperTest.php:39) |
| Path.GetPrefixOfGlued | src/Path.php:103-107 | canonical schemes glued in front of a scheme-free path are what `getPrefix` reports |
| Path.RoutedKeepsPrefix | src/Path.php:81 | the schemes `resolve` puts in front are what `getPrefix` reports for its result, when the adapter's part starts with no scheme |
| Path.StripTrailingSep | src/Path.php:156-159 | the result is the path, or the path minus one trailing separator |
| Path.StartsBelowIff | src/Path.php:150-153 | the corrected test holds exactly when the path is the parent or the parent, a separator and more |
| Path.LastMatchBelowIff | src/Path.php:152-153 | the as-written `strrpos` test holds exactly when the corrected one does and the parent occurs nowhere later in the path |
| Path.ChildIsInside | src/Path.php:133-154 | parent, separator, child is inside the parent on either adapter |
| Path.InsideAsWrittenSound | src/Path.php:152-153 | whatever the as-written test accepts, the corrected test accepts too |
| Path.InsideAsWrittenMissesRepeat | src/Path.php:152 | when the parent occurs again later in the path, the as-written test rejects a path the corrected one accepts |
| Path.InsideAsWrittenMissesRoot | src/Path.php:142-153 | `/t`, for any non-empty `t` without a trailing `/`, is inside `/` for the corrected test but not for the as-written one |
| Path.DefaultAdapter | src/Path.php:24-25 | Windows exactly when the first three characters of `PHP_OS`, upper-cased, are `WIN` |
| Path.Path.constructor | src/Path.php:199 | loading the class selects the default adapter and creates the POSIX adapter |
| Path.Path.SelectAdapter | src/Path.php:14-29 | an explicit choice wins, otherwise `PHP_OS` decides; the POSIX adapter exists afterwards; the selected adapter is returned |
| Path.Path.Resolve | src/Path.php:33-82 | the loop keeps the routing state equal to the routing function of the arguments read so far; the result is the kept prefix glued to the dispatched adapter call |
| Path.Path.Dispatch | src/Path.php:66-79 | a POSIX `join` for `vfs://` or non-local schemes, else the adapter's `resolve` |
| Path.Path.Relative | src/Path.php:113-117 | the adapter's `relative` on both bare paths |
| Path.Path.Separator | src/Path.php:119-121 | one slash character, `\` exactly on Windows |
| Path.Path.Delimiter | src/Path.php:123-125 | one character that is not a slash |
| Path.Path.IsCaseSensitive | src/Path.php:127-129 | true exactly on the POSIX adapter |
| Path.Path.IsInside | src/Path.php:133-154 | the corrected test on both resolved paths, after removing one trailing separator and lower-casing on Windows; equal paths are not inside each other |
| Path.Path.Join | src/Path.php:163-167 | the POSIX `join` on that adapter; no result on Windows, whose adapter class lacks the `join` its interface requires |
| Path.Path.Normalize | src/Path.php:169-171 | the POSIX `normalize` on that adapter; no result on Windows, whose adapter class lacks `normalize` |

## Left out

- `dirname`, `basename`, `extname`, `format` and `parse` (src/Path.php:173-196): they throw `Not implemented` before calling the adapter. So are `posixSplitPath`, `win32SplitPath` and `splitTailRe`, which only they would use.
- `getScheme` (src/Path.php:98-101): it always throws.
- `assertPath`: every path in the model is a string, so its type check cannot fail.
- `__toString`, `inspect` and `preg_matches`: they produce debug text and regex plumbing, not path behaviour.
- The Windows adapter's `join` and `normalize`: they are commented out in the source, and `Path.Path.Join` / `Path.Path.Normalize` return `None` for that adapter.
- Path.Path.SelectAdapter: it returns the Windows adapter on a `WIN` host or when asked, and the Windows members then resolve and relativise. In PHP, declaring `Adapter\Windows` is a fatal error, because the class lacks the `join` and `normalize` that AdapterInterface requires (src/Adapter/AdapterInterface.php:9-10). So `new Adapter\Windows` at src/Path.php:26 (and in tests/AbstractTest.php:7) never returns. The model describes the methods the class does define rather than that failure.
- `getcwd()`, `$_ENV`, `stream_is_local` and `PHP_OS`: they are parameters (`Host.cwd`, `Host.env`, `isLocal`, `phpOs`), not calls.
  - The PHP notice for a missing `$_ENV` key is not modelled; the key reads as `""`, which the drive check then replaces.
- The variadic `func_get_args()` form of `resolve` and `join`: the model takes the arguments as one sequence, which is the form the code normalises to.
- `selectAdapter` with an adapter object or class name: the choice is an `Adapter` value.
  - Path.Path.SelectAdapter records only that the cached POSIX adapter exists (`posixCreated`), not the object's identity.
- Windows `$isUnc` before any path is examined: the PHP variable is undefined, which reads as false. The model starts from false.
- AdapterInterface: it is a two-value datatype with dispatching functions, since the adapters hold no state.
- Path.Path.IsAbsolute: it has no contract. It is the adapter's `isAbsolute` on the bare path; the Windows and POSIX lemmas about `IsAbsolute` state its behaviour.
- Windows.Relative: no round trip `resolve(from, relative(from, to)) == resolve(to)` is proved for Windows (Posix.ResolveRelative proves it for POSIX). On Windows it does not hold as an equality. The common run is counted ignoring case, so the result ends in `to`'s own case while the `..` run cancels `from`'s parts. The model states the exact shape of the result instead (Windows.RelativeBetweenShape).
- Segments.TrimRelativeArray: it computes the corrected trim. As written, `array_slice` takes an end index as a length, so trailing `""` elements survive after skipped leading ones: `["", "", "s", "h", ""]` trims to `["s", "h", ""]` as written and to `["s", "h"]` here (Segments.TrimUncParts; see Findings).
- Windows.RelativeBetween: it uses the corrected trim. `relative('//server/share', '//server/share/x')` is `..\x` as written and `x` here, and the reverse is `..\` as written and `..` here. Windows.RelativeUncRootAsWritten proves both; Windows.RelativeBetweenAsWritten is the as-written definition.
- Windows.Relative: it uses the corrected trim, so it differs from the source on the share-root inputs above.
- Windows.RelativeResolved: it uses the corrected trim, so it differs from the source on the share-root inputs above.
- Windows.RelativeBetweenShape: it is stated on the corrected trim, so it differs from the source on the share-root inputs above.
- Windows.RelativeBetweenOnParts: it is stated on the corrected trim, so it differs from the source on the share-root inputs above.
- Path.Path.IsInside: it uses the corrected starts-with test. `isInside('/a/b/a', '/a')` and `isInside('/x', '/')` are false as written and true here (Path.InsideAsWrittenMissesRepeat and Path.InsideAsWrittenMissesRoot; see Findings).
- Windows `resolve` on the literal test vectors (tests/PathTest.php:41-50): they are covered by lemmas stated for all inputs of those shapes rather than evaluated on the literals.
  - Line 41: Windows.ExamineSkipsForeignDevice and Windows.ExaminePrependsRelative.
  - Lines 42-43: Windows.ResolveIgnoresLeftOfSettled.
  - Line 44: Windows.ExaminePrependsRelative and Windows.TailSegmentsCollapsed.
  - Line 45: Windows.NormalizeUncRootCanonical and Windows.ResolvedShape.
  - Lines 46-47 and 50: Windows.DeviceOfMatchesUncPattern and Windows.IsAbsoluteChars.
  - Lines 48-49: Windows.ResolveUncPath with Windows.ResolveIgnoresLeftOfSettled.
  - All of them: Windows.ResolveAbsolute.
- `getPrefix` on the literal test strings: the cases of tests/PathTest.php:281-297 are covered by Path.GetPrefixTwo, Path.GetPrefixDefault and Path.SchemeLengthNone, stated for all inputs of those shapes rather than evaluated on the literals.

## Findings

| source | as written | input that shows it | evidently intended | confidence | as-written member | corrected member |
|---|---|---|---|---|---|---|
| src/Path.php:152 | `strrpos($path, $potentialParent, 0) === 0` looks for the LAST occurrence of the parent, so it asks whether the parent occurs only at the start | `isInside('/a/b/a', '/a')` on POSIX is false | a starts-with test: `/a/b/a` is inside `/a` | not executed | Path.InsideAsWrittenMissesRepeat | Path.Inside |
| src/Path.php:142-153 | `stripTrailingSep('/')` is `""`, and `strrpos` with an empty needle never returns 0 for a non-empty path | `isInside('/x', '/')` on POSIX is false | every other absolute path is inside the root | not executed | Path.InsideAsWrittenMissesRoot | Path.Inside |
| src/Adapter/AbstractAdapter.php:67 | `array_slice($arr, $start, $end + 1)` passes an end index where `array_slice` takes a length, so after skipped leading `""` elements trailing `""` ones survive | Windows `relative('//server/share', '//server/share/x')` splits the UNC root into `["", "", "server", "share", ""]` and returns `..\x` | `array_slice($arr, $start, $end - $start + 1)`, giving `x` | not executed | Windows.RelativeUncRootAsWritten | Segments.TrimRelative |
