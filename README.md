# File utilities: name resolution, listing, existence checks, name sanitising

A Dafny model of the core of `src/fileutils.js`, a Node.js helper class:

- the three collision-avoiding name resolvers (`findNewFileName`,
  `findNewFileNameWithSpecifiedExtensionName`, `findNewFolderName`) and the
  next-name step they share (the last one to four digits are incremented,
  otherwise `" 2"` is appended);
- `list`, which reads a directory and describes each entry as a
  `BaseFileInfo` or a `BaseFolderInfo`;
- `exists`, `existsAll` and `existsAny`;
- `removeFileNameInvalidCharacters`;
- `isAbsoulteUrl`.

The filesystem calls are parameters. `fs.access` on a joined path is a
function `string -> Outcome<FsError>`, `fs.stat` is a function
`string -> Result<Stats, FsError>`, and the result of `fs.readdir` is an
argument. Each callback result becomes a returned value: `Option` for a
resolver, `Result` for the others.

Modules and files:

- `wrappers.dfy` (`Wrappers`): `Option`, `Result`, `Outcome`.
- `seqs.dfy` (`Seqs`): the regrouping of concatenations that the name and sanitiser proofs share.
- `fs.dfy` (`Fs`): error values, `ENOENT`, the fields of `fs.Stats` that are read.
- `fileinfo.dfy` (`FileInfo`): `BaseFileInfo` and `BaseFolderInfo` as two
  constructors of one datatype, sharing `name` and `creationTime` as
  `AbstractBaseFileInfo` does.
- `names.dfy` (`Names`): the regular expression `/\d{1,4}$/` and
  `parseInt`, the number-to-text conversion, `path.parse`'s name/extension
  split, and the next-name step.
- `resolver.dfy` (`Resolver`): the probe loop and the three resolvers.
- `examples.dfy` (`ResolverExamples`): worked cases of the step and of the resolvers.
- `listing.dfy` (`Listing`): `list`.
- `existence.dfy` (`Existence`): `exists`, `existsAll`, `existsAny`.
- `sanitize.dfy` (`Sanitize`): `removeFileNameInvalidCharacters`.
- `sanitize_examples.dfy` (`SanitizeExamples`): worked cases of the sanitiser.
- `url.dfy` (`Url`): `isAbsoulteUrl`.

Loops in the source become methods with `while` loops, each proved equal to
a specification function:

- the retry loop of each resolver is `Resolver.ProbeCandidates`;
- the `pop` loop of `list` is `Listing.List`;
- the `pop` loop of `existsAll`/`existsAny` is `Existence.ScanFromEnd`.

The properties are then proved about those functions.

The model also proves that the candidate sequence can cycle. Only the last
four digits are re-read, so `prefix10000` is followed by `prefix11`, and the
sequence from `prefix11` comes back to itself after 9990 steps. A directory
holding those 9990 names therefore makes the source's unbounded retry loop
run forever. `Resolver.CycleNeverFree` shows that no attempt bound finds a
name there.

## Model

| member | source | states |
|---|---|---|
| Names.TrailingDigitCount | src/fileutils.js:138 | the count is the length of the trailing all-digit run: those characters are digits and the one before them is not |
| Names.MatchWidth | src/fileutils.js:138 | the match is at most four characters and no longer than the name; it is empty exactly when the name is empty or does not end in a digit |
| Names.MatchWidthIsLeftmostMatch | src/fileutils.js:138 | `/\d{1,4}$/` matches at the leftmost start whose suffix is 1 to 4 digits; the width is min(4, trailing digits), and it is 0 exactly when the name does not end in a digit |
| Names.DecimalText | src/fileutils.js:143-146 | the text of `num` in the concatenation: decimal digits, no leading zero, parsing back to the number |
| Names.ParseDecimal | src/fileutils.js:143 | `parseInt(lastPart, 10)` on a string of digits; it has no contract of its own: its value is bounded by `Names.ParseDecimalBound` and `Names.ParseOfLeadingDigit`, and `Names.DecimalTextOfParse` and `Names.DecimalText` show that it inverts the number-to-text conversion |
| Names.ParseOfLeadingDigit | src/fileutils.js:143 | a digit string whose first digit is not 0 is worth at least 1 |
| Names.DecimalTextOfParse | src/fileutils.js:143 | a digit string without leading zeros is the text of its own value |
| Names.ParseDecimalBound | src/fileutils.js:143 | `parseInt` of k digits is below 10^k, so a match of at most four digits is worth at most 9999 |
| Names.NextName | src/fileutils.js:256-273 | the next name ends in a digit and keeps everything in front of the matched digits |
| Names.NextNameAppendsTwo | src/fileutils.js:271-273 | a name that does not end in a digit gets `" 2"` appended |
| Names.NextNameIncrements | src/fileutils.js:256-264 | with trailing digits, the prefix is kept and the matched digits become the text, without leading zeros, of their value plus one |
| Names.NextNameCountsUp | src/fileutils.js:136-146 | for every n below 10000, `prefix + text(n)` is followed by `prefix + text(n + 1)` when the prefix does not end in a digit |
| Names.NextNameWrapsPastFourDigits | src/fileutils.js:136-137 | past four digits only the last four are re-read: `prefix + "10000"` is followed by `prefix + "11"` |
| Names.SplitExtension | src/fileutils.js:126-134 | the `path.parse` split of a name: the parts concatenate to the name; a non-empty extension starts with its only dot and follows a non-empty base; the extension is empty exactly when there is no dot, the only dot leads, or the name is `..` |
| Names.SplitAtLastDot | src/fileutils.js:126-134 | a name with a non-empty base splits at its last dot |
| Names.SplitWithoutDot | src/fileutils.js:126-134 | a name without a dot has an empty extension |
| Names.NextFileName | src/fileutils.js:124-155 | the file step: the candidate is longer than the extension of the name it came from, and the character just before that extension is a digit |
| Names.FileStepAppendsTwo | src/fileutils.js:153-155 | `base.ext` with a base that does not end in a digit becomes `base 2.ext` |
| Names.FileStepCountsUp | src/fileutils.js:138-146 | below 10000, `prefix + text(n) + "." + ext` becomes `prefix + text(n + 1) + "." + ext` |
| Names.ExtensionKept | src/fileutils.js:146 | the file step re-attaches the extension unchanged; its result is never `..` (for any name other than `..`) |
| Names.NextNameKeepsLoneLeadingDot | src/fileutils.js:153-155 | a name with no extension, such as `.bashrc`, still has none after the step |
| Names.FileAndFolderStepsDiffer | src/fileutils.js:228-230 | `foo.bar` is followed by `foo 2.bar` as a file name and by `foo.bar 2` as a folder name |
| Resolver.Candidate | src/fileutils.js:111-163 | the k-th name `processNext` probes, after k taken names; every candidate after the first is a value of the step |
| Resolver.IsFree | src/fileutils.js:115-120 | a candidate is free exactly when `exists()` would not answer true for it: ENOENT and every other access error count as free |
| Resolver.FirstFree | src/fileutils.js:111-120 | a name it answers is free |
| Resolver.FirstFreeIsFirst | src/fileutils.js:111-120 | a found name is candidate k of start, step(start), …; it is free and every candidate before it is taken |
| Resolver.FirstFreeNoneIffAllTaken | src/fileutils.js:115-120 | nothing is found exactly when every candidate within the attempt bound is taken (both directions) |
| Resolver.FreeStartReturned | src/fileutils.js:163 | a free starting name is returned unchanged |
| Resolver.MoreAttemptsSameAnswer | src/fileutils.js:111-163 | the attempt bound only cuts the search short: a name found with some bound is found with any larger one |
| Resolver.ProbeCandidates | src/fileutils.js:111-163 | the probe-and-retry loop returns the first free candidate within `maxAttempts` |
| Resolver.FindNewFileName | src/fileutils.js:109-164 | the first free candidate under the file step; it is free (any access error counts as free); unless the input is `..`, it has the input's extension |
| Resolver.FindNewFileNameWithSpecifiedExtensionName | src/fileutils.js:178-220 | the first base name whose join with the unchanged `extensionName` is free; the base name alone is returned |
| Resolver.FindNewFolderName | src/fileutils.js:239-281 | the first free candidate under the whole-name step; it is free |
| Resolver.CandidatesKeepExtension | src/fileutils.js:124-155 | every candidate `findNewFileName` probes has the extension of the name it started from |
| Resolver.CandidatesKeep | src/fileutils.js:111-163 | about the sequence of candidates `processNext` probes: a property that the step preserves holds of every candidate |
| Resolver.CandidateAdd | src/fileutils.js:111-163 | about the candidate sequence: taking a steps and then b more is taking a + b steps |
| Resolver.CountUp | src/fileutils.js:136-146 | for n <= m <= 10000, m - n steps from `prefix + text(n)` reach `prefix + text(m)` |
| Resolver.CandidatesFollow | src/fileutils.js:111-163 | about the candidate sequence: when each of name(n), …, name(m - 1) steps to the next, m - n steps from name(n) reach name(m) |
| Resolver.CandidatesCycle | src/fileutils.js:136-137 | the candidates from `prefix + "11"` return to it after 9990 steps |
| Resolver.CycleNeverFree | src/fileutils.js:239-281 | when the 9990 names of that cycle are taken, no attempt bound finds a free folder name |
| Resolver.CandidateRepeats | src/fileutils.js:241-280 | about the candidate sequence `processNext` probes: one that returns to its start repeats with that period |
| ResolverExamples.DemoGetsTwo | src/fileutils.js:153-155 | `demo` is followed by `demo 2` |
| ResolverExamples.DemoTwoGetsThree | src/fileutils.js:138-146 | `demo2` is followed by `demo3` |
| ResolverExamples.DemoCarries | src/fileutils.js:136-146 | `demo9999` is followed by `demo10000` |
| ResolverExamples.LeadingZerosDropped | src/fileutils.js:143-146 | `a007` is followed by `a8` |
| ResolverExamples.FileStepOnNumberedBackup | src/fileutils.js:138-146 | `backup-name-1.bak` is followed by `backup-name-2.bak` |
| ResolverExamples.FileStepOnATxt | src/fileutils.js:98-103 | `a.txt` is followed by `a 2.txt` |
| ResolverExamples.FileStepOnATwoTxt | src/fileutils.js:98-103 | `a 2.txt` is followed by `a 3.txt` |
| ResolverExamples.ResolveTakenFile | src/fileutils.js:98-103 | with `a.txt` taken and `a 2.txt` free, `findNewFileName` answers `a 2.txt` |
| ResolverExamples.ResolveTwiceTakenFile | src/fileutils.js:98-103 | with `a.txt` and `a 2.txt` taken and `a 3.txt` free, the answer is `a 3.txt` |
| ResolverExamples.ResolveFromSecondName | src/fileutils.js:98-103 | from `a 2.txt`, taken, with `a 3.txt` free, the answer is `a 3.txt` |
| ResolverExamples.ResolveTakenFolder | src/fileutils.js:228-230 | with folder `archive.tar` taken, `findNewFolderName` answers `archive.tar 2` |
| Listing.ToInfo | src/fileutils.js:315-331 | a directory becomes a `BaseFolderInfo`, anything else a `BaseFileInfo`; name and birthtime are kept, and size and mtime for files |
| Listing.Listed | src/fileutils.js:291-333 | success exactly when every entry can be stat'ed; then one record per entry, in reverse readdir order; a failure carries the error of the first entry, counting from the end, whose stat fails |
| Listing.ListedPop | src/fileutils.js:298-333 | one pop: the last entry's stat decides, then the rest of the listing follows its record |
| Listing.List | src/fileutils.js:289-345 | a readdir error is passed through; otherwise the pop loop returns the listing above |
| Existence.Exists | src/fileutils.js:589-603 | true exactly when access succeeds, false exactly on ENOENT, and any other error passed through |
| Existence.Scan | src/fileutils.js:520-542 | popping from the end while `exists` gives the expected answer: None exactly when every path gives it, otherwise the first path from the end that does not, with its answer or error |
| Existence.ScanStopsAt | src/fileutils.js:520-542 | the path where the scan stops decides its outcome: that path's error, or that path |
| Existence.ScanDecided | src/fileutils.js:520-542 | the same, for every path where the scan can stop |
| Existence.AllAnswer | src/fileutils.js:518-546 | true exactly when every path exists (so true for no paths), and then no path is reported; the path where the scan from the end stops decides the rest: if `exists()` fails there, that error is the answer, and if the path is absent, the answer is false with that path; a failure always carries the error of that path |
| Existence.AnyAnswer | src/fileutils.js:554-581 | false exactly when every path is absent (so false for no paths), and then no path is reported; the path where the scan from the end stops decides the rest: if `exists()` fails there, that error is the answer, and if the path exists, the answer is true with that path; a failure always carries the error of that path |
| Existence.ScanFromEnd | src/fileutils.js:556-577 | the pop loop over a copy of the paths computes the scan above |
| Existence.ExistsAll | src/fileutils.js:518-546 | works on a copy of the caller's array and returns `existsAll`'s answer; the array is not modified |
| Existence.ExistsAny | src/fileutils.js:554-581 | works on a copy of the caller's array and returns `existsAny`'s answer; the array is not modified |
| Sanitize.IsWs | src/fileutils.js:87-88 | no whitespace character is reserved or `_` |
| Sanitize.IsReserved | src/fileutils.js:84 | the nine characters of the regular-expression class: `<`, `>`, `:`, `"`, `/`, `\`, the vertical bar, `?` and `*`; neither the space that replaces a run nor the `_` of an empty outcome is reserved |
| Sanitize.DropReserved | src/fileutils.js:84 | the result is no longer than the name, does not start with a reserved character and ends where the name ends |
| Sanitize.DropReservedStripsRun | src/fileutils.js:84 | every character stripped is reserved |
| Sanitize.ReplaceReserved | src/fileutils.js:84 | after the replacement no reserved character is left |
| Sanitize.ReplaceReservedWithout | src/fileutils.js:84 | a name without reserved characters is unchanged by the replacement |
| Sanitize.ReplaceReservedAppend | src/fileutils.js:84 | after a non-reserved character the replacement treats the two parts separately |
| Sanitize.DropReservedRun | src/fileutils.js:84 | a reserved run followed by a non-reserved character is dropped whole |
| Sanitize.ReplaceReservedRun | src/fileutils.js:84 | a maximal reserved run of any length between `a` and `b` becomes exactly one space: `a + run + b` gives `replace(a) + " " + replace(b)` |
| Sanitize.DropWs | src/fileutils.js:87-88 | the result is no longer than the name, does not start with whitespace and ends where the name ends |
| Sanitize.DropWsStripsRun | src/fileutils.js:87-88 | every character stripped is whitespace |
| Sanitize.CollapseWs | src/fileutils.js:87 | after collapsing no two whitespace characters are adjacent; emptiness, the kind of the first character and the absence of reserved characters are kept |
| Sanitize.CollapseWsWithoutPairs | src/fileutils.js:87 | a name without adjacent whitespace is unchanged by the collapse |
| Sanitize.CollapseWsAppend | src/fileutils.js:87 | after a non-whitespace character the collapse treats the two parts separately |
| Sanitize.DropWsRun | src/fileutils.js:87 | a whitespace run followed by a non-whitespace character is dropped whole |
| Sanitize.CollapseWsRun | src/fileutils.js:87 | a maximal whitespace run of length two or more between `a` and `b` becomes exactly one space: `a + run + b` gives `collapse(a) + " " + collapse(b)` |
| Sanitize.CollapseWsKeepsLoneWs | src/fileutils.js:87 | a lone whitespace character between `a` and `b` is kept as it is |
| Sanitize.DropWsEnd | src/fileutils.js:88 | the result is no longer than the name, does not end in whitespace and starts where the name starts |
| Sanitize.DropWsEndStripsRun | src/fileutils.js:88 | every character stripped is whitespace |
| Sanitize.Trim | src/fileutils.js:88 | the result neither begins nor ends with whitespace |
| Sanitize.TrimWsAround | src/fileutils.js:88 | whitespace around a non-empty trimmed middle is removed and the middle is kept whole |
| Sanitize.DropWsKeeps | src/fileutils.js:88 | dropping leading whitespace keeps the absence of reserved characters and of adjacent whitespace |
| Sanitize.DropWsEndKeeps | src/fileutils.js:88 | dropping trailing whitespace keeps the absence of reserved characters and of adjacent whitespace |
| Sanitize.TrimKeeps | src/fileutils.js:88 | trimming keeps the absence of reserved characters and of adjacent whitespace |
| Sanitize.TrimTrimmed | src/fileutils.js:88 | a trimmed name is unchanged by trimming |
| Sanitize.SliceKeeps | src/fileutils.js:88 | a slice keeps the absence of reserved characters and of adjacent whitespace |
| Sanitize.RemoveFileNameInvalidCharacters | src/fileutils.js:82-91 | the result is non-empty, has no reserved character, no whitespace at either end and no two adjacent whitespace characters |
| Sanitize.CleanNameUnchanged | src/fileutils.js:82-91 | a non-empty name that already has those properties is returned unchanged |
| Sanitize.SanitizeIdempotent | src/fileutils.js:82-91 | sanitising twice gives the same as sanitising once |
| Sanitize.SanitizeKeepsOtherCharacters | src/fileutils.js:84-90 | the non-whitespace characters of the result are exactly the input's characters that are neither reserved nor whitespace, in order, unless there are none and the result is `_` |
| Sanitize.JoinClean | src/fileutils.js:82-91 | two clean names joined by one space give a clean name |
| Sanitize.ReservedRunBetweenCleanNames | src/fileutils.js:82-91 | a reserved run between two clean names becomes one space between them |
| Sanitize.SpacedWordsJoined | src/fileutils.js:82-91 | two clean words with runs of two or more whitespace characters before and between them, and any whitespace after, come out as the two words joined by one space |
| Sanitize.AllReservedBecomesUnderscore | src/fileutils.js:84-90 | a name made only of reserved characters becomes `_` |
| SanitizeExamples.ReservedBecomesSpace | src/fileutils.js:84 | `a<b` becomes `a b` |
| SanitizeExamples.WhitespaceCollapsedAndTrimmed | src/fileutils.js:87-88 | `"  x \t y "` becomes `x y` |
| SanitizeExamples.OnlyReservedBecomesUnderscore | src/fileutils.js:90 | `<>` becomes `_` |
| Url.FindScheme | src/fileutils.js:51-53 | `Array.find` with `startsWith`: the first scheme in order that prefixes the URL, or None exactly when no scheme does |
| Url.SchemeFoundAsItself | src/fileutils.js:27 | `generalUriSchemes` in its order: no scheme is a prefix of a URL that starts with another one, so the scheme found is the one the URL starts with |
| Url.IsAbsoluteUrl | src/fileutils.js:50-54 | true exactly when the URL starts with `http://`, `https://` or `file://` |
| Url.AbsoluteUrlExtends | src/fileutils.js:50-54 | extending an absolute URL keeps it absolute |
| Url.SchemeMakesAbsolute | src/fileutils.js:50-54 | a URL made of one of the schemes followed by anything is absolute |
| Url.FirstCharRulesOut | src/fileutils.js:50-54 | a URL that starts with neither `h` nor `f` is not absolute |
| Url.HttpUrlIsAbsolute | test/fileutils.js:12 | `http://some.domain/path/to/page` is absolute |
| Url.HttpsUrlIsAbsolute | test/fileutils.js:13 | `https://some.domain/path/to/page` is absolute |
| Url.FileUrlIsAbsolute | test/fileutils.js:14 | `file:///path/to/file` is absolute |
| Url.HostPathIsRelative | test/fileutils.js:15 | `some.domain/path/to/page` is not absolute |
| Url.RootedPathIsRelative | test/fileutils.js:16 | `/path/to/page` is not absolute |

## Left out

- Resolver.FindNewFileName: the source retries without bound; the model stops after `maxAttempts` candidates and answers None. Within the bound the answer is the source's (`Resolver.MoreAttemptsSameAnswer`).
- Resolver.FindNewFileNameWithSpecifiedExtensionName: bounded by `maxAttempts` for the same reason.
- Resolver.FindNewFolderName: bounded by `maxAttempts` for the same reason.
- Resolver.ProbeCandidates: bounded by `maxAttempts` for the same reason.
- Resolver.FindNewFileName: for the name `..` the extension is not kept. `path.parse("..")` has no extension, but its successor `.. 2` splits as `.` and `. 2`. The contract excludes that one input.
- `path.join(directory, name)` is not modelled. The `access` and `stat` parameters take the entry name and stand for the call on the joined path. Names that contain `/` or `..` segments, which `path.join` would normalise, are not distinguished.
- `path.parse` is modelled on a single path component, without directory separators.
- The asynchronous callbacks and the order of I/O events are not modelled. Each operation is one sequential computation over the filesystem's answers, and those answers are taken to stay fixed during the call.
- JavaScript strings are UTF-16; the model works on Unicode characters, so lone surrogates are not represented.
- `hashFile` and `hashData` are left out: they call the `crypto` library.
- `formatFileSize` is left out: it relies on floating-point formatting and an external object-merge helper.
- `backup`, `copyFileWhenTargetFileAbsent`, `renameFileWhenTargetFileAbsent` and `removeFileIgnoreNonExists` are left out: they change the filesystem. `backup`'s use of `findNewFileName` is covered by the resolver.
- The commented-out text-file helpers are left out: they are not code.
- `src/promisefileutils.js` is left out: it only wraps the callbacks in Promises.
- `src/fileinfo.js`, `src/folderinfo.js` and `src/abstractfileinfo.js` are not part of this model; `list` does not use them.
