# pr-size-labeler: size classification, modelled in Dafny

The size labeler is a GitHub Action that labels a pull request `size/xs`,
`size/s`, `size/m`, `size/l` or `size/xl` by its change volume. The decisions
all happen in two functions of `main.go`, and this project models them:

- `isIgnorable` (module `Ignore`, file `ignore.dfy`) decides whether a
  changed file is left out, given the patterns of the `FILES_TO_IGNORE`
  setting. A pattern can hold a `*`. Then the text after the first `*`, up to
  a second `*` if there is one, is searched for anywhere in the file name.
  Every pattern also matches a file name equal to it. The search is a
  substring test, not a suffix match: `*.go` ignores `x.gomod`, and `*` or
  `foo*` ignore every file. The model keeps this behaviour and proves it.
- `GetPrSize` (module `Labeler`, file `prsize.dfy`) sums the changes of the
  files that are not ignored. It calls the filter only when there are
  patterns. It then places the sum on a ladder of four exclusive thresholds
  (`XS_MAX_SIZE` … `L_MAX_SIZE`, defaults 10, 100, 500, 1000). The first
  threshold that the sum is below decides the label, and XL is the default.

The two Go library functions the filter uses, `strings.Contains` and
`strings.Split` on `"*"`, are written out in module `GoStrings`
(`strings.dfy`). Each is proved against a reference definition: an
existential occurrence for `Contains`, and a round trip with `Join` for
`Split`.

`isIgnorable` and `GetPrSize` are loops in Go, so they are methods here. Each
method is proved against a pure specification: `Ignore.Ignored`, "some
pattern matches", and `Labeler.Classify` applied to `Labeler.TotalModifications`,
"the sum over the files that are kept". The properties are then proved as
lemmas about those specifications.

Three behaviours of the code are easy to misread:

- The equality test applies to every pattern, including those that hold a `*`.
- A pattern with several `*` uses only the text between the first and the
  second `*`.
- Thresholds that are not ascending are accepted as they are. The model
  proves what happens then: the ladder stays monotone, and some labels can
  never be given.

## Model

| member | source | states |
|---|---|---|
| `GoStrings.Contains` | main.go:112 | `strings.Contains(s, sub)`: true exactly when `sub` occurs at some index of `s`. The empty string occurs in every string. |
| `GoStrings.Split` | main.go:111 | `strings.Split(s, "*")`: there is one more piece than there are `*` in `s`, and no piece contains `*`. |
| `GoStrings.SplitHasSecondPiece` | main.go:110-111 | A pattern that contains `*` splits into at least two pieces, so reading piece `[1]` never goes out of range. |
| `GoStrings.JoinSplit` | main.go:111 | Round trip: joining the pieces of `s` with the separator gives back `s`. |
| `GoStrings.SplitJoin` | main.go:111 | Round trip the other way: separator-free pieces come back out of splitting their join. So `Split` is the only such decomposition. |
| `GoStrings.SecondPieceBetweenSeparators` | main.go:111 | Piece `[1]` is the text after the first separator, up to the next separator or the end of the string. |
| `Ignore.WildcardFragment` | main.go:110-111 | The fragment of a `*` pattern contains no `*`. It starts right after the first `*` and ends at the next `*` or at the end of the pattern. |
| `Ignore.Matches` | main.go:110-118 | One pattern matches a file name exactly when it holds a `*` and its fragment occurs somewhere in the name, or when it equals the name. |
| `Ignore.IsIgnorable` | main.go:108-122 | The loop returns true exactly when some pattern matches the file name, either by its wildcard fragment occurring in the name or by equality. |
| `Ignore.NoPatternsIgnoreNothing` | main.go:109-121 | With no patterns, no file name is ignored. |
| `Ignore.ExactNameIgnored` | main.go:116-117 | A file name that appears verbatim among the patterns is ignored. |
| `Ignore.FragmentOccurrenceIgnored` | main.go:110-114 | A `*` pattern ignores every name in which its fragment occurs, at any position. |
| `Ignore.EmptyFragmentIgnoresAll` | main.go:111-112 | A `*` pattern whose fragment is empty ignores every file name. |
| `Ignore.MorePatternsIgnoreMore` | main.go:109-121 | If every pattern of one list is in a second list, whatever the first list ignores the second ignores too. |
| `Ignore.PatternOrderIrrelevant` | main.go:109-121 | Two pattern lists that are permutations of each other ignore the same names. |
| `Ignore.IgnoredByConcatenation` | main.go:109-121 | Two lists put together ignore exactly what either list ignores. |
| `Ignore.FragmentOfLeadingStar` | main.go:111 | `*x`, where `x` has no `*`, has fragment `x`. |
| `Ignore.FragmentOfTrailingStar` | main.go:111 | `x*`, where `x` has no `*`, has the empty fragment. |
| `Ignore.FragmentExamples` | main.go:111 | The fragments of `*` and `foo*` are empty. The fragments of `*.md` and `*.go` are `.md` and `.go`. |
| `Ignore.MarkdownPatternExamples` | main.go:110-117 | `*.md` ignores `README.md` and `a.md.txt`, but not `main.go`. |
| `Ignore.GoPatternExamples` | main.go:110-117 | `*.go` ignores `main.go` and `x.gomod`, but not `main.txt`. |
| `Labeler.Label` | main.go:124-132 | The label text of each size, `size/xs` to `size/xl`. Each one starts with `size/`. |
| `Labeler.Classify` | main.go:94-105 | The ladder gives the first label whose threshold exceeds the total, or XL. The total is below the chosen label's threshold and at or above every earlier one, whatever the order of the thresholds. |
| `Labeler.FirstMatchIsUnique` | main.go:94-105 | Any label that meets those two conditions is the label `Classify` returns. |
| `Labeler.LabelsDistinct` | main.go:124-132 | The five label texts are pairwise distinct. |
| `Labeler.ClassifyMonotone` | main.go:94-105 | A larger total never gets a smaller label, for any thresholds. |
| `Labeler.ThresholdIsExclusive` | main.go:95-101 | A total equal to a label's threshold never gets that label. With ascending thresholds it gets the next label up. |
| `Labeler.ClassifyByInterval` | main.go:94-105 | With ascending thresholds, each label is given exactly on its half-open interval of totals, and XL on all totals from `LMaxSize` up. |
| `Labeler.UnorderedThresholdsSkipLabels` | main.go:94-105 | A label whose threshold is not above an earlier label's threshold is never given. |
| `Labeler.DefaultLadder` | main.go:137-140 | With the defaults: 0 and 9 give XS, 10 gives S, 550 and 999 give L, 1000 gives XL. |
| `Labeler.Kept` | main.go:86-90 | Each file is kept as many times as it appears in the input, unless the patterns make it ignorable, and then not at all. |
| `Labeler.TotalModifications` | main.go:82-92 | The accumulated total is the sum of changes over the kept files. Without patterns it is the sum over all files. |
| `Labeler.TotalStep` | main.go:86-92 | Each further file adds its changes to the total, unless it is ignorable. |
| `Labeler.GetPrSize` | main.go:81-106 | The loop's result is the ladder applied to the sum of changes over exactly the files that are not ignorable. This holds although the loop skips the filter when there are no patterns. |
| `Labeler.KeptWithoutPatterns` | main.go:84-87 | Without patterns every file is kept, in order. |
| `Labeler.TotalWithoutPatterns` | main.go:84-92 | Without patterns the total is the sum over all files. |
| `Labeler.MorePatternsNeverRaiseTotal` | main.go:86-92 | With non-negative changes, adding patterns never increases the total. |
| `Labeler.TotalBetweenZeroAndSum` | main.go:86-92 | With non-negative changes, the total lies between 0 and the sum over all files. |
| `Labeler.PatternOrderKeepsTotal` | main.go:86-92 | Reordering the patterns changes neither the kept files nor the total. |
| `Labeler.IgnoredMarkdownExample` | main.go:81-106 | Files `a.go` with 5 changes and `b.md` with 50, ignoring `*.md`: the total is 5, which the defaults label XS. |

## Left out

- `main()` (main.go:15-79) is I/O and calls into libraries whose behaviour is not visible here. That covers the CI and event checks, loading the settings and their defaults, the OAuth client, the GitHub calls (listing files, adding the label, posting the comment), the fatal exits and the exit on XL. The defaults appear only as the constant `DefaultConfig`.
- `strings.Fields`, which splits `FILES_TO_IGNORE` on whitespace, is a library call. The pattern list is taken already split, as a `seq<string>`.
- The `github.CommitFile` getters, which return zero for missing fields, are not modelled. A file is a plain `CommitFile(filename, changes)` value.
- The `GitHubToken`, `FailIfXL` and `MessageIfXL` settings do not affect classification and are not part of `Config`.
- `Config.FilesToIgnore` is not in `Config`. Its whitespace split is the separate `filesToIgnore` argument of `GetPrSize`, as at main.go:81.
- A classifier that works from pull-request-level additions and deletions instead of per-file changes is not in this repository's code and is not part of this model.
- Labeler.GetPrSize: totals are unbounded integers. Go's 64-bit `int` would wrap around past 2^63-1, and that is not modelled, because a realistic pull request is far below that bound.
- Strings are sequences of characters. Go compares bytes, but substring and equality tests give the same answers on well-formed UTF-8.
