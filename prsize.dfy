/**
 Size classification of a pull request (`GetPrSize` and the `PrSize`
 labels): the changes of every file that the ignore filter does not exclude
 are summed, and the total is placed on a ladder of four exclusive upper
 bounds, the first bound it is below deciding the label.
 */
module Labeler {
  import opened Ignore

  /** The five size labels, smallest first. */
  datatype PrSize = XS | S | M | L | XL

  /** The label text applied to the pull request: `size/` and the size in
      lower case. */
  function Label(size: PrSize): (text: string)
    ensures |text| > 5 && text[..5] == "size/"
  {
    match size
    case XS => "size/xs"
    case S => "size/s"
    case M => "size/m"
    case L => "size/l"
    case XL => "size/xl"
  }

  /** Position of a label on the ladder. */
  function Rank(size: PrSize): (r: nat)
    ensures r <= 4
    ensures r == 4 <==> size == XL
  {
    match size
    case XS => 0
    case S => 1
    case M => 2
    case L => 3
    case XL => 4
  }

  /** The thresholds of the action's settings (`XS_MAX_SIZE` ... `L_MAX_SIZE`). */
  datatype Config = Config(xsMaxSize: int, sMaxSize: int, mMaxSize: int, lMaxSize: int)

  /** The thresholds used when the settings give none. */
  const DefaultConfig := Config(10, 100, 500, 1000)

  /** The exclusive upper bound of every label but the last. */
  function UpperBound(config: Config, size: PrSize): int
    requires size != XL
  {
    match size
    case XS => config.xsMaxSize
    case S => config.sMaxSize
    case M => config.mMaxSize
    case L => config.lMaxSize
  }

  /** The thresholds increase strictly, as the defaults do. Nothing checks
      this of the settings. */
  predicate Ascending(config: Config)
  {
    config.xsMaxSize < config.sMaxSize < config.mMaxSize < config.lMaxSize
  }

  /**
   The threshold ladder of `GetPrSize`: the first label whose bound exceeds
   the total, or XL when none does. So the total is below the bound of the
   chosen label and at or above the bound of every label before it, whatever
   order the thresholds are in.
   */
  function Classify(config: Config, total: int): (size: PrSize)
    ensures size != XL ==> total < UpperBound(config, size)
    ensures forall b :: Rank(b) < Rank(size) ==> UpperBound(config, b) <= total
  {
    if total < config.xsMaxSize then XS
    else if total < config.sMaxSize then S
    else if total < config.mMaxSize then M
    else if total < config.lMaxSize then L
    else XL
  }

  /** The two properties of `Classify` single out its result: no other label
      is the first whose bound exceeds the total. */
  lemma FirstMatchIsUnique(config: Config, total: int, size: PrSize)
    requires size != XL ==> total < UpperBound(config, size)
    requires forall b :: Rank(b) < Rank(size) ==> UpperBound(config, b) <= total
    ensures size == Classify(config, total)
  {
  }

  /** Distinct labels have distinct texts. */
  lemma LabelsDistinct(a: PrSize, b: PrSize)
    ensures Label(a) == Label(b) <==> a == b
  {
  }

  /** A larger total never gets a smaller label. This holds for any thresholds,
      ascending or not: a larger total is below fewer bounds. */
  lemma ClassifyMonotone(config: Config, v: int, w: int)
    requires v <= w
    ensures Rank(Classify(config, v)) <= Rank(Classify(config, w))
  {
  }

  /** A total equal to a label's threshold never gets that label; with
      ascending thresholds it gets the next label up. */
  lemma ThresholdIsExclusive(config: Config, size: PrSize)
    requires size != XL
    ensures Classify(config, UpperBound(config, size)) != size
    ensures Ascending(config) ==> Rank(Classify(config, UpperBound(config, size))) == Rank(size) + 1
  {
  }

  /** With ascending thresholds each label covers a half-open interval: XS
      everything below `xsMaxSize`, S from `xsMaxSize` up to `sMaxSize`, and so
      on, XL from `lMaxSize` up. */
  predicate InInterval(config: Config, total: int, size: PrSize)
  {
    match size
    case XS => total < config.xsMaxSize
    case S => config.xsMaxSize <= total < config.sMaxSize
    case M => config.sMaxSize <= total < config.mMaxSize
    case L => config.mMaxSize <= total < config.lMaxSize
    case XL => config.lMaxSize <= total
  }

  lemma ClassifyByInterval(config: Config, total: int, size: PrSize)
    requires Ascending(config)
    ensures Classify(config, total) == size <==> InInterval(config, total, size)
  {
  }

  /** With thresholds out of order some labels are never given: a label is
      reachable only when its bound exceeds the bounds of all labels before
      it. */
  lemma UnorderedThresholdsSkipLabels(config: Config, total: int, size: PrSize, earlier: PrSize)
    requires size != XL && Rank(earlier) < Rank(size)
    requires UpperBound(config, size) <= UpperBound(config, earlier)
    ensures Classify(config, total) != size
  {
  }

  /** The default thresholds at and around their bounds. */
  lemma DefaultLadder()
    ensures Classify(DefaultConfig, 0) == XS
    ensures Classify(DefaultConfig, 9) == XS
    ensures Classify(DefaultConfig, 10) == S
    ensures Classify(DefaultConfig, 550) == L
    ensures Classify(DefaultConfig, 999) == L
    ensures Classify(DefaultConfig, 1000) == XL
  {
  }

  /** A changed file of the pull request and its number of changed lines. */
  datatype CommitFile = CommitFile(filename: string, changes: int)

  /** The changes of all `files`. */
  function SumChanges(files: seq<CommitFile>): int
  {
    if |files| == 0 then 0 else SumChanges(files[..|files| - 1]) + files[|files| - 1].changes
  }

  /**
   The files that count towards the size, in their order: each file appears
   as often as in `files` unless the patterns make it ignorable, and then not
   at all.
   */
  function Kept(files: seq<CommitFile>, patterns: seq<string>): (kept: seq<CommitFile>)
    ensures forall f :: multiset(kept)[f] == if Ignored(f.filename, patterns) then 0 else multiset(files)[f]
  {
    if |files| == 0 then []
    else
      var init, last := files[..|files| - 1], files[|files| - 1];
      assert files == init + [last];
      Kept(init, patterns) + if Ignored(last.filename, patterns) then [] else [last]
  }

  /** The change volume that `GetPrSize` classifies: the changes of the kept
      files, which without patterns are all of them. */
  function TotalModifications(files: seq<CommitFile>, patterns: seq<string>): (total: int)
    ensures patterns == [] ==> total == SumChanges(files)
  {
    KeptWithoutPatterns(files);
    SumChanges(Kept(files, patterns))
  }

  /**
   `GetPrSize`: sums the changes of the files that are not ignorable,
   consulting the ignore filter only when there are patterns, and classifies
   the sum.
   */
  method GetPrSize(config: Config, files: seq<CommitFile>, filesToIgnore: seq<string>) returns (size: PrSize)
    ensures size == Classify(config, TotalModifications(files, filesToIgnore))
  {
    var totalModifications := 0;
    var checkIgnorableFiles := |filesToIgnore| > 0;
    for i := 0 to |files|
      invariant totalModifications == TotalModifications(files[..i], filesToIgnore)
    {
      var file := files[i];
      TotalStep(files, filesToIgnore, i);
      if checkIgnorableFiles {
        var ignorable := IsIgnorable(file.filename, filesToIgnore);
        if ignorable {
          continue;
        }
      }
      totalModifications := totalModifications + file.changes;
    }
    assert files[..|files|] == files;
    size := Classify(config, totalModifications);
  }

  /** Extending the files by one adds that file's changes to the total unless
      it is ignorable. */
  lemma TotalStep(files: seq<CommitFile>, patterns: seq<string>, i: int)
    requires 0 <= i < |files|
    ensures TotalModifications(files[..i + 1], patterns)
            == TotalModifications(files[..i], patterns)
               + if Ignored(files[i].filename, patterns) then 0 else files[i].changes
  {
    var prefix := files[..i + 1];
    assert prefix[..i] == files[..i];
    SumOfAppend(Kept(files[..i], patterns), if Ignored(files[i].filename, patterns) then [] else [files[i]]);
  }

  /** Every file has a non-negative number of changes. */
  predicate NonNegative(files: seq<CommitFile>)
  {
    forall i :: 0 <= i < |files| ==> files[i].changes >= 0
  }

  /** Without patterns every file counts. */
  lemma {:induction false} KeptWithoutPatterns(files: seq<CommitFile>)
    ensures Kept(files, []) == files
  {
    if |files| > 0 {
      var init, last := files[..|files| - 1], files[|files| - 1];
      assert files == init + [last];
      KeptWithoutPatterns(init);
      NoPatternsIgnoreNothing(last.filename);
    }
  }

  lemma TotalWithoutPatterns(files: seq<CommitFile>)
    ensures TotalModifications(files, []) == SumChanges(files)
  {
  }

  /** With non-negative changes, more patterns never raise the total, and the
      total lies between zero and the sum of all changes. */
  lemma {:induction false} MorePatternsNeverRaiseTotal(files: seq<CommitFile>, ps: seq<string>, qs: seq<string>)
    requires NonNegative(files)
    requires forall p :: p in ps ==> p in qs
    ensures TotalModifications(files, qs) <= TotalModifications(files, ps)
  {
    if |files| > 0 {
      var init, last := files[..|files| - 1], files[|files| - 1];
      MorePatternsNeverRaiseTotal(init, ps, qs);
      MorePatternsIgnoreMore(last.filename, ps, qs);
      SumOfAppend(Kept(init, ps), if Ignored(last.filename, ps) then [] else [last]);
      SumOfAppend(Kept(init, qs), if Ignored(last.filename, qs) then [] else [last]);
    }
  }

  lemma {:induction false} TotalBetweenZeroAndSum(files: seq<CommitFile>, patterns: seq<string>)
    requires NonNegative(files)
    ensures 0 <= TotalModifications(files, patterns) <= SumChanges(files)
  {
    if |files| > 0 {
      var init, last := files[..|files| - 1], files[|files| - 1];
      TotalBetweenZeroAndSum(init, patterns);
      SumOfAppend(Kept(init, patterns), if Ignored(last.filename, patterns) then [] else [last]);
    }
  }

  /** Reordering the patterns does not change the total. */
  lemma {:induction false} PatternOrderKeepsTotal(files: seq<CommitFile>, ps: seq<string>, qs: seq<string>)
    requires multiset(ps) == multiset(qs)
    ensures Kept(files, ps) == Kept(files, qs)
    ensures TotalModifications(files, ps) == TotalModifications(files, qs)
  {
    if |files| > 0 {
      PatternOrderKeepsTotal(files[..|files| - 1], ps, qs);
      PatternOrderIrrelevant(files[|files| - 1].filename, ps, qs);
    }
  }

  lemma {:induction false} SumOfAppend(a: seq<CommitFile>, b: seq<CommitFile>)
    ensures SumChanges(a + b) == SumChanges(a) + SumChanges(b)
    decreases |b|
  {
    if |b| > 0 {
      assert (a + b)[..|a + b| - 1] == a + b[..|b| - 1];
      SumOfAppend(a, b[..|b| - 1]);
    } else {
      assert a + b == a;
    }
  }

  /** Two files, the Markdown one ignored by `*.md`: 5 changes count, which
      the default thresholds label XS. */
  lemma IgnoredMarkdownExample()
    ensures TotalModifications([CommitFile("a.go", 5), CommitFile("b.md", 50)], ["*.md"]) == 5
    ensures Classify(DefaultConfig, 5) == XS
  {
    LiteralExampleIgnored("b.md", ".md", 1);
    LiteralExampleNotIgnored("a.go", ".md", 1);
    var files := [CommitFile("a.go", 5), CommitFile("b.md", 50)];
    assert files[..1] == [CommitFile("a.go", 5)];
    assert files[..1][..0] == [];
  }
}
