/**
 * The entry point: the last argument is the directory to scan, every
 * argument starting with '-' is passed to the flag parser, and the finder
 * then runs. The file-system queries are parameters: `pathExists` for
 * Path.Exists, `enumerate` for the directory walk, `digest` for MD5.
 */
module Program {
  import opened SystemIO
  import opened Grouping
  import opened Detection
  import opened DFind
  import opened Flags

  /** How a run ends: an error exit, or the finder's settings and report. */
  datatype Outcome =
    | Exit(code: int, message: string)
    | Completed(settings: Settings, report: Report)

  predicate StartsWithDash(a: string) {
    |a| > 0 && a[0] == '-'
  }

  /** `args.Where(x => x.StartsWith('-'))`, in argument order. */
  function FlagArgs(args: seq<string>): (r: seq<string>)
    ensures forall a :: a in r <==> a in args && StartsWithDash(a)
    ensures |r| <= |args|
  {
    if args == [] then []
    else
      var init, last := args[..|args| - 1], args[|args| - 1];
      assert args == init + [last];
      FlagArgs(init) + (if StartsWithDash(last) then [last] else [])
  }

  /** Selecting from a list with one more argument at its end. */
  lemma FlagArgsSnoc(args: seq<string>, a: string)
    ensures FlagArgs(args + [a]) == FlagArgs(args) + (if StartsWithDash(a) then [a] else [])
  {
    var t := args + [a];
    assert t[..|t| - 1] == args;
  }

  /**
   * The selection keeps argument order and repeats: selecting from a
   * concatenation is concatenating the selections.
   */
  lemma {:induction false} FlagArgsDistributes(a: seq<string>, b: seq<string>)
    ensures FlagArgs(a + b) == FlagArgs(a) + FlagArgs(b)
  {
    if b == [] {
      assert a + b == a;
    } else {
      var init, last := b[..|b| - 1], b[|b| - 1];
      assert b == init + [last];
      assert a + b == (a + init) + [last];
      FlagArgsSnoc(a + init, last);
      FlagArgsSnoc(init, last);
      FlagArgsDistributes(a, init);
      ConcatAssociative(FlagArgs(a), FlagArgs(init), if StartsWithDash(last) then [last] else []);
    }
  }

  /**
   * Leaving out the arguments that are not flags does not change the
   * settings: they would be ignored by the parser anyway.
   */
  lemma {:induction false} FlagArgsAppliesLikeAllArgs(s: Settings, args: seq<string>)
    ensures ApplyAll(s, FlagArgs(args)) == ApplyAll(s, args)
  {
    if args != [] {
      var init, last := args[..|args| - 1], args[|args| - 1];
      assert args == init + [last];
      FlagArgsAppliesLikeAllArgs(s, init);
      if StartsWithDash(last) {
        assert FlagArgs(args) == FlagArgs(init) + [last];
        assert (FlagArgs(init) + [last])[..|FlagArgs(init)|] == FlagArgs(init);
      } else {
        assert FlagArgs(args) == FlagArgs(init) + [] == FlagArgs(init);
        NonFlagChangesNothing(ApplyAll(s, init), last);
        assert ApplyAll(s, args) == ApplyFlag(ApplyAll(s, init), last);
      }
    }
  }

  /** The settings a run ends with: the defaults with every flag applied. */
  function RunSettings(args: seq<string>): Settings {
    ApplyAll(Settings(TopDirectoryOnly, [], false), FlagArgs(args))
  }

  /**
   * Main: the two error exits, then a finder on the last argument,
   * configured by the flags in argument order, and its report.
   */
  method Run(args: seq<string>, pathExists: string -> bool,
             enumerate: (string, SearchOption) -> seq<FileRec>, digest: seq<byte> -> seq<byte>)
    returns (outcome: Outcome)
    requires forall loc, opt :: Distinct(enumerate(loc, opt))
    ensures |args| == 0 ==> outcome == Exit(1, "error - need a directory path to check")
    ensures |args| > 0 && !pathExists(args[|args| - 1]) ==>
      outcome == Exit(1, "error - location doesn't exist")
    ensures |args| > 0 && pathExists(args[|args| - 1]) ==>
      outcome.Completed? &&
      outcome.settings == RunSettings(args) &&
      Distinct(outcome.report.duplicates) &&
      (forall x :: x in outcome.report.duplicates <==>
        IsDuplicateIn(Selected(enumerate(args[|args| - 1], outcome.settings.recursive), outcome.settings.pattern), x)) &&
      outcome.report.summary == (if outcome.settings.verbal then Some(|outcome.report.duplicates|) else None)
  {
    if !(|args| > 0) {
      return Exit(1, "error - need a directory path to check");
    }
    var path := args[|args| - 1];
    if !pathExists(path) {
      return Exit(1, "error - location doesn't exist");
    }
    var df := new DuplicateFinder(path);
    var cmds := FlagArgs(args);
    ghost var initial := df.CurrentSettings();
    for i := 0 to |cmds|
      invariant df.location == path
      invariant df.CurrentSettings() == ApplyAll(initial, cmds[..i])
    {
      assert cmds[..i + 1][..i] == cmds[..i];
      Parse(cmds[i], df);
    }
    assert cmds[..|cmds|] == cmds;
    var report;
    ghost var comparisons;
    report, comparisons := df.Process(enumerate, digest);
    return Completed(df.CurrentSettings(), report);
  }
}
