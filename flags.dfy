/**
 * The command-line flags: each argument that names a flag, compared
 * without regard to case, switches on recursion, adds an extension to the
 * filter or turns on the summary; any other argument changes nothing.
 */
module Flags {
  import opened SystemIO
  import opened DFind

  /** ASCII lower-casing of one character. */
  function LowerChar(c: char): char {
    if 'A' <= c <= 'Z' then (c as int - 'A' as int + 'a' as int) as char else c
  }

  /**
   * String.ToLower, restricted to ASCII letters: no upper-case letter is
   * left, every upper-case letter becomes its lower-case form (32 code
   * points on) and every other character is kept.
   */
  function ToLower(s: string): (r: string)
    ensures |r| == |s|
    ensures forall i :: 0 <= i < |r| ==> !('A' <= r[i] <= 'Z')
    ensures forall i :: 0 <= i < |s| && 'A' <= s[i] <= 'Z' ==> r[i] as int == s[i] as int + 32
    ensures forall i :: 0 <= i < |s| && !('A' <= s[i] <= 'Z') ==> r[i] == s[i]
  {
    seq(|s|, i requires 0 <= i < |s| => LowerChar(s[i]))
  }

  /** Lower-casing twice is lower-casing once. */
  lemma ToLowerIdempotent(s: string)
    ensures ToLower(ToLower(s)) == ToLower(s)
  {
    var once := ToLower(s);
    assert forall i :: 0 <= i < |once| ==> ToLower(once)[i] == once[i];
  }

  /** The extensions a flag adds to the filter: one for an image flag, none otherwise. */
  function ExtensionOf(cmd: string): seq<string> {
    var c := ToLower(cmd);
    if c == "-jpg" then [".jpg"]
    else if c == "-png" then [".png"]
    else if c == "-gif" then [".gif"]
    else []
  }

  /** What one call of Parse does to the settings. */
  function ApplyFlag(s: Settings, cmd: string): (r: Settings)
    ensures r.pattern == s.pattern + ExtensionOf(cmd)
    ensures r.recursive == (if ToLower(cmd) == "-r" then AllDirectories else s.recursive)
    ensures r.verbal == (s.verbal || ToLower(cmd) == "-v")
  {
    var c := ToLower(cmd);
    if c == "-r" then s.(recursive := AllDirectories)
    else if c == "-jpg" then s.(pattern := s.pattern + [".jpg"])
    else if c == "-png" then s.(pattern := s.pattern + [".png"])
    else if c == "-gif" then s.(pattern := s.pattern + [".gif"])
    else if c == "-v" then s.(verbal := true)
    else s
  }

  /**
   * Flags.Parse: the setting named by `cmd`, lower-cased, is updated on
   * the finder; nothing else changes.
   */
  method Parse(cmd: string, df: DuplicateFinder)
    modifies df
    ensures df.CurrentSettings() == ApplyFlag(old(df.CurrentSettings()), cmd)
    ensures df.fileSizeGroups == old(df.fileSizeGroups)
  {
    var c := ToLower(cmd);
    if c == "-r" {
      df.recursive := AllDirectories;
      return;
    }
    if c == "-jpg" {
      df.pattern := df.pattern + [".jpg"];
      return;
    }
    if c == "-png" {
      df.pattern := df.pattern + [".png"];
      return;
    }
    if c == "-gif" {
      df.pattern := df.pattern + [".gif"];
      return;
    }
    if c == "-v" {
      df.verbal := true;
    }
  }

  /**
   * A flag changes at most one setting, and only in one direction:
   * recursion switched on, one image extension appended, or the summary
   * switched on.
   */
  lemma ApplyFlagChangesOneSettingUpward(s: Settings, cmd: string)
    ensures var r := ApplyFlag(s, cmd);
      (r == s) ||
      (r == s.(recursive := AllDirectories)) ||
      (r == s.(verbal := true)) ||
      (r == s.(pattern := s.pattern + [".jpg"])) ||
      (r == s.(pattern := s.pattern + [".png"])) ||
      (r == s.(pattern := s.pattern + [".gif"]))
  {
  }

  /** Flags are matched without regard to case. */
  lemma ApplyFlagIgnoresCase(s: Settings, cmd: string)
    ensures ApplyFlag(s, cmd) == ApplyFlag(s, ToLower(cmd))
  {
    ToLowerIdempotent(cmd);
  }

  /** An argument that does not start with '-' is never a flag. */
  lemma NonFlagChangesNothing(s: Settings, cmd: string)
    requires |cmd| == 0 || cmd[0] != '-'
    ensures ApplyFlag(s, cmd) == s
  {
    if |cmd| > 0 {
      assert ToLower(cmd)[0] != '-';
    }
  }

  /** Parse applied to each of `cmds` in turn. */
  function ApplyAll(s: Settings, cmds: seq<string>): Settings {
    if cmds == [] then s else ApplyFlag(ApplyAll(s, cmds[..|cmds| - 1]), cmds[|cmds| - 1])
  }

  /** The extensions the image flags among `cmds` add, in argument order. */
  function PatternOf(cmds: seq<string>): seq<string> {
    if cmds == [] then [] else ExtensionOf(cmds[0]) + PatternOf(cmds[1..])
  }

  /** Some argument in `cmds` lower-cases to `flag`. */
  predicate Names(cmds: seq<string>, flag: string) {
    exists i :: 0 <= i < |cmds| && ToLower(cmds[i]) == flag
  }

  lemma {:induction false} PatternOfSnoc(cmds: seq<string>, c: string)
    ensures PatternOf(cmds + [c]) == PatternOf(cmds) + ExtensionOf(c)
  {
    if cmds == [] {
      assert [] + [c] == [c];
    } else {
      assert (cmds + [c])[1..] == cmds[1..] + [c];
      PatternOfSnoc(cmds[1..], c);
    }
  }

  lemma NamesSnoc(cmds: seq<string>, c: string, flag: string)
    ensures Names(cmds + [c], flag) <==> Names(cmds, flag) || ToLower(c) == flag
  {
    var t := cmds + [c];
    if Names(t, flag) && ToLower(c) != flag {
      var i :| 0 <= i < |t| && ToLower(t[i]) == flag;
      assert cmds[i] == t[i];
    }
    if Names(cmds, flag) {
      var i :| 0 <= i < |cmds| && ToLower(cmds[i]) == flag;
      assert t[i] == cmds[i];
    }
    if ToLower(c) == flag {
      assert t[|cmds|] == c;
    }
  }

  /**
   * The settings after all flags: the extensions of the image flags are
   * appended in argument order (repeats included), recursion is on when it
   * was or some argument is "-r", the summary likewise with "-v".
   */
  lemma {:induction false} ApplyAllSummary(s: Settings, cmds: seq<string>)
    ensures ApplyAll(s, cmds).pattern == s.pattern + PatternOf(cmds)
    ensures ApplyAll(s, cmds).recursive == AllDirectories <==>
      s.recursive == AllDirectories || Names(cmds, "-r")
    ensures ApplyAll(s, cmds).verbal <==> s.verbal || Names(cmds, "-v")
  {
    if cmds != [] {
      var init, last := cmds[..|cmds| - 1], cmds[|cmds| - 1];
      assert cmds == init + [last];
      ApplyAllSummary(s, init);
      PatternOfSnoc(init, last);
      NamesSnoc(init, last, "-r");
      NamesSnoc(init, last, "-v");
    }
  }
}
