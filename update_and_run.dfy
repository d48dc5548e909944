/**
 * The older self-update check update_and_run.py. It reads the remote line and
 * splits `version: description` lines exactly as src/update.py does (the
 * same code, so the functions of module `Update` serve for both), but it
 * reads the whole stripped `versions.txt` as the local line and reports an
 * update whenever the two version strings differ.
 */
module UpdateAndRun {
  import opened Wrappers
  import opened Text
  import Update

  /** `get_local_version_line` given the text of `versions.txt` (`None` when it does not exist): the whole text, stripped. */
  function LocalVersionLine(content: Option<string>): (line: string)
    ensures content.None? ==> line == Update.NoLocalVersion
    ensures content.Some? ==> Stripped(line)
  {
    match content
    case None => Update.NoLocalVersion
    case Some(text) =>
      StripIsStripped(text);
      Strip(text)
  }

  /** `save_local_version_line`: the new text of `versions.txt` is the line itself. */
  function SaveLocalVersionLine(line: string): Option<string> {
    Some(line)
  }

  /** `is_update_available` once both lines are read: any difference of the lines, or of their version strings. */
  function IsUpdateAvailable(remoteLine: string, localLine: string, compareFullLine: bool): bool {
    if compareFullLine then remoteLine != localLine
    else Update.ParseVersionLine(remoteLine).version != Update.ParseVersionLine(localLine).version
  }

  /** A stripped line, once saved, is read back as the local line. */
  lemma SavedLineReadsBack(line: string)
    requires Stripped(line)
    ensures LocalVersionLine(SaveLocalVersionLine(line)) == line
  {
    StripStripped(line);
  }

  /**
   * Once the remote line has been saved, neither comparison reports an
   * update until the remote file changes.
   */
  lemma UpToDateAfterSave(remoteText: string, compareFullLine: bool)
    requires remoteText != ""
    ensures var remote := Update.RemoteVersionLine(remoteText).value;
      !IsUpdateAvailable(remote, LocalVersionLine(SaveLocalVersionLine(remote)), compareFullLine)
  {
    var remote := Update.RemoteVersionLine(remoteText).value;
    StripIsStripped(LastLine(Update.DropFinalBreak(remoteText)));
    SavedLineReadsBack(remote);
  }

  /**
   * On a file of one unbroken line, with or without white space after it,
   * the two scripts read the same local line; they differ only on files
   * with several lines, where this script keeps all of them.
   */
  lemma LocalLinesAgreeOnOneLine(line: string, final: string)
    requires line != "" && Stripped(line) && forall i :: 0 <= i < |line| ==> !IsLineBreak(line[i])
    requires AllSpace(final)
    ensures LocalVersionLine(Some(line + final)) == Update.LocalVersionLine(Some(line + final)) == line
  {
    assert line == [] + line;
    StripPadded([], line, final);
    Update.LocalVersionLineOfOneLine(line, final);
  }

  /** A file holding only white space reads as an empty local line, where src/update.py reads version 0.0.0. */
  lemma BlankFileReadsEmpty(text: string)
    requires AllSpace(text)
    ensures LocalVersionLine(Some(text)) == ""
    ensures Update.LocalVersionLine(Some(text)) == Update.NoLocalVersion
  {
    assert text == text + [] + [];
    StripPadded(text, [], []);
    Update.LocalVersionLineShape(Some(text));
  }

  /** Comparing whole lines, both scripts give the same answer. */
  lemma FullLineChecksAgree(remoteLine: string, localLine: string)
    ensures Update.IsUpdateAvailable(remoteLine, localLine, true) == Some(IsUpdateAvailable(remoteLine, localLine, true))
  {
  }

  /**
   * Every update that src/update.py reports, this script reports too, and
   * the same version string on both sides is no update for either.
   */
  lemma VersionChecksAgreeOnUpgrades(remoteLine: string, localLine: string)
    ensures Update.IsUpdateAvailable(remoteLine, localLine, false) == Some(true) ==> IsUpdateAvailable(remoteLine, localLine, false)
    ensures Update.ParseVersionLine(remoteLine).version == Update.ParseVersionLine(localLine).version ==>
      !IsUpdateAvailable(remoteLine, localLine, false) && Update.IsUpdateAvailable(remoteLine, localLine, false) != Some(true)
  {
    var remote := Update.VersionToTuple(Update.ParseVersionLine(remoteLine).version);
    var local := Update.VersionToTuple(Update.ParseVersionLine(localLine).version);
    if remote.Some? && local.Some? {
      Update.TupleLessIrreflexive(local.value);
    }
  }

  /**
   * As written, the version check reports an update for an older remote
   * version: the two version strings differ, so `!=` holds, while the tuple
   * comparison of src/update.py says there is none.
   */
  lemma DowngradeReported(remote: seq<nat>, local: seq<nat>, remoteDescription: string, localDescription: string)
    requires remote != [] && local != [] && Update.TupleLess(remote, local)
    ensures var remoteLine := Update.FormatVersionLine(Update.FormatVersion(remote), remoteDescription);
      var localLine := Update.FormatVersionLine(Update.FormatVersion(local), localDescription);
      IsUpdateAvailable(remoteLine, localLine, false) && Update.IsUpdateAvailable(remoteLine, localLine, false) == Some(false)
  {
    var remoteLine := Update.FormatVersionLine(Update.FormatVersion(remote), remoteDescription);
    var localLine := Update.FormatVersionLine(Update.FormatVersion(local), localDescription);
    Update.VersionLines(Update.FormatVersion(remote), remoteDescription, remote);
    Update.VersionLines(Update.FormatVersion(local), localDescription, local);
    Update.TupleLessIrreflexive(remote);
    Update.TupleLessAsymmetric(remote, local);
    Update.VersionsCompareAsNumbers(remote, local, remoteDescription, localDescription);
  }
}
