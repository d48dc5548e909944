/**
 * The decisions of the self-updater src/update.py: reading a
 * `version: description` line, turning a dotted version into a tuple of
 * integers, deciding whether the remote line is an update, finding the local
 * line in the text of `versions.txt`, and choosing which project files an
 * update deletes and which archive files it installs.
 *
 * The network, the zip archive and the file system are not modelled: the
 * remote and local texts are parameters, and the project tree is a map from
 * relative paths to contents.
 */
module Update {
  import opened Wrappers
  import opened Text

  // ---------------------------------------------------------------------------
  // Version lines

  /** The two parts of a `version: description` line. */
  datatype VersionLine = VersionLine(version: string, description: string)

  /** `parse_version_line`: split at the first `:` only and strip both parts; a line without `:` is all version. */
  function ParseVersionLine(line: string): (parts: VersionLine)
    ensures ':' !in line ==> parts == VersionLine(Strip(line), "")
  {
    var k := IndexOf(line, ':');
    if k == |line| then VersionLine(Strip(line), "")
    else VersionLine(Strip(line[..k]), Strip(line[k + 1..]))
  }

  /** The line `versions.txt` holds for a release: the version, a colon and a space, the description. */
  function FormatVersionLine(version: string, description: string): string {
    version + ": " + description
  }

  /** Both parts come back stripped, and the version never holds a colon. */
  lemma ParseVersionLineShape(line: string)
    ensures var parts := ParseVersionLine(line);
      Stripped(parts.version) && Stripped(parts.description) && ':' !in parts.version
  {
    var k := IndexOf(line, ':');
    StripIsStripped(line);
    StripIsStripped(line[..k]);
    StripIsStripped(line[k..]);
    if k < |line| {
      StripIsStripped(line[k + 1..]);
    }
    assert ':' !in line[..k];
    StripKeepsOut(line[..k], ':');
    if k == |line| {
      assert line[..k] == line;
    }
  }

  /** Stripping only removes characters. */
  lemma StripKeepsOut(s: string, c: char)
    requires c !in s
    ensures c !in Strip(s)
  {
    StripIsInfix(s);
    var r := Strip(s);
    forall i | 0 <= i < |r| ensures r[i] != c {
      assert r[i] == s[SpaceEnd(s, 0) + i];
    }
  }

  /**
   * Reading a formatted line gives back its version and its description,
   * colons in the description included (the split is at the first colon).
   */
  lemma ParseFormatVersionLine(version: string, description: string)
    requires Stripped(version) && ':' !in version
    requires Stripped(description)
    ensures ParseVersionLine(FormatVersionLine(version, description)) == VersionLine(version, description)
  {
    var line := FormatVersionLine(version, description);
    assert line == version + [':'] + ([' '] + description);
    assert line[|version|] == ':';
    assert forall i :: 0 <= i < |version| ==> line[i] == version[i];
    assert IndexOf(line, ':') == |version|;
    ParseFormatVersion(version, description);
    assert line[|version| + 1..] == [' '] + description;
    assert [' '] + description == [' '] + description + [];
    StripPadded([' '], description, []);
  }

  /** The version of a formatted line comes back whatever the description says. */
  lemma ParseFormatVersion(version: string, description: string)
    requires Stripped(version) && ':' !in version
    ensures ParseVersionLine(FormatVersionLine(version, description)).version == version
  {
    var line := FormatVersionLine(version, description);
    assert line == version + [':'] + ([' '] + description);
    assert line[|version|] == ':';
    assert forall i :: 0 <= i < |version| ==> line[i] == version[i];
    assert IndexOf(line, ':') == |version|;
    assert line[..|version|] == version;
    assert version == [] + version + [];
    StripPadded([], version, []);
  }

  // ---------------------------------------------------------------------------
  // Version tuples

  /** `int(x)` on one part: optional white space around ASCII digits; anything else raises `ValueError` (`None`). */
  function IntOf(piece: string): (n: Option<nat>)
    ensures n.Some? ==> Strip(piece) != "" && AllDigits(Strip(piece))
  {
    var t := Strip(piece);
    if t != "" && AllDigits(t) then Some(ParseNat(t)) else None
  }

  /** The integers of the parts, or `None` as soon as one part is not an integer. */
  function IntsOf(pieces: seq<string>): (ns: Option<seq<nat>>)
    ensures ns.Some? ==> |ns.value| == |pieces|
  {
    if pieces == [] then Some([])
    else
      var head := IntOf(pieces[0]);
      var tail := IntsOf(pieces[1..]);
      if head.None? || tail.None? then None else Some([head.value] + tail.value)
  }

  /** `version_to_tuple`: one integer per `.`-separated part; `None` where `int` raises. */
  function VersionToTuple(v: string): (t: Option<seq<nat>>)
    ensures t.Some? ==> |t.value| >= 1
  {
    IntsOf(Split(v, '.'))
  }

  /** The dotted form of a version tuple. */
  function FormatVersion(xs: seq<nat>): string {
    Join(DecimalParts(xs), ".")
  }

  /** The decimal form of each part. */
  function DecimalParts(xs: seq<nat>): (parts: seq<string>)
    ensures |parts| == |xs|
    ensures forall i :: 0 <= i < |parts| ==> AllDigits(parts[i]) && parts[i] != ""
  {
    if xs == [] then [] else [NatToString(xs[0])] + DecimalParts(xs[1..])
  }

  /** Every non-empty tuple is read back from its dotted form. */
  lemma VersionRoundTrip(xs: seq<nat>)
    requires xs != []
    ensures VersionToTuple(FormatVersion(xs)) == Some(xs)
  {
    var parts := DecimalParts(xs);
    forall i | 0 <= i < |parts| ensures '.' !in parts[i] {
      assert forall j :: 0 <= j < |parts[i]| ==> IsDigit(parts[i][j]);
    }
    SplitJoin(parts, '.');
    IntsOfDecimal(xs);
  }

  lemma {:induction false} IntsOfDecimal(xs: seq<nat>)
    ensures IntsOf(DecimalParts(xs)) == Some(xs)
    decreases |xs|
  {
    if xs != [] {
      IntsOfDecimal(xs[1..]);
      var d := NatToString(xs[0]);
      assert d == [] + d + [];
      StripPadded([], d, []);
      ParseNatToString(xs[0]);
      assert xs == [xs[0]] + xs[1..];
    }
  }

  /** A version with an empty part (`""`, `"1..2"`, `"1.2."`) makes `int` raise. */
  lemma EmptyPartRejected(v: string)
    requires exists i :: 0 <= i < |Split(v, '.')| && Split(v, '.')[i] == ""
    ensures VersionToTuple(v) == None
  {
    var i :| 0 <= i < |Split(v, '.')| && Split(v, '.')[i] == "";
    IntsOfNone(Split(v, '.'), i);
  }

  lemma {:induction false} IntsOfNone(pieces: seq<string>, i: nat)
    requires i < |pieces| && IntOf(pieces[i]).None?
    ensures IntsOf(pieces) == None
    decreases i
  {
    if i > 0 {
      IntsOfNone(pieces[1..], i - 1);
    }
  }

  // ---------------------------------------------------------------------------
  // Tuple order

  /** Python's `a < b` on tuples of integers: at the first place they differ, or else the shorter is smaller. */
  predicate TupleLess(a: seq<nat>, b: seq<nat>)
    decreases |a|
  {
    if a == [] then b != []
    else if b == [] then false
    else if a[0] != b[0] then a[0] < b[0]
    else TupleLess(a[1..], b[1..])
  }

  /** `a` and `b` agree before place `i`, and there `a` is smaller or has ended while `b` goes on. */
  predicate LessAt(a: seq<nat>, b: seq<nat>, i: nat) {
    i <= |a| && i <= |b| && a[..i] == b[..i] &&
    if i < |a| && i < |b| then a[i] < b[i] else i == |a| && i < |b|
  }

  /** The tuple order is exactly the first-difference rule. */
  lemma {:induction false} TupleLessAt(a: seq<nat>, b: seq<nat>)
    ensures TupleLess(a, b) <==> exists i: nat :: LessAt(a, b, i)
    decreases |a|
  {
    if a == [] {
      if b != [] {
        assert LessAt(a, b, 0);
      }
    } else if b == [] {
      forall i: nat | LessAt(a, b, i) ensures false { }
    } else if a[0] != b[0] {
      if a[0] < b[0] {
        assert LessAt(a, b, 0);
      }
      forall i: nat | LessAt(a, b, i) ensures a[0] < b[0] {
        if i > 0 {
          assert a[..i][0] == b[..i][0];
        }
      }
    } else {
      TupleLessAt(a[1..], b[1..]);
      if TupleLess(a[1..], b[1..]) {
        var i: nat :| LessAt(a[1..], b[1..], i);
        assert a[..i + 1] == [a[0]] + a[1..][..i];
        assert b[..i + 1] == [b[0]] + b[1..][..i];
        assert LessAt(a, b, i + 1);
      }
      forall i: nat | LessAt(a, b, i) ensures TupleLess(a[1..], b[1..]) {
        assert i > 0;
        assert a[1..][..i - 1] == a[..i][1..];
        assert b[1..][..i - 1] == b[..i][1..];
        assert LessAt(a[1..], b[1..], i - 1);
      }
    }
  }

  /** No tuple is smaller than itself. */
  lemma {:induction false} TupleLessIrreflexive(a: seq<nat>)
    ensures !TupleLess(a, a)
    decreases |a|
  {
    if a != [] {
      TupleLessIrreflexive(a[1..]);
    }
  }

  /** Of two tuples at most one is smaller than the other. */
  lemma {:induction false} TupleLessAsymmetric(a: seq<nat>, b: seq<nat>)
    ensures !(TupleLess(a, b) && TupleLess(b, a))
    decreases |a|
  {
    if a != [] && b != [] && a[0] == b[0] {
      TupleLessAsymmetric(a[1..], b[1..]);
    }
  }

  /** The tuple order is transitive. */
  lemma {:induction false} TupleLessTransitive(a: seq<nat>, b: seq<nat>, c: seq<nat>)
    requires TupleLess(a, b) && TupleLess(b, c)
    ensures TupleLess(a, c)
    decreases |a|
  {
    if a != [] && a[0] == b[0] && b[0] == c[0] {
      TupleLessTransitive(a[1..], b[1..], c[1..]);
    }
  }

  /** Two different tuples are ordered one way or the other. */
  lemma {:induction false} TupleLessTotal(a: seq<nat>, b: seq<nat>)
    requires a != b
    ensures TupleLess(a, b) || TupleLess(b, a)
    decreases |a|
  {
    if a != [] && b != [] && a[0] == b[0] {
      assert a == [a[0]] + a[1..] && b == [b[0]] + b[1..];
      TupleLessTotal(a[1..], b[1..]);
    }
  }

  // ---------------------------------------------------------------------------
  // The update check

  /**
   * `is_update_available(compare_full_line)` once both lines are read: with
   * `compareFullLine`, any difference of the lines; otherwise a remote version
   * tuple greater than the local one. `None` where `version_to_tuple` raises.
   */
  function IsUpdateAvailable(remoteLine: string, localLine: string, compareFullLine: bool): (available: Option<bool>)
    ensures compareFullLine ==> available == Some(remoteLine != localLine)
  {
    if compareFullLine then Some(remoteLine != localLine)
    else
      var remote := VersionToTuple(ParseVersionLine(remoteLine).version);
      var local := VersionToTuple(ParseVersionLine(localLine).version);
      if remote.None? || local.None? then None else Some(TupleLess(local.value, remote.value))
  }

  /**
   * Comparing versions, an update is reported only for a strictly newer
   * remote version: never for the same version (whatever the descriptions
   * say), never for an older one, and never both ways between two lines.
   */
  lemma UpdateOnlyWhenNewer(remoteLine: string, localLine: string)
    ensures var remote := VersionToTuple(ParseVersionLine(remoteLine).version);
      var local := VersionToTuple(ParseVersionLine(localLine).version);
      && (IsUpdateAvailable(remoteLine, localLine, false) == Some(true) <==>
            remote.Some? && local.Some? && TupleLess(local.value, remote.value))
      && (remote.Some? && local.Some? && remote.value == local.value ==> IsUpdateAvailable(remoteLine, localLine, false) == Some(false))
      && (remote.Some? && local.Some? && TupleLess(remote.value, local.value) ==> IsUpdateAvailable(remoteLine, localLine, false) == Some(false))
      && !(IsUpdateAvailable(remoteLine, localLine, false) == Some(true) && IsUpdateAvailable(localLine, remoteLine, false) == Some(true))
  {
    var remote := VersionToTuple(ParseVersionLine(remoteLine).version);
    var local := VersionToTuple(ParseVersionLine(localLine).version);
    if remote.Some? && local.Some? {
      TupleLessIrreflexive(local.value);
      TupleLessAsymmetric(local.value, remote.value);
    }
  }

  /** Two checks in a row see an update from the first line to the third only if they do so step by step in between. */
  lemma UpdateChains(a: string, b: string, c: string)
    requires IsUpdateAvailable(b, a, false) == Some(true) && IsUpdateAvailable(c, b, false) == Some(true)
    ensures IsUpdateAvailable(c, a, false) == Some(true)
  {
    var ta := VersionToTuple(ParseVersionLine(a).version).value;
    var tb := VersionToTuple(ParseVersionLine(b).version).value;
    var tc := VersionToTuple(ParseVersionLine(c).version).value;
    TupleLessTransitive(ta, tb, tc);
  }

  /**
   * Versions compare as numbers, part by part (so `1.10.0` is newer than
   * `1.9.0`, although it sorts first as a string), and descriptions play no
   * part unless whole lines are compared.
   */
  lemma VersionsCompareAsNumbers(remote: seq<nat>, local: seq<nat>, remoteDescription: string, localDescription: string)
    requires remote != [] && local != []
    ensures var remoteLine := FormatVersionLine(FormatVersion(remote), remoteDescription);
      var localLine := FormatVersionLine(FormatVersion(local), localDescription);
      IsUpdateAvailable(remoteLine, localLine, false) == Some(TupleLess(local, remote))
  {
    VersionLines(FormatVersion(remote), remoteDescription, remote);
    VersionLines(FormatVersion(local), localDescription, local);
  }

  /** The version tuple of a formatted line whose version is the dotted form of `xs`. */
  lemma VersionLines(version: string, description: string, xs: seq<nat>)
    requires xs != [] && version == FormatVersion(xs)
    ensures VersionToTuple(ParseVersionLine(FormatVersionLine(version, description)).version) == Some(xs)
  {
    JoinDigits(DecimalParts(xs));
    ParseFormatVersion(version, description);
    VersionRoundTrip(xs);
  }

  /** Digits joined with dots contain only digits and dots. */
  lemma {:induction false} JoinDigits(parts: seq<string>)
    requires forall i :: 0 <= i < |parts| ==> AllDigits(parts[i]) && parts[i] != ""
    ensures forall i :: 0 <= i < |Join(parts, ".")| ==> IsDigit(Join(parts, ".")[i]) || Join(parts, ".")[i] == '.'
    ensures ':' !in Join(parts, ".")
    ensures |parts| > 0 ==> Join(parts, ".") != [] && IsDigit(Join(parts, ".")[0]) && IsDigit(Join(parts, ".")[|Join(parts, ".")| - 1])
    decreases |parts|
  {
    if |parts| > 1 {
      JoinDigits(parts[1..]);
      var s, rest := Join(parts, "."), Join(parts[1..], ".");
      assert s == parts[0] + "." + rest;
      forall i | 0 <= i < |s| ensures IsDigit(s[i]) || s[i] == '.' {
        if i < |parts[0]| { assert s[i] == parts[0][i]; }
        else if i > |parts[0]| { assert s[i] == rest[i - |parts[0]| - 1]; }
      }
      assert s[|s| - 1] == rest[|rest| - 1];
    }
  }

  // ---------------------------------------------------------------------------
  // The version lines on either side

  /** What `get_local_version_line` returns when the file is missing or holds only white space: `0.0.0: (no local version)`. */
  const NoLocalVersion: string := FormatVersionLine("0.0.0", "(no local version)")

  /**
   * `get_local_version_line` given the text of `versions.txt` (`None` when
   * the file does not exist): the last line of the stripped text, stripped.
   */
  function LocalVersionLine(content: Option<string>): (line: string)
    ensures content.None? ==> line == NoLocalVersion
  {
    match content
    case None => NoLocalVersion
    case Some(text) => CurrentLine(text)
  }

  /** The line `get_local_version_line` reads out of an existing `versions.txt`. */
  function CurrentLine(text: string): string {
    var stripped := Strip(text);
    if stripped == "" then NoLocalVersion else Strip(LastLine(stripped))
  }

  /**
   * The local line is never empty, is stripped and holds no line break;
   * a file of white space reads as no local version.
   */
  lemma LocalVersionLineShape(content: Option<string>)
    ensures var line := LocalVersionLine(content);
      line != "" && Stripped(line) && forall i :: 0 <= i < |line| ==> !IsLineBreak(line[i])
    ensures content.Some? && AllSpace(content.value) ==> LocalVersionLine(content) == NoLocalVersion
  {
    var line := LocalVersionLine(content);
    if content.Some? {
      var text := Strip(content.value);
      StripIsStripped(content.value);
      if text != "" {
        StrippedLastLine(text);
      }
      if AllSpace(content.value) {
        assert content.value == content.value + [] + [];
        StripPadded(content.value, [], []);
      }
    }
    NoLocalVersionShape();
    if content.None? || line == NoLocalVersion {
      assert line == NoLocalVersion;
    }
  }

  /** The last line of a non-empty stripped text ends in a character that is not white space. */
  lemma StrippedLastLine(text: string)
    requires text != "" && Stripped(text)
    ensures var s := Strip(LastLine(text)); s != "" && Stripped(s) && forall i :: 0 <= i < |s| ==> !IsLineBreak(s[i])
  {
    var last := LastLine(text);
    LastLineShape(text);
    assert last != [] && last[|last| - 1] == text[|text| - 1];
    LastLineStrip(last);
  }

  lemma NoLocalVersionShape()
    ensures NoLocalVersion != "" && Stripped(NoLocalVersion)
    ensures forall i :: 0 <= i < |NoLocalVersion| ==> !IsLineBreak(NoLocalVersion[i])
  {
    var s := NoLocalVersion;
    assert s == "0.0.0: (no local version)";
  }

  /** A line without breaks whose last character is not white space keeps it, and gains no break, when stripped. */
  lemma LastLineStrip(last: string)
    requires last != [] && !IsSpace(last[|last| - 1])
    requires forall i :: 0 <= i < |last| ==> !IsLineBreak(last[i])
    ensures var s := Strip(last); s != "" && Stripped(s) && forall i :: 0 <= i < |s| ==> !IsLineBreak(s[i])
  {
    StripIsStripped(last);
    StripIsInfix(last);
    var s := Strip(last);
    forall i | 0 <= i < |s| ensures !IsLineBreak(s[i]) {
      assert s[i] == last[SpaceEnd(last, 0) + i];
    }
  }

  /**
   * A `versions.txt` whose history ends with a line break and then the
   * current line (stripped, not empty, unbroken) reads as that line,
   * whatever the history holds and whatever white space (a final newline,
   * blank lines) follows it.
   */
  lemma LocalVersionLineOfHistory(history: string, brk: char, line: string, final: string)
    requires IsLineBreak(brk)
    requires line != "" && Stripped(line) && forall i :: 0 <= i < |line| ==> !IsLineBreak(line[i])
    requires AllSpace(final)
    ensures LocalVersionLine(Some(history + [brk] + line + final)) == line
  {
    var s := history + [brk] + line;
    assert s[|s| - 1] == line[|line| - 1];
    StripTrailing(s, final);
    var l: string;
    if AllSpace(history) {
      LineBreakIsSpace(brk);
      AllSpaceAppend(history, [brk]);
      LStripPadded(history + [brk], line);
      l := line;
      LastLineNoBreak(line);
    } else {
      assert s == history + ([brk] + line);
      LStripAppend(history, [brk] + line);
      l := LStrip(history) + [brk] + line;
      LastLineAfterBreak(LStrip(history), brk, line);
    }
    assert LStrip(s) == l;
    assert l[|l| - 1] == line[|line| - 1];
    assert Strip(s) == l;
    StripStripped(line);
    assert CurrentLine(s + final) == line;
  }

  /** A file holding a single current line, with or without white space after it, reads as that line. */
  lemma LocalVersionLineOfOneLine(line: string, final: string)
    requires line != "" && Stripped(line) && forall i :: 0 <= i < |line| ==> !IsLineBreak(line[i])
    requires AllSpace(final)
    ensures LocalVersionLine(Some(line + final)) == line
  {
    StripTrailing(line, final);
    StripStripped(line);
    LastLineNoBreak(line);
    assert CurrentLine(line + final) == line;
  }

  /** A fresh install (no `versions.txt`), or one whose file holds only white space, counts as version 0.0.0. */
  lemma NoLocalVersionIsZero(content: Option<string>)
    requires content.None? || AllSpace(content.value)
    ensures VersionToTuple(ParseVersionLine(LocalVersionLine(content)).version) == Some([0, 0, 0])
  {
    LocalVersionLineShape(content);
    var zero: seq<nat> := [0, 0, 0];
    assert DecimalParts(zero) == ["0", "0", "0"];
    assert FormatVersion(zero) == "0.0.0";
    assert Stripped("0.0.0") && Stripped("(no local version)");
    ParseFormatVersionLine("0.0.0", "(no local version)");
    VersionRoundTrip(zero);
  }

  /**
   * `get_remote_version_info` given the text of the remote `versions.txt`:
   * the last of its lines, stripped; `None` where there is no line and
   * `lines[-1]` raises.
   */
  function RemoteVersionLine(text: string): (line: Option<string>)
    ensures line.Some? <==> text != ""
  {
    if text == "" then None else Some(Strip(LastLine(DropFinalBreak(text))))
  }

  /** The text without the one line break that ends it, if it ends with one (`"\r\n"` counts as one). */
  function DropFinalBreak(text: string): (r: string)
    ensures |r| <= |text| && r == text[..|r|]
  {
    if |text| >= 2 && text[|text| - 2..] == "\r\n" then text[..|text| - 2]
    else if text != [] && IsLineBreak(text[|text| - 1]) then text[..|text| - 1]
    else text
  }

  /** A remote file whose last line is `line`, with or without a final newline, gives that line. */
  lemma RemoteVersionLineOfHistory(history: string, line: string, final: string)
    requires line != "" && Stripped(line) && forall i :: 0 <= i < |line| ==> !IsLineBreak(line[i])
    requires final == "" || final == "\n"
    ensures RemoteVersionLine(history + "\n" + line + final) == Some(line)
  {
    var text := history + "\n" + line + final;
    var body := history + "\n" + line;
    assert text == body + final;
    assert DropFinalBreak(text) == body by {
      if final == "\n" {
        assert text[|text| - 2] == line[|line| - 1];
      } else {
        assert text[|text| - 1] == line[|line| - 1];
      }
    }
    LastLineAfterBreak(history, '\n', line);
    assert line == [] + line + [];
    StripPadded([], line, []);
  }

  /** A remote file of a single line, with or without a final newline, gives that line. */
  lemma RemoteVersionLineOfOneLine(line: string, final: string)
    requires line != "" && Stripped(line) && forall i :: 0 <= i < |line| ==> !IsLineBreak(line[i])
    requires final == "" || final == "\n"
    ensures RemoteVersionLine(line + final) == Some(line)
  {
    var text := line + final;
    assert DropFinalBreak(text) == line by {
      if final == "\n" {
        assert text[|text| - 2] == line[|line| - 1];
      } else {
        assert text[|text| - 1] == line[|line| - 1];
        assert text == line;
      }
    }
    LastLineNoBreak(line);
    StripStripped(line);
  }

  // ---------------------------------------------------------------------------
  // Which files an update deletes and installs

  /** A path relative to the project root (or to the archive's top folder), one name per component. */
  type Path = seq<string>

  /** The directories the walk of the project tree does not enter. */
  const ExcludedDirs: set<string> := {".git", ".svn", "__pycache__", "_temp_update"}

  /** The walk reaches the file: no directory on its path is excluded. */
  predicate Walked(p: Path) {
    forall j :: 0 <= j < |p| - 1 ==> p[j] !in ExcludedDirs
  }

  /** The file's name ends with `.csv` (so does its relative path). */
  predicate IsCsv(p: Path) {
    p != [] && EndsWith(p[|p| - 1], ".csv")
  }

  /** A project file the update deletes: reached by the walk, not a CSV file, and not among the archive's files. */
  predicate Obsolete(p: Path, newFiles: seq<Path>) {
    Walked(p) && !IsCsv(p) && p !in newFiles
  }

  /** The deletion loop: the project files, in walk order, that are obsolete. */
  function Deletions(local: seq<Path>, newFiles: seq<Path>): (deleted: seq<Path>)
    ensures |deleted| <= |local|
  {
    if local == [] then []
    else (if Obsolete(local[0], newFiles) then [local[0]] else []) + Deletions(local[1..], newFiles)
  }

  /** The move loop: the archive files, in walk order, that are not CSV files. */
  function Installs(newFiles: seq<Path>): (moved: seq<Path>)
    ensures |moved| <= |newFiles|
  {
    if newFiles == [] then []
    else (if !IsCsv(newFiles[0]) then [newFiles[0]] else []) + Installs(newFiles[1..])
  }

  /** A file is deleted exactly when it is a project file and obsolete. */
  lemma {:induction false} DeletionsExactly(local: seq<Path>, newFiles: seq<Path>)
    ensures forall p :: p in Deletions(local, newFiles) <==> p in local && Obsolete(p, newFiles)
    decreases |local|
  {
    if local != [] {
      DeletionsExactly(local[1..], newFiles);
      assert local == [local[0]] + local[1..];
    }
  }

  /** A file is installed exactly when it is an archive file and not a CSV file. */
  lemma {:induction false} InstallsExactly(newFiles: seq<Path>)
    ensures forall p :: p in Installs(newFiles) <==> p in newFiles && !IsCsv(p)
    decreases |newFiles|
  {
    if newFiles != [] {
      InstallsExactly(newFiles[1..]);
      assert newFiles == [newFiles[0]] + newFiles[1..];
    }
  }

  /** One more file at the end of the walk is deleted after the others if it is obsolete. */
  lemma {:induction false} DeletionsSnoc(local: seq<Path>, p: Path, newFiles: seq<Path>)
    ensures Deletions(local + [p], newFiles) == Deletions(local, newFiles) + (if Obsolete(p, newFiles) then [p] else [])
    decreases |local|
  {
    if local == [] {
      assert [] + [p] == [p];
    } else {
      assert (local + [p])[1..] == local[1..] + [p];
      DeletionsSnoc(local[1..], p, newFiles);
    }
  }

  /** One more archive file at the end is installed after the others unless it is a CSV file. */
  lemma {:induction false} InstallsSnoc(newFiles: seq<Path>, p: Path)
    ensures Installs(newFiles + [p]) == Installs(newFiles) + (if !IsCsv(p) then [p] else [])
    decreases |newFiles|
  {
    if newFiles == [] {
      assert [] + [p] == [p];
    } else {
      assert (newFiles + [p])[1..] == newFiles[1..] + [p];
      InstallsSnoc(newFiles[1..], p);
    }
  }

  /** The deletion loop of `download_and_replace_update` over the walk of the project tree. */
  method SelectDeletions(local: seq<Path>, newFiles: seq<Path>) returns (deleted: seq<Path>)
    ensures deleted == Deletions(local, newFiles)
  {
    deleted := [];
    for i := 0 to |local|
      invariant deleted == Deletions(local[..i], newFiles)
    {
      assert local[..i + 1] == local[..i] + [local[i]];
      DeletionsSnoc(local[..i], local[i], newFiles);
      if Obsolete(local[i], newFiles) {
        deleted := deleted + [local[i]];
      }
    }
    assert local[..|local|] == local;
  }

  /** The move loop of `download_and_replace_update` over the archive's files. */
  method SelectInstalls(newFiles: seq<Path>) returns (moved: seq<Path>)
    ensures moved == Installs(newFiles)
  {
    moved := [];
    for i := 0 to |newFiles|
      invariant moved == Installs(newFiles[..i])
    {
      assert newFiles[..i + 1] == newFiles[..i] + [newFiles[i]];
      InstallsSnoc(newFiles[..i], newFiles[i]);
      if !IsCsv(newFiles[i]) {
        moved := moved + [newFiles[i]];
      }
    }
    assert newFiles[..|newFiles|] == newFiles;
  }

  /**
   * The project tree after an update: the obsolete files removed, except
   * those in `locked` (where `os.remove` raises `PermissionError` and the
   * loop goes on), then every non-CSV archive file written over its path.
   */
  function UpdatedTree(tree: map<Path, string>, newFiles: seq<Path>, archive: map<Path, string>, locked: set<Path>): map<Path, string>
    requires forall p :: p in newFiles ==> p in archive
  {
    var kept := map p | p in tree && !(Obsolete(p, newFiles) && p !in locked) :: tree[p];
    kept + map p | p in newFiles && !IsCsv(p) :: archive[p]
  }

  /**
   * After an update: every CSV file of the project is still there,
   * unchanged; every non-CSV archive file is in place with the archive's
   * content; the other files are those that were kept, unchanged; and a
   * file is present exactly when it was kept or installed.
   */
  lemma UpdatedTreeContents(tree: map<Path, string>, newFiles: seq<Path>, archive: map<Path, string>, locked: set<Path>)
    requires forall p :: p in newFiles ==> p in archive
    ensures var after := UpdatedTree(tree, newFiles, archive, locked);
      && (forall p :: p in tree && IsCsv(p) ==> p in after && after[p] == tree[p])
      && (forall p :: p in newFiles && !IsCsv(p) ==> p in after && after[p] == archive[p])
      && (forall p :: p in after <==> (p in tree && !(Obsolete(p, newFiles) && p !in locked)) || (p in newFiles && !IsCsv(p)))
      && (forall p :: p in after && p !in newFiles ==> p in tree && after[p] == tree[p])
  {
  }

  /** Files under an excluded directory, and locked files, survive an update unless the archive brings a new version of them. */
  lemma UpdateSparesExcluded(tree: map<Path, string>, newFiles: seq<Path>, archive: map<Path, string>, locked: set<Path>, p: Path)
    requires forall q :: q in newFiles ==> q in archive
    requires p in tree && p !in newFiles && (!Walked(p) || p in locked)
    ensures var after := UpdatedTree(tree, newFiles, archive, locked);
      p in after && after[p] == tree[p]
  {
  }
}
