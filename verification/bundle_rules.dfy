/**
 * The small string rules of bundle parsing: which files are read as event
 * logs, fastlogs, linecard bundles and stack-member bundles, how nested
 * outputs are named, how a Windows path is rewritten for the WSL decoder,
 * and how `safe_parse` reports the outcome of one bundle.
 */
module BundleRules {
  import opened Wrappers
  import opened Text

  // ---------------------------------------------------------------------
  // File selection

  /** File-name prefixes of compressed event logs. */
  const LogFilePrefixes: seq<string> := ["event", "messages", "supportlog", "critical", "diagdump"]

  predicate HasLogPrefix(file: string) {
    exists i :: 0 <= i < |LogFilePrefixes| && StartsWith(file, LogFilePrefixes[i])
  }

  /** How the event-log walk reads a file. */
  datatype EventLogKind = Compressed | Plain | NotEventLog

  /**
   * A `.gz` file with a log prefix is read through gzip; otherwise a `.log`
   * file or any file whose name mentions `journal` is read as text.
   */
  function EventLogKindOf(file: string): (k: EventLogKind)
    ensures k == Compressed <==> EndsWith(file, ".gz") && HasLogPrefix(file)
    ensures k == Plain <==> !(EndsWith(file, ".gz") && HasLogPrefix(file)) && (EndsWith(file, ".log") || Contains(file, "journal"))
  {
    if EndsWith(file, ".gz") && HasLogPrefix(file) then Compressed
    else if EndsWith(file, ".log") || Contains(file, "journal") then Plain
    else NotEventLog
  }

  /** The files the fastlog decoder is run on. */
  predicate IsFastlogFile(file: string) {
    EndsWith(file, ".supportlog") || EndsWith(file, ".supportlog.gz")
  }

  /**
   * A plain `.supportlog` file goes to the fastlog decoder only: the
   * event-log walk reads it as text only when its name mentions `journal`,
   * and never through gzip.
   */
  lemma SupportlogNotEventLog(base: string)
    ensures IsFastlogFile(base + ".supportlog")
    ensures EventLogKindOf(base + ".supportlog") != Compressed
    ensures EventLogKindOf(base + ".supportlog") == Plain <==> Contains(base + ".supportlog", "journal")
  {
    var f := base + ".supportlog";
    assert f[|f| - 3..] == "log";
    assert f[|f| - 4..] == "tlog";
    assert f[|f| - |".supportlog"|..] == ".supportlog";
  }

  /** `re.match(r"lc\d+\.tar\.gz", file)`: anchored at the start only. */
  predicate IsLinecardArchive(file: string) {
    && StartsWith(file, "lc")
    && Run(file[2..], IsDigit) > 0
    && StartsWith(file[2 + Run(file[2..], IsDigit)..], ".tar.gz")
  }

  /** `re.match(r"mem_\d+_support_files\.tar\.gz", file)`: anchored at the start only. */
  predicate IsMemberArchive(file: string) {
    && StartsWith(file, "mem_")
    && Run(file[4..], IsDigit) > 0
    && StartsWith(file[4 + Run(file[4..], IsDigit)..], "_support_files.tar.gz")
  }

  // ---------------------------------------------------------------------
  // Naming

  /** The linecard's output directory name: the file name with every `.tar.gz` removed. */
  function LinecardName(file: string): string {
    ReplaceAll(file, ".tar.gz", "")
  }

  /** The stack member's output directory name: the file name with every `_support_files.tar.gz` removed. */
  function MemberName(file: string): string {
    ReplaceAll(file, "_support_files.tar.gz", "")
  }

  /** The file a diagnostic dump is saved as: the key with path separators flattened. */
  function DiagFileName(name: string, sep: char): string {
    ReplaceAll(name, [sep], "_") + "_diagdump.txt"
  }

  /** No occurrence of `pat` starts inside `a` when `pat` starts with a character `a` lacks. */
  lemma NoOccurrenceInside(a: string, b: string, pat: string)
    requires pat != [] && pat[0] !in a
    ensures forall i :: 0 <= i < |a| ==> !OccursAt(a + b, pat, i)
  {
    forall i | 0 <= i < |a| ensures !OccursAt(a + b, pat, i) {
      assert (a + b)[i] == a[i] && a[i] != pat[0];
      if i + |pat| <= |a + b| {
        assert (a + b)[i..i + |pat|][0] == a[i];
      }
    }
  }

  /** Replacing in `a + pat` where `pat` occurs nowhere inside `a` drops exactly the trailing `pat`. */
  lemma DropTrailing(a: string, pat: string)
    requires pat != []
    requires forall i :: 0 <= i < |a| ==> !OccursAt(a + pat, pat, i)
    ensures ReplaceAll(a + pat, pat, "") == a
  {
    ReplaceAllSkipsPrefix(a, pat, pat, "");
    ReplaceAllAtFront(pat, [], "");
    assert pat + [] == pat;
  }

  /** A linecard bundle `lc<n>.tar.gz` is selected and parsed into the directory `lc<n>`. */
  lemma LinecardRoundTrip(digits: string)
    requires digits != [] && AllChars(digits, IsDigit)
    ensures IsLinecardArchive("lc" + digits + ".tar.gz")
    ensures LinecardName("lc" + digits + ".tar.gz") == "lc" + digits
  {
    var file := "lc" + digits + ".tar.gz";
    assert file[2..] == digits + ".tar.gz";
    RunOfConcat(digits, ".tar.gz", IsDigit);
    assert file[2 + |digits|..] == ".tar.gz";
    var a := "lc" + digits;
    assert '.' !in a by {
      forall i | 0 <= i < |a| ensures a[i] != '.' {
        if i >= 2 {
          assert a[i] == digits[i - 2];
        }
      }
    }
    NoOccurrenceInside(a, ".tar.gz", ".tar.gz");
    DropTrailing(a, ".tar.gz");
  }

  /** A stack-member bundle `mem_<n>_support_files.tar.gz` is selected and parsed into the directory `mem_<n>`. */
  lemma MemberRoundTrip(digits: string)
    requires digits != [] && AllChars(digits, IsDigit)
    ensures IsMemberArchive("mem_" + digits + "_support_files.tar.gz")
    ensures MemberName("mem_" + digits + "_support_files.tar.gz") == "mem_" + digits
  {
    var pat := "_support_files.tar.gz";
    var file := "mem_" + digits + pat;
    assert file[4..] == digits + pat;
    RunOfConcat(digits, pat, IsDigit);
    assert file[4 + |digits|..] == pat;
    var a := "mem_" + digits;
    forall i | 0 <= i < |a| ensures !OccursAt(a + pat, pat, i) {
      if i == 3 {
        assert (a + pat)[4] == digits[0];
        assert pat[1] == 's';
      } else if i >= 4 {
        assert (a + pat)[i] == digits[i - 4];
      }
    }
    DropTrailing(a, pat);
  }

  /** `re.match` is not anchored at the end: a name that merely starts like a linecard bundle is selected too. */
  lemma LinecardMatchIsPrefixOnly(digits: string, tail: string)
    requires digits != [] && AllChars(digits, IsDigit)
    ensures IsLinecardArchive("lc" + digits + ".tar.gz" + tail)
  {
    var file := "lc" + digits + ".tar.gz" + tail;
    assert file[2..] == digits + (".tar.gz" + tail);
    RunOfConcat(digits, ".tar.gz" + tail, IsDigit);
    assert file[2 + |digits|..] == ".tar.gz" + tail;
  }

  /** Linecard and stack-member bundles are told apart by their first letters. */
  lemma LinecardNotMember(file: string)
    ensures !(IsLinecardArchive(file) && IsMemberArchive(file))
  {
    if IsLinecardArchive(file) {
      assert file[0] == 'l';
    }
  }

  /** The diagnostic file name keeps the key's length, flattens only separators, and contains no separator. */
  lemma DiagFileNameShape(name: string, sep: char)
    requires sep == '/' || sep == '\\'
    ensures var body := ReplaceAll(name, [sep], "_");
      && DiagFileName(name, sep) == body + "_diagdump.txt"
      && |body| == |name|
      && (forall i :: 0 <= i < |name| ==> body[i] == (if name[i] == sep then '_' else name[i]))
      && sep !in DiagFileName(name, sep)
  {
    ReplaceCharPointwise(name, sep, '_');
    ReplaceCharRemoves(name, sep, "_");
    var body := ReplaceAll(name, [sep], "_");
    assert sep !in "_diagdump.txt";
    assert forall i :: 0 <= i < |body + "_diagdump.txt"| ==> (body + "_diagdump.txt")[i] != sep by {
      forall i | 0 <= i < |body + "_diagdump.txt"| ensures (body + "_diagdump.txt")[i] != sep {
        if i < |body| {
          assert (body + "_diagdump.txt")[i] == body[i];
        } else {
          assert (body + "_diagdump.txt")[i] == "_diagdump.txt"[i - |body|];
        }
      }
    }
  }

  // ---------------------------------------------------------------------
  // `translate_path_for_wsl`

  /** `ntpath.splitdrive` for drive-letter paths: a path whose second character is `:` has a two-character drive. */
  function SplitDrive(p: string): (r: (string, string))
    ensures r.0 + r.1 == p
    ensures r.0 == [] || |r.0| == 2
  {
    if |p| >= 2 && p[1] == ':' then (p[..2], p[2..]) else ([], p)
  }

  /**
   * A Windows path as the decoder sees it under WSL: `/mnt/`, the drive
   * letter in lower case, then the rest with backslashes turned into
   * slashes; a path without a drive is refused.
   * `abspath` is `os.path.abspath`, which consults the working directory.
   */
  function TranslatePathForWsl(path: string, abspath: string -> string): (r: Result<string, string>)
    ensures r.Failure? <==> |SplitDrive(abspath(path)).0| < 2
    ensures r.Failure? ==> r.error == "Invalid path for WSL translation: '" + path + "'"
  {
    var (drive, rest) := SplitDrive(abspath(path));
    if drive == [] || |drive| < 2 then Failure("Invalid path for WSL translation: '" + path + "'")
    else Success("/mnt/" + [Lower(drive[0])] + ReplaceAll(rest, "\\", "/"))
  }

  /**
   * A translated path starts with `/mnt/` and the lower-cased drive letter,
   * holds no backslash after it, and follows the original path after the colon one
   * character for one, with backslashes turned into slashes.
   */
  lemma WslPathShape(path: string, abspath: string -> string)
    requires TranslatePathForWsl(path, abspath).Success?
    ensures var a := abspath(path);
      var w := TranslatePathForWsl(path, abspath).value;
      && |a| >= 2 && a[1] == ':'
      && |w| == |a| + 4
      && w[..5] == "/mnt/" && w[5] == Lower(a[0])
      && (forall i :: 2 <= i < |a| ==> w[i + 4] == (if a[i] == '\\' then '/' else a[i]))
      && (forall i :: 6 <= i < |w| ==> w[i] != '\\')
  {
    var a := abspath(path);
    var rest := a[2..];
    ReplaceCharPointwise(rest, '\\', '/');
    ReplaceCharRemoves(rest, '\\', "/");
    var body := ReplaceAll(rest, "\\", "/");
    var w := "/mnt/" + [Lower(a[0])] + body;
    assert w == TranslatePathForWsl(path, abspath).value;
    forall i | 2 <= i < |a| ensures w[i + 4] == (if a[i] == '\\' then '/' else a[i]) {
      assert w[i + 4] == body[i - 2];
      assert rest[i - 2] == a[i];
    }
    forall i | 6 <= i < |w| ensures w[i] != '\\' {
      assert w[i] == body[i - 6];
    }
  }

  // ---------------------------------------------------------------------
  // `safe_parse`

  /** What running `parse_bundle` on a bundle did. */
  datatype ParseOutcome =
    | Parsed               // the bundle was extracted and its outputs written
    | ExtractionFailed     // extraction failed: `parse_bundle` logged it and returned None
    | Raised(error: string) // `parse_bundle` raised

  /** The per-bundle report of a batch run. */
  datatype Report =
    | SuccessReport(path: string, output: string)
    | ErrorReport(path: string, error: string)

  /**
   * `Path(path).stem`: the last path component without its last suffix. A
   * suffix starts at the last dot, when that dot is neither the first nor
   * the last character of the component.
   */
  function Stem(path: string): (r: string)
    ensures '/' !in r
    ensures r <= BaseName(path)
    ensures r == BaseName(path) <==> !(0 < LastDot(BaseName(path)) < |BaseName(path)| - 1)
    ensures r != BaseName(path) ==>
      0 < |r| < |BaseName(path)| - 1 && BaseName(path)[|r|] == '.'
      && forall i :: |r| < i < |BaseName(path)| ==> BaseName(path)[i] != '.'
  {
    var name := BaseName(path);
    var dot := LastDot(name);
    if 0 < dot < |name| - 1 then name[..dot] else name
  }

  /** The position of the last `.`, or 0 when there is none (a leading dot does not start a suffix). */
  function LastDot(s: string): (n: nat)
    ensures n < |s| || n == 0
    ensures 0 < n ==> s[n] == '.'
    ensures forall i :: n < i < |s| ==> s[i] != '.'
    decreases |s|
  {
    if s == [] then 0
    else if s[|s| - 1] == '.' then |s| - 1
    else LastDot(s[..|s| - 1])
  }

  /** The directory a bundle's results are written to. */
  function OutputDir(path: string): string {
    Stem(path) + "_log_analysis_results"
  }

  /** Only the last suffix is dropped: `<base>.tar.gz` is parsed into `<base>.tar_log_analysis_results`. */
  lemma OutputDirOfArchive(dir: string, base: string)
    requires dir == [] || dir[|dir| - 1] == '/'
    requires base != [] && '/' !in base && '.' !in base
    ensures Stem(dir + base + ".tar.gz") == base + ".tar"
    ensures OutputDir(dir + base + ".tar.gz") == base + ".tar" + "_log_analysis_results"
  {
    var name := base + ".tar.gz";
    var path := dir + base + ".tar.gz";
    var d := |base| + 4;
    assert LastDot(name) == d && '/' !in name by { ArchiveName(base); }
    assert BaseName(path) == name by {
      assert path == dir + name;
      BaseNameSuffix(dir, name);
    }
    assert Stem(path) == name[..d] by { StemAt(path, name, d); }
    assert name[..d] == base + ".tar";
  }

  lemma StemAt(path: string, name: string, d: nat)
    requires BaseName(path) == name && LastDot(name) == d && 0 < d < |name| - 1
    ensures Stem(path) == name[..d]
  {
  }

  /** The last dot of `<base>.tar.gz` is the one before `gz`, and the name has no slash. */
  lemma ArchiveName(base: string)
    requires '/' !in base && '.' !in base
    ensures '/' !in base + ".tar.gz"
    ensures LastDot(base + ".tar.gz") == |base| + 4
  {
    var name := base + ".tar.gz";
    var n := |base| + 4;
    forall i | 0 <= i < |name| ensures name[i] != '/' {
      if i < |base| {
        assert name[i] == base[i];
      }
    }
    assert name[..|name| - 1] == name[..n + 2] && name[n + 2] == 'z';
    assert name[..n + 2][..n + 1] == name[..n + 1] && name[n + 1] == 'g';
    assert name[..n + 1][n] == '.';
    assert LastDot(name[..n + 1]) == n;
    assert LastDot(name[..n + 2]) == n;
  }

  /** The base name of a path ending in a slash-free name is that name. */
  lemma {:induction false} BaseNameSuffix(dir: string, name: string)
    requires dir == [] || dir[|dir| - 1] == '/'
    requires name != [] && '/' !in name
    ensures BaseName(dir + name) == name
    decreases |name|
  {
    var s := dir + name;
    assert s[|s| - 1] == name[|name| - 1];
    assert s[..|s| - 1] == dir + name[..|name| - 1];
    if |name| == 1 {
      assert name[..0] == [];
      assert dir + [] == dir;
      assert BaseName(dir) == [];
    } else {
      BaseNameSuffix(dir, name[..|name| - 1]);
    }
  }

  /**
   * `safe_parse` as written: a bundle already parsed is reported as a
   * success without running again; otherwise the bundle is parsed and any
   * exception becomes an error report. A failed extraction raises nothing,
   * so it is reported as a success.
   */
  function SafeParseAsWritten(path: string, alreadyParsed: bool, run: ParseOutcome): (r: Report)
    ensures r.path == path
    ensures r.ErrorReport? <==> !alreadyParsed && run.Raised?
  {
    if alreadyParsed then SuccessReport(path, OutputDir(path))
    else match run
      case Raised(e) => ErrorReport(path, e)
      case _ => SuccessReport(path, OutputDir(path))
  }

  /** A bundle that cannot be extracted is reported as parsed successfully. */
  lemma ExtractionFailureReportedAsSuccess(path: string)
    ensures SafeParseAsWritten(path, false, ExtractionFailed).SuccessReport?
  {
  }

  /** `safe_parse` with a failed extraction reported as an error. */
  function SafeParse(path: string, alreadyParsed: bool, run: ParseOutcome): (r: Report)
    ensures r.path == path
    ensures r.SuccessReport? <==> alreadyParsed || run == Parsed
    ensures r.SuccessReport? ==> r.output == OutputDir(path)
  {
    if alreadyParsed then SuccessReport(path, OutputDir(path))
    else match run
      case Parsed => SuccessReport(path, OutputDir(path))
      case ExtractionFailed => ErrorReport(path, "Failed to extract " + path)
      case Raised(e) => ErrorReport(path, e)
  }

  /** The two agree except on a failed extraction, and only a failed extraction separates them. */
  lemma SafeParseDiffers(path: string, alreadyParsed: bool, run: ParseOutcome)
    ensures SafeParse(path, alreadyParsed, run) != SafeParseAsWritten(path, alreadyParsed, run)
      <==> !alreadyParsed && run == ExtractionFailed
  {
  }
}
