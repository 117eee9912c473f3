/**
 * Fastlog entry segmentation: the loop over the decoder's output lines in
 * `collect_fastlog_entries`. A marker line `(DD Mon YY HH:MM:SS.ffff...`
 * opens an entry; the lines up to the next marker are its continuation.
 * An entry is emitted only when its marker's timestamp parses.
 *
 * The decoder is an external program, so its output is the input here.
 * The timestamp parser (`strptime("%d %b %y %H:%M:%S.%f")` followed by UTC
 * conversion) is the partial oracle `parse`.
 */
module Fastlog {
  import opened Wrappers
  import opened Text
  import opened Time
  import opened Segments

  /** One emitted record; its source tag is always "fastlog". */
  datatype FastlogEntry = FastlogEntry(timestamp: Instant, process: string, message: string)

  /** The timestamp parser applied to the truncated marker text. */
  type StampParser = string -> Option<Instant>

  /** `\(\d{2} \w{3} \d{2} \d{2}:\d{2}:\d{2}\.\d+` at the start of a line. */
  predicate IsMarker(line: string) {
    && |line| >= 21 && line[0] == '('
    && IsDigit(line[1]) && IsDigit(line[2]) && line[3] == ' '
    && IsWordChar(line[4]) && IsWordChar(line[5]) && IsWordChar(line[6]) && line[7] == ' '
    && IsDigit(line[8]) && IsDigit(line[9]) && line[10] == ' '
    && IsDigit(line[11]) && IsDigit(line[12]) && line[13] == ':'
    && IsDigit(line[14]) && IsDigit(line[15]) && line[16] == ':'
    && IsDigit(line[17]) && IsDigit(line[18]) && line[19] == '.' && IsDigit(line[20])
  }

  /** The `ts` group of a marker: everything after the parenthesis up to the end of the fraction. */
  function MarkerStamp(line: string): (r: string)
    requires IsMarker(line)
    ensures |r| >= 20 && r[..19] == line[1..20] && r[18] == '.'
    ensures AllChars(r[19..], IsDigit)
    ensures 1 + |r| <= |line| && r == line[1..1 + |r|]
    ensures 1 + |r| == |line| || !IsDigit(line[1 + |r|])
  {
    var f := Run(line[20..], IsDigit);
    RunPrefix(line[20..], IsDigit, f);
    assert line[1..20 + f][19..] == line[20..][..f];
    line[1..20 + f]
  }

  /** `re.sub(r'\.(\d{6})\d+', r'.\1', s)`: every fraction longer than six digits is cut to six. */
  function TruncateFraction(s: string): string
    decreases |s|
  {
    if s == [] then []
    else if s[0] == '.' && Run(s[1..], IsDigit) >= 7 then s[..7] + TruncateFraction(s[1 + Run(s[1..], IsDigit)..])
    else [s[0]] + TruncateFraction(s[1..])
  }

  /** Truncation leaves a prefix without a dot alone. */
  lemma {:induction false} TruncateSkips(p: string, rest: string)
    requires '.' !in p
    ensures TruncateFraction(p + rest) == p + TruncateFraction(rest)
    decreases |p|
  {
    if p == [] {
      assert p + rest == rest;
    } else {
      assert (p + rest)[0] == p[0];
      assert (p + rest)[1..] == p[1..] + rest;
      TruncateSkips(p[1..], rest);
    }
  }

  /**
   * A dot-free text followed by a fraction: a fraction of more than six
   * digits keeps exactly its first six, a shorter one is left unchanged.
   */
  lemma TruncateFractionDigits(p: string, digits: string)
    requires '.' !in p && digits != [] && AllChars(digits, IsDigit)
    ensures TruncateFraction(p + "." + digits)
            == p + "." + (if |digits| > 6 then digits[..6] else digits)
  {
    var f := "." + digits;
    assert p + "." + digits == p + f;
    TruncateSkips(p, f);
    assert f[1..] == digits;
    RunOfConcat(digits, [], IsDigit);
    assert digits + [] == digits;
    if |digits| > 6 {
      assert f[1 + |digits|..] == [];
      assert f[..7] == "." + digits[..6];
    } else {
      assert '.' !in digits by {
        forall i | 0 <= i < |digits| ensures digits[i] != '.' { }
      }
      TruncateSkips(digits, []);
      assert digits + [] == digits;
    }
  }

  /** The parsed timestamp of a marker line, if its truncated text parses. */
  function StampOf(line: string, parse: StampParser): Option<Instant>
  {
    if IsMarker(line) then parse(TruncateFraction(MarkerStamp(line))) else None
  }

  /** `[l.strip() for l in lines]` */
  function StripAll(lines: seq<string>): (r: seq<string>)
    ensures |r| == |lines| && forall i :: 0 <= i < |lines| ==> r[i] == Strip(lines[i])
  {
    seq(|lines|, i requires 0 <= i < |lines| => Strip(lines[i]))
  }

  lemma StripAllSnoc(lines: seq<string>, line: string)
    ensures StripAll(lines + [line]) == StripAll(lines) + [Strip(line)]
  {
  }

  /** The entry a segment yields: none when its marker's timestamp does not parse. */
  function EntryOf(seg: Segment, process: string, parse: StampParser): Option<FastlogEntry>
  {
    match StampOf(seg.head, parse)
    case None => None
    case Some(t) => Some(FastlogEntry(t, process, Join(StripAll([seg.head] + seg.body), "\n")))
  }

  /** The entries of a run of segments, in order. */
  function EntriesOf(segs: seq<Segment>, process: string, parse: StampParser): seq<FastlogEntry>
  {
    if segs == [] then []
    else
      EntriesOf(segs[..|segs| - 1], process, parse)
      + match EntryOf(segs[|segs| - 1], process, parse) case None => [] case Some(e) => [e]
  }

  /** The entries that the loop emits for the decoder output `lines`. */
  function FastlogEntries(lines: seq<string>, process: string, parse: StampParser): seq<FastlogEntry>
  {
    EntriesOf(Cut(lines, IsMarker), process, parse)
  }

  /** The entries of the decoder file `fname`, whose output is `lines`: each carries the file's process name. */
  function FileEntries(fname: string, lines: seq<string>, parse: StampParser): seq<FastlogEntry>
  {
    FastlogEntries(lines, ProcessName(fname), parse)
  }

  /** What the loop state holds after reading `read`. */
  predicate LoopState(read: seq<string>, entries: seq<FastlogEntry>, buffer: seq<string>,
                      timestamp: Option<Instant>, process: string, parse: StampParser)
  {
    var segs := Cut(read, IsMarker);
    if segs == [] then entries == [] && timestamp.None?
    else
      var last := segs[|segs| - 1];
      && entries == EntriesOf(segs[..|segs| - 1], process, parse)
      && timestamp == StampOf(last.head, parse)
      && (timestamp.Some? ==> buffer == StripAll([last.head] + last.body))
  }

  /** The buffered entry is emitted when the buffer is non-empty and has a timestamp. */
  function Flush(entries: seq<FastlogEntry>, buffer: seq<string>, timestamp: Option<Instant>,
                 process: string): seq<FastlogEntry>
  {
    if buffer != [] && timestamp.Some? then entries + [FastlogEntry(timestamp.value, process, Join(buffer, "\n"))]
    else entries
  }

  lemma EntriesSnoc(segs: seq<Segment>, s: Segment, process: string, parse: StampParser)
    ensures EntriesOf(segs + [s], process, parse)
            == EntriesOf(segs, process, parse) + match EntryOf(s, process, parse) case None => [] case Some(e) => [e]
  {
    assert (segs + [s])[..|segs|] == segs;
  }

  /** Flushing the open segment's buffer emits exactly that segment's entry. */
  lemma FlushLast(read: seq<string>, entries: seq<FastlogEntry>, buffer: seq<string>,
                  timestamp: Option<Instant>, process: string, parse: StampParser)
    requires LoopState(read, entries, buffer, timestamp, process, parse)
    ensures Flush(entries, buffer, timestamp, process) == FastlogEntries(read, process, parse)
  {
    var segs := Cut(read, IsMarker);
    if segs != [] {
      var last := segs[|segs| - 1];
      assert segs[..|segs| - 1] + [last] == segs;
      EntriesSnoc(segs[..|segs| - 1], last, process, parse);
      if timestamp.Some? {
        assert |buffer| == 1 + |last.body|;
        assert EntryOf(last, process, parse) == Some(FastlogEntry(timestamp.value, process, Join(buffer, "\n")));
      } else {
        assert EntryOf(last, process, parse) == None;
      }
    }
  }

  /** A marker line flushes the open entry and opens its own segment. */
  lemma MarkerStep(read: seq<string>, line: string, entries: seq<FastlogEntry>, buffer: seq<string>,
                   timestamp: Option<Instant>, process: string, parse: StampParser)
    requires IsMarker(line)
    requires LoopState(read, entries, buffer, timestamp, process, parse)
    ensures var ts := parse(TruncateFraction(MarkerStamp(line)));
      LoopState(read + [line], Flush(entries, buffer, timestamp, process),
                if ts.None? then [] else [Strip(line)], ts, process, parse)
  {
    CutSnoc(read, line, IsMarker);
    FlushLast(read, entries, buffer, timestamp, process, parse);
    var segs := Cut(read, IsMarker);
    var next := segs + [Segment(line, [])];
    assert next[..|next| - 1] == segs;
    assert [line] + [] == [line];
  }

  /** Any other line joins the open segment, or is dropped when none is open. */
  lemma OtherStep(read: seq<string>, line: string, entries: seq<FastlogEntry>, buffer: seq<string>,
                  timestamp: Option<Instant>, process: string, parse: StampParser)
    requires !IsMarker(line)
    requires LoopState(read, entries, buffer, timestamp, process, parse)
    ensures LoopState(read + [line], entries, buffer + [Strip(line)], timestamp, process, parse)
  {
    CutSnoc(read, line, IsMarker);
    var segs := Cut(read, IsMarker);
    if segs != [] {
      var last := segs[|segs| - 1];
      var next := segs[..|segs| - 1] + [Segment(last.head, last.body + [line])];
      assert next[..|next| - 1] == segs[..|segs| - 1];
      assert [last.head] + (last.body + [line]) == ([last.head] + last.body) + [line];
      StripAllSnoc([last.head] + last.body, line);
    }
  }

  /**
   * The loop of `collect_fastlog_entries` over one decoder output: a marker
   * flushes the buffered entry when it has a timestamp, then starts a new
   * buffer with the stripped marker; a marker whose timestamp fails empties
   * the buffer; any other line is appended stripped.
   */
  method CollectEntries(fname: string, lines: seq<string>, parse: StampParser)
    returns (entries: seq<FastlogEntry>)
    ensures entries == FileEntries(fname, lines, parse)
  {
    var processName := ProcessName(fname);
    entries := [];
    var buffer: seq<string> := [];
    var timestamp: Option<Instant> := None;
    var i := 0;
    while i < |lines|
      invariant 0 <= i <= |lines|
      invariant LoopState(lines[..i], entries, buffer, timestamp, processName, parse)
    {
      var line := lines[i];
      assert lines[..i + 1] == lines[..i] + [line];
      if IsMarker(line) {
        MarkerStep(lines[..i], line, entries, buffer, timestamp, processName, parse);
        if buffer != [] && timestamp.Some? {
          entries := entries + [FastlogEntry(timestamp.value, processName, Join(buffer, "\n"))];
        }
        buffer := [Strip(line)];
        timestamp := parse(TruncateFraction(MarkerStamp(line)));
        if timestamp.None? {
          buffer := [];
        }
      } else {
        OtherStep(lines[..i], line, entries, buffer, timestamp, processName, parse);
        buffer := buffer + [Strip(line)];
      }
      i := i + 1;
    }
    assert lines[..i] == lines;
    FlushLast(lines, entries, buffer, timestamp, processName, parse);
    if buffer != [] && timestamp.Some? {
      entries := entries + [FastlogEntry(timestamp.value, processName, Join(buffer, "\n"))];
    }
  }

  // ---------------------------------------------------------------------
  // Properties of the emitted entries

  /** Entries of consecutive runs of segments are emitted in order. */
  lemma {:induction false} EntriesAppend(s1: seq<Segment>, s2: seq<Segment>, process: string, parse: StampParser)
    ensures EntriesOf(s1 + s2, process, parse) == EntriesOf(s1, process, parse) + EntriesOf(s2, process, parse)
    decreases |s2|
  {
    if s2 == [] {
      assert s1 + s2 == s1;
    } else {
      var init := s2[..|s2| - 1];
      var last := s2[|s2| - 1];
      assert s1 + s2 == (s1 + init) + [last];
      assert init + [last] == s2;
      EntriesAppend(s1, init, process, parse);
      EntriesSnoc(s1 + init, last, process, parse);
      EntriesSnoc(init, last, process, parse);
    }
  }

  lemma {:induction false} EntriesBound(segs: seq<Segment>, process: string, parse: StampParser)
    ensures |EntriesOf(segs, process, parse)| <= |segs|
  {
    if segs != [] {
      EntriesBound(segs[..|segs| - 1], process, parse);
    }
  }

  /** At most one entry per marker line. */
  lemma AtMostOnePerMarker(lines: seq<string>, process: string, parse: StampParser)
    ensures |FastlogEntries(lines, process, parse)| <= MarkerCount(lines, IsMarker)
  {
    EntriesBound(Cut(lines, IsMarker), process, parse);
    CutCount(lines, IsMarker);
  }

  /**
   * Every entry comes from one segment whose marker timestamp parsed: its
   * timestamp is that marker's, its process is the file's, and its message
   * is the stripped marker line and following lines joined by newlines.
   */
  lemma {:induction false} EntriesFromSegments(segs: seq<Segment>, process: string, parse: StampParser)
    ensures forall k :: 0 <= k < |EntriesOf(segs, process, parse)| ==>
      exists i :: 0 <= i < |segs| && EntryOf(segs[i], process, parse) == Some(EntriesOf(segs, process, parse)[k])
  {
    if segs != [] {
      var init := segs[..|segs| - 1];
      EntriesFromSegments(init, process, parse);
      var es := EntriesOf(segs, process, parse);
      var ei := EntriesOf(init, process, parse);
      var last := segs[|segs| - 1];
      assert es == ei + match EntryOf(last, process, parse) case None => [] case Some(e) => [e];
      forall k | 0 <= k < |es|
        ensures exists i :: 0 <= i < |segs| && EntryOf(segs[i], process, parse) == Some(es[k])
      {
        if k < |ei| {
          var i :| 0 <= i < |init| && EntryOf(init[i], process, parse) == Some(ei[k]);
          assert segs[i] == init[i];
          assert es[k] == ei[k];
          assert EntryOf(segs[i], process, parse) == Some(es[k]);
        } else {
          assert EntryOf(last, process, parse) == Some(es[k]);
          assert EntryOf(segs[|segs| - 1], process, parse) == Some(es[k]);
        }
      }
    } else {
      assert EntriesOf(segs, process, parse) == [];
    }
  }

  /** What each entry of the decoder file `fname` is. */
  lemma EntryShape(fname: string, lines: seq<string>, parse: StampParser, k: nat)
    requires k < |FileEntries(fname, lines, parse)|
    ensures var e := FileEntries(fname, lines, parse)[k];
      exists i :: 0 <= i < |Cut(lines, IsMarker)| &&
        var seg := Cut(lines, IsMarker)[i];
        && IsMarker(seg.head)
        && StampOf(seg.head, parse) == Some(e.timestamp)
        && e.process == ProcessName(fname)
        && e.message == Join(StripAll([seg.head] + seg.body), "\n")
  {
    var process := ProcessName(fname);
    var segs := Cut(lines, IsMarker);
    var es := EntriesOf(segs, process, parse);
    assert FileEntries(fname, lines, parse) == es;
    EntriesFromSegments(segs, process, parse);
    var i :| 0 <= i < |segs| && EntryOf(segs[i], process, parse) == Some(es[k]);
    EntryOfShape(segs[i], process, parse, es[k]);
    CutShape(lines, IsMarker);
    assert IsMarker(segs[i].head);
  }

  lemma EntryOfShape(seg: Segment, process: string, parse: StampParser, e: FastlogEntry)
    requires EntryOf(seg, process, parse) == Some(e)
    ensures StampOf(seg.head, parse) == Some(e.timestamp)
    ensures e.process == process
    ensures e.message == Join(StripAll([seg.head] + seg.body), "\n")
  {
  }

  /** Lines before the first marker never reach an entry. */
  lemma PreambleIgnored(pre: seq<string>, rest: seq<string>, process: string, parse: StampParser)
    requires forall i :: 0 <= i < |pre| ==> !IsMarker(pre[i])
    requires rest == [] || IsMarker(rest[0])
    ensures FastlogEntries(pre + rest, process, parse) == FastlogEntries(rest, process, parse)
  {
    SkipsPreamble(pre, rest, IsMarker);
  }

  /** The entries of a single segment. */
  lemma EntriesSingle(s: Segment, process: string, parse: StampParser)
    ensures EntriesOf([s], process, parse) == match EntryOf(s, process, parse) case None => [] case Some(e) => [e]
  {
    EntriesSnoc([], s, process, parse);
    assert [] + [s] == [s];
  }

  /**
   * A marker whose timestamp does not parse takes its continuation lines
   * with it: the output is as if neither were there.
   */
  lemma FailedMarkerDropped(a: seq<string>, m: string, body: seq<string>, b: seq<string>,
                            process: string, parse: StampParser)
    requires IsMarker(m) && StampOf(m, parse).None?
    requires forall i :: 0 <= i < |body| ==> !IsMarker(body[i])
    requires b == [] || IsMarker(b[0])
    ensures FastlogEntries(a + [m] + body + b, process, parse) == FastlogEntries(a + b, process, parse)
  {
    assert a + [m] + body + b == a + ([m] + body + b);
    SegmentsAround(a, m, body, b);
    SkipSilentSegment(Cut(a, IsMarker), Segment(m, body), Cut(b, IsMarker), process, parse);
  }

  /** A segment that yields no entry can be removed from between two others. */
  lemma SkipSilentSegment(s1: seq<Segment>, s: Segment, s2: seq<Segment>, process: string, parse: StampParser)
    requires EntryOf(s, process, parse).None?
    ensures EntriesOf(s1 + ([s] + s2), process, parse) == EntriesOf(s1 + s2, process, parse)
  {
    EntriesSingle(s, process, parse);
    EntriesAppend(s1, [s] + s2, process, parse);
    EntriesAppend([s], s2, process, parse);
    EntriesAppend(s1, s2, process, parse);
  }

  /** The segments around a single marker segment. */
  lemma SegmentsAround(a: seq<string>, m: string, body: seq<string>, b: seq<string>)
    requires IsMarker(m)
    requires forall i :: 0 <= i < |body| ==> !IsMarker(body[i])
    requires b == [] || IsMarker(b[0])
    ensures Cut(a + ([m] + body + b), IsMarker) == Cut(a, IsMarker) + ([Segment(m, body)] + Cut(b, IsMarker))
    ensures Cut(a + b, IsMarker) == Cut(a, IsMarker) + Cut(b, IsMarker)
  {
    var mid := [m] + body;
    CutAppend(a, mid + b, IsMarker);
    CutAppend(mid, b, IsMarker);
    CutSingle(m, body, IsMarker);
    CutAppend(a, b, IsMarker);
  }

  // ---------------------------------------------------------------------
  // The process name

  /** `basename(fname).replace(".supportlog", "").replace(".gz", "")` */
  function ProcessName(fname: string): string {
    ReplaceAll(ReplaceAll(BaseName(fname), ".supportlog", ""), ".gz", "")
  }

  /** A text without a dot has no occurrence of a dotted pattern starting inside it. */
  lemma NoDottedOccurrence(base: string, rest: string, pat: string)
    requires '.' !in base && pat != [] && pat[0] == '.'
    ensures forall i :: 0 <= i < |base| ==> !OccursAt(base + rest, pat, i)
  {
    forall i | 0 <= i < |base| ensures !OccursAt(base + rest, pat, i) {
      assert (base + rest)[i] == base[i];
    }
  }

  /** Replacing a dotted suffix after a dot-free text removes it. */
  lemma DropDottedSuffix(base: string, suffix: string, rest: string)
    requires '.' !in base && suffix != [] && suffix[0] == '.'
    ensures ReplaceAll(base + (suffix + rest), suffix, "") == base + ReplaceAll(rest, suffix, "")
  {
    NoDottedOccurrence(base, suffix + rest, suffix);
    ReplaceAllSkipsPrefix(base, suffix + rest, suffix, "");
    ReplaceAllAtFront(suffix, rest, "");
  }

  /** The same, when the suffix ends the text. */
  lemma DropDottedTail(base: string, suffix: string)
    requires '.' !in base && suffix != [] && suffix[0] == '.'
    ensures ReplaceAll(base + suffix, suffix, "") == base
  {
    assert suffix + [] == suffix;
    DropDottedSuffix(base, suffix, []);
    ReplaceAllShort([], suffix, "");
    assert base + [] == base;
  }

  /** A dot-free text has nothing to replace. */
  lemma NothingDotted(base: string, pat: string)
    requires '.' !in base && pat != [] && pat[0] == '.'
    ensures ReplaceAll(base, pat, "") == base
  {
    NoDottedOccurrence(base, [], pat);
    assert base + [] == base;
    ReplaceAllSkipsPrefix(base, [], pat, "");
  }

  /**
   * For the decoder's files `<name>.supportlog` and `<name>.supportlog.gz`,
   * with a dot-free name, the process is the name itself.
   */
  lemma ProcessNameOfSupportlog(base: string)
    requires '.' !in base && '/' !in base
    ensures ProcessName(base + ".supportlog") == base
    ensures ProcessName(base + ".supportlog.gz") == base
  {
    BaseNameOfName(base + ".supportlog");
    DropDottedTail(base, ".supportlog");
    NothingDotted(base, ".gz");
    BaseNameOfName(base + ".supportlog.gz");
    assert ".supportlog.gz" == ".supportlog" + ".gz";
    DropDottedSuffix(base, ".supportlog", ".gz");
    ReplaceAllShort(".gz", ".supportlog", "");
    DropDottedTail(base, ".gz");
  }
  /** Every entry decoded from `<base>.supportlog` or `<base>.supportlog.gz` carries the process name `<base>`. */
  lemma SupportlogEntriesProcess(base: string, gz: bool, lines: seq<string>, parse: StampParser)
    requires '.' !in base && '/' !in base
    ensures var fname := base + (if gz then ".supportlog.gz" else ".supportlog");
      forall k :: 0 <= k < |FileEntries(fname, lines, parse)| ==> FileEntries(fname, lines, parse)[k].process == base
  {
    var fname := base + (if gz then ".supportlog.gz" else ".supportlog");
    ProcessNameOfSupportlog(base);
    forall k | 0 <= k < |FileEntries(fname, lines, parse)|
      ensures FileEntries(fname, lines, parse)[k].process == base
    {
      EntryShape(fname, lines, parse, k);
    }
  }

}
