/**
 * `split_showtech`: cutting a show-tech dump into one file per
 * `Command : show X` section and indexing the files by command.
 *
 * The loop's effects are modelled as values: `sections` is the index it
 * returns, and `files` maps each written file name (inside the `showtech`
 * directory) to the lines written to it; a later write to the same name
 * replaces the earlier one, as reopening the file for writing does.
 */
module Showtech {
  import opened Wrappers
  import opened Text
  import opened Segments

  // ---------------------------------------------------------------------
  // `re.search(r'Command\s*:\s*show (.+)', line)`

  /** The pattern matched at the start of `s`: the `(.+)` group, if it matches. */
  function MatchCommandAt(s: string): (r: Option<string>)
    ensures r.Some? ==> r.value != [] && '\n' !in r.value
  {
    if !("Command" <= s) then None
    else
      var a := s[7..];
      var w1 := Run(a, IsSpace);
      if w1 == |a| || a[w1] != ':' then None
      else
        var b := a[w1 + 1..];
        var c := b[Run(b, IsSpace)..];
        if !("show " <= c) || Run(c[5..], NotNewline) == 0 then None
        else
          var g := TakeLine(c[5..]);
          TakeLineShape(c[5..]);
          Some(g)
  }

  /** The leftmost match anywhere in the line. */
  function SearchCommand(line: string): Option<string>
    decreases |line|
  {
    if MatchCommandAt(line).Some? then MatchCommandAt(line)
    else if line == [] then None
    else SearchCommand(line[1..])
  }

  predicate IsCommandLine(line: string) {
    SearchCommand(line).Some?
  }

  /** The section key: `f"show {match.group(1).strip()}"`. */
  function KeyOf(line: string): string {
    match SearchCommand(line)
    case None => "show "
    case Some(g) => "show " + Strip(g)
  }

  /** The file a section is written to: spaces and slashes of the key become underscores. */
  function SectionFile(key: string): string {
    "showtech_" + ReplaceAll(ReplaceAll(key, " ", "_"), "/", "_") + ".txt"
  }

  /** The index value: the file's path relative to the output directory. */
  function SectionPath(key: string): string {
    "showtech/" + SectionFile(key)
  }

  // ---------------------------------------------------------------------
  // The effect of the loop, on the segments read so far

  /**
   * The index after the sections `segs` have been flushed, in order, each
   * under the key `key` gives its command line (`KeyOf` in the loop).
   */
  function IndexOf(segs: seq<Segment>, key: string -> string): map<string, string>
  {
    if segs == [] then map[]
    else
      var k := key(segs[|segs| - 1].head);
      IndexOf(segs[..|segs| - 1], key)[k := SectionPath(k)]
  }

  /** The files after the sections `segs` have been flushed, in order. */
  function FilesOf(segs: seq<Segment>, key: string -> string): map<string, seq<string>>
  {
    if segs == [] then map[]
    else
      var s := segs[|segs| - 1];
      FilesOf(segs[..|segs| - 1], key)[SectionFile(key(s.head)) := [s.head] + s.body]
  }

  /** The index `split_showtech` returns for a dump. */
  function ShowtechIndex(lines: seq<string>): map<string, string> {
    IndexOf(Cut(lines, IsCommandLine), KeyOf)
  }

  /** The files `split_showtech` leaves in the `showtech` directory. */
  function ShowtechFiles(lines: seq<string>): map<string, seq<string>> {
    FilesOf(Cut(lines, IsCommandLine), KeyOf)
  }

  /** What the loop state holds after reading `read`. */
  predicate LoopState(read: seq<string>, sections: map<string, string>, files: map<string, seq<string>>,
                      current: Option<string>, buffer: seq<string>)
  {
    var segs := Cut(read, IsCommandLine);
    if segs == [] then sections == map[] && files == map[] && current.None?
    else
      var s := segs[|segs| - 1];
      && sections == IndexOf(segs[..|segs| - 1], KeyOf) && files == FilesOf(segs[..|segs| - 1], KeyOf)
      && current == Some(KeyOf(s.head)) && buffer == [s.head] + s.body
  }

  /** `flush()`: write the open section and index it. */
  method Flush(sections: map<string, string>, files: map<string, seq<string>>,
               current: Option<string>, buffer: seq<string>)
    returns (sections': map<string, string>, files': map<string, seq<string>>)
    ensures current.Some? && current.value != [] && buffer != [] ==>
      sections' == sections[current.value := SectionPath(current.value)]
      && files' == files[SectionFile(current.value) := buffer]
    ensures !(current.Some? && current.value != [] && buffer != []) ==> sections' == sections && files' == files
  {
    sections', files' := sections, files;
    if current.Some? && current.value != [] && buffer != [] {
      var fname := SectionFile(current.value);
      files' := files'[fname := buffer];
      sections' := sections'[current.value := SectionPath(current.value)];
    }
  }

  lemma SegsSnoc(segs: seq<Segment>, s: Segment)
    ensures IndexOf(segs + [s], KeyOf) == IndexOf(segs, KeyOf)[KeyOf(s.head) := SectionPath(KeyOf(s.head))]
    ensures FilesOf(segs + [s], KeyOf) == FilesOf(segs, KeyOf)[SectionFile(KeyOf(s.head)) := [s.head] + s.body]
  {
    assert (segs + [s])[..|segs|] == segs;
  }

  /** Flushing the open section completes the index and files for everything read. */
  lemma FlushLast(read: seq<string>, sections: map<string, string>, files: map<string, seq<string>>,
                  current: Option<string>, buffer: seq<string>)
    requires LoopState(read, sections, files, current, buffer)
    ensures var segs := Cut(read, IsCommandLine);
      if current.Some? && current.value != [] && buffer != []
      then sections[current.value := SectionPath(current.value)] == IndexOf(segs, KeyOf)
           && files[SectionFile(current.value) := buffer] == FilesOf(segs, KeyOf)
      else sections == IndexOf(segs, KeyOf) && files == FilesOf(segs, KeyOf)
  {
    var segs := Cut(read, IsCommandLine);
    if segs != [] {
      assert segs[..|segs| - 1] + [segs[|segs| - 1]] == segs;
      SegsSnoc(segs[..|segs| - 1], segs[|segs| - 1]);
    }
  }

  lemma CommandStep(read: seq<string>, line: string, sections: map<string, string>, files: map<string, seq<string>>,
                    current: Option<string>, buffer: seq<string>,
                    sections': map<string, string>, files': map<string, seq<string>>)
    requires IsCommandLine(line)
    requires LoopState(read, sections, files, current, buffer)
    requires current.Some? && current.value != [] && buffer != [] ==>
      sections' == sections[current.value := SectionPath(current.value)]
      && files' == files[SectionFile(current.value) := buffer]
    requires !(current.Some? && current.value != [] && buffer != []) ==> sections' == sections && files' == files
    ensures LoopState(read + [line], sections', files', Some(KeyOf(line)), [line])
  {
    CutSnoc(read, line, IsCommandLine);
    FlushLast(read, sections, files, current, buffer);
    var segs := Cut(read, IsCommandLine);
    var next := segs + [Segment(line, [])];
    assert next[..|next| - 1] == segs;
    assert [line] + [] == [line];
  }

  lemma OtherStep(read: seq<string>, line: string, sections: map<string, string>, files: map<string, seq<string>>,
                  current: Option<string>, buffer: seq<string>)
    requires !IsCommandLine(line)
    requires LoopState(read, sections, files, current, buffer)
    ensures LoopState(read + [line], sections, files, current, if current.Some? then buffer + [line] else buffer)
  {
    CutSnoc(read, line, IsCommandLine);
    var segs := Cut(read, IsCommandLine);
    if segs != [] {
      var last := segs[|segs| - 1];
      var next := segs[..|segs| - 1] + [Segment(last.head, last.body + [line])];
      assert next[..|next| - 1] == segs[..|segs| - 1];
    }
  }

  /**
   * The loop of `split_showtech`: a command line flushes the open section
   * and opens a new one holding that line; other lines join the open
   * section, or are skipped before the first command.
   */
  method SplitShowtech(lines: seq<string>) returns (sections: map<string, string>, files: map<string, seq<string>>)
    ensures sections == ShowtechIndex(lines)
    ensures files == ShowtechFiles(lines)
  {
    sections, files := map[], map[];
    var current: Option<string> := None;
    var buffer: seq<string> := [];
    var i := 0;
    while i < |lines|
      invariant 0 <= i <= |lines|
      invariant LoopState(lines[..i], sections, files, current, buffer)
    {
      var line := lines[i];
      assert lines[..i + 1] == lines[..i] + [line];
      var m := SearchCommand(line);
      if m.Some? {
        var s', f' := Flush(sections, files, current, buffer);
        CommandStep(lines[..i], line, sections, files, current, buffer, s', f');
        sections, files := s', f';
        current := Some("show " + Strip(m.value));
        buffer := [line];
      } else {
        OtherStep(lines[..i], line, sections, files, current, buffer);
        if current.Some? {
          buffer := buffer + [line];
        }
      }
      i := i + 1;
    }
    assert lines[..i] == lines;
    FlushLast(lines, sections, files, current, buffer);
    sections, files := Flush(sections, files, current, buffer);
  }

  // ---------------------------------------------------------------------
  // Properties

  /** The pattern matches at the start of `Command<ws>:<ws>show <group>`, capturing the group. */
  lemma CommandMatchAt(w1: string, w2: string, g: string, rest: string)
    requires AllChars(w1, IsSpace) && AllChars(w2, IsSpace)
    requires g != [] && '\n' !in g
    requires rest == [] || rest[0] == '\n'
    ensures MatchCommandAt("Command" + (w1 + (":" + (w2 + ("show " + (g + rest)))))) == Some(g)
  {
    var c := "show " + (g + rest);
    var b := w2 + c;
    var a := w1 + (":" + b);
    CutConcat("Command", a);
    ColonPart(w1, b);
    ShowPart(w2, g, rest);
    MatchCommandAtOf("Command" + a, a, |w1|, b, |w2|, c, g, rest);
  }

  lemma ColonPart(w1: string, b: string)
    requires AllChars(w1, IsSpace)
    ensures var a := w1 + (":" + b);
      Run(a, IsSpace) == |w1| && |w1| < |a| && a[|w1|] == ':' && a[|w1| + 1..] == b
  {
    RunSplit(w1, ":" + b, IsSpace);
    HeadSplit(w1 + (":" + b), |w1|, ':', b);
  }

  lemma ShowPart(w2: string, g: string, rest: string)
    requires AllChars(w2, IsSpace)
    requires g != [] && '\n' !in g
    requires rest == [] || rest[0] == '\n'
    ensures var c := "show " + (g + rest); var b := w2 + c;
      Run(b, IsSpace) == |w2| && b[|w2|..] == c && |c| >= 5 && c[..5] == "show " && c[5..] == g + rest
      && Run(g + rest, NotNewline) == |g| && (g + rest)[..|g|] == g
  {
    var c := "show " + (g + rest);
    RunSplit(w2, c, IsSpace);
    CutConcat("show ", g + rest);
    assert AllChars(g, NotNewline);
    RunSplit(g, rest, NotNewline);
  }

  /** `MatchCommandAt`, read off the pieces it cuts its text into. */
  lemma MatchCommandAtOf(s: string, a: string, w1: nat, b: string, w2: nat, c: string, g: string, rest: string)
    requires |s| >= 7 && s[..7] == "Command" && s[7..] == a
    requires Run(a, IsSpace) == w1 && w1 < |a| && a[w1] == ':' && a[w1 + 1..] == b
    requires Run(b, IsSpace) == w2 && b[w2..] == c
    requires |c| >= 5 && c[..5] == "show " && c[5..] == g + rest
    requires g != [] && Run(g + rest, NotNewline) == |g| && (g + rest)[..|g|] == g
    ensures MatchCommandAt(s) == Some(g)
  {
  }

  lemma HeadSplit(a: string, k: nat, ch: char, b: string)
    requires k <= |a| && a[k..] == [ch] + b
    ensures k < |a| && a[k] == ch && a[k + 1..] == b
  {
    assert a[k..][0] == a[k];
  }

  /** A line `Command<ws>:<ws>show <group>` matches, with that group, and its key is `show <group stripped>`. */
  lemma CommandLineRendered(w1: string, w2: string, g: string, rest: string)
    requires AllChars(w1, IsSpace) && AllChars(w2, IsSpace)
    requires g != [] && '\n' !in g
    requires rest == [] || rest[0] == '\n'
    ensures var line := "Command" + (w1 + (":" + (w2 + ("show " + (g + rest)))));
      SearchCommand(line) == Some(g) && KeyOf(line) == "show " + Strip(g)
  {
    CommandMatchAt(w1, w2, g, rest);
  }

  /** `re.search` semantics: a match is found exactly when the pattern matches at some position, and the leftmost one is taken. */
  lemma {:induction false} SearchCommandLeftmost(line: string)
    ensures SearchCommand(line).Some? <==> exists i :: 0 <= i <= |line| && MatchCommandAt(line[i..]).Some?
    ensures SearchCommand(line).Some? ==>
      exists i :: 0 <= i <= |line| && SearchCommand(line) == MatchCommandAt(line[i..])
        && forall j :: 0 <= j < i ==> MatchCommandAt(line[j..]).None?
    decreases |line|
  {
    assert line[0..] == line;
    if MatchCommandAt(line).Some? {
    } else if line == [] {
    } else {
      var tail := line[1..];
      SearchCommandLeftmost(tail);
      forall i | 0 <= i <= |tail| ensures tail[i..] == line[i + 1..] { }
      if SearchCommand(tail).Some? {
        var i :| 0 <= i <= |tail| && SearchCommand(tail) == MatchCommandAt(tail[i..])
          && forall j :: 0 <= j < i ==> MatchCommandAt(tail[j..]).None?;
        assert SearchCommand(line) == MatchCommandAt(line[i + 1..]);
        forall j | 0 <= j < i + 1 ensures MatchCommandAt(line[j..]).None? {
          if j > 0 {
            assert line[j..] == tail[j - 1..];
          }
        }
      } else {
        forall i | 0 <= i <= |line| ensures MatchCommandAt(line[i..]).None? {
          if i > 0 {
            assert line[i..] == tail[i - 1..];
          }
        }
      }
    }
  }

  /** Each indexed key points to its own file in `showtech/`. */
  lemma {:induction false} IndexValues(segs: seq<Segment>, key: string -> string)
    ensures forall k :: k in IndexOf(segs, key) ==> IndexOf(segs, key)[k] == SectionPath(k)
  {
    if segs != [] {
      IndexValues(segs[..|segs| - 1], key);
    }
  }

  /** The indexed keys are exactly the keys of the sections. */
  lemma {:induction false} IndexKeys(segs: seq<Segment>, key: string -> string)
    ensures forall k :: k in IndexOf(segs, key) <==> exists i :: 0 <= i < |segs| && key(segs[i].head) == k
  {
    if segs != [] {
      var n := |segs| - 1;
      var init := segs[..n];
      IndexKeys(init, key);
      assert IndexOf(segs, key) == IndexOf(init, key)[key(segs[n].head) := SectionPath(key(segs[n].head))];
      forall k ensures k in IndexOf(segs, key) <==> exists i :: 0 <= i < |segs| && key(segs[i].head) == k {
        if k == key(segs[n].head) {
          assert key(segs[n].head) == k;
        } else if k in IndexOf(init, key) {
          var i :| 0 <= i < |init| && key(init[i].head) == k;
          assert init[i] == segs[i];
        } else {
          forall i | 0 <= i < |segs| ensures key(segs[i].head) != k {
            if i < n {
              assert segs[i] == init[i];
            }
          }
        }
      }
    }
  }

  /**
   * Every key indexed is a command seen in the dump, every command seen is
   * indexed, and each key points to its own file in `showtech/`.
   */
  lemma IndexShape(segs: seq<Segment>, key: string -> string)
    ensures forall k :: k in IndexOf(segs, key) ==> IndexOf(segs, key)[k] == SectionPath(k)
    ensures forall k :: k in IndexOf(segs, key) <==> exists i :: 0 <= i < |segs| && key(segs[i].head) == k
  {
    IndexValues(segs, key);
    IndexKeys(segs, key);
  }

  /** A file holds the last section whose command maps to its name: later sections overwrite earlier ones. */
  lemma {:induction false} FilesLastWins(segs: seq<Segment>, key: string -> string, i: nat)
    requires i < |segs|
    requires forall j :: i < j < |segs| ==> SectionFile(key(segs[j].head)) != SectionFile(key(segs[i].head))
    ensures SectionFile(key(segs[i].head)) in FilesOf(segs, key)
    ensures FilesOf(segs, key)[SectionFile(key(segs[i].head))] == [segs[i].head] + segs[i].body
  {
    if i < |segs| - 1 {
      var init := segs[..|segs| - 1];
      assert init[i] == segs[i];
      forall j | i < j < |init| ensures SectionFile(key(init[j].head)) != SectionFile(key(init[i].head)) {
        assert init[j] == segs[j];
      }
      FilesLastWins(init, key, i);
    }
  }

  /** Every file written holds one section, whose command names the file. */
  lemma {:induction false} FilesFromSegments(segs: seq<Segment>, key: string -> string)
    ensures forall f :: f in FilesOf(segs, key) ==>
      exists i :: 0 <= i < |segs| && SectionFile(key(segs[i].head)) == f && FilesOf(segs, key)[f] == [segs[i].head] + segs[i].body
  {
    if segs != [] {
      var n := |segs| - 1;
      var init := segs[..n];
      FilesFromSegments(init, key);
      forall f | f in FilesOf(segs, key)
        ensures exists i :: 0 <= i < |segs| && SectionFile(key(segs[i].head)) == f && FilesOf(segs, key)[f] == [segs[i].head] + segs[i].body
      {
        if f == SectionFile(key(segs[n].head)) {
          assert FilesOf(segs, key)[f] == [segs[n].head] + segs[n].body;
        } else {
          var i :| 0 <= i < |init| && SectionFile(key(init[i].head)) == f && FilesOf(init, key)[f] == [init[i].head] + init[i].body;
          assert init[i] == segs[i];
        }
      }
    }
  }

  /** A file's contents open with a command line naming it and hold no other command line. */
  predicate OneSection(f: string, c: seq<string>) {
    && c != []
    && IsCommandLine(c[0])
    && SectionFile(KeyOf(c[0])) == f
    && forall j :: 1 <= j < |c| ==> !IsCommandLine(c[j])
  }

  lemma SegmentIsSection(s: Segment, f: string)
    requires IsCommandLine(s.head) && SectionFile(KeyOf(s.head)) == f
    requires forall j :: 0 <= j < |s.body| ==> !IsCommandLine(s.body[j])
    ensures OneSection(f, [s.head] + s.body)
  {
    NoneAfterHead(s.head, s.body, IsCommandLine);
  }

  lemma NoneAfterHead(head: string, body: seq<string>, p: string -> bool)
    requires forall j :: 0 <= j < |body| ==> !p(body[j])
    ensures forall j :: 1 <= j < |[head] + body| ==> !p(([head] + body)[j])
  {
    var c := [head] + body;
    forall j | 1 <= j < |c| ensures !p(c[j]) {
      assert c[j] == body[j - 1];
    }
  }

  /** Each file written holds exactly one section: the command line that names it and that command's output. */
  lemma SectionFilesWellFormed(lines: seq<string>)
    ensures forall f :: f in ShowtechFiles(lines) ==> OneSection(f, ShowtechFiles(lines)[f])
  {
    var segs := Cut(lines, IsCommandLine);
    CutShape(lines, IsCommandLine);
    FilesFromSegments(segs, KeyOf);
    forall f | f in ShowtechFiles(lines)
      ensures OneSection(f, ShowtechFiles(lines)[f])
    {
      var i :| 0 <= i < |segs| && SectionFile(KeyOf(segs[i].head)) == f && FilesOf(segs, KeyOf)[f] == [segs[i].head] + segs[i].body;
      SegmentIsSection(segs[i], f);
    }
  }

  /** Lines before the first command line are not written anywhere and do not change the index. */
  lemma PreambleIgnored(pre: seq<string>, rest: seq<string>)
    requires forall i :: 0 <= i < |pre| ==> !IsCommandLine(pre[i])
    requires rest == [] || IsCommandLine(rest[0])
    ensures ShowtechIndex(pre + rest) == ShowtechIndex(rest)
    ensures ShowtechFiles(pre + rest) == ShowtechFiles(rest)
  {
    SkipsPreamble(pre, rest, IsCommandLine);
  }

  /** A dump without any command line yields an empty index and writes nothing. */
  lemma NoCommandNoSections(lines: seq<string>)
    requires forall i :: 0 <= i < |lines| ==> !IsCommandLine(lines[i])
    ensures ShowtechIndex(lines) == map[] && ShowtechFiles(lines) == map[]
  {
    CutNoMarker(lines, IsCommandLine);
  }

  /**
   * The file name is `showtech_<key>.txt` with every space and slash of the
   * key turned into an underscore and every other character kept, so the
   * name never leaves the `showtech` directory.
   */
  lemma SectionFileShape(key: string)
    ensures var m := ReplaceAll(ReplaceAll(key, " ", "_"), "/", "_");
      && SectionFile(key) == "showtech_" + m + ".txt"
      && |m| == |key|
      && (forall i :: 0 <= i < |key| ==> m[i] == (if key[i] == ' ' || key[i] == '/' then '_' else key[i]))
      && ' ' !in m && '/' !in m
  {
    var m1 := ReplaceAll(key, " ", "_");
    ReplaceCharPointwise(key, ' ', '_');
    ReplaceCharPointwise(m1, '/', '_');
    var m := ReplaceAll(m1, "/", "_");
    assert forall i :: 0 <= i < |m| ==> m[i] != ' ' && m[i] != '/';
  }

  /**
   * Two distinct commands whose keys give the same file name: both keys
   * are indexed and point to the same path, the file holds the later
   * section, and the earlier section is written to no file at all.
   */
  lemma SharedFileOverwritten(segs: seq<Segment>, key: string -> string, i: nat, j: nat)
    requires i < j < |segs|
    requires key(segs[i].head) != key(segs[j].head)
    requires SectionFile(key(segs[i].head)) == SectionFile(key(segs[j].head))
    requires forall m :: j < m < |segs| ==> SectionFile(key(segs[m].head)) != SectionFile(key(segs[j].head))
    ensures key(segs[i].head) in IndexOf(segs, key) && key(segs[j].head) in IndexOf(segs, key)
    ensures IndexOf(segs, key)[key(segs[i].head)] == IndexOf(segs, key)[key(segs[j].head)]
    ensures SectionFile(key(segs[j].head)) in FilesOf(segs, key)
    ensures FilesOf(segs, key)[SectionFile(key(segs[j].head))] == [segs[j].head] + segs[j].body
    ensures forall f :: f in FilesOf(segs, key) ==> FilesOf(segs, key)[f] != [segs[i].head] + segs[i].body
  {
    IndexShape(segs, key);
    FilesLastWins(segs, key, j);
    FilesFromSegments(segs, key);
    forall f | f in FilesOf(segs, key) ensures FilesOf(segs, key)[f] != [segs[i].head] + segs[i].body {
      var m :| 0 <= m < |segs| && SectionFile(key(segs[m].head)) == f && FilesOf(segs, key)[f] == [segs[m].head] + segs[m].body;
      if f == SectionFile(key(segs[j].head)) {
        DifferentHeads(segs[j].head, segs[j].body, segs[i].head, segs[i].body);
      } else {
        DifferentHeads(segs[m].head, segs[m].body, segs[i].head, segs[i].body);
      }
    }
  }

  lemma DifferentHeads(h1: string, b1: seq<string>, h2: string, b2: seq<string>)
    requires h1 != h2
    ensures [h1] + b1 != [h2] + b2
  {
    assert ([h1] + b1)[0] == h1;
    assert ([h2] + b2)[0] == h2;
  }

  /** `SharedFileOverwritten` for the sections of a dump, under the keys `split_showtech` uses. */
  lemma SharedFileInDump(lines: seq<string>, segs: seq<Segment>, i: nat, j: nat)
    requires segs == Cut(lines, IsCommandLine)
    requires i < j < |segs|
    requires KeyOf(segs[i].head) != KeyOf(segs[j].head)
    requires SectionFile(KeyOf(segs[i].head)) == SectionFile(KeyOf(segs[j].head))
    requires forall m :: j < m < |segs| ==> SectionFile(KeyOf(segs[m].head)) != SectionFile(KeyOf(segs[j].head))
    ensures KeyOf(segs[i].head) in ShowtechIndex(lines) && KeyOf(segs[j].head) in ShowtechIndex(lines)
    ensures ShowtechIndex(lines)[KeyOf(segs[i].head)] == ShowtechIndex(lines)[KeyOf(segs[j].head)]
    ensures SectionFile(KeyOf(segs[j].head)) in ShowtechFiles(lines)
    ensures ShowtechFiles(lines)[SectionFile(KeyOf(segs[j].head))] == [segs[j].head] + segs[j].body
    ensures forall f :: f in ShowtechFiles(lines) ==> ShowtechFiles(lines)[f] != [segs[i].head] + segs[i].body
  {
    SharedFileOverwritten(segs, KeyOf, i, j);
  }

  /**
   * Distinct commands can share a file: `show a b` and `show a_b` are both
   * indexed, but both point to `showtech_show_a_b.txt`, which holds only
   * the later section.
   */
  lemma SharedFileName()
    ensures SectionFile("show a b") == SectionFile("show a_b")
    ensures SectionPath("show a b") == SectionPath("show a_b")
  {
    SectionFileShape("show a b");
    SectionFileShape("show a_b");
    assert ReplaceAll(ReplaceAll("show a b", " ", "_"), "/", "_") == "show_a_b";
    assert ReplaceAll(ReplaceAll("show a_b", " ", "_"), "/", "_") == "show_a_b";
  }
}
