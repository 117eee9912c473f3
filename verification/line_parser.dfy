/**
 * The line normaliser `parse_line`: three line grammars tried in a fixed
 * order on the stripped line, the first match winning, then timestamp
 * conversion to UTC.
 *
 * Each grammar is a hand-written matcher that follows the backtracking
 * behaviour of Python's `re.match` for that pattern: greedy runs, and the
 * search over pipe positions that lets a `\S+` field absorb extra pipes.
 * Timestamp parsing is a pair of partial oracles (`Clock`).
 */
module LineParser {
  import opened Wrappers
  import opened Text
  import opened Time

  /** The structured groups, one variant per grammar. */
  datatype Fields =
    | EventFields(eventId: string, severity: string, moduleName: string, slot: string)
    | GenericFields(facility: string, severity: string, moduleName: string, slot: string,
                    submoduleName: string, source: string)
    | SyslogFields

  /** The named groups of the grammar that matched, timestamp still as text. */
  datatype Captures = Captures(timestamp: string, hostname: string, process: string,
                               pid: Option<string>, fields: Fields, message: string)

  /** A normalised event-log record: the groups with the timestamp converted to UTC. */
  datatype ParsedLine = ParsedLine(timestamp: Instant, hostname: string, process: string,
                                   pid: Option<string>, fields: Fields, message: string)

  /**
   * The timestamp parsers: `iso` is `datetime.fromisoformat` followed by
   * conversion to UTC, `syslog` is `strptime("%b %d %H:%M:%S")` with the
   * current year and the local timezone. `None` is a parse failure.
   */
  datatype Clock = Clock(iso: string -> Option<Instant>, syslog: string -> Option<Instant>)

  // ---------------------------------------------------------------------
  // Timestamps

  /** `[\d:.+\-]` */
  predicate IsStampChar(c: char) {
    IsDigit(c) || c == ':' || c == '.' || c == '+' || c == '-'
  }

  /** `[\d:]` */
  predicate IsClockChar(c: char) {
    IsDigit(c) || c == ':'
  }

  /** The length of `\d{4}-\d{2}-\d{2}T[\d:.+\-]+` at the start of `s`, if it matches. */
  function IsoStampLen(s: string): (r: Option<nat>)
    ensures r.Some? ==> 12 <= r.value <= |s| && s[10] == 'T'
  {
    if |s| >= 12 && IsDigit(s[0]) && IsDigit(s[1]) && IsDigit(s[2]) && IsDigit(s[3]) && s[4] == '-'
       && IsDigit(s[5]) && IsDigit(s[6]) && s[7] == '-' && IsDigit(s[8]) && IsDigit(s[9])
       && s[10] == 'T' && Run(s[11..], IsStampChar) > 0
    then Some(11 + Run(s[11..], IsStampChar))
    else None
  }

  /** The length of `[A-Z][a-z]{2}\s+\d{1,2}\s+[\d:]{8}` at the start of `s`, if it matches. */
  function SyslogStampLen(s: string): (r: Option<nat>)
    ensures r.Some? ==> 3 <= r.value <= |s| && IsUpper(s[0])
  {
    if |s| < 3 || !IsUpper(s[0]) || !IsLower(s[1]) || !IsLower(s[2]) then None
    else
      var afterMonth := s[3..];
      var w1 := Run(afterMonth, IsSpace);
      if w1 == 0 then None
      else
        match DayClockLen(afterMonth[w1..])
        case None => None
        case Some(n) => Some(3 + w1 + n)
  }

  /**
   * The length of `\d{1,2}\s+[\d:]{8}` at the start of `s`. A third digit
   * leaves `\s+` facing a digit whichever of the two lengths is tried, so
   * taking the longer one decides the match.
   */
  function DayClockLen(s: string): (r: Option<nat>)
    ensures r.Some? ==> r.value <= |s|
  {
    var digits := Run(s, IsDigit);
    var d := if digits >= 2 then 2 else digits;
    if d == 0 then None
    else
      match ClockLen(s[d..])
      case None => None
      case Some(n) => Some(d + n)
  }

  /** The length of `\s+[\d:]{8}` at the start of `s`. */
  function ClockLen(s: string): (r: Option<nat>)
    ensures r.Some? ==> r.value <= |s|
  {
    var w := Run(s, IsSpace);
    if w == 0 || |s| < w + 8 || !AllChars(s[w..w + 8], IsClockChar) then None
    else Some(w + 8)
  }

  // ---------------------------------------------------------------------
  // `\s+(?P<hostname>\S+)\s+(?P<process>[^\[:]+)(?:\[(?P<pid>\d+)\])?:`

  /** `[^\[:]` */
  predicate IsProcessChar(c: char) {
    c != '[' && c != ':'
  }

  datatype Header = Header(hostname: string, process: string, pid: Option<string>, rest: string)

  /** `(?:\[(?P<pid>\d+)\])?:` at the start of `s`: the pid and what follows the colon. */
  function MatchPidColon(s: string): (r: Option<(Option<string>, string)>)
    ensures r.Some? ==> |r.value.1| < |s|
  {
    if |s| > 0 && s[0] == ':' then Some((None, s[1..]))
    else if |s| > 0 && s[0] == '[' then
      var d := Run(s[1..], IsDigit);
      if d > 0 && d + 2 < |s| && s[d + 1] == ']' && s[d + 2] == ':'
      then Some((Some(s[1..d + 1]), s[d + 3..]))
      else None
    else None
  }

  /**
   * The hostname, process and pid that follow a timestamp. The process class
   * also admits whitespace, so when no process character follows the
   * second whitespace run the regex backtracks and the process is the last
   * whitespace character of that run.
   */
  function MatchHeader(s: string): (r: Option<Header>)
    ensures r.Some? ==> |r.value.rest| < |s|
    ensures r.Some? ==> r.value.hostname != [] && AllChars(r.value.hostname, NotSpace) && r.value.process != []
  {
    var w1 := Run(s, IsSpace);
    var x := s[w1..];
    var h := Run(x, NotSpace);
    RunPrefix(x, NotSpace, h);
    if w1 == 0 || h == 0 then None
    else
      match MatchProcess(x[h..])
      case None => None
      case Some((process, pid, rest)) => Some(Header(x[..h], process, pid, rest))
  }

  /** `\s+(?P<process>[^\[:]+)(?:\[(?P<pid>\d+)\])?:` at the start of `u`: the process, the pid and the rest. */
  function MatchProcess(u: string): (r: Option<(string, Option<string>, string)>)
    ensures r.Some? ==> r.value.0 != [] && |r.value.2| < |u|
  {
    var w2 := Run(u, IsSpace);
    var v := u[w2..];
    var p := Run(v, IsProcessChar);
    if w2 == 0 then None
    else if p > 0 then
      match MatchPidColon(v[p..])
      case None => None
      case Some((pid, rest)) => Some((v[..p], pid, rest))
    else if w2 >= 2 then
      match MatchPidColon(v)
      case None => None
      case Some((pid, rest)) => Some(([u[w2 - 1]], pid, rest))
    else None
  }

  // ---------------------------------------------------------------------
  // Pipe-delimited fields

  /**
   * Matches `k` fields of the form `(\S+)\|`, then `m` fields of the form
   * `([^|]*)\|`, then `(.+)` against the start of `t`, returning the k + m + 1
   * captured groups. A `\S+` field is greedy and may contain pipes, so the
   * candidate ends are tried from the longest down, as the regex engine
   * backtracks; the first that lets the rest of the pattern match wins.
   */
  function MatchFields(t: string, k: nat, m: nat): (r: Option<seq<string>>)
    ensures r.Some? ==> |r.value| == k + m + 1
    decreases k + m, 1, 0
  {
    if k > 0 then TryToken(t, Run(t, NotSpace), k, m)
    else if m > 0 then
      var c := Run(t, NotBar);
      if c == |t| then None
      else
        match MatchFields(t[c + 1..], 0, m - 1)
        case None => None
        case Some(fs) => Some([t[..c]] + fs)
    else if t != [] && t[0] != '\n' then Some([TakeLine(t)])
    else None
  }

  /** Tries `t[..j]`, `t[..j-1]`, ... as the first `\S+` field, longest first. */
  function TryToken(t: string, j: nat, k: nat, m: nat): (r: Option<seq<string>>)
    requires j <= |t| && k > 0
    ensures r.Some? ==> |r.value| == k + m + 1
    decreases k + m, 0, j
  {
    if j == 0 then None
    else if j < |t| && t[j] == '|' then
      match MatchFields(t[j + 1..], k - 1, m)
      case Some(fs) => Some([t[..j]] + fs)
      case None => TryToken(t, j - 1, k, m)
    else TryToken(t, j - 1, k, m)
  }

  // ---------------------------------------------------------------------
  // The three grammars

  /** `:\s+Event\|(?P<event_id>\d+)\|(\S+)\|(\S+)\|([^|]*)\|(.+)` after the colon. */
  function MatchEventTail(r: string): Option<(Fields, string)>
  {
    var w := Run(r, IsSpace);
    var x := r[w..];
    if w == 0 || !("Event|" <= x) then None
    else
      var y := x[6..];
      var d := Run(y, IsDigit);
      if d == 0 || d >= |y| || y[d] != '|' then None
      else
        match MatchFields(y[d + 1..], 2, 1)
        case None => None
        case Some(fs) => Some((EventFields(y[..d], fs[0], fs[1], fs[2]), fs[3]))
  }

  /** `\s+(\S+)\|(\S+)\|(\S+)\|([^|]*)\|([^|]*)\|([^|]*)\|(.+)` after the colon. */
  function MatchGenericTail(r: string): Option<(Fields, string)>
  {
    var w := Run(r, IsSpace);
    if w == 0 then None
    else
      match MatchFields(r[w..], 3, 3)
      case None => None
      case Some(fs) => Some((GenericFields(fs[0], fs[1], fs[2], fs[3], fs[4], fs[5]), fs[6]))
  }

  /** The largest position in [1, x] holding a character other than a newline. */
  function LastNonNewline(r: string, x: nat): (p: Option<nat>)
    requires x < |r|
    ensures p.Some? ==> 1 <= p.value <= x && r[p.value] != '\n'
  {
    if x == 0 then None
    else if r[x] != '\n' then Some(x)
    else LastNonNewline(r, x - 1)
  }

  /**
   * `\s+(?P<message>.+)` after the colon. When the whitespace run reaches
   * the end of the text, `\s+` gives characters back to `.+`.
   */
  function MatchSyslogTail(r: string): Option<string>
  {
    var w := Run(r, IsSpace);
    if w == 0 then None
    else if w < |r| then Some(TakeLine(r[w..]))
    else
      match LastNonNewline(r, w - 1)
      case None => None
      case Some(x) => Some(TakeLine(r[x..]))
  }

  /** The "Event" grammar (pattern 1). */
  function MatchEvent(s: string): Option<Captures>
  {
    match IsoStampLen(s)
    case None => None
    case Some(n) =>
      match MatchHeader(s[n..])
      case None => None
      case Some(h) =>
        match MatchEventTail(h.rest)
        case None => None
        case Some((f, msg)) => Some(Captures(s[..n], h.hostname, h.process, h.pid, f, msg))
  }

  /** The generic pipe-delimited grammar (pattern 2). */
  function MatchGeneric(s: string): Option<Captures>
  {
    match IsoStampLen(s)
    case None => None
    case Some(n) =>
      match MatchHeader(s[n..])
      case None => None
      case Some(h) =>
        match MatchGenericTail(h.rest)
        case None => None
        case Some((f, msg)) => Some(Captures(s[..n], h.hostname, h.process, h.pid, f, msg))
  }

  /** The plain syslog grammar (pattern 3). */
  function MatchSyslog(s: string): Option<Captures>
  {
    match SyslogStampLen(s)
    case None => None
    case Some(n) =>
      match MatchHeader(s[n..])
      case None => None
      case Some(h) =>
        match MatchSyslogTail(h.rest)
        case None => None
        case Some(msg) => Some(Captures(s[..n], h.hostname, h.process, h.pid, SyslogFields, msg))
  }

  /** The groups of the first grammar, in the fixed order, that matches `s`. */
  function FirstMatch(s: string): Option<Captures>
  {
    if MatchEvent(s).Some? then MatchEvent(s)
    else if MatchGeneric(s).Some? then MatchGeneric(s)
    else MatchSyslog(s)
  }

  /** Timestamps containing "T" take the ISO route, all others the syslog route. */
  function ConvertStamp(ts: string, clock: Clock): Option<Instant>
  {
    if 'T' in ts then clock.iso(ts) else clock.syslog(ts)
  }

  /** `parse_line` */
  function ParseLine(line: string, clock: Clock): Option<ParsedLine>
  {
    match FirstMatch(Strip(line))
    case None => None
    case Some(c) =>
      match ConvertStamp(c.timestamp, clock)
      case None => None
      case Some(t) => Some(ParsedLine(t, c.hostname, c.process, c.pid, c.fields, c.message))
  }

  // ---------------------------------------------------------------------
  // What a match guarantees

  /** The shape the regex imposes on the captured pipe-delimited groups. */
  predicate FieldsShape(fs: seq<string>, k: nat, m: nat) {
    && |fs| == k + m + 1
    && (forall i :: 0 <= i < k ==> fs[i] != [] && AllChars(fs[i], NotSpace))
    && (forall i :: k <= i < k + m ==> '|' !in fs[i])
    && fs[k + m] != [] && '\n' !in fs[k + m]
  }

  /** A match ends where the text ends or at a newline. */
  predicate EndsAtLine(t: string, n: nat) {
    n <= |t| && (n == |t| || t[n] == '\n')
  }

  /** Putting one field and a pipe in front of a matched prefix. */
  lemma JoinConsPrefix(a: string, rest: seq<string>, u: string)
    requires |rest| >= 1 && Join(rest, "|") <= u && EndsAtLine(u, |Join(rest, "|")|)
    ensures Join([a] + rest, "|") <= a + "|" + u
    ensures EndsAtLine(a + "|" + u, |Join([a] + rest, "|")|)
  {
    var fs := [a] + rest;
    assert fs[1..] == rest;
    assert Join(fs, "|") == a + "|" + Join(rest, "|");
    var n := |Join(rest, "|")|;
    if n < |u| {
      assert (a + "|" + u)[|a| + 1 + n] == u[n];
    }
  }

  lemma ShapeConsToken(a: string, rest: seq<string>, k: nat, m: nat)
    requires k > 0 && a != [] && AllChars(a, NotSpace) && FieldsShape(rest, k - 1, m)
    ensures FieldsShape([a] + rest, k, m)
  {
    var fs := [a] + rest;
    forall i | 0 < i < |fs| ensures fs[i] == rest[i - 1] { }
  }

  lemma ShapeConsBar(a: string, rest: seq<string>, m: nat)
    requires m > 0 && AllChars(a, NotBar) && FieldsShape(rest, 0, m - 1)
    ensures FieldsShape([a] + rest, 0, m)
  {
    var fs := [a] + rest;
    assert '|' !in a by {
      forall i | 0 <= i < |a| ensures a[i] != '|' {
        assert NotBar(a[i]);
      }
    }
    forall i | 0 < i < |fs| ensures fs[i] == rest[i - 1] { }
  }

  /** A field taken up to the pipe at `j`, in front of a matched rest. */
  lemma ConsField(t: string, j: nat, rest: seq<string>)
    requires j < |t| && t[j] == '|'
    requires |rest| >= 1 && Join(rest, "|") <= t[j + 1..] && EndsAtLine(t[j + 1..], |Join(rest, "|")|)
    ensures Join([t[..j]] + rest, "|") <= t && EndsAtLine(t, |Join([t[..j]] + rest, "|")|)
  {
    JoinConsPrefix(t[..j], rest, t[j + 1..]);
    assert t == t[..j] + "|" + t[j + 1..];
  }

  /** The message field: the rest of the line, when it is not empty. */
  lemma LastField(t: string)
    requires t != [] && t[0] != '\n'
    ensures var fs := [TakeLine(t)];
      FieldsShape(fs, 0, 0) && Join(fs, "|") <= t && EndsAtLine(t, |Join(fs, "|")|)
  {
    TakeLineShape(t);
  }

  /**
   * Every field match is a genuine decomposition of the text: the groups,
   * rejoined with pipes, are a prefix of `t`, each has the shape its
   * sub-pattern allows, and the message runs to the end of the line.
   */
  lemma {:induction false} MatchFieldsSound(t: string, k: nat, m: nat)
    requires MatchFields(t, k, m).Some?
    ensures var fs := MatchFields(t, k, m).value;
      FieldsShape(fs, k, m) && Join(fs, "|") <= t && EndsAtLine(t, |Join(fs, "|")|)
    decreases k + m, 1, 0
  {
    var fs := MatchFields(t, k, m).value;
    if k > 0 {
      TryTokenSound(t, Run(t, NotSpace), k, m);
    } else if m > 0 {
      var c := Run(t, NotBar);
      var rest := MatchFields(t[c + 1..], 0, m - 1).value;
      assert fs == [t[..c]] + rest;
      MatchFieldsSound(t[c + 1..], 0, m - 1);
      ConsField(t, c, rest);
      RunPrefix(t, NotBar, c);
      ShapeConsBar(t[..c], rest, m);
    } else {
      assert fs == [TakeLine(t)];
      LastField(t);
    }
  }

  lemma {:induction false} TryTokenSound(t: string, j: nat, k: nat, m: nat)
    requires j <= Run(t, NotSpace) && k > 0
    requires TryToken(t, j, k, m).Some?
    ensures var fs := TryToken(t, j, k, m).value;
      FieldsShape(fs, k, m) && Join(fs, "|") <= t && EndsAtLine(t, |Join(fs, "|")|)
    decreases k + m, 0, j
  {
    if j < |t| && t[j] == '|' && MatchFields(t[j + 1..], k - 1, m).Some? {
      var rest := MatchFields(t[j + 1..], k - 1, m).value;
      assert TryToken(t, j, k, m).value == [t[..j]] + rest;
      MatchFieldsSound(t[j + 1..], k - 1, m);
      ConsField(t, j, rest);
      RunPrefix(t, NotSpace, j);
      ShapeConsToken(t[..j], rest, k, m);
    } else {
      TryTokenSound(t, j - 1, k, m);
    }
  }

  /** A field match consumes at least one pipe per delimiter. */
  lemma {:induction false} MatchFieldsNeedsBars(t: string, k: nat, m: nat)
    requires MatchFields(t, k, m).Some?
    ensures multiset(t)['|'] >= k + m
    decreases k + m, 1, 0
  {
    if k > 0 {
      TryTokenNeedsBars(t, Run(t, NotSpace), k, m);
    } else if m > 0 {
      var c := Run(t, NotBar);
      MatchFieldsNeedsBars(t[c + 1..], 0, m - 1);
      assert t == t[..c + 1] + t[c + 1..];
      assert t[..c + 1][c] == '|';
    }
  }

  lemma {:induction false} TryTokenNeedsBars(t: string, j: nat, k: nat, m: nat)
    requires j <= |t| && k > 0
    requires TryToken(t, j, k, m).Some?
    ensures multiset(t)['|'] >= k + m
    decreases k + m, 0, j
  {
    if j < |t| && t[j] == '|' && MatchFields(t[j + 1..], k - 1, m).Some? {
      MatchFieldsNeedsBars(t[j + 1..], k - 1, m);
      assert t == t[..j + 1] + t[j + 1..];
      assert t[..j + 1][j] == '|';
    } else {
      TryTokenNeedsBars(t, j - 1, k, m);
    }
  }

  /** Candidate field ends that leave too few pipes behind are passed over. */
  lemma {:induction false} TryTokenSkips(t: string, j: nat, n: nat, k: nat, m: nat)
    requires n <= j <= |t| && k > 0
    requires forall x :: n < x <= j && x < |t| && t[x] == '|' ==> multiset(t[x + 1..])['|'] < k - 1 + m
    ensures TryToken(t, j, k, m) == TryToken(t, n, k, m)
    decreases j
  {
    if j > n {
      if j < |t| && t[j] == '|' && MatchFields(t[j + 1..], k - 1, m).Some? {
        MatchFieldsNeedsBars(t[j + 1..], k - 1, m);
      }
      TryTokenSkips(t, j - 1, n, k, m);
    }
  }

  // ---------------------------------------------------------------------
  // Rendering and the round trips

  /** Field lists that no backtracking can misread: no stray pipes anywhere. */
  predicate CleanFields(fs: seq<string>, k: nat, m: nat) {
    && FieldsShape(fs, k, m)
    && (forall i :: 0 <= i < |fs| ==> '|' !in fs[i])
  }

  lemma CleanFieldsTail(fs: seq<string>, k: nat, m: nat)
    requires CleanFields(fs, k, m) && k + m > 0
    ensures k > 0 ==> CleanFields(fs[1..], k - 1, m)
    ensures k == 0 ==> CleanFields(fs[1..], 0, m - 1)
  {
    forall i | 0 <= i < |fs| - 1 ensures fs[1..][i] == fs[i + 1] { }
  }

  /** The pipe-joined rest of a field list, without stray pipes, starts after the first pipe. */
  lemma JoinCons(fs: seq<string>)
    requires |fs| >= 2
    ensures Join(fs, "|") == fs[0] + "|" + Join(fs[1..], "|")
  {
  }

  /**
   * Every candidate end for a `\S+` field beyond the first pipe leaves fewer
   * pipes than the rest of the pattern needs, so the search comes down to
   * the first pipe.
   */
  lemma TokenFieldRead(a: string, J: string, k: nat, m: nat)
    requires k > 0 && a != [] && AllChars(a, NotSpace) && '|' !in a
    requires multiset(J)['|'] == k - 1 + m
    ensures Run(a + "|" + J, NotSpace) >= |a|
    ensures TryToken(a + "|" + J, Run(a + "|" + J, NotSpace), k, m) == TryToken(a + "|" + J, |a|, k, m)
  {
    var t := a + "|" + J;
    var n := |a|;
    var r := Run(t, NotSpace);
    assert t[n] == '|';
    assert r > n;
    assert t[n + 1..] == J;
    forall x | n < x <= r && x < |t| && t[x] == '|'
      ensures multiset(t[x + 1..])['|'] < k - 1 + m
    {
      assert J == J[..x - n] + t[x + 1..];
      assert J[..x - n][x - n - 1] == '|';
    }
    TryTokenSkips(t, r, n, k, m);
  }

  /** A first `\S+` field is read back once the fields after it are. */
  lemma TokenFieldStep(fs: seq<string>, k: nat, m: nat)
    requires CleanFields(fs, k, m) && k > 0
    requires MatchFields(Join(fs[1..], "|"), k - 1, m) == Some(fs[1..])
    ensures MatchFields(Join(fs, "|"), k, m) == Some(fs)
  {
    var t := Join(fs, "|");
    var rest := fs[1..];
    var J := Join(rest, "|");
    var n := |fs[0]|;
    JoinCons(fs);
    CleanFieldsTail(fs, k, m);
    JoinCount(rest, '|');
    TokenFieldRead(fs[0], J, k, m);
    assert t[..n] == fs[0];
    assert t[n + 1..] == J;
    assert TryToken(t, n, k, m) == Some([fs[0]] + rest);
    assert [fs[0]] + rest == fs;
  }

  /** A first `[^|]*` field is read back once the fields after it are. */
  lemma BarFieldStep(fs: seq<string>, m: nat)
    requires CleanFields(fs, 0, m) && m > 0
    requires MatchFields(Join(fs[1..], "|"), 0, m - 1) == Some(fs[1..])
    ensures MatchFields(Join(fs, "|"), 0, m) == Some(fs)
  {
    var t := Join(fs, "|");
    var rest := fs[1..];
    var J := Join(rest, "|");
    var n := |fs[0]|;
    JoinCons(fs);
    assert t == fs[0] + ("|" + J);
    RunOfConcat(fs[0], "|" + J, NotBar);
    assert t[..n] == fs[0];
    assert t[n + 1..] == J;
    assert [fs[0]] + rest == fs;
  }

  /**
   * Pipe-joined fields without stray pipes are read back exactly: for each
   * `\S+` field the engine first tries longer candidates, and every one of
   * them leaves too few pipes for the rest of the pattern.
   */
  lemma {:induction false} MatchFieldsRoundTrip(fs: seq<string>, k: nat, m: nat)
    requires CleanFields(fs, k, m)
    ensures MatchFields(Join(fs, "|"), k, m) == Some(fs)
    decreases |fs|
  {
    if k + m == 0 {
      var t := Join(fs, "|");
      assert t == fs[0];
      assert AllChars(t, NotNewline) by {
        forall i | 0 <= i < |t| ensures t[i] != '\n' { }
      }
      RunOfConcat(t, [], NotNewline);
      assert t + [] == t;
      assert TakeLine(t) == t;
      assert fs == [t];
    } else {
      CleanFieldsTail(fs, k, m);
      if k > 0 {
        MatchFieldsRoundTrip(fs[1..], k - 1, m);
        TokenFieldStep(fs, k, m);
      } else {
        MatchFieldsRoundTrip(fs[1..], 0, m - 1);
        BarFieldStep(fs, m);
      }
    }
  }

  /** `[pid]` or nothing. */
  function PidSuffix(pid: Option<string>): string {
    if pid.Some? then "[" + pid.value + "]" else ""
  }

  /** Hostnames, processes and pids that the header pattern reads back unchanged. */
  predicate CleanHeader(host: string, process: string, pid: Option<string>) {
    && host != [] && AllChars(host, NotSpace)
    && process != [] && AllChars(process, IsProcessChar) && !IsSpace(process[0])
    && (pid.Some? ==> pid.value != [] && AllChars(pid.value, IsDigit))
  }

  /** A bracketed pid followed by the colon is read back. */
  lemma PidBracketRendered(d: string, rest: string)
    requires d != [] && AllChars(d, IsDigit)
    ensures MatchPidColon("[" + (d + ("]:" + rest))) == Some((Some(d), rest))
  {
    var s := "[" + (d + ("]:" + rest));
    assert s[1..] == d + ("]:" + rest);
    assert Run(s[1..], IsDigit) == |d| by {
      RunOfConcat(d, "]:" + rest, IsDigit);
    }
    assert s[1..|d| + 1] == d;
    assert s[|d| + 3..] == rest;
  }

  lemma PidColonRendered(pid: Option<string>, rest: string)
    requires pid.Some? ==> pid.value != [] && AllChars(pid.value, IsDigit)
    ensures MatchPidColon(PidSuffix(pid) + (":" + rest)) == Some((pid, rest))
    ensures !IsProcessChar((PidSuffix(pid) + (":" + rest))[0])
  {
    if pid.Some? {
      assert PidSuffix(pid) + (":" + rest) == "[" + (pid.value + ("]:" + rest));
      PidBracketRendered(pid.value, rest);
    } else {
      assert PidSuffix(pid) + (":" + rest) == ":" + rest;
    }
  }

  /** The text after a timestamp: ` host process[pid]:rest`. */
  function HeaderText(host: string, process: string, pid: Option<string>, rest: string): string {
    " " + (host + (" " + (process + (PidSuffix(pid) + (":" + rest)))))
  }

  lemma SpaceRun(x: string)
    requires x != [] && !IsSpace(x[0])
    ensures Run(" " + x, IsSpace) == 1 && (" " + x)[1..] == x
  {
    RunOfConcat(" ", x, IsSpace);
  }

  /** `MatchHeader`, read off the hostname run and what follows it. */
  lemma MatchHeaderOf(s: string, x: string, host: string, u: string, process: string, pid: Option<string>, rest: string)
    requires Run(s, IsSpace) == 1 && s[1..] == x
    requires host != [] && Run(x, NotSpace) == |host| && x[..|host|] == host && x[|host|..] == u
    requires MatchProcess(u) == Some((process, pid, rest))
    ensures MatchHeader(s) == Some(Header(host, process, pid, rest))
  {
  }

  /** `MatchProcess`, read off the whitespace, the process run and the pid and colon. */
  lemma MatchProcessOf(u: string, v: string, process: string, tail: string, pid: Option<string>, rest: string)
    requires Run(u, IsSpace) == 1 && u[1..] == v
    requires process != [] && Run(v, IsProcessChar) == |process| && v[..|process|] == process && v[|process|..] == tail
    requires MatchPidColon(tail) == Some((pid, rest))
    ensures MatchProcess(u) == Some((process, pid, rest))
  {
  }

  /** The header pattern reads back the hostname, process and pid it was written from. */
  lemma MatchHeaderRendered(host: string, process: string, pid: Option<string>, rest: string)
    requires CleanHeader(host, process, pid)
    ensures MatchHeader(HeaderText(host, process, pid, rest)) == Some(Header(host, process, pid, rest))
  {
    var tail := PidSuffix(pid) + (":" + rest);
    var v := process + tail;
    var u := " " + v;
    var x := host + u;
    SpaceRun(x);
    RunSplit(host, u, NotSpace);
    SpaceRun(v);
    PidColonRendered(pid, rest);
    RunSplit(process, tail, IsProcessChar);
    MatchProcessOf(u, v, process, tail, pid, rest);
    MatchHeaderOf(" " + x, x, host, u, process, pid, rest);
  }

  /** `\d{4}-\d{2}-\d{2}T` followed by a non-empty run of `[\d:.+\-]`. */
  predicate IsIsoStamp(ts: string) {
    && |ts| >= 12 && IsDigit(ts[0]) && IsDigit(ts[1]) && IsDigit(ts[2]) && IsDigit(ts[3])
    && ts[4] == '-' && IsDigit(ts[5]) && IsDigit(ts[6]) && ts[7] == '-'
    && IsDigit(ts[8]) && IsDigit(ts[9]) && ts[10] == 'T'
    && AllChars(ts[11..], IsStampChar)
  }

  lemma IsoStampRendered(ts: string, rest: string)
    requires IsIsoStamp(ts) && rest != [] && IsSpace(rest[0])
    ensures IsoStampLen(ts + rest) == Some(|ts|)
  {
    var s := ts + rest;
    assert s[11..] == ts[11..] + rest;
    RunOfConcat(ts[11..], rest, IsStampChar);
  }

  /** What follows the colon and its space, for each grammar. */
  function RenderTail(c: Captures): string {
    match c.fields
    case EventFields(id, sev, md, slot) => "Event|" + (id + ("|" + Join([sev, md, slot, c.message], "|")))
    case GenericFields(fac, sev, md, slot, sub, src) => Join([fac, sev, md, slot, sub, src, c.message], "|")
    case SyslogFields => c.message
  }

  /** The line a set of captures is written as, with single spaces between the parts. */
  function Render(c: Captures): string {
    c.timestamp + HeaderText(c.hostname, c.process, c.pid, " " + RenderTail(c))
  }

  lemma LastOfConcat(a: string, b: string)
    requires b != []
    ensures (a + b)[|a + b| - 1] == b[|b| - 1]
  {
  }

  /** A joined list ends with the last character of its last part. */
  lemma {:induction false} JoinLast(fs: seq<string>)
    requires |fs| >= 1 && fs[|fs| - 1] != []
    ensures Join(fs, "|") != [] && Join(fs, "|")[|Join(fs, "|")| - 1] == fs[|fs| - 1][|fs[|fs| - 1]| - 1]
  {
    if |fs| >= 2 {
      JoinLast(fs[1..]);
      LastOfConcat(fs[0] + "|", Join(fs[1..], "|"));
    }
  }

  /** A rendered line ends where its message ends. */
  lemma RenderLast(c: Captures)
    requires c.message != []
    ensures Render(c)[|Render(c)| - 1] == c.message[|c.message| - 1]
  {
    var tail := RenderTail(c);
    match c.fields
    case EventFields(id, sev, md, slot) =>
      JoinLast([sev, md, slot, c.message]);
      LastOfConcat(id + "|", Join([sev, md, slot, c.message], "|"));
      assert id + ("|" + Join([sev, md, slot, c.message], "|")) == id + "|" + Join([sev, md, slot, c.message], "|");
      LastOfConcat("Event|", id + ("|" + Join([sev, md, slot, c.message], "|")));
    case GenericFields(fac, sev, md, slot, sub, src) =>
      JoinLast([fac, sev, md, slot, sub, src, c.message]);
    case SyslogFields =>
    LastOfConcat(" ", tail);
    var h := HeaderText(c.hostname, c.process, c.pid, " " + tail);
    LastOfConcat(" " + (c.hostname + (" " + (c.process + (PidSuffix(c.pid) + ":")))), " " + tail);
    assert h == " " + (c.hostname + (" " + (c.process + (PidSuffix(c.pid) + ":")))) + (" " + tail);
    LastOfConcat(c.timestamp, h);
  }

  /** Rendered lines with a message that ends in a non-space are already stripped. */
  lemma RenderStripped(c: Captures)
    requires c.timestamp != [] && !IsSpace(c.timestamp[0])
    requires c.message != [] && !IsSpace(c.message[|c.message| - 1])
    ensures Strip(Render(c)) == Render(c)
  {
    RenderLast(c);
    StripUnchanged(Render(c));
  }

  /** The timestamp and header of a rendered ISO line are read back. */
  lemma IsoHeadRendered(c: Captures)
    requires IsIsoStamp(c.timestamp) && CleanHeader(c.hostname, c.process, c.pid)
    ensures var s := Render(c);
      IsoStampLen(s) == Some(|c.timestamp|) && s[..|c.timestamp|] == c.timestamp
      && MatchHeader(s[|c.timestamp|..]) == Some(Header(c.hostname, c.process, c.pid, " " + RenderTail(c)))
  {
    var h := HeaderText(c.hostname, c.process, c.pid, " " + RenderTail(c));
    IsoStampRendered(c.timestamp, h);
    assert Render(c)[|c.timestamp|..] == h;
    MatchHeaderRendered(c.hostname, c.process, c.pid, " " + RenderTail(c));
  }

  /** ISO timestamps take the ISO route. */
  lemma IsoStampRoute(ts: string, clock: Clock)
    requires IsIsoStamp(ts)
    ensures ConvertStamp(ts, clock) == clock.iso(ts)
  {
    assert ts[10] == 'T';
  }

  /** Captures of the Event grammar whose fields carry no stray pipes. */
  predicate CleanEvent(c: Captures) {
    && c.fields.EventFields?
    && IsIsoStamp(c.timestamp) && CleanHeader(c.hostname, c.process, c.pid)
    && c.fields.eventId != [] && AllChars(c.fields.eventId, IsDigit)
    && CleanFields([c.fields.severity, c.fields.moduleName, c.fields.slot, c.message], 2, 1)
    && !IsSpace(c.message[|c.message| - 1])
  }

  /** `parse_line` on a line whose stripped form matched: the record, or nothing when the timestamp does not convert. */
  lemma ParseLineOfMatch(line: string, c: Captures, clock: Clock)
    requires FirstMatch(Strip(line)) == Some(c)
    ensures ParseLine(line, clock) ==
      if ConvertStamp(c.timestamp, clock).Some?
      then Some(ParsedLine(ConvertStamp(c.timestamp, clock).value, c.hostname, c.process, c.pid, c.fields, c.message))
      else None
  {
  }

  /** `MatchEventTail`, read off the pieces it cuts its text into. */
  lemma MatchEventTailOf(r: string, x: string, y: string, id: string, J: string, fs: seq<string>)
    requires Run(r, IsSpace) == 1 && r[1..] == x
    requires |x| >= 6 && x[..6] == "Event|" && x[6..] == y
    requires id != [] && Run(y, IsDigit) == |id| && y[..|id|] == id && y[|id|..] == "|" + J
    requires MatchFields(J, 2, 1) == Some(fs)
    ensures MatchEventTail(r) == Some((EventFields(id, fs[0], fs[1], fs[2]), fs[3]))
  {
    assert y[|id|] == '|';
    assert y[|id| + 1..] == J;
  }

  lemma EventTailRendered(c: Captures)
    requires CleanEvent(c)
    ensures MatchEventTail(" " + RenderTail(c)) == Some((c.fields, c.message))
  {
    var f := c.fields;
    var fs := [f.severity, f.moduleName, f.slot, c.message];
    var J := Join(fs, "|");
    var y := f.eventId + ("|" + J);
    var x := "Event|" + y;
    SpaceRun(x);
    CutConcat("Event|", y);
    RunSplit(f.eventId, "|" + J, IsDigit);
    MatchFieldsRoundTrip(fs, 2, 1);
    MatchEventTailOf(" " + x, x, y, f.eventId, J, fs);
  }

  /**
   * Scenario A in general: an Event line is read back into exactly the
   * groups it was written from, and the record carries the ISO-parsed
   * timestamp, or the line is dropped when that timestamp does not parse.
   */
  lemma EventLineRoundTrip(c: Captures, clock: Clock)
    requires CleanEvent(c)
    ensures FirstMatch(Strip(Render(c))) == Some(c)
    ensures ParseLine(Render(c), clock) ==
      if clock.iso(c.timestamp).Some?
      then Some(ParsedLine(clock.iso(c.timestamp).value, c.hostname, c.process, c.pid, c.fields, c.message))
      else None
  {
    RenderStripped(c);
    EventMatched(c);
    ParseLineOfMatch(Render(c), c, clock);
    IsoStampRoute(c.timestamp, clock);
  }

  lemma EventMatched(c: Captures)
    requires CleanEvent(c)
    ensures MatchEvent(Render(c)) == Some(c)
  {
    IsoHeadRendered(c);
    EventTailRendered(c);
  }

  /** Captures of the generic grammar whose fields carry no stray pipes. */
  predicate CleanGeneric(c: Captures) {
    && c.fields.GenericFields?
    && IsIsoStamp(c.timestamp) && CleanHeader(c.hostname, c.process, c.pid)
    && CleanFields([c.fields.facility, c.fields.severity, c.fields.moduleName, c.fields.slot,
                    c.fields.submoduleName, c.fields.source, c.message], 3, 3)
    && !IsSpace(c.message[|c.message| - 1])
    && c.fields.facility != "Event"
  }

  /** A first field without pipes that is not "Event" keeps the Event grammar from matching. */
  lemma NotEventPrefix(fac: string, rest: string)
    requires '|' !in fac && fac != "Event"
    ensures !("Event|" <= fac + ("|" + rest))
  {
    var J := fac + ("|" + rest);
    if |fac| >= 6 {
      assert J[5] == fac[5];
    } else {
      assert J[|fac|] == '|';
      assert J[..|fac|] == fac;
    }
  }

  lemma GenericTailRendered(c: Captures)
    requires CleanGeneric(c)
    ensures MatchEventTail(" " + RenderTail(c)) == None
    ensures MatchGenericTail(" " + RenderTail(c)) == Some((c.fields, c.message))
  {
    var f := c.fields;
    var fs := [f.facility, f.severity, f.moduleName, f.slot, f.submoduleName, f.source, c.message];
    var J := Join(fs, "|");
    assert RenderTail(c) == J;
    SpaceRun(J);
    GenericNotEvent(fs);
    MatchFieldsRoundTrip(fs, 3, 3);
  }

  lemma GenericNotEvent(fs: seq<string>)
    requires |fs| == 7 && '|' !in fs[0] && fs[0] != "Event"
    ensures !("Event|" <= Join(fs, "|"))
  {
    JoinCons(fs);
    NotEventPrefix(fs[0], Join(fs[1..], "|"));
  }

  /**
   * A generic line whose facility is not "Event" is not taken by the Event
   * grammar, and the generic grammar reads it back into its groups.
   */
  lemma GenericLineRoundTrip(c: Captures, clock: Clock)
    requires CleanGeneric(c)
    ensures FirstMatch(Strip(Render(c))) == Some(c)
    ensures ParseLine(Render(c), clock) ==
      if clock.iso(c.timestamp).Some?
      then Some(ParsedLine(clock.iso(c.timestamp).value, c.hostname, c.process, c.pid, c.fields, c.message))
      else None
  {
    RenderStripped(c);
    GenericMatched(c);
    assert FirstMatch(Render(c)) == Some(c);
    ParseLineOfMatch(Render(c), c, clock);
    IsoStampRoute(c.timestamp, clock);
  }

  lemma GenericMatched(c: Captures)
    requires CleanGeneric(c)
    ensures MatchEvent(Render(c)) == None && MatchGeneric(Render(c)) == Some(c)
  {
    IsoHeadRendered(c);
    GenericTailRendered(c);
  }

  /** The parts of a `Mon D HH:MM:SS` timestamp, with the whitespace runs the grammar allows. */
  predicate SyslogStampParts(mon: string, ws1: string, day: string, ws2: string, clockText: string) {
    && |mon| == 3 && IsUpper(mon[0]) && IsLower(mon[1]) && IsLower(mon[2])
    && ws1 != [] && AllChars(ws1, IsSpace)
    && 1 <= |day| <= 2 && AllChars(day, IsDigit)
    && ws2 != [] && AllChars(ws2, IsSpace)
    && |clockText| == 8 && AllChars(clockText, IsClockChar)
  }

  /** The timestamp a set of syslog parts is written as. */
  function SyslogStampText(mon: string, ws1: string, day: string, ws2: string, clockText: string): string {
    mon + (ws1 + (day + (ws2 + clockText)))
  }

  lemma SyslogStampRendered(mon: string, ws1: string, day: string, ws2: string, clockText: string, rest: string)
    requires SyslogStampParts(mon, ws1, day, ws2, clockText)
    ensures var ts := SyslogStampText(mon, ws1, day, ws2, clockText);
      SyslogStampLen(ts + rest) == Some(|ts|)
  {
    var z := day + (ws2 + clockText);
    var y := ws1 + z;
    PeelMonth(mon, y, rest);
    DayClockRendered(day, ws2, clockText, rest);
    assert z[0] == day[0];
    RunBeforeOther(ws1, z, rest, IsSpace);
    SyslogStampLenOf(mon + y + rest, y + rest, |ws1|, z + rest, |day| + |ws2| + 8);
  }

  lemma PeelMonth(mon: string, y: string, rest: string)
    requires |mon| == 3
    ensures var s := mon + y + rest; s[0] == mon[0] && s[1] == mon[1] && s[2] == mon[2] && s[3..] == y + rest
  {
  }

  /** `SyslogStampLen`, read off the month, the whitespace run after it, and the day and clock. */
  lemma SyslogStampLenOf(s: string, u: string, w: nat, t: string, n: nat)
    requires |s| >= 3 && IsUpper(s[0]) && IsLower(s[1]) && IsLower(s[2]) && s[3..] == u
    requires 0 < w && Run(u, IsSpace) == w && u[w..] == t && DayClockLen(t) == Some(n)
    ensures SyslogStampLen(s) == Some(3 + w + n)
  {
  }

  lemma DayClockRendered(day: string, ws2: string, clockText: string, rest: string)
    requires 1 <= |day| <= 2 && AllChars(day, IsDigit)
    requires ws2 != [] && AllChars(ws2, IsSpace)
    requires |clockText| == 8 && AllChars(clockText, IsClockChar)
    ensures DayClockLen(day + (ws2 + clockText) + rest) == Some(|day| + |ws2| + 8)
  {
    assert (ws2 + clockText)[0] == ws2[0];
    RunBeforeOther(day, ws2 + clockText, rest, IsDigit);
    ClockRendered(ws2, clockText, rest);
  }

  lemma ClockRendered(ws2: string, clockText: string, rest: string)
    requires ws2 != [] && AllChars(ws2, IsSpace)
    requires |clockText| == 8 && AllChars(clockText, IsClockChar)
    ensures ClockLen(ws2 + clockText + rest) == Some(|ws2| + 8)
  {
    RunBeforeOther(ws2, clockText, rest, IsSpace);
    assert (clockText + rest)[..8] == clockText;
  }

  /** A run followed by a character outside its class ends exactly where that character begins. */
  lemma RunBeforeOther(a: string, b: string, rest: string, p: char -> bool)
    requires AllChars(a, p) && b != [] && !p(b[0])
    ensures Run(a + b + rest, p) == |a| && (a + b + rest)[|a|..] == b + rest
  {
    assert a + b + rest == a + (b + rest);
    RunOfConcat(a, b + rest, p);
  }

  /** A syslog timestamp takes the ISO route exactly when its month starts with "T". */
  lemma SyslogStampRoute(mon: string, ws1: string, day: string, ws2: string, clockText: string)
    requires SyslogStampParts(mon, ws1, day, ws2, clockText)
    ensures ('T' in SyslogStampText(mon, ws1, day, ws2, clockText)) <==> mon[0] == 'T'
  {
    var ts := SyslogStampText(mon, ws1, day, ws2, clockText);
    var a := 3 + |ws1|;
    var b := a + |day|;
    var d := b + |ws2|;
    forall i | 1 <= i < |ts| ensures ts[i] != 'T' {
      if i < 3 {
        assert ts[i] == mon[i];
      } else if i < a {
        assert ts[i] == ws1[i - 3];
      } else if i < b {
        assert ts[i] == day[i - a];
      } else if i < d {
        assert ts[i] == ws2[i - b];
      } else {
        assert ts[i] == clockText[i - d];
      }
    }
    assert ts[0] == mon[0];
  }

  /** A syslog line, rendered from its parts. */
  function SyslogCaptures(mon: string, ws1: string, day: string, ws2: string, clockText: string,
                          host: string, process: string, pid: Option<string>, msg: string): Captures
  {
    Captures(SyslogStampText(mon, ws1, day, ws2, clockText), host, process, pid, SyslogFields, msg)
  }

  /** Messages the syslog grammar reads back unchanged. */
  predicate CleanMessage(msg: string) {
    msg != [] && !IsSpace(msg[0]) && !IsSpace(msg[|msg| - 1]) && '\n' !in msg
  }

  /** `MatchSyslog`, read off the timestamp, the header and the message. */
  lemma MatchSyslogOf(ts: string, h: string, hd: Header, msg: string)
    requires SyslogStampLen(ts + h) == Some(|ts|)
    requires MatchHeader(h) == Some(hd) && MatchSyslogTail(hd.rest) == Some(msg)
    ensures MatchSyslog(ts + h) == Some(Captures(ts, hd.hostname, hd.process, hd.pid, SyslogFields, msg))
  {
    CutConcat(ts, h);
  }

  /** No ISO timestamp starts with an upper-case letter. */
  lemma IsoStampNeedsDigit(s: string)
    requires s != [] && IsUpper(s[0])
    ensures IsoStampLen(s) == None
  {
  }

  lemma FirstMatchSyslog(s: string, c: Captures)
    requires MatchEvent(s) == None && MatchGeneric(s) == None && MatchSyslog(s) == Some(c)
    ensures FirstMatch(s) == Some(c)
  {
  }

  lemma SyslogMatched(mon: string, ws1: string, day: string, ws2: string, clockText: string,
                      host: string, process: string, pid: Option<string>, msg: string)
    requires SyslogStampParts(mon, ws1, day, ws2, clockText)
    requires CleanHeader(host, process, pid) && CleanMessage(msg)
    ensures var c := SyslogCaptures(mon, ws1, day, ws2, clockText, host, process, pid, msg);
      MatchEvent(Render(c)) == None && MatchGeneric(Render(c)) == None && MatchSyslog(Render(c)) == Some(c)
  {
    var ts := SyslogStampText(mon, ws1, day, ws2, clockText);
    var h := HeaderText(host, process, pid, " " + msg);
    SyslogStampRendered(mon, ws1, day, ws2, clockText, h);
    IsoStampNeedsDigit(ts + h);
    MatchHeaderRendered(host, process, pid, " " + msg);
    SyslogTailRendered(msg);
    MatchSyslogOf(ts, h, Header(host, process, pid, " " + msg), msg);
  }

  /** A clean message after its single space is read back whole. */
  lemma SyslogTailRendered(msg: string)
    requires CleanMessage(msg)
    ensures MatchSyslogTail(" " + msg) == Some(msg)
  {
    SpaceRun(msg);
    assert AllChars(msg, NotNewline) by {
      forall i | 0 <= i < |msg| ensures msg[i] != '\n' { }
    }
    RunOfConcat(msg, [], NotNewline);
    assert msg + [] == msg;
  }

  /**
   * A plain syslog line is read back into its parts; it never matches the
   * two ISO grammars, which need a leading digit. Its timestamp is then
   * converted by the syslog clock unless the month begins with "T".
   */
  lemma SyslogLineRoundTrip(mon: string, ws1: string, day: string, ws2: string, clockText: string,
                            host: string, process: string, pid: Option<string>, msg: string, clock: Clock)
    requires SyslogStampParts(mon, ws1, day, ws2, clockText)
    requires CleanHeader(host, process, pid) && CleanMessage(msg)
    ensures var c := SyslogCaptures(mon, ws1, day, ws2, clockText, host, process, pid, msg);
      FirstMatch(Strip(Render(c))) == Some(c)
      && ParseLine(Render(c), clock) ==
         (if ConvertStamp(c.timestamp, clock).Some?
          then Some(ParsedLine(ConvertStamp(c.timestamp, clock).value, host, process, pid, SyslogFields, msg))
          else None)
      && (mon[0] != 'T' ==> ConvertStamp(c.timestamp, clock) == clock.syslog(c.timestamp))
  {
    var c := SyslogCaptures(mon, ws1, day, ws2, clockText, host, process, pid, msg);
    RenderStripped(c);
    SyslogMatched(mon, ws1, day, ws2, clockText, host, process, pid, msg);
    FirstMatchSyslog(Render(c), c);
    ParseLineOfMatch(Render(c), c, clock);
    SyslogStampRoute(mon, ws1, day, ws2, clockText);
  }

  // ---------------------------------------------------------------------
  // Properties of parse_line on every input

  /**
   * The grammars are tried in a fixed order: the kind of the captured groups
   * says which grammar matched, and that every earlier one failed.
   */
  lemma FirstMatchPriority(s: string)
    requires FirstMatch(s).Some?
    ensures var c := FirstMatch(s).value;
      && (c.fields.EventFields? <==> MatchEvent(s).Some?)
      && (c.fields.GenericFields? <==> MatchEvent(s).None? && MatchGeneric(s).Some?)
      && (c.fields.SyslogFields? <==> MatchEvent(s).None? && MatchGeneric(s).None?)
  {
    if MatchEvent(s).Some? {
      MatchEventSound(s);
    } else if MatchGeneric(s).Some? {
      MatchGenericSound(s);
    } else {
      MatchSyslogSound(s);
    }
  }

  /** The two ISO grammars always take the ISO timestamp route. */
  lemma IsoGrammarsUseIsoClock(s: string)
    requires MatchEvent(s).Some? || MatchGeneric(s).Some?
    ensures var c := if MatchEvent(s).Some? then MatchEvent(s).value else MatchGeneric(s).value;
      'T' in c.timestamp
  {
    var n := IsoStampLen(s).value;
    assert s[..n][10] == 'T';
  }

  /** The shapes the three patterns impose on their groups. */
  predicate CapturesShape(c: Captures) {
    && c.hostname != [] && AllChars(c.hostname, NotSpace) && c.process != []
    && c.message != [] && '\n' !in c.message
    && (c.fields.EventFields? ==>
          && c.fields.eventId != [] && AllChars(c.fields.eventId, IsDigit)
          && FieldsShape([c.fields.severity, c.fields.moduleName, c.fields.slot, c.message], 2, 1))
    && (c.fields.GenericFields? ==>
          FieldsShape([c.fields.facility, c.fields.severity, c.fields.moduleName, c.fields.slot,
                        c.fields.submoduleName, c.fields.source, c.message], 3, 3))
  }

  /** The Event tail yields a numeric id and fields of the shapes their patterns impose. */
  lemma EventTailSound(r: string)
    requires MatchEventTail(r).Some?
    ensures var (f, msg) := MatchEventTail(r).value;
      && f.EventFields? && f.eventId != [] && AllChars(f.eventId, IsDigit)
      && FieldsShape([f.severity, f.moduleName, f.slot, msg], 2, 1)
  {
    var y := r[Run(r, IsSpace)..][6..];
    var d := Run(y, IsDigit);
    var fs := MatchFields(y[d + 1..], 2, 1).value;
    assert MatchEventTail(r).value == (EventFields(y[..d], fs[0], fs[1], fs[2]), fs[3]);
    MatchFieldsSound(y[d + 1..], 2, 1);
    RunPrefix(y, IsDigit, d);
    assert fs == [fs[0], fs[1], fs[2], fs[3]];
  }

  /** The generic tail yields fields of the shapes their patterns impose. */
  lemma GenericTailSound(r: string)
    requires MatchGenericTail(r).Some?
    ensures var (f, msg) := MatchGenericTail(r).value;
      f.GenericFields? && FieldsShape([f.facility, f.severity, f.moduleName, f.slot, f.submoduleName, f.source, msg], 3, 3)
  {
    MatchFieldsSound(r[Run(r, IsSpace)..], 3, 3);
    var fs := MatchFields(r[Run(r, IsSpace)..], 3, 3).value;
    assert fs == [fs[0], fs[1], fs[2], fs[3], fs[4], fs[5], fs[6]];
  }

  lemma MatchEventSound(s: string)
    requires MatchEvent(s).Some?
    ensures MatchEvent(s).value.fields.EventFields? && CapturesShape(MatchEvent(s).value)
  {
    var n := IsoStampLen(s).value;
    EventTailSound(MatchHeader(s[n..]).value.rest);
  }

  lemma MatchGenericSound(s: string)
    requires MatchGeneric(s).Some?
    ensures MatchGeneric(s).value.fields.GenericFields? && CapturesShape(MatchGeneric(s).value)
  {
    var n := IsoStampLen(s).value;
    GenericTailSound(MatchHeader(s[n..]).value.rest);
  }

  /** The syslog message is a non-empty single line. */
  lemma SyslogTailSound(r: string)
    requires MatchSyslogTail(r).Some?
    ensures MatchSyslogTail(r).value != [] && '\n' !in MatchSyslogTail(r).value
  {
    var w := Run(r, IsSpace);
    var x := if w < |r| then w else LastNonNewline(r, w - 1).value;
    assert MatchSyslogTail(r) == Some(TakeLine(r[x..]));
    assert r[x..][0] != '\n';
    TakeLineShape(r[x..]);
  }

  lemma MatchSyslogSound(s: string)
    requires MatchSyslog(s).Some?
    ensures MatchSyslog(s).value.fields.SyslogFields? && CapturesShape(MatchSyslog(s).value)
  {
    var n := SyslogStampLen(s).value;
    SyslogTailSound(MatchHeader(s[n..]).value.rest);
  }

  /**
   * What every emitted record is: the groups of the first grammar that
   * matched the stripped line, with the timestamp the chosen clock made of
   * the captured text (so an unparseable timestamp never yields a record),
   * and groups of the shapes their patterns impose.
   */
  lemma ParseLineSound(line: string, clock: Clock)
    requires ParseLine(line, clock).Some?
    ensures var p := ParseLine(line, clock).value;
      && FirstMatch(Strip(line)).Some?
      && var c := FirstMatch(Strip(line)).value;
      && ConvertStamp(c.timestamp, clock) == Some(p.timestamp)
      && p == ParsedLine(p.timestamp, c.hostname, c.process, c.pid, c.fields, c.message)
      && CapturesShape(c)
  {
    var s := Strip(line);
    if MatchEvent(s).Some? {
      MatchEventSound(s);
    } else if MatchGeneric(s).Some? {
      MatchGenericSound(s);
    } else {
      MatchSyslogSound(s);
    }
  }
}
