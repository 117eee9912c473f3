/**
 * The merge step of bundle parsing: the event-log records are extended
 * by the fastlog records, and the list is then sorted in place, stably,
 * by timestamp.
 *
 * The specification of the sort is a functional insertion sort,
 * `SortByTime`. It is proved sorted, a permutation of its input and
 * stable: among records with the same timestamp, the order of the input is
 * kept. It is also proved to be the ONLY sorted sequence with that
 * property, so any stable sort (Python's included) yields it.
 */
module Merge {
  import opened Time
  import opened Wrappers
  import LineParser
  import Fastlog

  /** One entry of the merged log: an event-log record or a fastlog record. */
  datatype LogRecord =
    | EventRecord(line: LineParser.ParsedLine)
    | FastlogRecord(entry: Fastlog.FastlogEntry)
  {
    /** The sort key. */
    function Time(): Instant {
      match this
      case EventRecord(l) => l.timestamp
      case FastlogRecord(e) => e.timestamp
    }

    /**
     * The record's `source` key. A generic event-log line has a captured
     * group of that name; every other record gets the key from its tag.
     */
    function Source(): string {
      match this
      case EventRecord(l) => if l.fields.GenericFields? then l.fields.source else "eventlog"
      case FastlogRecord(_) => "fastlog"
    }
  }

  /**
   * `entry["source"] = "eventlog"`: every event-log record is tagged, and
   * for the generic grammar the tag overwrites the captured `source` group.
   * Everything else the line yielded is kept.
   */
  function Tagged(p: LineParser.ParsedLine): (q: LineParser.ParsedLine)
    ensures EventRecord(q).Source() == "eventlog"
    ensures q.timestamp == p.timestamp && q.hostname == p.hostname && q.process == p.process
            && q.pid == p.pid && q.message == p.message
    ensures p.fields.GenericFields? <==> q.fields.GenericFields?
    ensures !p.fields.GenericFields? ==> q.fields == p.fields
    ensures p.fields.GenericFields? ==>
      && q.fields.facility == p.fields.facility && q.fields.severity == p.fields.severity
      && q.fields.moduleName == p.fields.moduleName && q.fields.slot == p.fields.slot
      && q.fields.submoduleName == p.fields.submoduleName
  {
    if p.fields.GenericFields? then p.(fields := p.fields.(source := "eventlog")) else p
  }

  // ---------------------------------------------------------------------
  // Event-log records of one file

  /**
   * The records of one event-log file: each line is parsed, and the lines
   * that yield a record are kept, in order, tagged as event-log records.
   */
  function EventRecords(lines: seq<string>, clock: LineParser.Clock): (r: seq<LogRecord>)
    ensures |r| <= |lines|
    ensures forall i :: 0 <= i < |r| ==> r[i].EventRecord? && r[i].Source() == "eventlog"
  {
    if lines == [] then []
    else EventRecords(lines[..|lines| - 1], clock) + LineRecords(lines[|lines| - 1], clock)
  }

  /** What one line contributes: its tagged record when it parses, nothing otherwise. */
  function LineRecords(line: string, clock: LineParser.Clock): seq<LogRecord>
  {
    match LineParser.ParseLine(line, clock)
    case None => []
    case Some(p) => [EventRecord(Tagged(p))]
  }

  /** A single line yields its tagged record exactly when it parses. */
  lemma EventRecordsSingle(line: string, clock: LineParser.Clock)
    ensures EventRecords([line], clock) ==
      if LineParser.ParseLine(line, clock).Some? then [EventRecord(Tagged(LineParser.ParseLine(line, clock).value))] else []
  {
    assert [line][..0] == [];
  }

  /**
   * The records of consecutive runs of lines are concatenated in order: with
   * `EventRecordsSingle`, every line that parses yields exactly one record,
   * at the position of its line.
   */
  lemma {:induction false} EventRecordsAppend(a: seq<string>, b: seq<string>, clock: LineParser.Clock)
    ensures EventRecords(a + b, clock) == EventRecords(a, clock) + EventRecords(b, clock)
    decreases |b|
  {
    if b == [] {
      assert a + b == a;
    } else {
      var init := b[..|b| - 1];
      var last := b[|b| - 1];
      assert (a + b)[..|a + b| - 1] == a + init;
      assert (a + b)[|a + b| - 1] == last;
      EventRecordsAppend(a, init, clock);
      EventRecordsSnocOf(EventRecords(a, clock), EventRecords(init, clock), LineRecords(last, clock),
                         EventRecords(a + init, clock), EventRecords(a + b, clock), EventRecords(b, clock));
    }
  }

  lemma EventRecordsSnocOf(ra: seq<LogRecord>, ri: seq<LogRecord>, rl: seq<LogRecord>,
                           rai: seq<LogRecord>, rab: seq<LogRecord>, rb: seq<LogRecord>)
    requires rai == ra + ri && rab == rai + rl && rb == ri + rl
    ensures rab == ra + rb
  {
  }

  lemma LineRecordsShape(line: string, clock: LineParser.Clock, k: nat)
    requires k < |LineRecords(line, clock)|
    ensures LineParser.ParseLine(line, clock).Some?
    ensures LineRecords(line, clock)[k] == EventRecord(Tagged(LineParser.ParseLine(line, clock).value))
  {
  }

  /** The line that record `i` comes from. */
  lemma {:induction false} RecordLine(lines: seq<string>, clock: LineParser.Clock, i: nat) returns (j: nat)
    requires i < |EventRecords(lines, clock)|
    ensures j < |lines| && LineParser.ParseLine(lines[j], clock).Some?
    ensures Tagged(LineParser.ParseLine(lines[j], clock).value) == EventRecords(lines, clock)[i].line
  {
    var init := lines[..|lines| - 1];
    if i < |EventRecords(init, clock)| {
      InitRecord(lines, clock, i);
      j := RecordLine(init, clock, i);
      assert lines[j] == init[j];
    } else {
      LastLineRecord(lines, clock, i);
      j := |lines| - 1;
    }
  }

  lemma InitRecord(lines: seq<string>, clock: LineParser.Clock, i: nat)
    requires lines != [] && i < |EventRecords(lines[..|lines| - 1], clock)|
    ensures i < |EventRecords(lines, clock)| && EventRecords(lines, clock)[i] == EventRecords(lines[..|lines| - 1], clock)[i]
  {
    var r0 := EventRecords(lines[..|lines| - 1], clock);
    var rl := LineRecords(lines[|lines| - 1], clock);
    assert EventRecords(lines, clock) == r0 + rl;
    assert (r0 + rl)[i] == r0[i];
  }

  lemma LastLineRecord(lines: seq<string>, clock: LineParser.Clock, i: nat)
    requires lines != [] && |EventRecords(lines[..|lines| - 1], clock)| <= i < |EventRecords(lines, clock)|
    ensures LineParser.ParseLine(lines[|lines| - 1], clock).Some?
    ensures Tagged(LineParser.ParseLine(lines[|lines| - 1], clock).value) == EventRecords(lines, clock)[i].line
  {
    var last := lines[|lines| - 1];
    var r0 := EventRecords(lines[..|lines| - 1], clock);
    var rl := LineRecords(last, clock);
    assert EventRecords(lines, clock) == r0 + rl;
    ConcatIndexOf(r0, rl, EventRecords(lines, clock), i);
    LineRecordsShape(last, clock, i - |r0|);
  }

  lemma ConcatIndexOf(a: seq<LogRecord>, b: seq<LogRecord>, r: seq<LogRecord>, i: nat)
    requires r == a + b && |a| <= i < |r|
    ensures i - |a| < |b| && r[i] == b[i - |a|]
  {
  }

  /** Each record comes from a line of the file that parses. */
  lemma {:induction false} EventRecordsFromLines(lines: seq<string>, clock: LineParser.Clock)
    ensures forall i :: 0 <= i < |EventRecords(lines, clock)| ==>
      && EventRecords(lines, clock)[i].EventRecord?
      && exists j :: (0 <= j < |lines| && LineParser.ParseLine(lines[j], clock).Some?
                      && EventRecords(lines, clock)[i] == EventRecord(Tagged(LineParser.ParseLine(lines[j], clock).value)))
  {
    var r := EventRecords(lines, clock);
    forall i | 0 <= i < |r|
      ensures && r[i].EventRecord?
              && exists j :: (0 <= j < |lines| && LineParser.ParseLine(lines[j], clock).Some?
                              && r[i] == EventRecord(Tagged(LineParser.ParseLine(lines[j], clock).value)))
    {
      var j := RecordLine(lines, clock, i);
      assert r[i] == EventRecord(Tagged(LineParser.ParseLine(lines[j], clock).value));
    }
  }

  /** The fastlog entries of one decoded file, as merged records. */
  function FastlogRecords(entries: seq<Fastlog.FastlogEntry>): (r: seq<LogRecord>)
    ensures |r| == |entries|
    ensures forall i :: 0 <= i < |r| ==> r[i] == FastlogRecord(entries[i]) && r[i].Source() == "fastlog"
  {
    seq(|entries|, i requires 0 <= i < |entries| => FastlogRecord(entries[i]))
  }

  // ---------------------------------------------------------------------
  // The sort, as a function

  predicate Sorted(s: seq<LogRecord>) {
    forall i, j :: 0 <= i < j < |s| ==> s[i].Time() <= s[j].Time()
  }

  /**
   * Insert `x` after every record of `s`, scanning from the back, that is
   * not later than it: before the trailing run of strictly later records.
   */
  function Insert(s: seq<LogRecord>, x: LogRecord): seq<LogRecord>
  {
    if s == [] then [x]
    else if s[|s| - 1].Time() > x.Time() then Insert(s[..|s| - 1], x) + [s[|s| - 1]]
    else s + [x]
  }

  /** The records of `s`, stably sorted by timestamp. */
  function SortByTime(s: seq<LogRecord>): seq<LogRecord>
  {
    if s == [] then [] else Insert(SortByTime(s[..|s| - 1]), s[|s| - 1])
  }

  /** The records of `s` with timestamp `t`, in order. */
  function WithTime(s: seq<LogRecord>, t: Instant): seq<LogRecord>
  {
    if s == [] then []
    else WithTime(s[..|s| - 1], t) + (if s[|s| - 1].Time() == t then [s[|s| - 1]] else [])
  }

  lemma SortSnoc(s: seq<LogRecord>, x: LogRecord)
    ensures SortByTime(s + [x]) == Insert(SortByTime(s), x)
  {
    assert (s + [x])[..|s|] == s;
  }

  lemma WithTimeSnoc(s: seq<LogRecord>, x: LogRecord, t: Instant)
    ensures WithTime(s + [x], t) == WithTime(s, t) + (if x.Time() == t then [x] else [])
  {
    assert (s + [x])[..|s|] == s;
  }

  /** Selecting by timestamp distributes over concatenation. */
  lemma {:induction false} WithTimeAppend(a: seq<LogRecord>, b: seq<LogRecord>, t: Instant)
    ensures WithTime(a + b, t) == WithTime(a, t) + WithTime(b, t)
    decreases |b|
  {
    if b == [] {
      assert a + b == a;
    } else {
      var b' := b[..|b| - 1];
      var x := b[|b| - 1];
      assert a + b == (a + b') + [x];
      assert b' + [x] == b;
      WithTimeAppend(a, b', t);
      WithTimeSnoc(a + b', x, t);
      WithTimeSnoc(b', x, t);
    }
  }

  // ---------------------------------------------------------------------
  // Insertion

  /** Inserting adds exactly the new record. */
  lemma {:induction false} InsertPermutes(s: seq<LogRecord>, x: LogRecord)
    ensures multiset(Insert(s, x)) == multiset(s) + multiset{x}
  {
    if s != [] && s[|s| - 1].Time() > x.Time() {
      InsertPermutes(s[..|s| - 1], x);
      assert s == s[..|s| - 1] + [s[|s| - 1]];
    }
  }

  /** Every record of `Insert(s, x)` is at most `b` when those of `s` and `x` are. */
  lemma {:induction false} InsertBounded(s: seq<LogRecord>, x: LogRecord, b: Instant)
    requires forall k :: 0 <= k < |s| ==> s[k].Time() <= b
    requires x.Time() <= b
    ensures forall k :: 0 <= k < |Insert(s, x)| ==> Insert(s, x)[k].Time() <= b
    decreases |s|
  {
    if s != [] && s[|s| - 1].Time() > x.Time() {
      var init := s[..|s| - 1];
      assert forall k :: 0 <= k < |init| ==> init[k] == s[k];
      InsertBounded(init, x, b);
    }
  }

  /** A sorted sequence extended by a record not earlier than any of its records is sorted. */
  lemma SortedSnoc(s: seq<LogRecord>, x: LogRecord)
    requires Sorted(s)
    requires forall k :: 0 <= k < |s| ==> s[k].Time() <= x.Time()
    ensures Sorted(s + [x])
  {
  }

  /** Inserting into a sorted sequence keeps it sorted. */
  lemma {:induction false} InsertSorted(s: seq<LogRecord>, x: LogRecord)
    requires Sorted(s)
    ensures Sorted(Insert(s, x))
    decreases |s|
  {
    if s != [] {
      var init := s[..|s| - 1];
      var last := s[|s| - 1];
      assert forall k :: 0 <= k < |init| ==> init[k] == s[k];
      if last.Time() > x.Time() {
        assert Sorted(init);
        InsertSorted(init, x);
        InsertBounded(init, x, last.Time());
        SortedSnoc(Insert(init, x), last);
      } else {
        SortedSnoc(s, x);
      }
    }
  }

  /** Inserting `x` keeps the records with any timestamp in order, `x` coming after those with its own. */
  lemma {:induction false} InsertStable(s: seq<LogRecord>, x: LogRecord, t: Instant)
    ensures WithTime(Insert(s, x), t) == WithTime(s, t) + (if x.Time() == t then [x] else [])
  {
    if s == [] {
      WithTimeSnoc([], x, t);
    } else {
      var init := s[..|s| - 1];
      var last := s[|s| - 1];
      if last.Time() > x.Time() {
        assert Insert(s, x) == Insert(init, x) + [last];
        assert WithTime(s, t) == WithTime(init, t) + (if last.Time() == t then [last] else []);
        InsertStable(init, x, t);
        WithTimeSnoc(Insert(init, x), last, t);
      } else {
        WithTimeSnoc(s, x, t);
      }
    }
  }

  /** Where the in-place loop puts `x`: after the records not later than it, before the later ones. */
  lemma {:induction false} InsertAt(s: seq<LogRecord>, x: LogRecord, j: nat)
    requires j <= |s|
    requires j == 0 || s[j - 1].Time() <= x.Time()
    requires forall k :: j <= k < |s| ==> s[k].Time() > x.Time()
    ensures Insert(s, x) == s[..j] + [x] + s[j..]
    decreases |s|
  {
    if j == |s| {
      if s != [] {
        assert s[..j] == s;
      }
    } else {
      var init := s[..|s| - 1];
      InsertAt(init, x, j);
      assert init[..j] == s[..j];
      assert init[j..] + [s[|s| - 1]] == s[j..];
    }
  }

  // ---------------------------------------------------------------------
  // The sort's properties

  /** The merged list is in timestamp order. */
  lemma {:induction false} SortedByTime(s: seq<LogRecord>)
    ensures Sorted(SortByTime(s))
  {
    if s != [] {
      SortedByTime(s[..|s| - 1]);
      InsertSorted(SortByTime(s[..|s| - 1]), s[|s| - 1]);
    }
  }

  /** The merged list holds the same records as the input, each as often. */
  lemma {:induction false} SortPermutes(s: seq<LogRecord>)
    ensures multiset(SortByTime(s)) == multiset(s)
  {
    if s != [] {
      var init := s[..|s| - 1];
      SortPermutes(init);
      InsertPermutes(SortByTime(init), s[|s| - 1]);
      assert s == init + [s[|s| - 1]];
    }
  }

  /** The sort is stable: the records with any given timestamp keep their input order. */
  lemma {:induction false} SortStable(s: seq<LogRecord>, t: Instant)
    ensures WithTime(SortByTime(s), t) == WithTime(s, t)
  {
    if s != [] {
      var init := s[..|s| - 1];
      SortStable(init, t);
      InsertStable(SortByTime(init), s[|s| - 1], t);
      WithTimeSnoc(init, s[|s| - 1], t);
      assert s == init + [s[|s| - 1]];
    }
  }

  /** An already ordered list is left as it is. */
  lemma {:induction false} SortKeepsSorted(s: seq<LogRecord>)
    requires Sorted(s)
    ensures SortByTime(s) == s
  {
    if s != [] {
      var init := s[..|s| - 1];
      assert Sorted(init);
      SortKeepsSorted(init);
      assert init + [s[|s| - 1]] == s;
    }
  }

  /** A record with the largest timestamp of a sequence shows up when selecting that timestamp. */
  lemma {:induction false} WithTimeHas(s: seq<LogRecord>, i: nat)
    requires i < |s|
    ensures WithTime(s, s[i].Time()) != []
  {
    var init := s[..|s| - 1];
    if i < |s| - 1 {
      assert init[i] == s[i];
      WithTimeHas(init, i);
    }
  }

  /** In a sorted sequence no record has a timestamp above the last one. */
  lemma {:induction false} WithTimeAboveLast(s: seq<LogRecord>, t: Instant)
    requires Sorted(s) && s != [] && t > s[|s| - 1].Time()
    ensures WithTime(s, t) == []
    decreases |s|
  {
    var init := s[..|s| - 1];
    if init != [] {
      assert Sorted(init);
      WithTimeAboveLast(init, t);
    }
  }

  /**
   * Sorted sequences that agree on the records of every timestamp are
   * equal: a stable sort has exactly one possible result.
   */
  lemma {:induction false} StableSortUnique(r: seq<LogRecord>, q: seq<LogRecord>)
    requires Sorted(r) && Sorted(q)
    requires forall t :: WithTime(r, t) == WithTime(q, t)
    ensures r == q
    decreases |r| + |q|
  {
    if r == [] && q != [] {
      assert false;
    } else if r != [] && q == [] {
      WithTimeHas(r, |r| - 1);
      assert false;
    } else if r != [] {
      var tr := r[|r| - 1].Time();
      var tq := q[|q| - 1].Time();
      if tr < tq {
        WithTimeHas(q, |q| - 1);
        WithTimeAboveLast(r, tq);
        assert false;
      } else if tq < tr {
        WithTimeHas(r, |r| - 1);
        WithTimeAboveLast(q, tr);
        assert false;
      } else {
        var r' := r[..|r| - 1];
        var q' := q[..|q| - 1];
        assert r == r' + [r[|r| - 1]] && q == q' + [q[|q| - 1]];
        PrefixesAgree(r', r[|r| - 1], q', q[|q| - 1]);
        StableSortUnique(r', q');
      }
    }
  }

  /** Sorted sequences agreeing on every timestamp and ending at the same timestamp agree without their last records. */
  lemma PrefixesAgree(r': seq<LogRecord>, rl: LogRecord, q': seq<LogRecord>, ql: LogRecord)
    requires Sorted(r' + [rl]) && Sorted(q' + [ql])
    requires rl.Time() == ql.Time()
    requires forall t :: WithTime(r' + [rl], t) == WithTime(q' + [ql], t)
    ensures Sorted(r') && Sorted(q')
    ensures forall t :: WithTime(r', t) == WithTime(q', t)
    ensures rl == ql
  {
    assert forall k :: 0 <= k < |r'| ==> r'[k] == (r' + [rl])[k];
    assert forall k :: 0 <= k < |q'| ==> q'[k] == (q' + [ql])[k];
    forall t ensures WithTime(r', t) == WithTime(q', t) {
      SnocEqual(r', rl, q', ql, t);
    }
    SnocEqual(r', rl, q', ql, rl.Time());
  }

  /** One step of the uniqueness proof: both sequences end in a record with timestamp `tr`. */
  lemma SnocEqual(r': seq<LogRecord>, rl: LogRecord, q': seq<LogRecord>, ql: LogRecord, t: Instant)
    requires rl.Time() == ql.Time()
    requires WithTime(r' + [rl], t) == WithTime(q' + [ql], t)
    ensures WithTime(r', t) == WithTime(q', t)
    ensures t == rl.Time() ==> rl == ql
  {
    WithTimeSnoc(r', rl, t);
    WithTimeSnoc(q', ql, t);
    if t == rl.Time() {
      var A := WithTime(r', t);
      var B := WithTime(q', t);
      assert A + [rl] == B + [ql];
      assert |A| == |B|;
      assert A == (A + [rl])[..|A|];
      assert B == (B + [ql])[..|B|];
      assert rl == (A + [rl])[|A|];
    }
  }

  // ---------------------------------------------------------------------
  // The in-place sort and the merge

  /**
   * The array after one pass of the inner loop: the records of `sorted`
   * before position `j`, then `x`, then the rest of `sorted`, shifted right.
   */
  lemma Placed(b: seq<LogRecord>, sorted: seq<LogRecord>, x: LogRecord, i: nat, j: nat)
    requires j <= i == |sorted| < |b|
    requires forall k :: 0 <= k < j ==> b[k] == sorted[k]
    requires b[j] == x
    requires forall k :: j < k <= i ==> b[k] == sorted[k - 1]
    ensures b[..i + 1] == sorted[..j] + [x] + sorted[j..]
  {
    var c := sorted[..j] + [x] + sorted[j..];
    forall k | 0 <= k <= i ensures b[k] == c[k] {
      if k > j {
        assert c[k] == sorted[j..][k - j - 1];
      }
    }
  }

  /**
   * One pass of the sort's inner loop: the record at position `i` is moved
   * left past the strictly later records of `a[..i]`, which shift right.
   */
  method InsertLast(a: array<LogRecord>, i: nat)
    requires i < a.Length
    modifies a
    ensures a[..i + 1] == Insert(old(a[..i]), old(a[i]))
    ensures a[i + 1..] == old(a[i + 1..])
  {
    ghost var sorted := a[..i];
    ghost var rest := a[i + 1..];
    var x := a[i];
    var j := i;
    while j > 0 && a[j - 1].Time() > x.Time()
      invariant 0 <= j <= i
      invariant forall k :: 0 <= k < j ==> a[k] == sorted[k]
      invariant forall k :: j < k <= i ==> a[k] == sorted[k - 1]
      invariant a[i + 1..] == rest
      invariant forall k :: j <= k < i ==> sorted[k].Time() > x.Time()
    {
      a[j] := a[j - 1];
      j := j - 1;
    }
    a[j] := x;
    InsertAt(sorted, x, j);
    Placed(a[..], sorted, x, i, j);
  }

  /** `logs.sort(key=timestamp)`: a stable insertion sort of the array in place. */
  method SortInPlace(a: array<LogRecord>)
    modifies a
    ensures a[..] == SortByTime(old(a[..]))
  {
    ghost var orig := a[..];
    var i := 0;
    while i < a.Length
      invariant 0 <= i <= a.Length
      invariant a[..i] == SortByTime(orig[..i])
      invariant a[i..] == orig[i..]
    {
      assert a[i] == orig[i];
      InsertLast(a, i);
      assert orig[..i + 1] == orig[..i] + [orig[i]];
      SortSnoc(orig[..i], orig[i]);
      i := i + 1;
    }
    assert a[..] == a[..i];
    assert orig[..i] == orig;
  }

  /** `logs.extend(fastlog_entries)` followed by the sort. */
  method MergeLogs(events: seq<LogRecord>, fastlogs: seq<LogRecord>) returns (logs: seq<LogRecord>)
    ensures logs == SortByTime(events + fastlogs)
  {
    var all := events + fastlogs;
    var a := new LogRecord[|all|](i requires 0 <= i < |all| => all[i]);
    assert a[..] == all;
    SortInPlace(a);
    logs := a[..];
  }

  /**
   * What the merge promises: the result is in timestamp order, holds
   * exactly the event-log and fastlog records, and among records with equal
   * timestamps the event-log records come first, each kind in its own
   * order.
   */
  lemma MergeProperties(events: seq<LogRecord>, fastlogs: seq<LogRecord>, t: Instant)
    ensures Sorted(SortByTime(events + fastlogs))
    ensures multiset(SortByTime(events + fastlogs)) == multiset(events) + multiset(fastlogs)
    ensures WithTime(SortByTime(events + fastlogs), t) == WithTime(events, t) + WithTime(fastlogs, t)
  {
    SortedByTime(events + fastlogs);
    SortPermutes(events + fastlogs);
    SortStable(events + fastlogs, t);
    WithTimeAppend(events, fastlogs, t);
  }
}
