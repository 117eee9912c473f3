# LogViewer bundle parsing, modelled in Dafny

LogViewer ingests diagnostic bundles from network devices and turns them into
one time-ordered record stream plus indexed artifact files. This project
models the text-processing core of `logviewer/parser.py`, the bundle catalog
of `logviewer/state.py` and of its older twin `state.py`, and the file-name
helpers of `utils.py`. It then proves properties of that model.

The modules are:

- `Text`: the Python string and `re` operations the parser relies on, over
  `seq<char>`. These are `strip`, `rstrip`, `replace`, `join`, substring
  tests, `os.path.basename` and greedy character-class runs.
- `LineParser`: `parse_line`.
  - Each of the three line grammars is a hand-written matcher that follows
    the regular-expression engine, including its backtracking in the
    pipe-separated `\S+` fields.
  - The grammars are tried in their fixed order on the stripped line.
  - Timestamp conversion is a pair of partial functions (`Clock`): one for
    ISO timestamps, one for syslog timestamps.
- `Segments`: the segmentation that both line-by-line state machines share.
  - A marker line opens a segment, and the following lines join it.
  - Lines before the first marker are dropped.
  - It is defined as a function of the lines read so far.
- `Fastlog`: the decoder-output loop of `collect_fastlog_entries`.
  - It is an imperative method, proved equal to a function on the segments.
  - The model also covers the marker and timestamp patterns, the rewrite
    that truncates the fraction to six digits, and the process name.
- `Showtech`: `split_showtech`.
  - It is an imperative method, proved equal to functions on the segments.
  - Those functions give the index it returns and the files it writes.
- `Merge`: `logs.extend(fastlog_entries)` followed by the in-place
  `logs.sort` by timestamp.
  - The sort is an in-place insertion sort on an array.
  - It is proved equal to a functional stable sort.
  - That sort is proved sorted, a permutation and stable, and is the only
    sequence with those properties.
- `BundleRules`:
  - the file-selection predicates;
  - the linecard, stack-member and diagnostic naming rules;
  - `translate_path_for_wsl`;
  - the reporting rule of `safe_parse`.
- `Catalog` and `LegacyCatalog`: the parsed-bundle catalog as a class whose
  methods update the catalog and the saved state file. It includes the
  smallest-free-port search as a loop.
- `Utils`: `sanitize_filename` and `is_tar_gz`.

Timestamps are `Time.Instant`, an integer count on the UTC time line. Every
parser of text to an instant is a function parameter:
- the ISO and syslog clocks of `parse_line`;
- the `strptime` of fastlog markers.

The same goes for `os.path.abspath` and for the filesystem test of `is_tar_gz`.

## Model

| member | source | states |
|---|---|---|
| LineParser.ParseLine | logviewer/parser.py:349-369 | `parse_line` as a definition: the captures of the first grammar matching the stripped line, with the timestamp converted, or None; its properties are `ParseLineSound` and the round-trip lemmas |
| LineParser.FirstMatch | logviewer/parser.py:355-358 | the grammars tried in their fixed order, Event first, then generic, then syslog; its property is `FirstMatchPriority` |
| LineParser.ConvertStamp | logviewer/parser.py:360-364 | a timestamp containing `T` goes to the ISO clock, any other to the syslog clock; its properties are `IsoGrammarsUseIsoClock` and `SyslogStampRoute` |
| LineParser.IsoStampLen | logviewer/parser.py:351-352 | the ISO timestamp group has its `T` at position 10, and ends within the line |
| LineParser.SyslogStampLen | logviewer/parser.py:353 | the syslog timestamp group starts with an upper-case letter and ends within the line |
| LineParser.DayClockLen | logviewer/parser.py:353 | the `\d{1,2}\s+[\d:]{8}` part of a syslog timestamp ends within its text |
| LineParser.ClockLen | logviewer/parser.py:353 | the `\s+[\d:]{8}` part of a syslog timestamp ends within its text |
| LineParser.MatchPidColon | logviewer/parser.py:351-353 | the optional `[pid]` and the colon are consumed; what follows is strictly shorter than the input |
| LineParser.MatchHeader | logviewer/parser.py:351-353 | hostname, process and pid are consumed, which makes the input strictly shorter; the hostname is non-empty and space-free, and the process is non-empty |
| LineParser.MatchProcess | logviewer/parser.py:351-353 | the process group, when found, is non-empty, and what follows the colon is strictly shorter than the input |
| LineParser.MatchFields | logviewer/parser.py:351-352 | a pipe-field match has exactly the number of fields the pattern names |
| LineParser.TryToken | logviewer/parser.py:351-352 | trying shorter `\S+` tokens in turn still yields exactly the pattern's number of fields |
| LineParser.LastNonNewline | logviewer/parser.py:351-353 | the position `.+` backtracks to holds a non-newline character |
| LineParser.MatchFieldsSound | logviewer/parser.py:351-352 | the fields found have the grammar's shape (`\S+` tokens, then pipe-free fields, then a one-line message), and re-joined with `\|` they are a prefix of the text |
| LineParser.TryTokenSound | logviewer/parser.py:351-352 | the same shape guarantee for every backtracking step of a token |
| LineParser.MatchFieldsNeedsBars | logviewer/parser.py:351-352 | a match needs at least as many pipes in the text as the pattern has separators |
| LineParser.TryTokenNeedsBars | logviewer/parser.py:351-352 | the pipe bound for every backtracking step |
| LineParser.TryTokenSkips | logviewer/parser.py:351-352 | a longer token that would leave too few pipes for the remaining fields is never the match |
| LineParser.MatchFieldsRoundTrip | logviewer/parser.py:351-352 | pipe-free fields joined with `\|` are read back exactly |
| LineParser.MatchHeaderRendered | logviewer/parser.py:351-353 | a written header (host, process, optional pid, colon) is read back exactly |
| LineParser.PidColonRendered | logviewer/parser.py:351-353 | a written `[pid]:` or bare `:` is read back with its pid, and it cannot continue the process group |
| LineParser.IsoStampRendered | logviewer/parser.py:351-352 | a well-formed ISO timestamp followed by whitespace is the whole timestamp group |
| LineParser.EventTailRendered | logviewer/parser.py:351 | `Event\|<id>\|` followed by clean pipe fields is read back into exactly those fields |
| LineParser.EventLineRoundTrip | logviewer/parser.py:349-369 | an Event line with clean fields parses to exactly its fields, with the ISO clock's time, or to None when that clock fails |
| LineParser.EventMatched | logviewer/parser.py:351 | the Event grammar reads a written Event line back exactly |
| LineParser.GenericTailRendered | logviewer/parser.py:351-352 | a generic tail whose facility is not `Event` is refused by the Event grammar and read back exactly by the generic one |
| LineParser.GenericLineRoundTrip | logviewer/parser.py:349-369 | a generic line with clean fields parses to exactly its fields, or to None when the ISO clock fails |
| LineParser.GenericMatched | logviewer/parser.py:351-352 | a generic line is not taken by the Event grammar and is read back exactly by the generic one |
| LineParser.SyslogStampRendered | logviewer/parser.py:353 | a `Mon dd hh:mm:ss` timestamp is the whole timestamp group |
| LineParser.DayClockRendered | logviewer/parser.py:353 | a one- or two-digit day, whitespace and an eight-character clock are read as exactly that text |
| LineParser.ClockRendered | logviewer/parser.py:353 | whitespace and an eight-character clock are read as exactly that text |
| LineParser.SyslogStampRoute | logviewer/parser.py:359 | a syslog timestamp contains `T` exactly when its month starts with `T` |
| LineParser.SyslogMatched | logviewer/parser.py:351-353 | a syslog line is refused by both pipe grammars and read back exactly by the syslog one |
| LineParser.SyslogTailRendered | logviewer/parser.py:353 | a clean message after one space is read back whole |
| LineParser.SyslogLineRoundTrip | logviewer/parser.py:349-369 | a syslog line parses to exactly its parts with the converted time, or to None; months not starting with `T` use the syslog clock |
| LineParser.FirstMatchPriority | logviewer/parser.py:355-358 | the record's kind is Event exactly when the Event grammar matches, generic exactly when only the generic grammar does, syslog otherwise |
| LineParser.IsoGrammarsUseIsoClock | logviewer/parser.py:351-360 | timestamps matched by the two pipe grammars contain `T`, so they take the ISO route |
| LineParser.EventTailSound | logviewer/parser.py:351 | an Event tail yields a numeric event id and well-shaped severity, module, slot and message |
| LineParser.GenericTailSound | logviewer/parser.py:352 | a generic tail yields seven well-shaped fields |
| LineParser.SyslogTailSound | logviewer/parser.py:353 | a syslog message is non-empty and holds no newline |
| LineParser.MatchEventSound | logviewer/parser.py:351 | every Event match has Event fields and well-shaped captures |
| LineParser.MatchGenericSound | logviewer/parser.py:352 | every generic match has generic fields and well-shaped captures |
| LineParser.MatchSyslogSound | logviewer/parser.py:353 | every syslog match has syslog fields and well-shaped captures |
| LineParser.ParseLineSound | logviewer/parser.py:349-369 | a record comes only from the first grammar matching the stripped line, with a timestamp that converted, and carries that grammar's groups; a line matching nothing, or whose timestamp fails, yields None |
| Segments.FirstMarker | logviewer/parser.py:517-540 | the first marker line's position; no line before it is a marker |
| Segments.CutCovers | logviewer/parser.py:517-546 | the segments, flattened, are exactly the lines from the first marker on |
| Segments.CutShape | logviewer/parser.py:517-540 | every segment starts at a marker line and holds no other marker |
| Segments.CutNoMarker | logviewer/parser.py:537-539 | lines without a marker form no segment |
| Segments.CutAppend | logviewer/parser.py:517-540 | lines that start at a marker are segmented independently of what precedes them |
| Segments.SkipsPreamble | logviewer/parser.py:537-539 | lines before the first marker do not change the segments |
| Segments.CutSingle | logviewer/parser.py:517-540 | a marker followed by non-marker lines is one segment |
| Segments.CutCount | logviewer/parser.py:518 | there is one segment per marker line |
| Fastlog.IsMarker | logviewer/parser.py:518 | the marker pattern `\(\d{2} \w{3} \d{2} \d{2}:\d{2}:\d{2}\.\d+` at the start of a line, as a definition; `MarkerStamp` states what it captures |
| Fastlog.StampOf | logviewer/parser.py:527-535 | a marker's stamp, fraction truncated, given to the timestamp parser; None for a non-marker or a failed parse; its properties are `EntryShape` and `FailedMarkerDropped` |
| Fastlog.FastlogEntries | logviewer/parser.py:517-546 | the entries of the marker segments of the decoder output, as a definition; `CollectEntries` is proved equal to it and the lemmas below state its properties |
| Fastlog.ProcessName | logviewer/parser.py:495 | the base name with every `.supportlog`, then every `.gz`, removed, as a definition; its property is `ProcessNameOfSupportlog` |
| Fastlog.MarkerStamp | logviewer/parser.py:527 | the timestamp group of a marker is the text from its character 1 on: characters 1 to 19 and then the fraction's maximal digit run, so the character after the group, if any, is not a digit |
| Fastlog.TruncateSkips | logviewer/parser.py:530 | the fraction rewrite leaves dot-free text unchanged |
| Fastlog.TruncateFractionDigits | logviewer/parser.py:530 | a fraction of more than six digits keeps exactly its first six; a shorter one is unchanged |
| Fastlog.StripAll | logviewer/parser.py:526-539 | every buffered line is the stripped input line |
| Fastlog.CollectEntries | logviewer/parser.py:493-546 | the loop over the decoder output of file `fname` yields the entries of its marker segments, each carrying the process name derived from `fname` |
| Fastlog.FileEntries | logviewer/parser.py:493-546 | the entries of one decoder file: the marker-segment entries under the file's own process name |
| Fastlog.EntriesAppend | logviewer/parser.py:519-546 | entries of consecutive runs of segments are concatenated in order |
| Fastlog.AtMostOnePerMarker | logviewer/parser.py:518-546 | there are at most as many entries as marker lines |
| Fastlog.EntriesFromSegments | logviewer/parser.py:519-546 | every entry is produced by one segment |
| Fastlog.EntryShape | logviewer/parser.py:493-546 | each entry of file `fname` comes from a marker segment: its timestamp is the marker's converted stamp, its process is `ProcessName(fname)`, and its message is the stripped marker line and following lines joined with a newline |
| Fastlog.SupportlogEntriesProcess | logviewer/parser.py:495 | every entry of `<base>.supportlog` or `<base>.supportlog.gz`, for a base without `.` or `/`, carries the process name `<base>` |
| BundleRules.SupportlogNotEventLog | logviewer/parser.py:377-481 | a `<base>.supportlog` file is selected for the decoder, is never read as a compressed event log, and is read as a text event log exactly when its name mentions `journal` |
| Fastlog.PreambleIgnored | logviewer/parser.py:537-539 | lines before the first marker never reach an entry |
| Fastlog.FailedMarkerDropped | logviewer/parser.py:533-536 | a marker whose timestamp fails, with its following lines, contributes nothing; the remaining entries are unchanged |
| Fastlog.ProcessNameOfSupportlog | logviewer/parser.py:495 | for a base without `.` or `/`, `<base>.supportlog` and `<base>.supportlog.gz` both yield the process name `<base>` |
| Text.ReplaceAll | logviewer/parser.py:608 | `str.replace`: every occurrence, found left to right without overlaps, is replaced; its properties are `SectionFileShape`, `DiagFileNameShape` and `WslPathShape` |
| Text.Lower | logviewer/parser.py:437 | an ASCII upper-case letter becomes its lower-case letter; every other character is kept |
| Text.Join | logviewer/parser.py:523 | `sep.join(parts)`, as a definition; `EntryShape` uses it for the fastlog message |
| Text.BaseName | logviewer/parser.py:495 | a base name holds no `/` |
| Text.BaseNameOfName | logviewer/parser.py:495 | a slash-free name is its own base name |
| Text.Strip | logviewer/parser.py:356 | the result is the slice of the input left after its leading whitespace run and its trailing whitespace; everything cut off is whitespace, and the result neither starts nor ends with whitespace. The same `strip` is applied to each fastlog line (:526, :539) and to the showtech command group (:619); showtech lines are kept raw |
| Text.TrimEnd | logviewer/parser.py:356 | `rstrip`: a prefix of the input, not ending in whitespace, with only whitespace cut off |
| Text.TrimmedSlice | logviewer/parser.py:356 | right-stripping the text after position `a` gives a slice starting at `a`, and only whitespace follows it |
| Showtech.SearchCommand | logviewer/parser.py:616 | `re.search`: the leftmost position where the command pattern matches, as a definition; its property is `SearchCommandLeftmost` |
| Showtech.KeyOf | logviewer/parser.py:619 | `show ` plus the stripped group, as a definition; `CommandLineRendered` states its value on a written command line |
| Showtech.SectionFile | logviewer/parser.py:608 | the file name of a key, as a definition; its property is `SectionFileShape` |
| Showtech.ShowtechIndex | logviewer/parser.py:598-624 | the returned index, as a function of the dump's lines; `SplitShowtech` is proved equal to it, and `IndexShape` and `SharedFileInDump` state its contents |
| Showtech.ShowtechFiles | logviewer/parser.py:598-624 | the written files, as a function of the dump's lines; `SplitShowtech` is proved equal to it, and `SectionFilesWellFormed` and `SharedFileInDump` state its contents |
| Showtech.Flush | logviewer/parser.py:606-612 | with an open section and a non-empty buffer, the buffer is written to the key's file and the key indexed with its path; otherwise nothing changes |
| Showtech.MatchCommandAt | logviewer/parser.py:616 | the `show (.+)` group is non-empty and stays within one line |
| Showtech.CommandMatchAt | logviewer/parser.py:616 | `Command<ws>:<ws>show <g>` followed by the end of the line matches with group `g` |
| Showtech.CommandLineRendered | logviewer/parser.py:616-619 | `Command<ws>:<ws>show <g>` matches with group `g`, and its key is `show ` plus the stripped group |
| Showtech.SearchCommandLeftmost | logviewer/parser.py:616 | a line matches exactly when the pattern matches at some position, and the leftmost match is used |
| Showtech.SplitShowtech | logviewer/parser.py:598-624 | the returned index and the written files are those of the command segments, flushed in order |
| Showtech.IndexShape | logviewer/parser.py:608-619 | the index holds exactly the keys of the commands seen, each mapped to `showtech/showtech_<flattened key>.txt` |
| Showtech.FilesLastWins | logviewer/parser.py:608-612 | a file holds the last section whose key maps to its name; a repeated command overwrites the earlier one |
| Showtech.FilesFromSegments | logviewer/parser.py:606-612 | every written file holds one section, whose command names it |
| Showtech.SectionFilesWellFormed | logviewer/parser.py:598-624 | each file starts with the command line that names it and holds no other command line |
| Showtech.PreambleIgnored | logviewer/parser.py:621-622 | lines before the first command line are neither written nor indexed |
| Showtech.NoCommandNoSections | logviewer/parser.py:621-623 | a dump without command lines yields an empty index and no files |
| Showtech.SectionFileShape | logviewer/parser.py:608 | the file name is `showtech_` + the key with spaces and slashes turned into `_` and nothing else changed + `.txt` |
| Showtech.SharedFileOverwritten | logviewer/parser.py:606-612 | two sections with different keys that flatten to the same file name: both keys are indexed with the same path, the file holds the later section, and the earlier section is in no file |
| Showtech.SharedFileInDump | logviewer/parser.py:598-624 | the same for the sections of a dump: `split_showtech`'s index lists both commands, and its files keep only the later one |
| Showtech.SharedFileName | logviewer/parser.py:608-612 | an instance: `show a b` and `show a_b` have different keys but the same file name and path |
| Merge.Tagged | logviewer/parser.py:383 | `entry["source"] = "eventlog"`: the record's source becomes `eventlog`, overwriting the generic grammar's `source` group; every other field is kept |
| Merge.EventRecords | logviewer/parser.py:380-394 | a file's event records are at most one per line, all with source `eventlog` |
| Merge.EventRecordsSingle | logviewer/parser.py:390-394 | one line yields its tagged record when it parses, and nothing otherwise |
| Merge.EventRecordsAppend | logviewer/parser.py:390-394 | the records of two consecutive runs of lines are the first run's records followed by the second's; with `EventRecordsSingle`, every line that parses yields exactly one record, in line order |
| Merge.RecordLine | logviewer/parser.py:390-394 | names the line that record `i` comes from: that line parses, and the record is its tagged parse |
| Merge.EventRecordsFromLines | logviewer/parser.py:380-394 | every event record is the tagged parse of one of the file's lines |
| Merge.FastlogRecords | logviewer/parser.py:519-525 | fastlog entries become records one for one, tagged `fastlog` |
| Merge.Insert | logviewer/parser.py:687 | the insertion step of the reference stable sort, as a definition; `InsertPermutes`, `InsertSorted`, `InsertStable` and `InsertAt` state its properties |
| Merge.SortByTime | logviewer/parser.py:687 | the reference stable sort, as a definition; `SortedByTime`, `SortPermutes`, `SortStable` and `StableSortUnique` state its properties |
| Merge.InsertPermutes | logviewer/parser.py:687 | inserting adds exactly the inserted record |
| Merge.InsertSorted | logviewer/parser.py:687 | inserting into a sorted list keeps it sorted |
| Merge.InsertStable | logviewer/parser.py:687 | an inserted record goes after the records with its own timestamp; all other order is kept |
| Merge.InsertAt | logviewer/parser.py:687 | the insertion point is after the records not later than the new one, before the later ones |
| Merge.InsertLast | logviewer/parser.py:687 | one pass of the in-place sort leaves the first `i + 1` cells holding the insertion of cell `i` into the cells before it, and the rest unchanged |
| Merge.SortedByTime | logviewer/parser.py:687 | the merged list is non-decreasing in timestamp |
| Merge.SortPermutes | logviewer/parser.py:687 | the merged list holds the same records, each as often |
| Merge.SortStable | logviewer/parser.py:687 | records with equal timestamps keep their input order |
| Merge.SortKeepsSorted | logviewer/parser.py:687 | an already ordered list is unchanged |
| Merge.WithTimeAppend | logviewer/parser.py:686 | selecting by timestamp distributes over the concatenation |
| Merge.StableSortUnique | logviewer/parser.py:687 | a stable sort has exactly one result: sorted sequences agreeing on every timestamp's records are equal |
| Merge.SortInPlace | logviewer/parser.py:687 | the in-place sort leaves the array holding the stable sort of its old contents |
| Merge.MergeLogs | logviewer/parser.py:686-687 | the merge yields the stable sort of the event records followed by the fastlog records |
| Merge.MergeProperties | logviewer/parser.py:686-687 | the merged list is sorted and a permutation of both inputs; among equal timestamps, event records come first, each kind in its own order |
| BundleRules.IsFastlogFile | logviewer/parser.py:481 | a file goes to the decoder when it ends in `.supportlog` or `.supportlog.gz`; see `SupportlogNotEventLog` |
| BundleRules.IsLinecardArchive | logviewer/parser.py:724 | the linecard pattern, anchored at the start only; its properties are `LinecardRoundTrip`, `LinecardMatchIsPrefixOnly` and `LinecardNotMember` |
| BundleRules.IsMemberArchive | logviewer/parser.py:747 | the stack-member pattern, anchored at the start only; its properties are `MemberRoundTrip` and `LinecardNotMember` |
| BundleRules.LinecardName | logviewer/parser.py:727 | every `.tar.gz` removed from the name; see `LinecardRoundTrip` |
| BundleRules.MemberName | logviewer/parser.py:750 | every `_support_files.tar.gz` removed from the name; see `MemberRoundTrip` |
| BundleRules.DiagFileName | logviewer/parser.py:710 | the key with separators turned into `_`, then `_diagdump.txt`; its property is `DiagFileNameShape` |
| BundleRules.OutputDir | logviewer/parser.py:35 | the stem followed by `_log_analysis_results`; its properties are `OutputDirOfArchive` and `Stem` |
| BundleRules.EventLogKindOf | logviewer/parser.py:377-394 | a file is read through gzip exactly when it ends in `.gz` and has a log prefix; otherwise it is read as text exactly when it ends in `.log` or mentions `journal` |
| BundleRules.LinecardRoundTrip | logviewer/parser.py:724-727 | `lc<n>.tar.gz` is selected and parsed into `lc<n>` |
| BundleRules.MemberRoundTrip | logviewer/parser.py:747-750 | `mem_<n>_support_files.tar.gz` is selected and parsed into `mem_<n>` |
| BundleRules.LinecardMatchIsPrefixOnly | logviewer/parser.py:724 | the linecard pattern is anchored at the start only, so any name beginning `lc<n>.tar.gz` is selected |
| BundleRules.LinecardNotMember | logviewer/parser.py:724-747 | no file is both a linecard and a stack-member bundle |
| BundleRules.DiagFileNameShape | logviewer/parser.py:710 | the diagnostic file name is the key, one character for one, with separators turned into `_`, then `_diagdump.txt`; it holds no separator |
| BundleRules.SplitDrive | logviewer/parser.py:433 | drive and rest together are the path; a drive is empty or two characters long |
| BundleRules.TranslatePathForWsl | logviewer/parser.py:431-437 | the path is refused, with the source's message, exactly when its absolute form has no drive |
| BundleRules.WslPathShape | logviewer/parser.py:431-437 | a translation is `/mnt/` + the lower-cased drive letter + the rest with every backslash turned into `/`, one character for one |
| BundleRules.Stem | logviewer/parser.py:35 | `Path.stem`: the base name without its last suffix. The stem is a prefix of the base name; it is the whole base name exactly when the name has no dot after its first character and before its last; otherwise it is cut at a dot with no dot after it, and is non-empty |
| BundleRules.LastDot | logviewer/parser.py:35 | the position found is within the name and, when not 0, holds a dot; no dot follows it |
| BundleRules.OutputDirOfArchive | logviewer/parser.py:35 | `<dir>/<base>.tar.gz` is parsed into `<base>.tar_log_analysis_results` |
| BundleRules.SafeParseAsWritten | logviewer/parser.py:33-40 | as written: the report is an error exactly when the bundle was not yet parsed and `parse_bundle` raised |
| BundleRules.ExtractionFailureReportedAsSuccess | logviewer/parser.py:33-40 | a bundle that cannot be extracted, for which `parse_bundle` returns without raising, is reported as a success |
| BundleRules.SafeParse | logviewer/parser.py:33-40 | corrected: success exactly when the bundle was already parsed or parsing completed, and a success names the output directory |
| BundleRules.SafeParseDiffers | logviewer/parser.py:33-40 | the corrected and the as-written rule differ exactly on a failed extraction |
| Catalog.UsedPorts | logviewer/state.py:55-59 | a port is used exactly when some entry holds it as a truthy port |
| Catalog.Added | logviewer/state.py:34-39 | the key maps to the new entry, every other entry is kept, and no other key appears |
| Catalog.Removed | logviewer/state.py:45-46 | with the key present, exactly that key is removed and all else kept; otherwise nothing changes |
| Catalog.FirstFreePort | logviewer/state.py:60-63 | the result is at least the start, unused, and every port from the start up to it is used |
| Catalog.RemoveUndoesAdd | logviewer/state.py:31-47 | adding a new bundle and removing it again restores the catalog |
| Catalog.AddOverwrites | logviewer/state.py:35-39 | adding the same path again keeps only the later entry |
| Catalog.SameFileOneEntry | logviewer/state.py:33-39 | two spellings that `abspath` maps to the same path share one entry: the second add replaces the first |
| Catalog.RemoveIdempotent | logviewer/state.py:42-47 | removing twice is removing once |
| Catalog.UsedPortsAfterAdd | logviewer/state.py:31-59 | after an add, the used ports are the other entries' plus the new port when truthy |
| Catalog.FalsyPortsIgnored | logviewer/state.py:58 | an entry without a port or with port 0 blocks no port |
| Catalog.Catalog.constructor | logviewer/state.py:10-19 | the catalog starts from the loaded state |
| Catalog.Catalog.GetParsedBundles | logviewer/state.py:49-51 | the stored map, or an empty map when there is none |
| Catalog.Catalog.Save | logviewer/state.py:21-29 | an existing state file is copied to the backup first, then the state is written |
| Catalog.Catalog.AddParsedBundle | logviewer/state.py:31-40 | the entry is stored under `abspath` of the path, the map is created if missing, and the state is saved with a backup |
| Catalog.Catalog.RemoveParsedBundle | logviewer/state.py:42-47 | the normalised key is deleted and the state saved only when present; otherwise state and file are unchanged |
| Catalog.Catalog.NextAvailablePort | logviewer/state.py:53-63 | the smallest port at or above the start (8001 unless given) that no entry holds |
| LegacyCatalog.LegacyCatalog.constructor | state.py:8-16 | the catalog starts from the loaded state |
| LegacyCatalog.LegacyCatalog.GetParsedBundles | state.py:39-40 | the stored map, or an empty map when there is none |
| LegacyCatalog.LegacyCatalog.AddParsedBundle | state.py:25-32 | the entry is stored under the raw path, other entries are kept, and the state is saved without a backup |
| LegacyCatalog.LegacyCatalog.RemoveParsedBundle | state.py:34-37 | the raw key is deleted and saved only when present; otherwise nothing changes |
| LegacyCatalog.LegacyCatalog.NextAvailablePort | state.py:42-47 | the smallest port at or above the start (8001 unless given) that no entry holds |
| LegacyCatalog.RawKeysAreDistinct | state.py:25-32 | any two different spellings, even of one file, are catalogued as two entries, each keeping its own |
| Utils.SanitizeFilename | utils.py:18-20 | the output has the input's length and only allowed characters |
| Utils.SanitizePointwise | utils.py:20 | allowed characters are kept in place, every other character becomes `_` |
| Utils.SanitizeKeepsSafeNames | utils.py:20 | a name of allowed characters is unchanged |
| Utils.SanitizeIdempotent | utils.py:18-20 | sanitizing twice is sanitizing once |
| Utils.IsTarGz | utils.py:14-16 | the `.tar.gz` suffix test, then the filesystem's answer, as a definition; its property is `NotTarGzWithoutSuffix` |
| Utils.NotTarGzWithoutSuffix | utils.py:14-16 | a name without the `.tar.gz` suffix is rejected whatever the filesystem holds |

## Left out

- Threads and thread pools. `parse_bundle` and the per-file pools of the
  fastlog collectors fan work out and join it. The model runs each piece on
  its own. Because the pools collect results with `as_completed`, the order of
  fastlog files and entries across decoded files is not modelled.
- Filesystem and process I/O:
  - tar extraction, gzip, `os.walk`, copies and JSON writes;
  - the external fastlog decoder and `journalctl`.
  
  Their results are the inputs of the model: the lines of a file or of the
  decoder output. The files written by `split_showtech` are a map value.
- Real date parsing, the local time zone and the current year. These become
  the `Clock` and `StampParser` parameters. Instants replace the ISO strings
  that the records hold after conversion, so the sort key is the instant
  itself.
- Character classes:
  - `\d` and `\w` are ASCII only, so `Utils.SanitizeFilename` turns non-ASCII
    letters into `_` where Python keeps them.
  - `\s` and `str.strip` use Python's full whitespace set.
- Text.Lower: only ASCII letters are lower-cased. The drive letter of
  `translate_path_for_wsl` (logviewer/parser.py:437) is lower-cased by
  Python's Unicode-aware `str.lower`; a non-ASCII drive letter is kept as is.
- Showtech.SplitShowtech: the index is a map, so the insertion order of the
  returned dictionary (first flush of each key first) is not modelled; only
  its keys and values are.
- LineParser.MatchFieldsRoundTrip: field equality is claimed only for fields
  without stray pipes. Otherwise the `\S+` fields may absorb extra pipes by
  backtracking, which the matcher reproduces but the round-trip lemmas do not
  cover.
- BundleRules.SplitDrive: only drive-letter paths. UNC drives
  (`\\server\share`) are read as having no drive.
- BundleRules.Stem: only `/` is treated as a path separator, and no drive is
  removed. On Windows, `pathlib` also splits at `\` and drops the drive, so
  `C:\b\x.tar.gz` has the stem `x.tar`; the model keeps everything before the
  suffix. The normalisation that `pathlib` applies first is not modelled
  either: dropping trailing slashes and `.` components.
- The separator of `os.path.join` is `/` in the showtech index values.
- The other keys of the persistent state dictionary. Only `parsed_bundles` is
  modelled, and save failures, which are printed and ignored, are not.
- `load_state` is reduced to the constructor's arguments.
- Logging calls, and the `options` flags that switch whole phases off.
- The web and desktop front ends, `cli.py`, `server.py` and `setup.py` are
  not part of this model.

## Findings

| source | as written | input that shows it | evidently intended | confidence | as-written member | corrected member |
|---|---|---|---|---|---|---|
| logviewer/parser.py:33-40 | `safe_parse` reports `Success` whenever `parse_bundle` does not raise. But `parse_bundle` returns None without raising when extraction fails (logviewer/parser.py:640-644). | a path to a corrupt archive with no earlier results: extraction fails and the report says `Success` | a bundle that could not be extracted is reported as an `Error`, isolating the failed unit in a batch | not executed; follows from the two functions' text | BundleRules.SafeParseAsWritten, BundleRules.ExtractionFailureReportedAsSuccess | BundleRules.SafeParse |
