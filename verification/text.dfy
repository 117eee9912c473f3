/**
 * Character classes and the string operations of Python's `str` and `re`
 * that the parser relies on, over `seq<char>`.
 *
 * Character classes follow Python 3 semantics restricted to what can be
 * stated without Unicode tables: `\s` and `str.strip` use the full set of
 * characters Python treats as whitespace, while `\d` and `\w` are the ASCII
 * digits and ASCII word characters.
 */
module Text {

  /** Python's `str.isspace`, which is also what `\s` matches. */
  predicate IsSpace(c: char) {
    c == ' ' || ('\t' <= c <= '\r') || ('\U{001C}' <= c <= '\U{001F}')
    || c == '\U{0085}' || c == '\U{00A0}' || c == '\U{1680}' || ('\U{2000}' <= c <= '\U{200A}')
    || c == '\U{2028}' || c == '\U{2029}' || c == '\U{202F}' || c == '\U{205F}' || c == '\U{3000}'
  }

  /** `\S` */
  predicate NotSpace(c: char) { !IsSpace(c) }

  /** `\d`, restricted to ASCII. */
  predicate IsDigit(c: char) { '0' <= c <= '9' }

  predicate IsUpper(c: char) { 'A' <= c <= 'Z' }

  predicate IsLower(c: char) { 'a' <= c <= 'z' }

  /** `\w`, restricted to ASCII. */
  predicate IsWordChar(c: char) { IsUpper(c) || IsLower(c) || IsDigit(c) || c == '_' }

  /** `.` outside DOTALL mode. */
  predicate NotNewline(c: char) { c != '\n' }

  /** `[^|]` */
  predicate NotBar(c: char) { c != '|' }

  /** `str.lower` on one character, restricted to ASCII letters. */
  function Lower(c: char): (r: char)
    ensures IsUpper(c) ==> IsLower(r)
    ensures !IsUpper(c) ==> r == c
  {
    if IsUpper(c) then (c as int + 32) as char else c
  }

  predicate AllChars(s: string, p: char -> bool) {
    forall i :: 0 <= i < |s| ==> p(s[i])
  }

  /**
   * The length of the longest prefix of `s` whose characters all satisfy `p`:
   * what a greedy `[class]*` consumes.
   */
  function Run(s: string, p: char -> bool): (n: nat)
    ensures n <= |s|
    ensures n < |s| ==> !p(s[n])
  {
    RunFrom(s, p, 0)
  }

  /** The end of the run of `p` characters that starts at index `i`. */
  function RunFrom(s: string, p: char -> bool, i: nat): (n: nat)
    requires i <= |s|
    ensures i <= n <= |s|
    ensures n < |s| ==> !p(s[n])
    decreases |s| - i
  {
    if i < |s| && p(s[i]) then RunFrom(s, p, i + 1) else i
  }

  /** Every character a run passes over belongs to its class. */
  lemma {:induction false} RunFromCovers(s: string, p: char -> bool, i: nat)
    requires i <= |s|
    ensures forall j :: i <= j < RunFrom(s, p, i) ==> p(s[j])
    decreases |s| - i
  {
    if i < |s| && p(s[i]) {
      RunFromCovers(s, p, i + 1);
    }
  }

  /** A run over a stretch of class characters reaches its end, and stops there when the next character is outside the class. */
  lemma {:induction false} RunFromOver(s: string, p: char -> bool, i: nat, e: nat)
    requires i <= e <= |s|
    requires forall j :: i <= j < e ==> p(s[j])
    requires e == |s| || !p(s[e])
    ensures RunFrom(s, p, i) == e
    decreases e - i
  {
    if i < e {
      RunFromOver(s, p, i + 1, e);
    }
  }

  /** A run stops exactly where its class stops. */
  lemma RunOfConcat(a: string, b: string, p: char -> bool)
    requires AllChars(a, p)
    requires b == [] || !p(b[0])
    ensures Run(a + b, p) == |a|
  {
    var s := a + b;
    forall j | 0 <= j < |a| ensures p(s[j]) {
      assert s[j] == a[j];
    }
    if |a| < |s| {
      assert s[|a|] == b[0];
    }
    RunFromOver(s, p, 0, |a|);
  }

  /** A concatenation cut at the end of its first part. */
  lemma CutConcat(a: string, b: string)
    ensures (a + b)[..|a|] == a && (a + b)[|a|..] == b
  {
  }

  /** A run over `a + b` that stops at `b` splits the text back into `a` and `b`. */
  lemma RunSplit(a: string, b: string, p: char -> bool)
    requires AllChars(a, p)
    requires b == [] || !p(b[0])
    ensures Run(a + b, p) == |a| && (a + b)[..|a|] == a && (a + b)[|a|..] == b
  {
    RunOfConcat(a, b, p);
  }

  /** The characters a run covers all belong to its class, and so do those of any shorter prefix. */
  lemma RunPrefix(s: string, p: char -> bool, j: nat)
    requires j <= Run(s, p)
    ensures AllChars(s[..j], p)
  {
    RunFromCovers(s, p, 0);
    forall i | 0 <= i < j ensures p(s[..j][i]) {
      assert s[..j][i] == s[i];
    }
  }

  /** The characters of a line up to (not including) the first newline: what `.+` or `.*` consumes. */
  function TakeLine(s: string): string
  {
    s[..Run(s, NotNewline)]
  }

  /** A line taken from text not starting at a newline is non-empty and holds no newline. */
  lemma TakeLineShape(s: string)
    ensures '\n' !in TakeLine(s)
    ensures s != [] && s[0] != '\n' ==> TakeLine(s) != []
  {
    RunPrefix(s, NotNewline, Run(s, NotNewline));
    var r := TakeLine(s);
    forall i | 0 <= i < |r| ensures r[i] != '\n' {
      assert NotNewline(r[i]);
    }
  }

  /** `s.rstrip()` */
  function TrimEnd(s: string): (r: string)
    ensures |r| <= |s| && r == s[..|r|]
    ensures r == [] || !IsSpace(r[|r| - 1])
    ensures forall i :: |r| <= i < |s| ==> IsSpace(s[i])
  {
    if s != [] && IsSpace(s[|s| - 1]) then TrimEnd(s[..|s| - 1]) else s
  }

  /**
   * `s.strip()`: the slice of `s` after its leading whitespace and before
   * its trailing whitespace; it neither starts nor ends with whitespace.
   */
  function Strip(s: string): (r: string)
    ensures r == [] || (!IsSpace(r[0]) && !IsSpace(r[|r| - 1]))
    ensures |r| <= |s| - Run(s, IsSpace)
    ensures r == s[Run(s, IsSpace)..Run(s, IsSpace) + |r|]
    ensures forall i :: 0 <= i < Run(s, IsSpace) ==> IsSpace(s[i])
    ensures forall i :: Run(s, IsSpace) + |r| <= i < |s| ==> IsSpace(s[i])
  {
    RunFromCovers(s, IsSpace, 0);
    TrimmedSlice(s, Run(s, IsSpace));
    TrimEnd(s[Run(s, IsSpace)..])
  }

  /** Right-stripping the text from `a` on leaves a slice of `s` followed only by whitespace. */
  lemma TrimmedSlice(s: string, a: nat)
    requires a <= |s|
    ensures var r := TrimEnd(s[a..]);
      a + |r| <= |s| && r == s[a..a + |r|] && forall i :: a + |r| <= i < |s| ==> IsSpace(s[i])
  {
    var t := s[a..];
    var r := TrimEnd(t);
    forall i | a + |r| <= i < |s| ensures IsSpace(s[i]) {
      assert s[i] == t[i - a];
    }
  }

  /** Stripping changes nothing on a string that neither starts nor ends with whitespace. */
  lemma StripUnchanged(s: string)
    requires s == [] || (!IsSpace(s[0]) && !IsSpace(s[|s| - 1]))
    ensures Strip(s) == s
  {
    assert Run(s, IsSpace) == 0;
    assert s[0..] == s;
  }

  predicate StartsWith(s: string, prefix: string) {
    prefix <= s
  }

  predicate EndsWith(s: string, suffix: string) {
    |suffix| <= |s| && s[|s| - |suffix|..] == suffix
  }

  /** `pat in s` for strings (substring test). */
  predicate Contains(s: string, pat: string)
    decreases |s|
  {
    pat <= s || (s != [] && Contains(s[1..], pat))
  }

  /** `pat` occurs in `s` at position `i`. */
  predicate OccursAt(s: string, pat: string, i: nat) {
    i + |pat| <= |s| && s[i..i + |pat|] == pat
  }

  /**
   * `s.replace(pat, rep)`: every occurrence of `pat`, found left to right
   * without overlaps, is replaced by `rep`.
   */
  function ReplaceAll(s: string, pat: string, rep: string): string
    requires pat != []
    decreases |s|
  {
    if |s| < |pat| then s
    else if s[..|pat|] == pat then rep + ReplaceAll(s[|pat|..], pat, rep)
    else [s[0]] + ReplaceAll(s[1..], pat, rep)
  }

  /** Where no occurrence starts, the first character is kept and replacing goes on from the next. */
  lemma ReplaceAllCons(s: string, pat: string, rep: string)
    requires pat != [] && s != [] && !OccursAt(s, pat, 0)
    ensures ReplaceAll(s, pat, rep) == [s[0]] + ReplaceAll(s[1..], pat, rep)
  {
    if |s| < |pat| {
      ReplaceAllShort(s[1..], pat, rep);
      assert s == [s[0]] + s[1..];
    } else {
      assert s[..|pat|] == s[0..0 + |pat|];
    }
  }

  /** No occurrence starting inside `a` means none starting inside `a[1..]` either. */
  lemma NoOccurrenceShift(a: string, b: string, pat: string)
    requires a != []
    requires forall i :: 0 <= i < |a| ==> !OccursAt(a + b, pat, i)
    ensures forall i :: 0 <= i < |a| - 1 ==> !OccursAt(a[1..] + b, pat, i)
  {
    var s := a + b;
    var t := a[1..] + b;
    assert s[1..] == t;
    forall i | 0 <= i < |a| - 1 ensures !OccursAt(t, pat, i) {
      assert !OccursAt(s, pat, i + 1);
      if i + |pat| <= |t| {
        assert s[i + 1..i + 1 + |pat|] == t[i..i + |pat|];
      }
    }
  }

  /** Replacing leaves a prefix alone when no occurrence of the pattern starts inside it. */
  lemma {:induction false} ReplaceAllSkipsPrefix(a: string, b: string, pat: string, rep: string)
    requires pat != []
    requires forall i :: 0 <= i < |a| ==> !OccursAt(a + b, pat, i)
    ensures ReplaceAll(a + b, pat, rep) == a + ReplaceAll(b, pat, rep)
    decreases |a|
  {
    if a != [] {
      var s := a + b;
      assert !OccursAt(s, pat, 0);
      ReplaceAllCons(s, pat, rep);
      assert s[1..] == a[1..] + b;
      NoOccurrenceShift(a, b, pat);
      ReplaceAllSkipsPrefix(a[1..], b, pat, rep);
      assert a == [a[0]] + a[1..];
    } else {
      assert a + b == b;
    }
  }

  lemma ReplaceAllShort(s: string, pat: string, rep: string)
    requires pat != [] && |s| < |pat|
    ensures ReplaceAll(s, pat, rep) == s
  {
  }

  /** Replacing a leading occurrence. */
  lemma ReplaceAllAtFront(pat: string, b: string, rep: string)
    requires pat != []
    ensures ReplaceAll(pat + b, pat, rep) == rep + ReplaceAll(b, pat, rep)
  {
    assert (pat + b)[..|pat|] == pat;
    assert (pat + b)[|pat|..] == b;
  }

  /** Replacing a one-character pattern by a replacement without that character removes it everywhere. */
  lemma {:induction false} ReplaceCharRemoves(s: string, c: char, rep: string)
    requires c !in rep
    ensures c !in ReplaceAll(s, [c], rep)
    decreases |s|
  {
    if |s| >= 1 {
      ReplaceCharRemoves(s[1..], c, rep);
    }
  }

  /** A one-character replacement by one character keeps the length and changes only that character. */
  lemma {:induction false} ReplaceCharPointwise(s: string, c: char, d: char)
    ensures |ReplaceAll(s, [c], [d])| == |s|
    ensures forall i :: 0 <= i < |s| ==> ReplaceAll(s, [c], [d])[i] == (if s[i] == c then d else s[i])
    decreases |s|
  {
    if |s| >= 1 {
      ReplaceCharPointwise(s[1..], c, d);
      var r := ReplaceAll(s[1..], [c], [d]);
      assert ReplaceAll(s, [c], [d]) == [if s[0] == c then d else s[0]] + r;
    }
  }

  /** `sep.join(parts)` */
  function Join(parts: seq<string>, sep: string): string
  {
    if |parts| == 0 then []
    else if |parts| == 1 then parts[0]
    else parts[0] + sep + Join(parts[1..], sep)
  }

  /** The number of `c` characters in a joined list is the separators plus those in the parts. */
  lemma {:induction false} JoinCount(parts: seq<string>, c: char)
    requires |parts| >= 1
    requires forall i :: 0 <= i < |parts| ==> c !in parts[i]
    ensures multiset(Join(parts, [c]))[c] == |parts| - 1
  {
    if |parts| == 1 {
      assert multiset(parts[0])[c] == 0;
    } else {
      JoinCount(parts[1..], c);
      assert multiset(parts[0])[c] == 0;
      assert Join(parts, [c]) == parts[0] + [c] + Join(parts[1..], [c]);
    }
  }

  /** `os.path.basename`: the text after the last "/". */
  function BaseName(path: string): (r: string)
    ensures '/' !in r
  {
    if path == [] || path[|path| - 1] == '/' then [] else BaseName(path[..|path| - 1]) + [path[|path| - 1]]
  }

  lemma {:induction false} BaseNameOfName(name: string)
    requires '/' !in name
    ensures BaseName(name) == name
  {
    if name != [] {
      assert name[..|name| - 1] + [name[|name| - 1]] == name;
      BaseNameOfName(name[..|name| - 1]);
    }
  }
}
