/**
 * Cutting a sequence of lines at marker lines. Both line-oriented state
 * machines of the parser (the fastlog decoder loop and the show-tech
 * splitter) work this way: a marker line opens a segment, the lines up to
 * the next marker belong to it, and the lines before the first marker
 * belong to none. This module states the segmentation once, as a function
 * on the lines read so far, so that each loop can be proved against it.
 */
module Segments {

  /** A marker line and the non-marker lines that follow it. */
  datatype Segment = Segment(head: string, body: seq<string>)

  /** The segments of `lines`, in order, defined on the lines read so far. */
  function Cut(lines: seq<string>, isMarker: string -> bool): seq<Segment>
  {
    if lines == [] then [] else Step(Cut(lines[..|lines| - 1], isMarker), lines[|lines| - 1], isMarker)
  }

  /**
   * One more line: a marker opens a new segment, any other line joins the
   * open segment, or is dropped when no segment is open yet.
   */
  function Step(segs: seq<Segment>, line: string, isMarker: string -> bool): seq<Segment>
  {
    if isMarker(line) then segs + [Segment(line, [])]
    else if segs == [] then []
    else segs[..|segs| - 1] + [Segment(segs[|segs| - 1].head, segs[|segs| - 1].body + [line])]
  }

  /** The lines of the segments, in order. */
  function Flatten(segs: seq<Segment>): seq<string>
  {
    if segs == [] then [] else Flatten(segs[..|segs| - 1]) + [segs[|segs| - 1].head] + segs[|segs| - 1].body
  }

  /** The position of the first marker line, or the length when there is none. */
  function FirstMarker(lines: seq<string>, isMarker: string -> bool): (n: nat)
    ensures n <= |lines|
    ensures forall i :: 0 <= i < n ==> !isMarker(lines[i])
    ensures n < |lines| ==> isMarker(lines[n])
  {
    if lines == [] then 0
    else if isMarker(lines[0]) then 0
    else 1 + FirstMarker(lines[1..], isMarker)
  }

  /** The number of marker lines. */
  function MarkerCount(lines: seq<string>, isMarker: string -> bool): nat
  {
    if lines == [] then 0
    else MarkerCount(lines[..|lines| - 1], isMarker) + (if isMarker(lines[|lines| - 1]) then 1 else 0)
  }

  /** Appending a line moves the first marker only when there was none before. */
  lemma FirstMarkerSnoc(lines: seq<string>, line: string, isMarker: string -> bool)
    ensures var n := FirstMarker(lines, isMarker);
      FirstMarker(lines + [line], isMarker)
      == if n < |lines| then n else if isMarker(line) then |lines| else |lines| + 1
  {
    var n := FirstMarker(lines, isMarker);
    var all := lines + [line];
    var m := FirstMarker(all, isMarker);
    forall i | 0 <= i < |lines| ensures all[i] == lines[i] { }
    assert all[|lines|] == line;
  }

  lemma FlattenSnoc(segs: seq<Segment>, s: Segment)
    ensures Flatten(segs + [s]) == Flatten(segs) + [s.head] + s.body
  {
    assert (segs + [s])[..|segs|] == segs;
  }

  /** Extending the last segment by one body line extends the flattened lines by it. */
  lemma FlattenExtendLast(segs: seq<Segment>, line: string)
    requires segs != []
    ensures var last := segs[|segs| - 1];
      Flatten(segs[..|segs| - 1] + [Segment(last.head, last.body + [line])]) == Flatten(segs) + [line]
  {
    var last := segs[|segs| - 1];
    FlattenSnoc(segs[..|segs| - 1], Segment(last.head, last.body + [line]));
  }

  /** How one more line changes the segments. */
  lemma CutSnoc(init: seq<string>, line: string, isMarker: string -> bool)
    ensures Cut(init + [line], isMarker) == Step(Cut(init, isMarker), line, isMarker)
  {
    assert (init + [line])[..|init|] == init;
  }

  /**
   * Nothing is lost or reordered from the first marker on: the segments,
   * flattened, are exactly the lines from the first marker line to the end,
   * so only the lines before it are dropped.
   */
  lemma {:induction false} CutCovers(lines: seq<string>, isMarker: string -> bool)
    ensures Flatten(Cut(lines, isMarker)) == lines[FirstMarker(lines, isMarker)..]
  {
    if lines != [] {
      var init := lines[..|lines| - 1];
      var line := lines[|lines| - 1];
      assert lines == init + [line];
      CutCovers(init, isMarker);
      CoversSnoc(init, line, isMarker);
    }
  }

  /** The step of the coverage proof: one more line. */
  lemma CoversSnoc(init: seq<string>, line: string, isMarker: string -> bool)
    requires Flatten(Cut(init, isMarker)) == init[FirstMarker(init, isMarker)..]
    ensures Flatten(Cut(init + [line], isMarker)) == (init + [line])[FirstMarker(init + [line], isMarker)..]
  {
    CutSnoc(init, line, isMarker);
    FirstMarkerSnoc(init, line, isMarker);
    if isMarker(line) {
      CoversMarker(init, line, isMarker);
    } else if Cut(init, isMarker) != [] {
      FirstMarkerInside(init, isMarker);
      FlattenBodyStep(init, line, isMarker);
      SliceSnoc(init, line, FirstMarker(init, isMarker));
    } else {
      assert Cut(init + [line], isMarker) == [];
    }
  }

  /** Dropping a prefix commutes with appending. */
  lemma SliceSnoc(a: seq<string>, x: string, n: nat)
    requires n <= |a|
    ensures (a + [x])[n..] == a[n..] + [x]
  {
  }

  /** Coverage step for a marker line: it opens a new segment. */
  lemma CoversMarker(init: seq<string>, line: string, isMarker: string -> bool)
    requires isMarker(line)
    requires Flatten(Cut(init, isMarker)) == init[FirstMarker(init, isMarker)..]
    ensures Flatten(Cut(init + [line], isMarker)) == (init + [line])[FirstMarker(init, isMarker)..]
  {
    CutSnoc(init, line, isMarker);
    FlattenSnoc(Cut(init, isMarker), Segment(line, []));
    SliceSnoc(init, line, FirstMarker(init, isMarker));
  }

  /** When a segment is open, the first marker lies inside the lines read. */
  lemma FirstMarkerInside(init: seq<string>, isMarker: string -> bool)
    requires Cut(init, isMarker) != []
    requires Flatten(Cut(init, isMarker)) == init[FirstMarker(init, isMarker)..]
    ensures FirstMarker(init, isMarker) < |init|
  {
    FlattenNonEmpty(Cut(init, isMarker));
  }

  /** A non-marker line joins the open segment, so it is appended to the flattened lines. */
  lemma FlattenBodyStep(init: seq<string>, line: string, isMarker: string -> bool)
    requires !isMarker(line) && Cut(init, isMarker) != []
    ensures Flatten(Cut(init + [line], isMarker)) == Flatten(Cut(init, isMarker)) + [line]
  {
    CutSnoc(init, line, isMarker);
    FlattenExtendLast(Cut(init, isMarker), line);
  }

  lemma FlattenNonEmpty(segs: seq<Segment>)
    requires segs != []
    ensures |Flatten(segs)| > 0
  {
  }

  /** The segments are well formed: each starts at a marker and holds no other. */
  predicate WellCut(segs: seq<Segment>, isMarker: string -> bool) {
    && (forall i :: 0 <= i < |segs| ==> isMarker(segs[i].head))
    && (forall i, j :: 0 <= i < |segs| && 0 <= j < |segs[i].body| ==> !isMarker(segs[i].body[j]))
  }

  /** Every segment starts with a marker line, and no body line is a marker. */
  lemma {:induction false} CutShape(lines: seq<string>, isMarker: string -> bool)
    ensures WellCut(Cut(lines, isMarker), isMarker)
  {
    if lines != [] {
      var init := lines[..|lines| - 1];
      var line := lines[|lines| - 1];
      assert lines == init + [line];
      CutShape(init, isMarker);
      CutSnoc(init, line, isMarker);
      var prev := Cut(init, isMarker);
      var r := Cut(lines, isMarker);
      if isMarker(line) {
        forall i | 0 <= i < |r| - 1 ensures r[i] == prev[i] { }
      } else if prev != [] {
        forall i | 0 <= i < |r| - 1 ensures r[i] == prev[i] { }
      }
    }
  }

  /** Lines without a marker form no segment. */
  lemma {:induction false} CutNoMarker(lines: seq<string>, isMarker: string -> bool)
    requires forall i :: 0 <= i < |lines| ==> !isMarker(lines[i])
    ensures Cut(lines, isMarker) == []
  {
    if lines != [] {
      var init := lines[..|lines| - 1];
      assert init + [lines[|lines| - 1]] == lines;
      CutNoMarker(init, isMarker);
      CutSnoc(init, lines[|lines| - 1], isMarker);
    }
  }

  /** Lines that start with a marker form at least one segment. */
  lemma CutNonEmpty(lines: seq<string>, isMarker: string -> bool)
    requires lines != [] && isMarker(lines[0])
    ensures Cut(lines, isMarker) != []
  {
    CutCovers(lines, isMarker);
    assert FirstMarker(lines, isMarker) == 0;
  }

  /** A line only affects the last of a non-empty run of segments. */
  lemma StepAppend(a: seq<Segment>, b: seq<Segment>, line: string, isMarker: string -> bool)
    requires b != []
    ensures Step(a + b, line, isMarker) == a + Step(b, line, isMarker)
  {
    var ab := a + b;
    assert ab[..|ab| - 1] == a + b[..|b| - 1];
  }

  /** A marker line appended to any lines opens a segment of its own. */
  lemma CutAppendMarker(x: seq<string>, line: string, isMarker: string -> bool)
    requires isMarker(line)
    ensures Cut(x + [line], isMarker) == Cut(x, isMarker) + Cut([line], isMarker)
  {
    CutSnoc(x, line, isMarker);
    CutSnoc([], line, isMarker);
    assert [] + [line] == [line];
  }

  /** The step of `CutAppend`: one more line after a run that starts at a marker. */
  lemma CutAppendSnoc(x: seq<string>, y: seq<string>, line: string, isMarker: string -> bool)
    requires y != [] && isMarker(y[0])
    requires Cut(x + y, isMarker) == Cut(x, isMarker) + Cut(y, isMarker)
    ensures Cut(x + (y + [line]), isMarker) == Cut(x, isMarker) + Cut(y + [line], isMarker)
  {
    assert x + (y + [line]) == (x + y) + [line];
    CutSnoc(x + y, line, isMarker);
    CutSnoc(y, line, isMarker);
    CutNonEmpty(y, isMarker);
    StepAppend(Cut(x, isMarker), Cut(y, isMarker), line, isMarker);
  }

  /** Lines that start at a marker are segmented independently of what precedes them. */
  lemma {:induction false} CutAppend(x: seq<string>, y: seq<string>, isMarker: string -> bool)
    requires y == [] || isMarker(y[0])
    ensures Cut(x + y, isMarker) == Cut(x, isMarker) + Cut(y, isMarker)
    decreases |y|
  {
    if y == [] {
      assert x + y == x;
    } else {
      var y' := y[..|y| - 1];
      var line := y[|y| - 1];
      assert y == y' + [line];
      if y' == [] {
        assert y == [line];
        CutAppendMarker(x, line, isMarker);
      } else {
        assert y'[0] == y[0];
        CutAppend(x, y', isMarker);
        CutAppendSnoc(x, y', line, isMarker);
      }
    }
  }

  /** Lines before the first marker have no effect on the segments. */
  lemma SkipsPreamble(pre: seq<string>, rest: seq<string>, isMarker: string -> bool)
    requires forall i :: 0 <= i < |pre| ==> !isMarker(pre[i])
    requires rest == [] || isMarker(rest[0])
    ensures Cut(pre + rest, isMarker) == Cut(rest, isMarker)
  {
    CutAppend(pre, rest, isMarker);
    CutNoMarker(pre, isMarker);
  }

  /** A marker followed by non-marker lines is a single segment. */
  lemma {:induction false} CutSingle(m: string, body: seq<string>, isMarker: string -> bool)
    requires isMarker(m)
    requires forall i :: 0 <= i < |body| ==> !isMarker(body[i])
    ensures Cut([m] + body, isMarker) == [Segment(m, body)]
  {
    if body == [] {
      CutSnoc([], m, isMarker);
      assert [m] + body == [] + [m];
    } else {
      var init := body[..|body| - 1];
      var line := body[|body| - 1];
      assert [m] + body == ([m] + init) + [line];
      assert init + [line] == body;
      CutSingle(m, init, isMarker);
      CutSnoc([m] + init, line, isMarker);
    }
  }

  /** One segment per marker line. */
  lemma {:induction false} CutCount(lines: seq<string>, isMarker: string -> bool)
    ensures |Cut(lines, isMarker)| == MarkerCount(lines, isMarker)
  {
    if lines != [] {
      var init := lines[..|lines| - 1];
      CutCount(init, isMarker);
      if !isMarker(lines[|lines| - 1]) && Cut(init, isMarker) == [] {
        CutCovers(init, isMarker);
        NoMarkerNoCount(init, isMarker);
      }
    }
  }

  /** Lines without a marker count none. */
  lemma {:induction false} NoMarkerNoCount(lines: seq<string>, isMarker: string -> bool)
    requires FirstMarker(lines, isMarker) == |lines|
    ensures MarkerCount(lines, isMarker) == 0
  {
    if lines != [] {
      var init := lines[..|lines| - 1];
      FirstMarkerSnoc(init, lines[|lines| - 1], isMarker);
      assert init + [lines[|lines| - 1]] == lines;
      NoMarkerNoCount(init, isMarker);
    }
  }
}
