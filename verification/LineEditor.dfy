/** The line index of the editor in src/leditor.cpp: appends rebuild it from the last indexed
    line on. */
module LineEditor {
  const NUL: char := '\0'

  datatype TextLine = TextLine(start: nat, length: nat)

  // ---------- what the index is ----------

  /** First newline at or after `from`, or the length of the buffer. */
  ghost function NextNewline(buf: string, from: nat): (r: nat)
    requires from <= |buf|
    ensures from <= r <= |buf|
    ensures forall k :: from <= k < r ==> buf[k] != '\n'
    ensures r < |buf| ==> buf[r] == '\n'
    decreases |buf| - from
  {
    if from == |buf| || buf[from] == '\n' then from else NextNewline(buf, from + 1)
  }

  /** The newline-terminated segments from `from` on. */
  ghost function Segments(buf: string, from: nat): seq<TextLine>
    requires from <= |buf|
    decreases |buf| - from
  {
    var nl := NextNewline(buf, from);
    if nl == |buf| then [] else [TextLine(from, nl - from)] + Segments(buf, nl + 1)
  }

  /** The full index: one whole-buffer line when there is no newline. */
  ghost function FullIndex(buf: string): seq<TextLine> {
    if buf != [] && Segments(buf, 0) == [] then [TextLine(0, |buf|)] else Segments(buf, 0)
  }

  ghost function EndOf(lines: seq<TextLine>): nat {
    if lines == [] then 0 else lines[|lines| - 1].start + lines[|lines| - 1].length + 1
  }

  /** Each line starts right behind the newline of the line before it. */
  ghost predicate Chained(lines: seq<TextLine>) {
    lines != [] ==>
      var before := lines[..|lines| - 1];
      Chained(before) && lines[|lines| - 1].start == EndOf(before)
  }

  /** A stretch of the buffer without newline, and a newline behind it. */
  ghost predicate IsLine(buf: string, line: TextLine) {
    && line.start + line.length < |buf| && buf[line.start + line.length] == '\n'
    && forall k :: line.start <= k < line.start + line.length ==> buf[k] != '\n'
  }

  /** The lines tile the buffer from 0 to its last newline, one newline behind each. */
  ghost predicate Tiles(buf: string, lines: seq<TextLine>) {
    && Chained(lines) && (forall i :: 0 <= i < |lines| ==> IsLine(buf, lines[i]))
    && (forall k :: EndOf(lines) <= k < |buf| ==> buf[k] != '\n')
  }

  /** lines are the segments up to offset, where the rest starts. */
  ghost predicate IndexedTo(buf: string, lines: seq<TextLine>, offset: nat) {
    && offset == EndOf(lines) <= |buf|
    && lines + Segments(buf, offset) == Segments(buf, 0)
  }

  lemma MoveOver(lines: seq<TextLine>, s: seq<TextLine>, all: seq<TextLine>, line: TextLine, rest: seq<TextLine>)
    requires lines + s == all && s == [line] + rest
    ensures (lines + [line]) + rest == all
  {
  }

  lemma FirstSegment(buf: string, offset: nat)
    requires offset <= |buf| && NextNewline(buf, offset) < |buf|
    ensures var nl := NextNewline(buf, offset);
      Segments(buf, offset) == [TextLine(offset, nl - offset)] + Segments(buf, nl + 1)
  {
  }

  lemma NothingIndexed(buf: string)
    ensures IndexedTo(buf, [], 0)
  {
    assert [] + Segments(buf, 0) == Segments(buf, 0);
  }

  lemma EndBehind(lines: seq<TextLine>, line: TextLine)
    ensures EndOf(lines + [line]) == line.start + line.length + 1
  {
  }

  lemma AddSegment(buf: string, lines: seq<TextLine>, offset: nat)
    requires IndexedTo(buf, lines, offset) && NextNewline(buf, offset) < |buf|
    ensures var nl := NextNewline(buf, offset);
      IndexedTo(buf, lines + [TextLine(offset, nl - offset)], nl + 1)
  {
    var nl := NextNewline(buf, offset);
    var line := TextLine(offset, nl - offset);
    FirstSegment(buf, offset);
    EndBehind(lines, line);
    MoveOver(lines, Segments(buf, offset), Segments(buf, 0), line, Segments(buf, nl + 1));
  }

  lemma AllSegments(buf: string, lines: seq<TextLine>, offset: nat)
    requires IndexedTo(buf, lines, offset) && NextNewline(buf, offset) == |buf|
    ensures Segments(buf, 0) == lines
  {
    assert lines + [] == lines;
  }

  /** When no newline is left, the lines found are the index, unless there are none. */
  lemma NoSegmentLeft(buf: string, lines: seq<TextLine>, offset: nat)
    requires IndexedTo(buf, lines, offset) && NextNewline(buf, offset) == |buf| && buf != []
    ensures FullIndex(buf) == if lines == [] then [TextLine(0, |buf|)] else lines
  {
    AllSegments(buf, lines, offset);
  }

  /** An index that reaches the end of the buffer is complete. */
  lemma IndexComplete(buf: string, lines: seq<TextLine>, offset: nat)
    requires IndexedTo(buf, lines, offset) && offset == |buf|
    ensures lines == FullIndex(buf)
  {
    assert lines + [] == lines;
  }

  /** A prefix of the segments, cut anywhere, is indexed to the start of the next one. */
  lemma {:induction false} SegmentPrefix(buf: string, from: nat, n: nat)
    requires from <= |buf| && n < |Segments(buf, from)|
    ensures var s := Segments(buf, from);
      && s[n].start <= |buf| && s == s[..n] + Segments(buf, s[n].start)
      && (n == 0 ==> s[n].start == from)
      && (n > 0 ==> s[n].start == EndOf(s[..n]))
    decreases n
  {
    var s, nl := Segments(buf, from), NextNewline(buf, from);
    if n > 0 {
      SegmentPrefix(buf, nl + 1, n - 1);
      var t := Segments(buf, nl + 1);
      assert s[..n] == [s[0]] + t[..n - 1];
      assert s[n] == t[n - 1];
      if n > 1 { assert s[..n][n - 1] == t[..n - 1][n - 2]; }
      assert s == [s[0]] + (t[..n - 1] + Segments(buf, s[n].start));
      assert [s[0]] + (t[..n - 1] + Segments(buf, s[n].start)) == s[..n] + Segments(buf, s[n].start);
    }
  }

  lemma {:induction false} NewlineStable(text: string, a: string, b: string, from: nat)
    requires from <= |text| && NUL !in text
    requires a == text + [NUL] && text <= b
    requires NextNewline(a, from) < |a|
    ensures NextNewline(b, from) == NextNewline(a, from) < |text|
    decreases |text| - from
  {
    if from < |text| && a[from] != '\n' {
      assert a[from] == b[from];
      NewlineStable(text, a, b, from + 1);
    } else {
      assert from < |text| ==> a[from] == b[from];
      assert a[|text|] == NUL;
    }
  }

  /** A segment that two buffers share keeps one index a prefix of the other. */
  lemma SameFirstSegment(a: string, b: string, from: nat, nl: nat)
    requires from <= nl < |a| && nl < |b| && NextNewline(a, from) == nl == NextNewline(b, from)
    requires Segments(a, nl + 1) <= Segments(b, nl + 1)
    ensures Segments(a, from) <= Segments(b, from)
  {
    FirstSegment(a, from);
    FirstSegment(b, from);
  }

  /** Text behind the old end does not move the segments that were already complete. */
  lemma {:induction false} SegmentsStable(text: string, a: string, b: string, from: nat)
    requires from <= |text| && NUL !in text
    requires a == text + [NUL] && text <= b
    ensures Segments(a, from) <= Segments(b, from)
    decreases |text| - from
  {
    var nl := NextNewline(a, from);
    if nl < |a| {
      NewlineStable(text, a, b, from);
      SegmentsStable(text, a, b, nl + 1);
      SameFirstSegment(a, b, from, nl);
    }
  }

  ghost function Newlines(s: string): nat {
    if s == [] then 0 else Newlines(s[..|s| - 1]) + (if s[|s| - 1] == '\n' then 1 else 0)
  }

  ghost predicate AreLines(buf: string, lines: seq<TextLine>) {
    Chained(lines) && forall i :: 0 <= i < |lines| ==> IsLine(buf, lines[i])
  }

  lemma OneMoreLine(buf: string, lines: seq<TextLine>, line: TextLine)
    requires AreLines(buf, lines) && IsLine(buf, line) && line.start == EndOf(lines)
    ensures AreLines(buf, lines + [line])
  {
    assert (lines + [line])[..|lines|] == lines;
  }

  /** The segments tile the buffer up to its last newline. */
  lemma {:induction false} SegmentsTile(buf: string, lines: seq<TextLine>, offset: nat)
    requires IndexedTo(buf, lines, offset)
    requires AreLines(buf, lines)
    ensures Tiles(buf, Segments(buf, 0))
    decreases |buf| - offset
  {
    var nl := NextNewline(buf, offset);
    if nl == |buf| {
      AllSegments(buf, lines, offset);
    } else {
      var line := TextLine(offset, nl - offset);
      AddSegment(buf, lines, offset);
      OneMoreLine(buf, lines, line);
      SegmentsTile(buf, lines + [line], nl + 1);
    }
  }

  lemma FirstNewline(buf: string)
    ensures '\n' in buf <==> NextNewline(buf, 0) < |buf|
  {
    if '\n' in buf {
      var k :| 0 <= k < |buf| && buf[k] == '\n';
    }
  }

  lemma WholeLineWithoutNewline(buf: string)
    ensures FullIndex(buf) == if buf != [] && '\n' !in buf then [TextLine(0, |buf|)] else Segments(buf, 0)
  {
    FirstNewline(buf);
  }

  /** The index without whole-buffer line is exactly the tiling of the buffer by its newlines. */
  lemma IndexTilesBuffer(buf: string)
    ensures Tiles(buf, Segments(buf, 0))
    ensures FullIndex(buf) == if buf != [] && '\n' !in buf then [TextLine(0, |buf|)] else Segments(buf, 0)
  {
    NothingIndexed(buf);
    SegmentsTile(buf, [], 0);
    WholeLineWithoutNewline(buf);
  }

  lemma {:induction false} NoNewlines(buf: string, from: nat, end: nat)
    requires from <= end <= |buf| && forall k :: from <= k < end ==> buf[k] != '\n'
    ensures Newlines(buf[..end]) == Newlines(buf[..from])
    decreases end
  {
    if from < end {
      assert buf[..end][..end - 1] == buf[..end - 1];
      NoNewlines(buf, from, end - 1);
    }
  }

  lemma NewlinesTo(buf: string, offset: nat)
    requires offset <= |buf|
    ensures var nl := NextNewline(buf, offset);
      Newlines(buf[..if nl < |buf| then nl + 1 else nl]) == Newlines(buf[..offset]) + (if nl < |buf| then 1 else 0)
  {
    var nl := NextNewline(buf, offset);
    NoNewlines(buf, offset, nl);
    if nl < |buf| { assert buf[..nl + 1][..nl] == buf[..nl]; }
  }

  /** There are as many segments as newlines. */
  lemma {:induction false} SegmentsCountNewlines(buf: string, lines: seq<TextLine>, offset: nat)
    requires IndexedTo(buf, lines, offset) && Newlines(buf[..offset]) == |lines|
    ensures |Segments(buf, 0)| == Newlines(buf)
    decreases |buf| - offset
  {
    var nl := NextNewline(buf, offset);
    NewlinesTo(buf, offset);
    if nl == |buf| {
      AllSegments(buf, lines, offset);
      assert buf[..nl] == buf;
    } else {
      AddSegment(buf, lines, offset);
      SegmentsCountNewlines(buf, lines + [TextLine(offset, nl - offset)], nl + 1);
    }
  }

  lemma {:induction false} NewlinesConcat(a: string, b: string)
    ensures Newlines(a + b) == Newlines(a) + Newlines(b)
    decreases |b|
  {
    if b == [] {
      assert a + b == a;
    } else {
      NewlinesConcat(a, b[..|b| - 1]);
      assert (a + b)[..|a + b| - 1] == a + b[..|b| - 1];
    }
  }

  /** An index has a line per newline, and one line when there is none. */
  lemma IndexSize(buf: string)
    ensures |FullIndex(buf)| == if buf != [] && Newlines(buf) == 0 then 1 else Newlines(buf)
  {
    NothingIndexed(buf);
    assert buf[..0] == [];
    SegmentsCountNewlines(buf, [], 0);
  }

  // ---------- the editor ----------

  /** memchr for a newline from `from` on; the end of the data when there is none. */
  method MemChr(data: string, from: nat) returns (p: nat)
    requires from <= |data|
    ensures p == NextNewline(data, from)
  {
    p := from;
    while p < |data| && data[p] != '\n'
      invariant from <= p <= |data| && NextNewline(data, from) == NextNewline(data, p)
    {
      p := p + 1;
    }
  }

  /** CountNewlines (src/textutil.c:557-570). */
  method CountNewlines(data: string) returns (count: nat)
    ensures count == Newlines(data)
  {
    var idx := 0;
    count := 0;
    while idx < |data|
      invariant 0 <= idx <= |data| && count == Newlines(data[..idx])
    {
      var p := MemChr(data, idx);
      NoNewlines(data, idx, p);
      if p == |data| {
        assert data[..p] == data;
        return;
      }
      assert data[..p + 1][..p] == data[..p];
      count := count + 1;
      idx := p + 1;
    }
    assert data[..idx] == data;
  }

  /** The characters before the NUL of a buffer.  cv_strncat counts the NUL into the length: a
      buffer is empty until the first append and ends with its only NUL afterwards. */
  function TextOf(buf: string): string {
    if buf == [] then [] else buf[..|buf| - 1]
  }

  ghost predicate IsBuffer(buf: string) {
    NUL !in TextOf(buf) && (buf != [] ==> buf[|buf| - 1] == NUL)
  }

  function Appended(buf: string, data: string): string {
    TextOf(buf) + data + [NUL]
  }

  lemma AppendedIsBuffer(buf: string, data: string)
    requires IsBuffer(buf) && NUL !in data
    ensures IsBuffer(Appended(buf, data)) && TextOf(Appended(buf, data)) == TextOf(buf) + data
    ensures |TextOf(buf) + data| <= |data| + |buf|
  {
  }

  /** The index before the append, without its last line, is right for the new buffer. */
  lemma AppendKeepsPrefix(buf: string, data: string, lines: seq<TextLine>)
    requires IsBuffer(buf) && lines == FullIndex(buf)
    ensures var n := if |lines| > 1 then |lines| - 1 else 0;
      IndexedTo(Appended(buf, data), lines[..n], if n == 0 then 0 else lines[n].start)
  {
    var b := Appended(buf, data);
    if |lines| > 1 {
      var n := |lines| - 1;
      assert b == TextOf(buf) + (data + [NUL]);
      SegmentsStable(TextOf(buf), buf, b, 0);
      SegmentPrefix(b, 0, n);
      assert Segments(b, 0)[..n] == lines[..n] && Segments(b, 0)[n] == lines[n];
    } else {
      NothingIndexed(b);
    }
  }

  /** Counting the newlines of the data against the lines indexed so far is enough. */
  lemma LimitsKept(buf: string, data: string)
    requires IsBuffer(buf)
    ensures var n := |FullIndex(buf)| + Newlines(data);
      |FullIndex(Appended(buf, data))| <= if n == 0 then 1 else n
  {
    IndexSize(buf);
    IndexSize(Appended(buf, data));
    NewlinesConcat(TextOf(buf) + data, [NUL]);
    NewlinesConcat(TextOf(buf), data);
    assert [NUL][..0] == [];
  }

  /** The limits that LineEditor_Append tests, a line count and a length, hold for the new buffer. */
  lemma AppendKeepsLimits(buf: string, data: string, maxLines: nat, maxLength: nat)
    requires IsBuffer(buf) && NUL !in data
    requires maxLength == 0 || |data| + |buf| <= maxLength
    requires maxLines == 0 || |FullIndex(buf)| + Newlines(data) <= maxLines
    ensures IsBuffer(Appended(buf, data))
    ensures 0 < maxLines ==> |FullIndex(Appended(buf, data))| <= maxLines
    ensures 0 < maxLength ==> |TextOf(Appended(buf, data))| <= maxLength
  {
    LimitsKept(buf, data);
    AppendedIsBuffer(buf, data);
  }

  /** The part of struct LineEditor that the index depends on. */
  class Editor {
    var buffer: string
    var lines: array<TextLine>
    var linesCount: nat
    const maxLines: nat      // 0: no limit
    const maxLength: nat

    ghost function Lines(): seq<TextLine>
      requires linesCount <= lines.Length
      reads this, lines
    {
      lines[..linesCount]
    }

    ghost predicate Shaped()
      reads this, lines
    {
      linesCount <= lines.Length && 0 < lines.Length && lines[0].start == 0
    }

    /** The index is the full index of the buffer, and the limits are kept. */
    ghost predicate Valid()
      reads this, lines
    {
      && Shaped() && IsBuffer(buffer) && Lines() == FullIndex(buffer)
      && (0 < maxLines ==> linesCount <= maxLines)
      && (0 < maxLength ==> |TextOf(buffer)| <= maxLength)
    }

    /** LineEditor_Init (src/leditor.cpp:128-149), with the limits of SetEditTarget. */
    constructor (maxLines: nat, maxLength: nat)
      ensures Valid() && buffer == [] && fresh(lines)
    {
      this.maxLines, this.maxLength := maxLines, maxLength;
      buffer := [];
      lines := new TextLine[128](_ => TextLine(0, 0));
      linesCount := 0;
      new;
      assert Segments([], 0) == [];
    }

    /** The growth of the line array (src/leditor.cpp:203-209). */
    method Reserve()
      requires Shaped()
      modifies `lines
      ensures Shaped() && linesCount < lines.Length && Lines() == old(Lines())
      ensures lines == old(lines) || fresh(lines)
    {
      ghost var was := Lines();
      if linesCount >= lines.Length {
        var grown := new TextLine[lines.Length * 2](_ => TextLine(0, 0));
        forall k | 0 <= k < lines.Length { grown[k] := lines[k]; }
        lines := grown;
        assert Lines() == was;
      }
    }

    /** Stores one line at the end of the index (src/leditor.cpp:203-215). */
    method AddLine(length: nat)
      requires Shaped()
      modifies `linesCount, `lines, lines
      ensures Shaped() && (lines == old(lines) || fresh(lines))
      ensures Lines() == old(Lines()) + [TextLine(EndOf(old(Lines())), length)]
    {
      Reserve();
      ghost var was := Lines();
      lines[linesCount] := TextLine(
        if linesCount == 0 then 0 else lines[linesCount - 1].start + lines[linesCount - 1].length + 1, length);
      linesCount := linesCount + 1;
      assert Lines() == was + [TextLine(EndOf(was), length)];
    }

    /** The line up to the newline found (src/leditor.cpp:203-215). */
    method AddFound(offset: nat, nl: nat)
      requires Shaped() && offset < |buffer| && IndexedTo(buffer, Lines(), offset)
      requires nl == NextNewline(buffer, offset) < |buffer|
      modifies `linesCount, `lines, lines
      ensures Shaped() && (lines == old(lines) || fresh(lines))
      ensures IndexedTo(buffer, Lines(), nl + 1)
    {
      AddSegment(buffer, Lines(), offset);
      AddLine(nl - offset);
    }

    /** The whole buffer as one line (src/leditor.cpp:218-225). */
    method SetWholeLine()
      requires Shaped()
      modifies `linesCount, lines
      ensures Shaped() && Lines() == [TextLine(0, |buffer|)]
    {
      lines[0] := TextLine(0, |buffer|);
      linesCount := 1;
    }

    /** One round of the rebuild (src/leditor.cpp:200-225). */
    method RebuildRound(offset: nat) returns (p: bool, next: nat)
      requires Shaped() && offset < |buffer| && IndexedTo(buffer, Lines(), offset)
      modifies `linesCount, `lines, lines
      ensures Shaped() && (lines == old(lines) || fresh(lines))
      ensures next <= |buffer|
      ensures p ==> offset < next && IndexedTo(buffer, Lines(), next)
      ensures !p ==> Lines() == FullIndex(buffer)
    {
      next := offset;
      var nl := MemChr(buffer, offset);
      p := nl < |buffer|;
      if p {
        AddFound(offset, nl);
        next := nl + 1;
      } else {
        NoSegmentLeft(buffer, Lines(), offset);
        if linesCount == 0 {
          SetWholeLine();
        }
      }
    }

    /** LineEditor_RebuildLineIndices (src/leditor.cpp:182-228): from a line up to which the index
        is right, the whole index; from a line beyond the index, nothing. */
    method RebuildLineIndices(fromIdx: nat)
      requires Shaped()
      requires fromIdx <= linesCount ==>
        fromIdx < lines.Length && IndexedTo(buffer, Lines()[..fromIdx], lines[fromIdx].start)
      modifies `linesCount, `lines, lines
      ensures Shaped() && (lines == old(lines) || fresh(lines))
      ensures Lines() == if fromIdx <= old(linesCount) then FullIndex(buffer) else old(Lines())
    {
      if fromIdx > linesCount { return; }
      var offset := lines[fromIdx].start;
      ghost var done := Lines()[..fromIdx];
      linesCount := fromIdx;
      assert Lines() == done;
      var p := true;
      while p && offset < |buffer|
        invariant Shaped() && (lines == old(lines) || fresh(lines))
        invariant offset <= |buffer|
        invariant if p then IndexedTo(buffer, Lines(), offset) else Lines() == FullIndex(buffer)
        decreases p, |buffer| - offset
      {
        p, offset := RebuildRound(offset);
      }
      if p {
        IndexComplete(buffer, Lines(), offset);
      }
    }

    /** The accepted branch of LineEditor_Append (src/leditor.cpp:176-179). */
    method AppendText(data: string)
      requires Shaped() && IsBuffer(buffer) && Lines() == FullIndex(buffer)
      modifies this, lines
      ensures Shaped() && (lines == old(lines) || fresh(lines))
      ensures buffer == Appended(old(buffer), data) && Lines() == FullIndex(buffer)
    {
      ghost var before := Lines();
      AppendKeepsPrefix(buffer, data, before);
      buffer := Appended(buffer, data);
      var fromIdx := if linesCount > 1 then linesCount - 1 else 0;
      assert Lines()[..fromIdx] == before[..fromIdx];
      RebuildLineIndices(fromIdx);
    }

    /** LineEditor_Append (src/leditor.cpp:162-180) of NUL-free data: rejected with a message to
        the client when a limit would be exceeded, otherwise appended and indexed again from the
        last line. */
    method Append(data: string) returns (accepted: bool)
      requires Valid() && NUL !in data
      modifies this, lines
      ensures Valid() && (lines == old(lines) || fresh(lines))
      ensures accepted <==>
        && (maxLength == 0 || |data| + |old(buffer)| <= maxLength)
        && (maxLines == 0 || old(linesCount) + Newlines(data) <= maxLines)
      ensures buffer == if accepted then Appended(old(buffer), data) else old(buffer)
      ensures !accepted ==> Lines() == old(Lines())
    {
      var nlcount := CountNewlines(data);
      if maxLength != 0 && |data| + |buffer| > maxLength {
        return false;
      } else if maxLines != 0 && linesCount + nlcount > maxLines {
        return false;
      }
      AppendKeepsLimits(buffer, data, maxLines, maxLength);
      AppendText(data);
      return true;
    }
  }
}
