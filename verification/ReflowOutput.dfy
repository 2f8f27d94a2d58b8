/** The output of the paragraph reflow of src/textutil.c: PerformReflow walks the breaks backwards
    through a stack and emits the lines. */
module ReflowOutput {
  import opened Reflow

  // ---------- the int stack ----------

  /** reflow_intstack_t (src/textutil.c:43-48, 101-141). */
  class IntStack {
    var data: array<int32>
    var length: nat

    ghost predicate Valid()
      reads this
    {
      length <= data.Length && 1 <= data.Length
    }

    ghost function Contents(): seq<int32>
      requires Valid()
      reads this, data
    {
      data[..length]
    }

    constructor (initial: nat)
      ensures Valid() && Contents() == [] && fresh(data)
    {
      data := new int32[if initial > 1 then initial else 1];
      length := 0;
    }

    /** Clears the slot it reads, and on an empty stack reads and clears slot 0. */
    method Pop() returns (r: int32)
      requires Valid()
      modifies this`length, data
      ensures Valid() && data == old(data)
      ensures length < data.Length && data[length] == 0
      ensures old(length) > 0 ==>
        Contents() + [r] == old(Contents())
      ensures old(length) == 0 ==> length == 0 && r == old(data[0])
    {
      if length > 0 {
        length := length - 1;
      }
      r := data[length];
      data[length] := 0;
    }

    method Peek() returns (r: int32)
      requires Valid() && length > 0
      ensures r == Contents()[length - 1]
    {
      r := data[length - 1];
    }

    method Push(val: int32)
      requires Valid()
      modifies this, data
      ensures Valid() && Contents() == old(Contents()) + [val]
      ensures data == old(data) || fresh(data)
    {
      if length >= data.Length {
        var grown := new int32[data.Length * 4];
        forall k | 0 <= k < length { grown[k] := data[k]; }
        data := grown;
      }
      data[length] := val;
      length := length + 1;
    }
  }

  // ---------- emitting the lines ----------

  /** A word of the paragraph.  `escaped` holds the bits of `bEscaped`: 1 for a control
      sequence, 2 and 4 for a space on its left and right. */
  datatype Word = Word(text: string, width: nat, escaped: bv8, hyphenPoint: bool)

  datatype Piece = Text(index: int, text: string) | Dash | NewLine

  /** What one word contributes to a line that starts with word i (src/textutil.c:301-317). */
  function WordText(words: seq<Word>, i: int, idx: int): string
    requires 0 <= idx < |words|
  {
    var word := words[idx];
    if word.hyphenPoint then word.text
    else if word.escaped != 0 then
      (if word.escaped & 2 != 0 && i != idx then " " else "") + word.text
        + (if word.escaped & 4 != 0 then " " else "")
    else if idx + 1 == |words| || words[idx + 1].escaped == 0 then word.text + " "
    else word.text
  }

  ghost function LineText(words: seq<Word>, i: int, j: int): seq<Piece>
    requires 0 <= i <= |words| && j <= |words|
  {
    seq(if i < j then j - i else 0, k requires 0 <= k < j - i => Text(i + k, WordText(words, i, i + k)))
  }

  /** The end of a line whose last word is word `end - 1`. */
  ghost function LineEnd(words: seq<Word>, end: int): seq<Piece>
    requires 0 <= end <= |words|
  {
    (if end > 0 && words[end - 1].hyphenPoint then [Dash] else []) + [NewLine]
  }

  ghost predicate Tiles(path: seq<int>, count: int) {
    |path| > 0 && path[0] == 0 && path[|path| - 1] == count && Ascending(path)
  }

  ghost predicate InRange(path: seq<int>, count: int) {
    forall k :: 0 <= k < |path| ==> 0 <= path[k] <= count
  }

  lemma TilesInRange(path: seq<int>, count: int)
    requires Tiles(path, count)
    ensures InRange(path, count)
  {
  }

  /** One line per pair of neighbours among the first n entries of path. */
  ghost function Lines(words: seq<Word>, path: seq<int>, n: nat): seq<Piece>
    requires n <= |path| && InRange(path, |words|)
  {
    if n <= 1 then []
    else Lines(words, path, n - 1) + LineText(words, path[n - 2], path[n - 1]) + LineEnd(words, path[n - 1])
  }

  /** The lines of path, and the empty line that the pop on the emptied stack produces. */
  ghost function Emitted(words: seq<Word>, path: seq<int>): seq<Piece>
    requires Tiles(path, |words|)
  {
    TilesInRange(path, |words|);
    Lines(words, path, |path|) + LineEnd(words, |words|)
  }

  /** The indices of the words in a piece list, in order. */
  ghost function Indices(out: seq<Piece>): seq<int> {
    if out == [] then []
    else Indices(out[..|out| - 1]) + (if out[|out| - 1].Text? then [out[|out| - 1].index] else [])
  }

  lemma {:induction false} IndicesConcat(a: seq<Piece>, b: seq<Piece>)
    ensures Indices(a + b) == Indices(a) + Indices(b)
    decreases |b|
  {
    if b == [] {
      assert a + b == a;
    } else {
      IndicesConcat(a, b[..|b| - 1]);
      assert (a + b)[..|a + b| - 1] == a + b[..|b| - 1];
    }
  }

  ghost function UpTo(n: nat): seq<int> {
    seq(n, k => k)
  }

  lemma {:induction false} LineTextIndices(words: seq<Word>, i: int, j: int)
    requires 0 <= i <= j <= |words|
    ensures UpTo(i) + Indices(LineText(words, i, j)) == UpTo(j)
    decreases j - i
  {
    if i < j {
      LineTextIndices(words, i, j - 1);
      var t := LineText(words, i, j);
      assert t[..|t| - 1] == LineText(words, i, j - 1);
      assert t[|t| - 1] == Text(j - 1, WordText(words, i, j - 1));
      assert UpTo(j) == UpTo(j - 1) + [j - 1];
    }
  }

  lemma LineEndHasNoWords(words: seq<Word>, end: int)
    requires 0 <= end <= |words|
    ensures Indices(LineEnd(words, end)) == []
  {
    var e := LineEnd(words, end);
    assert Indices(e[..|e| - 1]) == [] by {
      if |e| == 2 { assert e[..1][..0] == []; assert Indices(e[..1][..0]) == []; }
    }
  }

  /** Conservation: a layout emits each word before its end exactly once and in order. */
  lemma {:induction false} LinesKeepWords(words: seq<Word>, path: seq<int>, n: nat)
    requires Tiles(path, |words|) && InRange(path, |words|) && 0 < n <= |path|
    ensures Indices(Lines(words, path, n)) == UpTo(path[n - 1])
    decreases n
  {
    if n > 1 {
      var i, j := path[n - 2], path[n - 1];
      LinesKeepWords(words, path, n - 1);
      LineTextIndices(words, i, j);
      IndicesConcat(Lines(words, path, n - 1) + LineText(words, i, j), LineEnd(words, j));
      IndicesConcat(Lines(words, path, n - 1), LineText(words, i, j));
      LineEndHasNoWords(words, j);
    }
  }

  lemma EmittedKeepsWords(words: seq<Word>, path: seq<int>)
    requires Tiles(path, |words|)
    ensures Indices(Emitted(words, path)) == UpTo(|words|)
  {
    TilesInRange(path, |words|);
    LinesKeepWords(words, path, |path|);
    LineEndHasNoWords(words, |words|);
    IndicesConcat(Lines(words, path, |path|), LineEnd(words, |words|));
  }

  /** Emits words i..j and ends the line (src/textutil.c:297-323). */
  method EmitLine(words: seq<Word>, i: int, j: int, output: seq<Piece>) returns (out: seq<Piece>)
    requires 0 <= i <= |words| && 0 <= j <= |words|
    ensures out == output + LineText(words, i, j) + LineEnd(words, if i < j then j else i)
  {
    out := output;
    var idx := i;
    while idx < j
      invariant i <= idx && (i < j ==> idx <= j) && (j <= i ==> idx == i)
      invariant out == output + LineText(words, i, if i < j then idx else j)
    {
      out := out + [Text(idx, WordText(words, i, idx))];
      idx := idx + 1;
    }
    if 0 <= idx - 1 && words[idx - 1].hyphenPoint {
      out := out + [Dash];
    }
    out := out + [NewLine];
  }

  /** stack holds path[from..], last element at the bottom. */
  ghost predicate Stacked(stack: seq<int32>, path: seq<int>, from: int) {
    && 0 <= from && |stack| + from == |path|
    && forall k :: from <= k < |path| ==> path[k] == stack[|path| - 1 - k] as int
  }

  /** Pushes the walk from the last word back to 0 (src/textutil.c:276-286). */
  method PushBreaks(breaks: seq<int32>, revbreak: IntStack)
    requires 0 < |breaks| <= INT_MAX && Backward(breaks)
    requires revbreak.Valid() && revbreak.Contents() == []
    modifies revbreak, revbreak.data
    ensures revbreak.Valid() && (revbreak.data == old(revbreak.data) || fresh(revbreak.data))
    ensures Stacked(revbreak.Contents(), BreakPath(breaks, |breaks| - 1), 0)
  {
    ghost var path := BreakPath(breaks, |breaks| - 1);
    PathSteps(breaks, |breaks| - 1);
    var j := (|breaks| - 1) as int32;
    revbreak.Push(j);
    while j > 0
      invariant revbreak.Valid() && (revbreak.data == old(revbreak.data) || fresh(revbreak.data))
      invariant 0 < revbreak.length <= |path| && 0 <= j as int < |breaks|
      invariant j as int == path[|path| - revbreak.length]
      invariant Stacked(revbreak.Contents(), path, |path| - revbreak.length)
      decreases j
    {
      var i := breaks[j];
      assert path[|path| - revbreak.length - 1] == breaks[path[|path| - revbreak.length]] as int;
      revbreak.Push(i);
      if j == i {
        break;
      }
      j := i;
    }
    assert |path| - revbreak.length == 0;
  }

  lemma PoppedBreak(stack: seq<int32>, rest: seq<int32>, j: int32, path: seq<int>, t: nat)
    requires Stacked(stack, path, t + 1) && stack != [] && rest + [j] == stack
    ensures Stacked(rest, path, t + 2) && j as int == path[t + 1]
  {
    assert stack[|stack| - 1] == j;
    assert forall k :: 0 <= k < |rest| ==> rest[k] == stack[k];
  }

  lemma NextIsPositive(path: seq<int>, count: int, t: nat)
    requires Tiles(path, count) && t + 1 < |path|
    ensures 0 < path[t + 1]
  {
    assert path[0] < path[t + 1];
  }

  /** One round: pops the end j of the line that starts at i and emits it (src/textutil.c:294-323). */
  method PopLine(words: seq<Word>, revbreak: IntStack, i: int32, output: seq<Piece>, ghost path: seq<int>, ghost t: nat)
      returns (j: int32, out: seq<Piece>)
    requires Tiles(path, |words|) && t < |path| && i as int == path[t]
    requires revbreak.Valid() && Stacked(revbreak.Contents(), path, t + 1)
    requires revbreak.length < revbreak.data.Length && revbreak.data[revbreak.length] == 0
    requires InRange(path, |words|) && output == Lines(words, path, t + 1)
    modifies revbreak, revbreak.data
    ensures revbreak.Valid() && revbreak.data == old(revbreak.data)
    ensures revbreak.length < revbreak.data.Length && revbreak.data[revbreak.length] == 0
    ensures t + 1 < |path| ==>
      && 0 < j as int == path[t + 1] && Stacked(revbreak.Contents(), path, t + 2)
      && out == Lines(words, path, t + 2)
    ensures t + 1 == |path| ==> j == 0 && out == output + LineEnd(words, |words|)
  {
    ghost var stack := revbreak.Contents();
    j := revbreak.Pop();
    if t + 1 < |path| {
      PoppedBreak(stack, revbreak.Contents(), j, path, t);
      NextIsPositive(path, |words|, t);
    }
    out := EmitLine(words, i as int, j as int, output);
  }

  /** Emits a line per popped break.  The loop ends because the pop on the emptied stack
      returns the slot that the pop of the last word cleared (src/textutil.c:293-327). */
  method PopLines(words: seq<Word>, revbreak: IntStack, first: int32, ghost path: seq<int>)
      returns (output: seq<Piece>)
    requires Tiles(path, |words|) && first == 0
    requires revbreak.Valid() && Stacked(revbreak.Contents(), path, 1)
    requires revbreak.length < revbreak.data.Length && revbreak.data[revbreak.length] == 0
    modifies revbreak, revbreak.data
    ensures output == Emitted(words, path)
  {
    TilesInRange(path, |words|);
    var i, j: int32 := first, 0;
    output := [];
    ghost var t := 0;
    while true
      invariant revbreak.Valid() && revbreak.data == old(revbreak.data)
      invariant revbreak.length < revbreak.data.Length && revbreak.data[revbreak.length] == 0
      invariant 0 <= t < |path| && i as int == path[t]
      invariant Stacked(revbreak.Contents(), path, t + 1)
      invariant output == Lines(words, path, t + 1)
      decreases |path| - t
    {
      j, output := PopLine(words, revbreak, i, output, path, t);
      i := j;
      if j == 0 {
        break;
      }
      t := t + 1;
    }
  }

  /** src/textutil.c:269-332. */
  method PerformReflow(words: seq<Word>, breaks: seq<int32>) returns (output: seq<Piece>)
    requires |breaks| == |words| + 1 <= INT_MAX && Backward(breaks)
    ensures Tiles(BreakPath(breaks, |words|), |words|)
    ensures output == Emitted(words, BreakPath(breaks, |words|))
  {
    ghost var path := BreakPath(breaks, |words|);
    PathSteps(breaks, |words|);
    var revbreak := new IntStack(|words|);
    PushBreaks(breaks, revbreak);
    ghost var pushed := revbreak.Contents();
    var i := revbreak.Pop();
    assert pushed == revbreak.Contents() + [i];
    output := PopLines(words, revbreak, i, path);
  }

  // ---------- the characters of the output ----------

  ghost function PieceChars(piece: Piece): string {
    match piece
    case Text(_, text) => text
    case Dash => "-"
    case NewLine => "\n"
  }

  ghost function Chars(out: seq<Piece>): string {
    if out == [] then "" else Chars(out[..|out| - 1]) + PieceChars(out[|out| - 1])
  }

  lemma Assoc<T>(a: seq<T>, b: seq<T>, c: seq<T>)
    ensures (a + b) + c == a + (b + c)
  {
  }

  lemma CharsAppend(out: seq<Piece>, piece: Piece)
    ensures Chars(out + [piece]) == Chars(out) + PieceChars(piece)
  {
    assert (out + [piece])[..|out + [piece]| - 1] == out;
  }

  lemma {:induction false} CharsConcat(a: seq<Piece>, b: seq<Piece>)
    ensures Chars(a + b) == Chars(a) + Chars(b)
    decreases |b|
  {
    if b == [] {
      assert a + b == a;
    } else {
      var front, last := b[..|b| - 1], b[|b| - 1];
      assert b == front + [last];
      Assoc(a, front, [last]);
      CharsConcat(a, front);
      CharsAppend(a + front, last);
      CharsAppend(front, last);
      Assoc(Chars(a), Chars(front), PieceChars(last));
    }
  }

  ghost function Pad(space: bool): string { if space then " " else "" }

  /** A control sequence asks for a space on its left with bit 2, away from the start of a line. */
  ghost predicate SpaceBefore(word: Word) {
    !word.hyphenPoint && word.escaped != 0 && word.escaped & 2 != 0
  }

  /** And for one on its right with bit 4.  Any other word has one, unless it is to be joined with
      the next one by a hyphen, or a control sequence follows, which brings its own. */
  ghost predicate SpaceBehind(words: seq<Word>, k: int)
    requires 0 <= k < |words|
  {
    && !words[k].hyphenPoint
    && if words[k].escaped != 0 then words[k].escaped & 4 != 0 else k + 1 == |words| || words[k + 1].escaped == 0
  }

  /** Words i..j of one line, with the spaces between neighbours. */
  ghost function Joined(words: seq<Word>, i: int, j: int): string
    requires 0 <= i < j <= |words|
    decreases j
  {
    if j == i + 1 then words[i].text
    else Joined(words, i, j - 1) + Pad(SpaceBehind(words, j - 2)) + Pad(SpaceBefore(words[j - 1])) + words[j - 1].text
  }

  lemma WordSpaces(words: seq<Word>, i: int, k: int)
    requires 0 <= k < |words|
    ensures WordText(words, i, k) ==
      Pad(i != k && SpaceBefore(words[k])) + words[k].text + Pad(SpaceBehind(words, k))
  {
  }

  lemma LineTextNext(words: seq<Word>, i: int, j: int)
    requires 0 <= i < j <= |words|
    ensures LineText(words, i, j) == LineText(words, i, j - 1) + [Text(j - 1, WordText(words, i, j - 1))]
  {
  }

  lemma JoinedNext(words: seq<Word>, i: int, j: int)
    requires 0 <= i < j - 1 < |words|
    ensures Joined(words, i, j) ==
      Joined(words, i, j - 1) + Pad(SpaceBehind(words, j - 2)) + Pad(SpaceBefore(words[j - 1])) + words[j - 1].text
  {
    hide Pad, SpaceBehind, SpaceBefore;
  }

  lemma Regroup(a: string, b: string, c: string, d: string, e: string)
    ensures (a + b) + (c + d + e) == (a + b + c + d) + e
  {
  }

  lemma NoText(words: seq<Word>, i: int)
    requires 0 <= i <= |words|
    ensures LineText(words, i, i) == [] && Chars(LineText(words, i, i)) == ""
  {
  }

  /** The text of a line is its words, joined, and the space behind the last one. */
  lemma {:induction false} LineIsJoined(words: seq<Word>, i: int, j: int)
    requires 0 <= i < j <= |words|
    ensures Chars(LineText(words, i, j)) == Joined(words, i, j) + Pad(SpaceBehind(words, j - 1))
    decreases j
  {
    hide WordText, SpaceBefore, SpaceBehind, LineText, Chars;
    LineTextNext(words, i, j);
    CharsAppend(LineText(words, i, j - 1), Text(j - 1, WordText(words, i, j - 1)));
    WordSpaces(words, i, j - 1);
    if j == i + 1 {
      NoText(words, i);
    } else {
      hide Joined, Pad;
      LineIsJoined(words, i, j - 1);
      JoinedNext(words, i, j);
      Regroup(Joined(words, i, j - 1), Pad(SpaceBehind(words, j - 2)), Pad(SpaceBefore(words[j - 1])),
              words[j - 1].text, Pad(SpaceBehind(words, j - 1)));
    }
  }

  /** What follows the words of a line that ends before word `end`. */
  ghost function LineTail(words: seq<Word>, end: int): string
    requires 0 < end <= |words|
  {
    Pad(SpaceBehind(words, end - 1)) + (if words[end - 1].hyphenPoint then "-" else "") + "\n"
  }

  /** The lines between the first n entries of path. */
  ghost function Written(words: seq<Word>, path: seq<int>, n: nat): string
    requires Tiles(path, |words|) && n <= |path|
  {
    if n <= 1 then ""
    else
      var i, j := path[n - 2], path[n - 1];
      Written(words, path, n - 1) + Joined(words, i, j) + LineTail(words, j)
  }

  lemma LineEndChars(words: seq<Word>, end: int)
    requires 0 <= end <= |words|
    ensures Chars(LineEnd(words, end)) == (if end > 0 && words[end - 1].hyphenPoint then "-" else "") + "\n"
  {
    CharsAppend([], NewLine);
    if end > 0 && words[end - 1].hyphenPoint {
      CharsAppend([], Dash);
      CharsAppend([Dash], NewLine);
      assert [] + [Dash] == [Dash] && [Dash] + [NewLine] == LineEnd(words, end);
    } else {
      assert [] + [NewLine] == LineEnd(words, end);
    }
  }

  lemma LineChars(words: seq<Word>, i: int, j: int)
    requires 0 <= i < j <= |words|
    ensures Chars(LineText(words, i, j) + LineEnd(words, j)) == Joined(words, i, j) + LineTail(words, j)
  {
    hide Chars, LineText, LineEnd, Joined, SpaceBehind;
    CharsConcat(LineText(words, i, j), LineEnd(words, j));
    LineIsJoined(words, i, j);
    LineEndChars(words, j);
  }

  lemma {:induction false} LinesAreWritten(words: seq<Word>, path: seq<int>, n: nat)
    requires Tiles(path, |words|) && InRange(path, |words|) && n <= |path|
    ensures Chars(Lines(words, path, n)) == Written(words, path, n)
    decreases n
  {
    if n > 1 {
      hide Chars, LineText, LineEnd, Joined, LineTail;
      var i, j := path[n - 2], path[n - 1];
      LinesAreWritten(words, path, n - 1);
      LineChars(words, i, j);
      CharsConcat(Lines(words, path, n - 1), LineText(words, i, j) + LineEnd(words, j));
      Assoc(Lines(words, path, n - 1), LineText(words, i, j), LineEnd(words, j));
      Assoc(Written(words, path, n - 1), Joined(words, i, j), LineTail(words, j));
    }
  }

  /** The characters of the output, in the terms of the words. */
  lemma EmittedIsWritten(words: seq<Word>, path: seq<int>)
    requires Tiles(path, |words|)
    ensures Chars(Emitted(words, path)) ==
      Written(words, path, |path|) + (if words != [] && words[|words| - 1].hyphenPoint then "-" else "") + "\n"
  {
    hide Chars, LineEnd, Lines, Written;
    TilesInRange(path, |words|);
    LinesAreWritten(words, path, |path|);
    LineEndChars(words, |words|);
    CharsConcat(Lines(words, path, |path|), LineEnd(words, |words|));
  }

  // ---------- no character is lost ----------

  ghost function Stripped(s: string): string {
    if s == "" then ""
    else Stripped(s[..|s| - 1]) + (if s[|s| - 1] == ' ' || s[|s| - 1] == '\n' then "" else [s[|s| - 1]])
  }

  lemma {:induction false} StrippedConcat(a: string, b: string)
    ensures Stripped(a + b) == Stripped(a) + Stripped(b)
    decreases |b|
  {
    if b == "" {
      assert a + b == a;
    } else {
      StrippedConcat(a, b[..|b| - 1]);
      assert (a + b)[..|a + b| - 1] == a + b[..|b| - 1];
    }
  }

  lemma StrippedPad(space: bool)
    ensures Stripped(Pad(space)) == "" && Stripped("\n") == ""
  {
    assert " "[..0] == "" && "\n"[..0] == "";
  }

  ghost function AllText(words: seq<Word>, n: nat): string
    requires n <= |words|
  {
    if n == 0 then "" else AllText(words, n - 1) + words[n - 1].text
  }

  lemma {:induction false} JoinedKeepsText(words: seq<Word>, i: int, j: int)
    requires 0 <= i < j <= |words|
    ensures Stripped(AllText(words, i)) + Stripped(Joined(words, i, j)) == Stripped(AllText(words, j))
    decreases j
  {
    hide Stripped, Pad, SpaceBehind, SpaceBefore;
    StrippedConcat(AllText(words, j - 1), words[j - 1].text);
    if j > i + 1 {
      var before, behind := Pad(SpaceBefore(words[j - 1])), Pad(SpaceBehind(words, j - 2));
      JoinedKeepsText(words, i, j - 1);
      StrippedConcat(Joined(words, i, j - 1) + behind + before, words[j - 1].text);
      StrippedConcat(Joined(words, i, j - 1) + behind, before);
      StrippedConcat(Joined(words, i, j - 1), behind);
      StrippedPad(SpaceBehind(words, j - 2));
      StrippedPad(SpaceBefore(words[j - 1]));
    }
  }

  lemma TailKeepsText(words: seq<Word>, end: int)
    requires 0 < end <= |words| && !words[end - 1].hyphenPoint
    ensures Stripped(LineTail(words, end)) == ""
  {
    hide Stripped, Pad, SpaceBehind;
    StrippedPad(SpaceBehind(words, end - 1));
    assert LineTail(words, end) == Pad(SpaceBehind(words, end - 1)) + "\n";
    StrippedConcat(Pad(SpaceBehind(words, end - 1)), "\n");
  }

  lemma {:induction false} WrittenKeepsText(words: seq<Word>, path: seq<int>, n: nat)
    requires Tiles(path, |words|) && InRange(path, |words|) && 0 < n <= |path|
    requires forall k :: 0 <= k < |words| ==> !words[k].hyphenPoint
    ensures Stripped(Written(words, path, n)) == Stripped(AllText(words, path[n - 1]))
    decreases n
  {
    if n > 1 {
      hide Stripped, AllText, Joined, LineTail;
      var i, j := path[n - 2], path[n - 1];
      WrittenKeepsText(words, path, n - 1);
      StrippedConcat(Written(words, path, n - 1) + Joined(words, i, j), LineTail(words, j));
      StrippedConcat(Written(words, path, n - 1), Joined(words, i, j));
      JoinedKeepsText(words, i, j);
      TailKeepsText(words, j);
    }
  }

  /** Without hyphen points the output, less its spaces and newlines, is the text of the words, less
      theirs: breaking lines neither loses nor adds a character. */
  lemma NoCharacterIsLost(words: seq<Word>, path: seq<int>)
    requires Tiles(path, |words|) && forall k :: 0 <= k < |words| ==> !words[k].hyphenPoint
    ensures Stripped(Chars(Emitted(words, path))) == Stripped(AllText(words, |words|))
  {
    hide Stripped, Chars, Emitted, Written, AllText;
    TilesInRange(path, |words|);
    EmittedIsWritten(words, path);
    WrittenKeepsText(words, path, |path|);
    StrippedConcat(Written(words, path, |path|), "\n");
    StrippedPad(true);
    assert Written(words, path, |path|) + "" == Written(words, path, |path|);
  }
}
