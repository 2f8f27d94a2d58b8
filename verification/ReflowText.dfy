/** The paragraph reflow of src/textutil.c from the word list to the text: what the widths and costs of
    the double loop mean for the lines emitted, and ReflowParagraph as a whole. */
module ReflowText {
  import opened Reflow
  import opened ReflowLoop
  import opened ReflowOutput

  // ---------- plain words ----------

  ghost function TotalWidth(words: seq<Word>, n: nat): int
    requires n <= |words|
  {
    if n == 0 then 0
    else TotalWidth(words, n - 1) + (if words[n - 1].escaped != 0 then 0 else words[n - 1].width)
  }

  /** p is the input of the dynamic program for these words. */
  ghost predicate Describes(p: Paragraph, words: seq<Word>, width: int32) {
    && p.width == width
    && |p.offsets| == |p.hyphenPoint| == |words| + 1
    && (forall k :: 0 <= k <= |words| ==> p.offsets[k] as int == TotalWidth(words, k))
    && (forall k :: 0 <= k < |words| ==> p.hyphenPoint[k] == words[k].hyphenPoint)
    && !p.hyphenPoint[|words|]
  }

  ghost function JoinTexts(texts: seq<string>): string {
    if texts == [] then ""
    else if |texts| == 1 then texts[0]
    else JoinTexts(texts[..|texts| - 1]) + " " + texts[|texts| - 1]
  }

  ghost function Texts(words: seq<Word>, i: int, j: int): seq<string>
    requires 0 <= i <= j <= |words|
  {
    seq(j - i, k requires 0 <= k < j - i => words[i + k].text)
  }

  /** Words i..j are neither control sequences nor parts of hyphenated words. */
  ghost predicate ArePlain(words: seq<Word>, i: int, j: int)
    requires 0 <= i <= j <= |words|
  {
    forall k :: i <= k < j ==> words[k].escaped == 0 && !words[k].hyphenPoint
  }

  /** And each of their characters takes one column. */
  ghost predicate AreOneColumn(words: seq<Word>, i: int, j: int)
    requires 0 <= i <= j <= |words|
  {
    forall k :: i <= k < j ==> |words[k].text| == words[k].width
  }

  lemma TextsNext(words: seq<Word>, i: int, j: int)
    requires 0 <= i < j - 1 < |words|
    ensures var t := Texts(words, i, j);
      |t| > 1 && t[..|t| - 1] == Texts(words, i, j - 1) && t[|t| - 1] == words[j - 1].text
  {
  }

  lemma {:induction false} PlainIsJoined(words: seq<Word>, i: int, j: int)
    requires 0 <= i < j <= |words| && ArePlain(words, i, j)
    ensures Joined(words, i, j) == JoinTexts(Texts(words, i, j))
    decreases j
  {
    if j > i + 1 {
      hide Texts;
      PlainIsJoined(words, i, j - 1);
      TextsNext(words, i, j);
      assert Pad(SpaceBehind(words, j - 2)) + Pad(SpaceBefore(words[j - 1])) == " ";
    }
  }

  /** Plain words of a line are joined by single spaces, with one more behind the last word unless a
      control sequence follows. */
  lemma PlainLineText(words: seq<Word>, i: int, j: int)
    requires 0 <= i < j <= |words| && ArePlain(words, i, j)
    ensures Chars(LineText(words, i, j)) ==
      JoinTexts(Texts(words, i, j)) + (if j == |words| || words[j].escaped == 0 then " " else "")
  {
    hide Chars, LineText, Texts, JoinTexts, Joined;
    LineIsJoined(words, i, j);
    PlainIsJoined(words, i, j);
  }

  lemma {:induction false} PlainWidth(words: seq<Word>, i: int, j: int)
    requires 0 <= i < j <= |words| && ArePlain(words, i, j) && AreOneColumn(words, i, j)
    ensures |JoinTexts(Texts(words, i, j))| == TotalWidth(words, j) - TotalWidth(words, i) + j - i - 1
    decreases j
  {
    if j > i + 1 {
      hide Texts;
      PlainWidth(words, i, j - 1);
      TextsNext(words, i, j);
    }
  }

  /** The width the double loop goes by is that of the text: for characters of one column a line of
      plain words is one longer, by the space behind it. */
  lemma LineWidthIsTextWidth(words: seq<Word>, width: int32, p: Paragraph, i: int, j: int)
    requires Describes(p, words, width) && p.Shaped() && 0 <= i < j <= |words|
    requires ArePlain(words, i, j) && AreOneColumn(words, i, j) && (j == |words| || words[j].escaped == 0)
    ensures |JoinTexts(Texts(words, i, j))| == p.LineWidth(i, j)
    ensures |Chars(LineText(words, i, j))| == p.LineWidth(i, j) + 1
  {
    PlainLineText(words, i, j);
    PlainWidth(words, i, j);
  }

  /** So a line is allowed exactly if its text is no wider than the line; the last one is judged
      without its last word. */
  lemma FitsMeansTextFits(words: seq<Word>, width: int32, p: Paragraph, i: int, j: int)
    requires Describes(p, words, width) && p.Shaped() && 0 <= i < j <= |words|
    requires ArePlain(words, i, j) && AreOneColumn(words, i, j)
    ensures var end := if j < |words| then j else j - 1;
      p.Fits(i, j) <==> i == end || |JoinTexts(Texts(words, i, end))| <= width as int
  {
    hide Texts, JoinTexts;
    var end := if j < |words| then j else j - 1;
    if i < end { PlainWidth(words, i, end); }
  }

  ghost predicate IsLine(b: seq<int>, k: int, count: int) {
    0 < k < |b| && 0 <= b[k - 1] < b[k] <= count
  }

  /** The starts of lines, and the word behind the last one. */
  ghost predicate AreEnds(b: seq<int>, count: int) {
    forall k :: 0 < k < |b| ==> IsLine(b, k, count)
  }

  /** What a layout is judged by: the squares of the columns its lines leave free, but for the last
      line of the paragraph. */
  ghost function Raggedness(words: seq<Word>, width: int, b: seq<int>, n: nat): int
    requires AreEnds(b, |words|) && n <= |b|
  {
    if n <= 1 then 0
    else
      assert IsLine(b, n - 1, |words|);
      Raggedness(words, width, b, n - 1)
        + (if b[n - 1] == |words| then 0 else Square(width - |JoinTexts(Texts(words, b[n - 2], b[n - 1]))|))
  }

  lemma PrefixIsLayout(p: Paragraph, b: seq<int>, n: nat)
    requires p.Shaped() && p.IsLayout(b) && 0 < n <= |b|
    ensures p.IsLayout(b[..n])
  {
    var s := b[..n];
    forall k | 0 < k < |s|
      ensures p.Fits(s[k - 1], s[k])
    {
      assert p.Fits(b[k - 1], b[k]);
    }
  }

  lemma CostNext(p: Paragraph, b: seq<int>, n: nat)
    requires p.Shaped() && p.IsLayout(b) && 1 < n <= |b|
    ensures p.IsLayout(b[..n]) && p.IsLayout(b[..n - 1]) && p.Fits(b[n - 2], b[n - 1])
    ensures p.Cost(b[..n]) == p.Cost(b[..n - 1]) + p.LineCost(b[n - 2], b[n - 1])
  {
    hide Paragraph.LineCost;
    PrefixIsLayout(p, b, n);
    PrefixIsLayout(p, b, n - 1);
    assert b[..n][..n - 1] == b[..n - 1];
    assert p.Fits(b[n - 2], b[n - 1]);
  }

  lemma LayoutAscends(p: Paragraph, b: seq<int>)
    requires p.Shaped() && p.IsLayout(b)
    ensures AreEnds(b, p.Count())
  {
    forall k | 0 < k < |b| ensures IsLine(b, k, p.Count()) { assert p.Fits(b[k - 1], b[k]); }
  }

  lemma LineCostIsSlack(words: seq<Word>, width: int32, p: Paragraph, i: int, j: int)
    requires Describes(p, words, width) && p.Shaped() && 0 <= i < j <= |words|
    requires ArePlain(words, i, j) && AreOneColumn(words, i, j)
    ensures p.LineCost(i, j) == if j == |words| then 0 else Square(width as int - |JoinTexts(Texts(words, i, j))|)
  {
    hide Texts, JoinTexts, Square;
    PlainWidth(words, i, j);
  }

  /** The cost the double loop minimizes is that of the text. */
  lemma {:induction false} CostIsRaggedness(words: seq<Word>, width: int32, p: Paragraph, b: seq<int>, n: nat)
    requires Describes(p, words, width) && p.Shaped() && p.IsLayout(b) && AreEnds(b, |words|) && 0 < n <= |b|
    requires ArePlain(words, 0, |words|) && AreOneColumn(words, 0, |words|)
    ensures p.IsLayout(b[..n]) && p.Cost(b[..n]) == Raggedness(words, width as int, b, n)
    decreases n
  {
    PrefixIsLayout(p, b, n);
    if n > 1 {
      hide Texts, JoinTexts, Square, Paragraph.LineCost, Paragraph.Cost, Paragraph.IsLayout;
      CostIsRaggedness(words, width, p, b, n - 1);
      CostNext(p, b, n);
      LineCostIsSlack(words, width, p, b[n - 2], b[n - 1]);
    }
  }

  /** For plain words of one-column characters the layout of the least cost is one of the least
      raggedness of its text. */
  lemma CostIsThatOfTheText(words: seq<Word>, width: int32, p: Paragraph, b: seq<int>)
    requires Describes(p, words, width) && p.Shaped() && p.IsLayout(b)
    requires ArePlain(words, 0, |words|) && AreOneColumn(words, 0, |words|)
    ensures AreEnds(b, |words|) && p.Cost(b) == Raggedness(words, width as int, b, |b|)
  {
    hide Texts, JoinTexts, Square;
    LayoutAscends(p, b);
    CostIsRaggedness(words, width, p, b, |b|);
    assert b[..|b|] == b;
  }

  // ---------- which lines the wait is for ----------

  /** What the tokenizer makes (src/textutil.c:219-226): the first part of a split word is a hyphen
      point, the second is not. */
  ghost predicate AreSplit(words: seq<Word>) {
    forall k :: 0 <= k && k + 1 < |words| && words[k].hyphenPoint ==> !words[k + 1].hyphenPoint
  }

  /** The double loop looks at the word behind the line, the output puts the hyphen behind the last
      word on it: so a line that ends on a hyphen never has to wait, it is stored at once. */
  lemma HyphenLinesNeverWait(words: seq<Word>, width: int32, p: Paragraph, t: Try, wait: int32)
    requires Describes(p, words, width) && AreSplit(words) && p.Shaped() && IsTry(p, t) && MayStore(width, t, wait)
    ensures LineEnd(words, t.to) == [Dash, NewLine] ==> t.stored
  {
    if LineEnd(words, t.to) == [Dash, NewLine] {
      assert words[t.to - 1].hyphenPoint;
    }
  }

  /** Two words split in halves of five columns, in lines of twelve: both lines end on a hyphen and
      both are stored, though nothing was stored between them. */
  lemma TwoHyphensInARow() returns (words: seq<Word>, p: Paragraph, tries: seq<Try>)
    ensures AreSplit(words) && Describes(p, words, 12) && p.Valid() && p.Fits(0, 1) && p.Fits(1, 3)
    ensures |tries| == 2 && RightTries(p, tries) && tries[0].stored && tries[1].stored
    ensures tries[0].from == 0 && tries[0].to == 1 && tries[1].from == 1 && tries[1].to == 3
    ensures LineEnd(words, 1) == LineEnd(words, 3) == [Dash, NewLine]
  {
    var first, second := Word("split", 5, 0, true), Word("words", 5, 0, false);
    words := [first, second, first, second];
    p := Paragraph([0, 5, 10, 15, 20], [true, false, true, false, false], 12);
    tries := [Try(0, 1, 49, false, true), Try(1, 3, 50, false, true)];
    assert TotalWidth(words, 1) == 5;
    assert TotalWidth(words, 2) == 10;
    assert TotalWidth(words, 3) == 15;
    assert TotalWidth(words, 4) == 20;
  }

  // ---------- the slot behind the last word ----------

  /** Capacity of the word array after n pushes: eightfold whenever it is full (src/textutil.c:60-82,
      356). */
  function WordCapacity(n: nat): nat {
    if n == 0 then 64
    else
      var c := WordCapacity(n - 1);
      if n - 1 < c then c else if c * 8 > c + (n - 1) then c * 8 else c + (n - 1)
  }

  function Pow8(k: nat): (r: nat)
    ensures 0 < r
  {
    if k == 0 then 1 else 8 * Pow8(k - 1)
  }

  /** It is 64 times a power of eight, the least that holds the words. */
  lemma {:induction false} WordCapacityIs(n: nat) returns (k: nat)
    ensures WordCapacity(n) == 64 * Pow8(k) && n <= 64 * Pow8(k) && (k > 0 ==> 64 * Pow8(k - 1) < n)
    decreases n
  {
    k := 0;
    if n > 0 {
      k := WordCapacityIs(n - 1);
      if n - 1 == 64 * Pow8(k) { k := k + 1; }
    }
  }

  lemma {:induction false} Pow8Grows(j: nat, k: nat)
    requires j <= k
    ensures Pow8(j) <= Pow8(k)
    decreases k
  {
    if j < k { Pow8Grows(j, k - 1); }
  }

  lemma FullAt64()
    ensures WordCapacity(64) == 64
  {
    var k := WordCapacityIs(64);
    assert k == 0;
  }

  lemma NotBetweenPowers(n: nat, j: nat, k: nat)
    requires n < 64 * Pow8(k) && (k > 0 ==> 64 * Pow8(k - 1) < n)
    ensures n != 64 * Pow8(j)
  {
    if j < k { Pow8Grows(j, k - 1); } else { Pow8Grows(k, j); }
  }

  /** The slot behind the last of n words (src/textutil.c:399) lies in the array, where it is zero,
      exactly if n is not 64 times a power of eight. */
  lemma SlotBehindLastWord(n: nat)
    ensures n < WordCapacity(n) <==> forall k :: n != 64 * Pow8(k)
    ensures WordCapacity(64) == 64
  {
    FullAt64();
    var k := WordCapacityIs(n);
    if n < 64 * Pow8(k) {
      forall j: nat ensures n != 64 * Pow8(j) { NotBetweenPowers(n, j, k); }
    }
  }

  // ---------- the whole paragraph ----------

  ghost predicate FitsInt(words: seq<Word>) {
    |words| < INT_MAX && TotalWidth(words, |words|) + |words| <= INT_MAX
  }

  lemma {:induction false} TotalWidthMonotone(words: seq<Word>, i: nat, j: nat)
    requires i <= j <= |words|
    ensures 0 <= TotalWidth(words, i) <= TotalWidth(words, j)
    decreases j
  {
    if j > 0 {
      TotalWidthMonotone(words, if i < j then i else j - 1, j - 1);
    }
  }

  lemma OffsetsDescribe(words: seq<Word>, width: int32, p: Paragraph)
    requires FitsInt(words) && 0 <= width && Describes(p, words, width)
    ensures p.Valid()
  {
    forall i, j | 0 <= i <= j <= |words|
      ensures p.offsets[i] <= p.offsets[j]
    {
      TotalWidthMonotone(words, i, j);
    }
  }

  /** acc holds the total widths of the first 0, 1, ..., n words. */
  ghost predicate Measured(words: seq<Word>, acc: seq<int32>, n: nat) {
    n <= |words| && |acc| == n + 1 && forall k :: 0 <= k <= n ==> acc[k] as int == TotalWidth(words, k)
  }

  /** src/textutil.c:381-382, without int overflow. */
  method AddWidth(words: seq<Word>, idx: nat, top: int32) returns (next: int32)
    requires FitsInt(words) && idx < |words| && top as int == TotalWidth(words, idx)
    ensures next as int == TotalWidth(words, idx + 1)
  {
    TotalWidthMonotone(words, 0, idx);
    TotalWidthMonotone(words, idx + 1, |words|);
    next := if words[idx].escaped != 0 then top else top + words[idx].width as int32;
  }

  /** The word offsets, accumulated on a stack (src/textutil.c:372-383). */
  method MeasureWords(words: seq<Word>) returns (offsets: seq<int32>)
    requires FitsInt(words)
    ensures |offsets| == |words| + 1
    ensures forall k :: 0 <= k <= |words| ==> offsets[k] as int == TotalWidth(words, k)
  {
    var stack := new IntStack(|words| + 1);
    stack.Push(0);
    ghost var acc: seq<int32> := [0];
    var idx := 0;
    while idx < |words|
      invariant 0 <= idx <= |words|
      invariant stack.Valid() && fresh(stack) && fresh(stack.data)
      invariant stack.Contents() == acc && Measured(words, acc, idx)
    {
      var top := stack.Peek();
      var next := AddWidth(words, idx, top);
      stack.Push(next);
      acc := acc + [next];
      idx := idx + 1;
    }
    offsets := stack.data[..stack.length];
  }

  /** ReflowParagraph after tokenizing (src/textutil.c:369-446).  Every word comes out once and
      in order.  `best` is minima[count]: without hyphen points it is the capped optimum over
      all layouts, and whenever it is below the sentinel, with or without hyphen points, the
      lines emitted are a layout of exactly that cost. */
  method ReflowParagraph(words: seq<Word>, width: int32)
      returns (output: seq<Piece>, ghost p: Paragraph, ghost path: seq<int>, ghost best: int32)
    requires FitsInt(words) && 0 <= width
    requires forall q: Paragraph :: Describes(q, words, width) && q.Valid() ==> q.CostsFit()
    ensures Describes(p, words, width) && p.Valid()
    ensures Tiles(path, |words|) && output == Emitted(words, path)
    ensures Indices(output) == UpTo(|words|)
    ensures Chars(output) ==
      Written(words, path, |path|) + (if words != [] && words[|words| - 1].hyphenPoint then "-" else "") + "\n"
    ensures best < SENTINEL ==> p.IsLayout(path) && p.Cost(path) == best as int
    ensures p.NoHyphens() ==> p.IsCappedOptimum(|words|, best as int)
    ensures forall s :: p.IsLayout(s) && AvoidsHyphens(p, s) && s[|s| - 1] == |words| ==> best as int <= p.Cost(s)
  {
    var offsets := MeasureWords(words);
    var hyphenPoints := seq(|words|, k requires 0 <= k < |words| => words[k].hyphenPoint) + [false];
    var paragraph := Paragraph(offsets, hyphenPoints, width);
    OffsetsDescribe(words, width, paragraph);
    p := paragraph;
    var minima, breaks, tries := FillBreaks(paragraph);
    path := BreakPath(breaks[..], |words|);
    best := minima[|words|];
    output := PerformReflow(words, breaks[..]);
    EmittedKeepsWords(words, path);
    EmittedIsWritten(words, path);
    if best < SENTINEL { PathPaysMinimum(p, minima[..], breaks[..], |words|); }
    if p.NoHyphens() { MinimaAreOptimal(p, minima[..], breaks[..], |words|); }
    forall s | p.IsLayout(s) && AvoidsHyphens(p, s) && s[|s| - 1] == |words|
      ensures best as int <= p.Cost(s)
    {
      NoLayoutIsCheaper(p, minima[..], s);
    }
  }
}
