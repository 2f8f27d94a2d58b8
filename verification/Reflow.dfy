/** Paragraph reflow: the shortest-path line breaker of src/textutil.c.

    A paragraph is a list of words with their display widths.  The double loop fills
    `minima` (cheapest cost of ending a line before word j) and `breaks` (where that line
    starts), in 32-bit `int` arithmetic.  ReflowLoop models the
    loop, ReflowOutput how the lines are emitted. */
module Reflow {
  import opened Arith

  newtype int32 = x: int | -0x8000_0000 <= x < 0x8000_0000

  const INT_MAX := 0x7FFF_FFFF

  // memset(..., 0x7F, ...): the cost of a word nothing has reached yet
  const SENTINEL: int32 := 0x7F7F_7F7F

  // The widest line for which SENTINEL + width * width still is an int
  const MAX_WIDTH: int32 := 2901

  ghost function Square(x: int): (s: int)
    ensures 0 <= s
  {
    x * x
  }

  /** The input of the dynamic program.  `offsets[j]` is the total width of the first j words
      without spaces; `hyphenPoint` has one more entry than there are words, because the
      source reads the (zeroed) slot behind the last word. */
  datatype Paragraph = Paragraph(offsets: seq<int32>, hyphenPoint: seq<bool>, width: int32) {
    predicate Shaped() {
      && |offsets| > 0
      && |hyphenPoint| == |offsets|
      && |offsets| <= INT_MAX
    }

    function Count(): nat
      requires Shaped()
    {
      |offsets| - 1
    }

    ghost predicate Valid() {
      && Shaped()
      && offsets[0] == 0
      && (forall i, j :: 0 <= i <= j <= Count() ==> offsets[i] <= offsets[j])
      && offsets[Count()] as int + Count() <= INT_MAX
      && 0 <= width
    }

    /** No cost the loop forms leaves int, even on top of the sentinel, nor does `width << 1`. */
    ghost predicate CostsFit()
      requires Shaped()
    {
      && 2 * width as int <= INT_MAX
      && forall i, j :: Fits(i, j) ==> SENTINEL as int + LineCost(i, j) <= INT_MAX
    }

    ghost predicate NoHyphens() {
      forall j :: 0 <= j < |hyphenPoint| ==> !hyphenPoint[j]
    }

    /** Width of a line holding words i..j, one space between neighbours. */
    ghost function LineWidth(i: int, j: int): int
      requires Shaped() && 0 <= i <= Count() && 0 <= j <= Count()
    {
      offsets[j] as int - offsets[i] as int + j - i - 1
    }

    /** Whether words i..j may form a line.  The last line is judged without its last word. */
    ghost predicate Fits(i: int, j: int)
      requires Shaped()
    {
      && 0 <= i < j <= Count()
      && if j < Count() then LineWidth(i, j) <= width as int
         else i == Count() - 1 || LineWidth(i, Count() - 1) <= width as int
    }

    /** Squared slack of a line; the last line is free. */
    ghost function LineCost(i: int, j: int): (c: int)
      requires Shaped() && 0 <= i < j <= Count()
      ensures 0 <= c
    {
      if j < Count() then Square(width as int - LineWidth(i, j)) else 0
    }

    /** b lists the starts of the lines and ends with the word behind the last one. */
    ghost predicate IsLayout(b: seq<int>)
      requires Shaped()
    {
      && |b| > 0
      && b[0] == 0
      && forall k :: 0 < k < |b| ==> Fits(b[k - 1], b[k])
    }

    ghost function Cost(b: seq<int>): int
      requires Shaped() && IsLayout(b)
    {
      if |b| == 1 then 0
      else Cost(b[..|b| - 1]) + LineCost(b[|b| - 2], b[|b| - 1])
    }

    /** m is the cheapest total over all layouts of the first j words, capped at SENTINEL. */
    ghost predicate IsCappedOptimum(j: int, m: int)
      requires Shaped()
    {
      && m <= SENTINEL as int
      && (forall b :: IsLayout(b) && b[|b| - 1] == j ==> m <= Cost(b))
      && (m < SENTINEL as int ==> exists b :: IsLayout(b) && b[|b| - 1] == j && Cost(b) == m)
    }
  }

  lemma SquareBound(k: int, width: int)
    requires 0 <= k <= width <= MAX_WIDTH as int
    ensures 0 <= k * k <= MAX_WIDTH as int * MAX_WIDTH as int
  {
    assert k * k <= width * k <= width * width by { MulMono(k, width, k); MulMono(k, width, width); }
    MulMono(width, MAX_WIDTH as int, width);
    MulMono(width, MAX_WIDTH as int, MAX_WIDTH as int);
  }

  // ---------- what the double loop establishes ----------

  /** Every entry of `breaks` points backwards, and an entry of `minima` below the sentinel
      is paid for by the line that `breaks` names. */
  ghost predicate Linked(p: Paragraph, m: seq<int32>, b: seq<int32>, i: int)
    requires p.Shaped()
  {
    && |m| == |b| == p.Count() + 1
    && m[0] == 0 && b[0] == 0
    && (forall j :: 0 <= j <= p.Count() ==> 0 <= m[j] <= SENTINEL)
    && (forall j :: 0 < j <= p.Count() ==> 0 <= b[j] as int < j)
    && (forall j {:trigger b[j]} :: 0 < j <= p.Count() && m[j] < SENTINEL ==>
          && b[j] as int <= i
          && p.Fits(b[j] as int, j)
          && m[j] as int == m[b[j]] as int + p.LineCost(b[j] as int, j))
  }

  /** No line that starts before i, or starts at i and ends before jn, improves an entry, unless a
      hyphen point follows it. */
  ghost predicate Relaxed(p: Paragraph, m: seq<int32>, i: int, jn: int)
    requires p.Shaped() && |m| == p.Count() + 1
  {
    forall i0, j0 :: p.Fits(i0, j0) && (i0 < i || (i0 == i && j0 < jn)) && !p.hyphenPoint[j0] ==>
      m[j0] as int <= m[i0] as int + p.LineCost(i0, j0)
  }

  // ---------- optimality ----------

  ghost predicate Backward(b: seq<int32>) {
    forall j :: 0 < j < |b| ==> 0 <= b[j] as int < j
  }

  /** The starts of the lines that `breaks` leads to when walked back from word j. */
  ghost function BreakPath(b: seq<int32>, j: int): (path: seq<int>)
    requires Backward(b) && 0 <= j < |b|
    ensures |path| > 0 && path[0] == 0 && path[|path| - 1] == j
    decreases j
  {
    if j == 0 then [0] else BreakPath(b, b[j] as int) + [j]
  }

  ghost predicate Ascending(path: seq<int>) {
    forall i, k :: 0 <= i < k < |path| ==> path[i] < path[k]
  }

  /** The walk starts at 0, ascends, and each step is the one `breaks` names. */
  lemma {:induction false} PathSteps(b: seq<int32>, j: int)
    requires Backward(b) && 0 <= j < |b|
    ensures Ascending(BreakPath(b, j))
    ensures forall k :: 0 <= k < |BreakPath(b, j)| ==> 0 <= BreakPath(b, j)[k] <= j
    ensures forall k {:trigger b[BreakPath(b, j)[k]]} :: 0 < k < |BreakPath(b, j)| ==>
      BreakPath(b, j)[k - 1] == b[BreakPath(b, j)[k]] as int
    decreases j
  {
    if j > 0 {
      var i := b[j] as int;
      PathSteps(b, i);
      var shorter, path := BreakPath(b, i), BreakPath(b, j);
      assert path == shorter + [j];
      forall k | 0 < k < |path|
        ensures path[k - 1] == b[path[k]] as int
      {
        if k < |shorter| { assert shorter[k - 1] == b[shorter[k]] as int; }
      }
    }
  }

  /** No line of the layout is followed by a hyphen point. */
  ghost predicate AvoidsHyphens(p: Paragraph, b: seq<int>)
    requires p.Shaped() && p.IsLayout(b)
  {
    forall k :: 0 < k < |b| ==> p.Fits(b[k - 1], b[k]) && !p.hyphenPoint[b[k]]
  }

  lemma NothingToAvoid(p: Paragraph, b: seq<int>)
    requires p.Shaped() && p.NoHyphens() && p.IsLayout(b)
    ensures AvoidsHyphens(p, b)
  {
    forall k | 0 < k < |b|
      ensures p.Fits(b[k - 1], b[k]) && !p.hyphenPoint[b[k]]
    {
      assert p.Fits(b[k - 1], b[k]);
    }
  }

  /** No layout of the first words that avoids hyphen points is cheaper than the entry of `minima`. */
  lemma {:induction false} NoLayoutIsCheaper(p: Paragraph, m: seq<int32>, b: seq<int>)
    requires p.Shaped() && |m| == p.Count() + 1 && m[0] == 0 && Relaxed(p, m, p.Count() + 1, 0)
    requires p.IsLayout(b) && AvoidsHyphens(p, b)
    ensures 0 <= b[|b| - 1] <= p.Count() && m[b[|b| - 1]] as int <= p.Cost(b)
    decreases |b|
  {
    if |b| > 1 {
      var shorter := b[..|b| - 1];
      assert p.IsLayout(shorter);
      NoLayoutIsCheaper(p, m, shorter);
      assert p.Fits(b[|b| - 2], b[|b| - 1]);
    }
  }

  /** An entry of `minima` below the sentinel is the cost of the layout `breaks` leads to. */
  lemma {:induction false} PathPaysMinimum(p: Paragraph, m: seq<int32>, b: seq<int32>, j: int)
    requires p.Shaped() && Linked(p, m, b, p.Count()) && 0 <= j <= p.Count() && m[j] < SENTINEL
    ensures Backward(b) && p.IsLayout(BreakPath(b, j)) && p.Cost(BreakPath(b, j)) == m[j] as int
    decreases j
  {
    assert Backward(b);
    if j > 0 {
      var i := b[j] as int;
      PathPaysMinimum(p, m, b, i);
      var shorter, path := BreakPath(b, i), BreakPath(b, j);
      assert path[..|path| - 1] == shorter;
    }
  }

  /** The dynamic program is right: `minima[j]` is the optimum over all layouts of the first
      j words, capped at the sentinel. */
  lemma MinimaAreOptimal(p: Paragraph, m: seq<int32>, b: seq<int32>, j: int)
    requires p.Valid() && p.NoHyphens() && Linked(p, m, b, p.Count()) && Relaxed(p, m, p.Count() + 1, 0)
    requires 0 <= j <= p.Count()
    ensures p.IsCappedOptimum(j, m[j] as int)
  {
    forall s | p.IsLayout(s) && s[|s| - 1] == j
      ensures m[j] as int <= p.Cost(s)
    {
      NothingToAvoid(p, s);
      NoLayoutIsCheaper(p, m, s);
    }
    if m[j] < SENTINEL { PathPaysMinimum(p, m, b, j); }
  }

  /** With hyphen points it is no worse than the best layout that avoids them. */
  lemma HyphensNeverCostMore(p: Paragraph, m: seq<int32>, b: seq<int32>, s: seq<int>)
    requires p.Valid() && Linked(p, m, b, p.Count()) && Relaxed(p, m, p.Count() + 1, 0)
    requires p.IsLayout(s) && AvoidsHyphens(p, s) && p.Cost(s) < SENTINEL as int
    ensures 0 <= s[|s| - 1] <= p.Count() && Backward(b)
    ensures p.IsLayout(BreakPath(b, s[|s| - 1])) && p.Cost(BreakPath(b, s[|s| - 1])) <= p.Cost(s)
  {
    NoLayoutIsCheaper(p, m, s);
    PathPaysMinimum(p, m, b, s[|s| - 1]);
  }

  // ---------- widths for which costs are ints ----------

  /** In every state that meets the invariants of the double loop when it tries a line, that
      line's cost on top of the minimum of its start is an int. */
  ghost predicate NeverOverflows(width: int32) {
    forall p: Paragraph, m, b, i, j ::
      p.Valid() && p.width == width && Linked(p, m, b, i) && p.Fits(i, j) && Relaxed(p, m, i, j) ==>
        m[i] as int + p.LineCost(i, j) <= INT_MAX
  }

  lemma NarrowLinesFit(p: Paragraph)
    requires p.Valid() && p.width <= MAX_WIDTH
    ensures p.CostsFit()
  {
    forall i, j | p.Fits(i, j)
      ensures SENTINEL as int + p.LineCost(i, j) <= INT_MAX
    {
      if j < p.Count() {
        assert p.offsets[i] <= p.offsets[j];
        SquareBound(p.width as int - p.LineWidth(i, j), p.width as int);
      }
    }
  }

  ghost function WideParagraph(width: int32): Paragraph
    requires 0 <= width && width as int <= INT_MAX - 4
  {
    Paragraph([0, width + 1, width + 1, width + 1], [false, false, false, false], width)
  }

  lemma WideLineCost(width: int32)
    requires MAX_WIDTH < width && width as int <= INT_MAX - 4
    ensures SENTINEL as int + WideParagraph(width).LineCost(1, 2) > INT_MAX
  {
    MulMono(MAX_WIDTH as int + 1, width as int, MAX_WIDTH as int + 1);
    MulMono(MAX_WIDTH as int + 1, width as int, width as int);
    assert WideParagraph(width).LineCost(1, 2) == Square(width as int);
  }

  /** The tables the double loop starts with. */
  ghost function StartMinima(p: Paragraph): (m: seq<int32>)
    requires p.Shaped()
    ensures |m| == p.Count() + 1
  {
    seq(p.Count() + 1, k => if k == 0 then 0 else SENTINEL)
  }

  ghost function StartBreaks(p: Paragraph): (b: seq<int32>)
    requires p.Shaped()
    ensures |b| == p.Count() + 1
  {
    seq(p.Count() + 1, _ => 0)
  }

  /** A first word that is too wide ends the first outer round at its first line, with nothing
      stored; then the line of the second word alone, which has no width, is the next one tried,
      on top of the sentinel. */
  lemma WideLineOverflows(width: int32)
    requires MAX_WIDTH < width && width as int <= INT_MAX - 4
    ensures var p := WideParagraph(width);
      && p.Valid() && p.width == width && p.NoHyphens() && p.LineWidth(0, 1) > width as int && p.Fits(1, 2)
      && Linked(p, StartMinima(p), StartBreaks(p), 1) && Relaxed(p, StartMinima(p), 1, 2)
      && StartMinima(p)[1] == SENTINEL && SENTINEL as int + p.LineCost(1, 2) > INT_MAX
  {
    WideLineCost(width);
  }

  ghost function NarrowParagraph(width: int32): Paragraph {
    Paragraph([0, 0, 0], [false, false, false], width)
  }

  /** From 46341 on the square alone is too large, for a first word without width: the very first
      line tried overflows. */
  lemma SquareOverflows(width: int32)
    requires 46341 <= width
    ensures var p := NarrowParagraph(width);
      && p.Valid() && p.width == width && p.NoHyphens() && p.Fits(0, 1)
      && Linked(p, StartMinima(p), StartBreaks(p), 0) && Relaxed(p, StartMinima(p), 0, 1)
      && StartMinima(p)[0] == 0 && p.LineCost(0, 1) > INT_MAX
  {
    MulMono(46341, width as int, 46341);
    MulMono(46341, width as int, width as int);
    assert NarrowParagraph(width).LineCost(0, 1) == Square(width as int);
  }

  /** MAX_WIDTH is exact: up to it no state that meets the invariants overflows, and from one
      column more on one of the states above, which the loop is in on its way, does. */
  lemma OverflowsExactlyAboveMaxWidth(width: int32)
    ensures NeverOverflows(width) <==> width <= MAX_WIDTH
  {
    if width <= MAX_WIDTH {
      forall p: Paragraph, m, b, i, j | p.Valid() && p.width == width && Linked(p, m, b, i) && p.Fits(i, j)
        ensures m[i] as int + p.LineCost(i, j) <= INT_MAX
      {
        NarrowLinesFit(p);
      }
    } else if width < 46341 {
      WideLineOverflows(width);
    } else {
      SquareOverflows(width);
    }
  }
}
