/** The double loop of src/textutil.c that fills `minima` and `breaks`, with the wait it puts between
    lines that hyphen points follow. */
module ReflowLoop {
  import opened Arith
  import opened Reflow

  // What `wsincelasthyphen += width` does once it runs past INT_MAX
  function Wrap32(x: int): int32 {
    AsInt(x) as int32
  }

  /** Line widths grow with the end of the line, so a line too long rules out every longer
      one, the last line included: the early `break` loses nothing. */
  lemma BreakLosesNothing(p: Paragraph, m: seq<int32>, i: int, j: int)
    requires p.Valid() && 0 <= i < j < p.Count()
    requires p.LineWidth(i, j) > p.width as int
    requires |m| == p.Count() + 1 && Relaxed(p, m, i, j)
    ensures forall j0 :: j <= j0 <= p.Count() ==> !p.Fits(i, j0)
    ensures Relaxed(p, m, i + 1, 0)
  {
    forall j0 | j <= j0 <= p.Count()
      ensures !p.Fits(i, j0)
    {
      var end := if j0 < p.Count() then j0 else p.Count() - 1;
      assert p.offsets[j] <= p.offsets[end];
    }
  }

  lemma SkipKeepsRelaxed(p: Paragraph, m: seq<int32>, i: int, j: int)
    requires p.Shaped() && |m| == p.Count() + 1 && Relaxed(p, m, i, j) && p.Fits(i, j)
    requires p.hyphenPoint[j] || m[j] as int <= m[i] as int + p.LineCost(i, j)
    ensures Relaxed(p, m, i, j + 1)
  {
    forall i0, j0 | p.Fits(i0, j0) && (i0 < i || (i0 == i && j0 < j + 1)) && !p.hyphenPoint[j0]
      ensures m[j0] as int <= m[i0] as int + p.LineCost(i0, j0)
    {
      if i0 == i && j0 == j {
      } else {
        assert i0 < i || (i0 == i && j0 < j);
      }
    }
  }

  lemma StoreKeepsLinked(p: Paragraph, m: seq<int32>, b: seq<int32>, i: int, j: int, cost: int32)
    requires p.Shaped() && Linked(p, m, b, i) && p.Fits(i, j)
    requires cost as int == m[i] as int + p.LineCost(i, j) && cost < m[j]
    ensures i <= INT_MAX && Linked(p, m[j := cost], b[j := i as int32], i)
  {
  }

  lemma StoreKeepsRelaxed(p: Paragraph, m: seq<int32>, i: int, j: int, cost: int32)
    requires p.Shaped() && |m| == p.Count() + 1 && Relaxed(p, m, i, j) && p.Fits(i, j)
    requires cost as int == m[i] as int + p.LineCost(i, j) && cost < m[j]
    ensures Relaxed(p, m[j := cost], i, j + 1)
  {
    var m' := m[j := cost];
    forall i0, j0 | p.Fits(i0, j0) && (i0 < i || (i0 == i && j0 < j + 1)) && !p.hyphenPoint[j0]
      ensures m'[j0] as int <= m'[i0] as int + p.LineCost(i0, j0)
    {
      assert m'[i0] == m[i0];
    }
  }

  /** `w` of src/textutil.c:401-409, every intermediate value an int. */
  method LineWidthOf(p: Paragraph, i: int, j: int) returns (w: int32)
    requires p.Valid() && 0 <= i < j <= p.Count()
    ensures 0 <= w
    ensures j < p.Count() ==> w as int == p.LineWidth(i, j)
    ensures j == p.Count() ==> w == p.width
  {
    if j < p.Count() {
      assert p.offsets[0] <= p.offsets[i] <= p.offsets[j] <= p.offsets[p.Count()];
      w := p.offsets[j] - p.offsets[i] + j as int32 - i as int32 - 1;
    } else {
      w := p.width;
    }
  }

  /** `cost` of src/textutil.c:416-417; `k * k` and the sum are ints. */
  method CostOf(p: Paragraph, i: int, j: int, w: int32, base: int32) returns (cost: int32)
    requires p.Valid() && p.CostsFit() && p.Fits(i, j)
    requires 0 <= w <= p.width && 0 <= base <= SENTINEL
    requires j < p.Count() ==> w as int == p.LineWidth(i, j)
    requires j == p.Count() ==> w == p.width
    ensures cost as int == base as int + p.LineCost(i, j)
  {
    var k := p.width - w;
    assert k as int * k as int == p.LineCost(i, j);
    cost := base + k * k;
  }

  /** A line found cheaper than the entry of its end, whether a hyphen point follows it, and whether
      it was stored. */
  datatype Try = Try(from: int32, to: int, cost: int32, hyphen: bool, stored: bool)

  /** `wsincelasthyphen` after the first n of them: a stored line adds the width of a whole line, or
      starts anew if a hyphen point follows it. */
  ghost function WaitAfter(width: int32, tries: seq<Try>, n: nat): int32
    requires n <= |tries|
  {
    if n == 0 then 0
    else
      var before := WaitAfter(width, tries, n - 1);
      if !tries[n - 1].stored then before
      else if tries[n - 1].hyphen then 0
      else Wrap32(before as int + width as int)
  }

  ghost predicate IsTry(p: Paragraph, t: Try)
    requires p.Shaped()
  {
    0 < t.to <= p.Count() && t.hyphen == p.hyphenPoint[t.to]
  }

  /** A line is stored unless a hyphen point follows it and the wait has not passed two widths. */
  ghost predicate MayStore(width: int32, t: Try, wait: int32) {
    t.stored <==> !t.hyphen || wait as int > 2 * width as int
  }

  ghost predicate RightTries(p: Paragraph, tries: seq<Try>)
    requires p.Shaped()
  {
    && (forall k :: 0 <= k < |tries| ==> IsTry(p, tries[k]))
    && (forall k :: 0 <= k < |tries| ==> MayStore(p.width, tries[k], WaitAfter(p.width, tries, k)))
  }

  /** Every entry that is not the sentinel is the cost of a stored line, from where `breaks` says. */
  ghost predicate FromTries(p: Paragraph, m: seq<int32>, b: seq<int32>, tries: seq<Try>)
    requires p.Shaped() && |m| == |b| == p.Count() + 1
  {
    forall j {:trigger m[j]} :: 0 < j <= p.Count() && m[j] != SENTINEL ==>
      Try(b[j], j, m[j], p.hyphenPoint[j], true) in tries
  }

  lemma {:induction false} WaitPrefix(width: int32, tries: seq<Try>, t: Try, n: nat)
    requires n <= |tries|
    ensures WaitAfter(width, tries + [t], n) == WaitAfter(width, tries, n)
    decreases n
  {
    if n > 0 {
      hide Wrap32;
      WaitPrefix(width, tries, t, n - 1);
      assert (tries + [t])[n - 1] == tries[n - 1];
    }
  }

  lemma WaitNext(width: int32, tries: seq<Try>, t: Try)
    ensures WaitAfter(width, tries + [t], |tries| + 1) ==
      if !t.stored then WaitAfter(width, tries, |tries|) else if t.hyphen then 0
      else Wrap32(WaitAfter(width, tries, |tries|) as int + width as int)
  {
    hide Wrap32;
    WaitPrefix(width, tries, t, |tries|);
    assert (tries + [t])[|tries|] == t;
  }

  lemma TryAgain(p: Paragraph, tries: seq<Try>, t: Try)
    requires p.Shaped() && RightTries(p, tries) && IsTry(p, t)
    requires MayStore(p.width, t, WaitAfter(p.width, tries, |tries|))
    ensures RightTries(p, tries + [t])
  {
    hide IsTry, MayStore, WaitAfter;
    forall n: nat | n <= |tries|
      ensures WaitAfter(p.width, tries + [t], n) == WaitAfter(p.width, tries, n)
    {
      WaitPrefix(p.width, tries, t, n);
    }
  }

  lemma StoredFromTries(p: Paragraph, m: seq<int32>, b: seq<int32>, tries: seq<Try>, t: Try)
    requires p.Shaped() && |m| == |b| == p.Count() + 1 && FromTries(p, m, b, tries) && IsTry(p, t)
    ensures FromTries(p, m, b, tries + [t])
    ensures t.stored ==> FromTries(p, m[t.to := t.cost], b[t.to := t.from], tries + [t])
  {
    assert t in tries + [t];
  }

  /** What one round of the double loop keeps. */
  ghost predicate Filled(p: Paragraph, m: seq<int32>, b: seq<int32>, i: int, jn: int, tries: seq<Try>, wait: int32)
    requires p.Shaped()
  {
    && Linked(p, m, b, i) && Relaxed(p, m, i, jn)
    && RightTries(p, tries) && wait == WaitAfter(p.width, tries, |tries|) && FromTries(p, m, b, tries)
  }

  lemma LogTry(p: Paragraph, m: seq<int32>, b: seq<int32>, tries: seq<Try>, wait: int32, t: Try)
    requires p.Shaped() && |m| == |b| == p.Count() + 1 && IsTry(p, t) && MayStore(p.width, t, wait)
    requires RightTries(p, tries) && wait == WaitAfter(p.width, tries, |tries|) && FromTries(p, m, b, tries)
    ensures RightTries(p, tries + [t])
    ensures WaitAfter(p.width, tries + [t], |tries + [t]|) ==
      if !t.stored then wait else if t.hyphen then 0 else Wrap32(wait as int + p.width as int)
    ensures FromTries(p, m, b, tries + [t])
    ensures t.stored ==> FromTries(p, m[t.to := t.cost], b[t.to := t.from], tries + [t])
  {
    hide RightTries, FromTries, WaitAfter, MayStore, Wrap32;
    TryAgain(p, tries, t);
    WaitNext(p.width, tries, t);
    StoredFromTries(p, m, b, tries, t);
  }

  lemma StoreKeepsFilled(p: Paragraph, m: seq<int32>, b: seq<int32>, i: int, j: int, tries: seq<Try>, wait: int32,
                         cost: int32) returns (t: Try)
    requires p.Shaped() && Filled(p, m, b, i, j, tries, wait) && p.Fits(i, j)
    requires cost as int == m[i] as int + p.LineCost(i, j) && cost < m[j]
    requires !p.hyphenPoint[j] || wait as int > 2 * p.width as int
    ensures i <= INT_MAX && Filled(p, m[j := cost], b[j := i as int32], i, j + 1, tries + [t],
      if p.hyphenPoint[j] then 0 else Wrap32(wait as int + p.width as int))
  {
    assert |m| == |b| == p.Count() + 1;
    hide Linked, Relaxed, RightTries, FromTries, WaitAfter, Wrap32, Square, Paragraph.LineCost;
    StoreKeepsLinked(p, m, b, i, j, cost);
    StoreKeepsRelaxed(p, m, i, j, cost);
    t := Try(i as int32, j, cost, p.hyphenPoint[j], true);
    LogTry(p, m, b, tries, wait, t);
  }

  lemma RefusalKeepsFilled(p: Paragraph, m: seq<int32>, b: seq<int32>, i: int, j: int, tries: seq<Try>, wait: int32,
                           cost: int32) returns (t: Try)
    requires p.Shaped() && Filled(p, m, b, i, j, tries, wait) && p.Fits(i, j) && i <= INT_MAX
    requires p.hyphenPoint[j] && wait as int <= 2 * p.width as int
    ensures Filled(p, m, b, i, j + 1, tries + [t], wait)
  {
    assert |m| == |b| == p.Count() + 1;
    hide Linked, Relaxed, RightTries, FromTries, WaitAfter, Wrap32;
    SkipKeepsRelaxed(p, m, i, j);
    t := Try(i as int32, j, cost, true, false);
    LogTry(p, m, b, tries, wait, t);
  }

  lemma SkipKeepsFilled(p: Paragraph, m: seq<int32>, b: seq<int32>, i: int, j: int, tries: seq<Try>, wait: int32)
    requires p.Shaped() && Filled(p, m, b, i, j, tries, wait) && p.Fits(i, j)
    requires m[j] as int <= m[i] as int + p.LineCost(i, j)
    ensures Filled(p, m, b, i, j + 1, tries, wait)
  {
    SkipKeepsRelaxed(p, m, i, j);
  }

  lemma StartLine(p: Paragraph, m: seq<int32>, b: seq<int32>, i: int, tries: seq<Try>, wait: int32)
    requires p.Shaped() && Filled(p, m, b, i, 0, tries, wait)
    ensures Filled(p, m, b, i, i + 1, tries, wait)
  {
  }

  lemma EndLine(p: Paragraph, m: seq<int32>, b: seq<int32>, i: int, tries: seq<Try>, wait: int32)
    requires p.Shaped() && Filled(p, m, b, i, p.Count() + 1, tries, wait)
    ensures Filled(p, m, b, i + 1, 0, tries, wait)
  {
  }

  lemma BreakKeepsFilled(p: Paragraph, m: seq<int32>, b: seq<int32>, i: int, j: int, tries: seq<Try>, wait: int32)
    requires p.Valid() && Filled(p, m, b, i, j, tries, wait)
    requires 0 <= i < j < p.Count() && p.LineWidth(i, j) > p.width as int
    ensures Filled(p, m, b, i + 1, 0, tries, wait)
  {
    BreakLosesNothing(p, m, i, j);
    assert forall k :: 0 < k <= p.Count() && m[k] < SENTINEL ==> b[k] as int <= i;
  }

  lemma FilledBounds(p: Paragraph, m: seq<int32>, b: seq<int32>, i: int, jn: int, tries: seq<Try>, wait: int32)
    requires p.Shaped() && Filled(p, m, b, i, jn, tries, wait)
    ensures |m| == |b| == p.Count() + 1 && forall j :: 0 <= j <= p.Count() ==> 0 <= m[j] <= SENTINEL
  {
  }

  lemma LinkedInside(p: Paragraph, m: seq<int32>, b: seq<int32>)
    requires p.Shaped() && Linked(p, m, b, p.Count() + 1)
    ensures Linked(p, m, b, p.Count())
  {
  }

  /** The inner loop for one line start i (src/textutil.c:397-438): tries every line end j,
      gives up at the first line that is too long. */
  method RelaxFrom(p: Paragraph, i: int, minima: array<int32>, breaks: array<int32>, hyphenwait: int32,
                   ghost before: seq<Try>)
      returns (wsincelasthyphen: int32, ghost tries: seq<Try>)
    requires p.Valid() && p.CostsFit() && 0 <= i <= p.Count()
    requires minima != breaks
    requires Filled(p, minima[..], breaks[..], i, 0, before, hyphenwait)
    modifies minima, breaks
    ensures Filled(p, minima[..], breaks[..], i + 1, 0, tries, wsincelasthyphen)
  {
    hide Filled, Wrap32;
    wsincelasthyphen, tries := hyphenwait, before;
    var hyphenspace := p.width * 2;
    var j := i + 1;
    ghost var m, b := minima[..], breaks[..];
    StartLine(p, m, b, i, tries, wsincelasthyphen);
    while j <= p.Count()
      invariant i < j <= p.Count() + 1
      invariant m == minima[..] && b == breaks[..]
      invariant Filled(p, m, b, i, j, tries, wsincelasthyphen)
      invariant i < j - 1 < p.Count() ==> p.LineWidth(i, j - 1) <= p.width as int
    {
      FilledBounds(p, m, b, i, j, tries, wsincelasthyphen);
      var w := LineWidthOf(p, i, j);
      if w > p.width {
        BreakKeepsFilled(p, m, b, i, j, tries, wsincelasthyphen);
        return;
      }
      assert p.Fits(i, j);
      var cost := CostOf(p, i, j, w, minima[i]);
      if cost < minima[j] {
        if !p.hyphenPoint[j] || wsincelasthyphen > hyphenspace {
          ghost var t := StoreKeepsFilled(p, m, b, i, j, tries, wsincelasthyphen, cost);
          wsincelasthyphen := if p.hyphenPoint[j] then 0
                              else Wrap32(wsincelasthyphen as int + p.width as int);
          minima[j], breaks[j] := cost, i as int32;
          m, b, tries := m[j := cost], b[j := i as int32], tries + [t];
        } else {
          ghost var t := RefusalKeepsFilled(p, m, b, i, j, tries, wsincelasthyphen, cost);
          tries := tries + [t];
        }
      } else {
        SkipKeepsFilled(p, m, b, i, j, tries, wsincelasthyphen);
      }
      j := j + 1;
    }
    EndLine(p, m, b, i, tries, wsincelasthyphen);
  }

  /** The double loop (src/textutil.c:385-439), for paragraphs with and without hyphen points. */
  method FillBreaks(p: Paragraph) returns (minima: array<int32>, breaks: array<int32>, ghost tries: seq<Try>)
    requires p.Valid() && p.CostsFit()
    ensures fresh(minima) && fresh(breaks)
    ensures minima.Length == breaks.Length == p.Count() + 1
    ensures Linked(p, minima[..], breaks[..], p.Count())
    ensures Relaxed(p, minima[..], p.Count() + 1, 0)
    ensures RightTries(p, tries) && FromTries(p, minima[..], breaks[..], tries)
  {
    minima := new int32[|p.offsets|](_ => SENTINEL);
    breaks := new int32[|p.offsets|](_ => 0);
    minima[0] := 0;
    assert minima[..] == StartMinima(p) && breaks[..] == StartBreaks(p);
    var wsincelasthyphen: int32 := 0;
    tries := [];
    var i := 0;
    while i <= p.Count()
      invariant 0 <= i <= p.Count() + 1
      invariant fresh(minima) && fresh(breaks)
      invariant Filled(p, minima[..], breaks[..], i, 0, tries, wsincelasthyphen)
    {
      wsincelasthyphen, tries := RelaxFrom(p, i, minima, breaks, wsincelasthyphen, tries);
      i := i + 1;
    }
    LinkedInside(p, minima[..], breaks[..]);
  }

  // ---------- the wait between hyphens ----------

  /** Lines stored among tries k..n that no hyphen point follows. */
  ghost function PlainStores(tries: seq<Try>, k: nat, n: nat): nat
    requires k <= n <= |tries|
  {
    if k == n then 0
    else PlainStores(tries, k, n - 1) + (if tries[n - 1].stored && !tries[n - 1].hyphen then 1 else 0)
  }

  lemma {:induction false} PlainStoresBound(tries: seq<Try>, k: nat, n: nat)
    requires k <= n <= |tries|
    ensures PlainStores(tries, k, n) <= n - k
    decreases n
  {
    if k < n { PlainStoresBound(tries, k, n - 1); }
  }

  lemma NoWrap(count: nat, tries: nat, width: int32, wait: int32)
    requires count < tries && 0 <= width && tries * width as int <= INT_MAX && 0 <= wait as int <= count * width as int
    ensures Wrap32(wait as int + width as int) as int == wait as int + width as int <= (count + 1) * width as int
  {
    MulMono(count + 1, tries, width as int);
  }

  /** The wait counts at most one width for each such line since it was 0. */
  lemma {:induction false} WaitIsBounded(width: int32, tries: seq<Try>, k: nat, n: nat)
    requires 0 <= width && k <= n <= |tries| && WaitAfter(width, tries, k) == 0 && |tries| * width as int <= INT_MAX
    ensures 0 <= WaitAfter(width, tries, n) as int <= PlainStores(tries, k, n) * width as int
    decreases n
  {
    if k < n {
      hide Wrap32;
      WaitIsBounded(width, tries, k, n - 1);
      PlainStoresBound(tries, k, n - 1);
      NoWrap(PlainStores(tries, k, n - 1), |tries|, width, WaitAfter(width, tries, n - 1));
    }
  }

  /** The rule about hyphens, over the whole double loop: between two stored lines that hyphen points
      follow, and before the first, at least three others are stored. */
  lemma HyphensAreApart(p: Paragraph, tries: seq<Try>, k: nat, n: nat)
    requires p.Shaped() && 0 < p.width && RightTries(p, tries) && |tries| * p.width as int <= INT_MAX
    requires k <= n < |tries| && tries[n].stored && tries[n].hyphen
    requires k == 0 || (tries[k - 1].stored && tries[k - 1].hyphen)
    ensures 3 <= PlainStores(tries, k, n)
  {
    WaitIsBounded(p.width, tries, k, n);
    assert MayStore(p.width, tries[n], WaitAfter(p.width, tries, n));
    if PlainStores(tries, k, n) <= 2 { MulMono(PlainStores(tries, k, n), 2, p.width as int); }
  }
}
