/** The command tag lexer of src/cmdtaglexer.c: TagLexer_Parse finds the tagged tokens of a
    text, TagLexerResult_PerformSub puts substitutes in their place.  Texts, substitutes and
    tag lists are C strings without NUL; a string is its characters before the NUL. */
module TagLexer {
  import opened Arith

  // isalpha, isalnum and toupper of the C locale
  predicate IsAlpha(c: char) { 'a' <= c <= 'z' || 'A' <= c <= 'Z' }
  predicate IsAlnum(c: char) { IsAlpha(c) || '0' <= c <= '9' }
  function ToUpper(c: char): char {
    if 'a' <= c <= 'z' then (c as int - 'a' as int + 'A' as int) as char else c
  }

  /** Their ASCII codes. */
  lemma Classes(c: char)
    ensures IsAlpha(c) <==> 65 <= ToUpper(c) as int <= 90
    ensures IsAlnum(c) <==> 65 <= ToUpper(c) as int <= 90 || 48 <= c as int <= 57
    ensures ToUpper(c) == if 97 <= c as int <= 122 then (c as int - 32) as char else c
  {
  }

  /** struct TaggedToken. */
  datatype Token = Token(text: string, index: nat, length: nat, shouldCap: bool)

  /** struct TagSub. */
  datatype Sub = Sub(text: string, length: nat)

  // ---------- what the lexer finds ----------

  /** Index of the first tag symbol from `from` on, or the end of the text. */
  ghost function NextSymbol(text: string, symbols: string, from: nat): (r: nat)
    requires from <= |text|
    ensures from <= r <= |text|
    ensures forall k :: from <= k < r ==> text[k] !in symbols
    ensures r < |text| ==> text[r] in symbols
    decreases |text| - from
  {
    if from == |text| || text[from] in symbols then from else NextSymbol(text, symbols, from + 1)
  }

  /** End of the run of letters and digits from `from` on. */
  ghost function RunEnd(text: string, from: nat): (r: nat)
    requires from <= |text|
    ensures from <= r <= |text|
    ensures forall k :: from <= k < r ==> IsAlnum(text[k])
    ensures r < |text| ==> !IsAlnum(text[r])
    decreases |text| - from
  {
    if from == |text| || !IsAlnum(text[from]) then from else RunEnd(text, from + 1)
  }

  /** A symbol starts a sentence if only non-letters lie between it and a full stop or the
      start of the text, the symbol itself included. */
  ghost predicate StartsSentence(text: string, at: int)
    requires -1 <= at < |text|
  {
    at < 0 || (!IsAlpha(text[at]) && (text[at] == '.' || StartsSentence(text, at - 1)))
  }

  /** d is a full stop, or right before the text, and no letter follows it up to at. */
  ghost predicate NoLetterSince(text: string, d: int, at: int)
    requires at < |text|
  {
    -1 <= d <= at && (d == -1 || text[d] == '.') && forall k :: d < k <= at ==> !IsAlpha(text[k])
  }

  lemma {:induction false} SentenceStart(text: string, at: int)
    requires -1 <= at < |text|
    ensures StartsSentence(text, at) <==> exists d :: NoLetterSince(text, d, at)
    decreases at
  {
    if at < 0 {
      assert NoLetterSince(text, -1, at);
    } else {
      var before := at - 1;
      SentenceStart(text, before);
      if text[at] == '.' {
        assert NoLetterSince(text, at, at);
      } else {
        if d :| NoLetterSince(text, d, at) { assert NoLetterSince(text, d, before); }
        if d :| NoLetterSince(text, d, before) { assert !IsAlpha(text[at]) ==> NoLetterSince(text, d, at); }
      }
    }
  }

  /** What ShouldCapitalize tells: it searches back from the offset as an int, and a negative one
      starts a sentence. */
  ghost predicate CapFlag(text: string, start: nat)
    requires start < |text|
  {
    AsInt(start) < 0 || StartsSentence(text, AsInt(start))
  }

  /** That is right for all texts exactly for offsets below 2^31. */
  lemma CapFlagIsRightBelow2G(start: nat)
    ensures (forall text: string :: start < |text| ==> (CapFlag(text, start) <==> StartsSentence(text, start)))
            <==> start < HALF32
  {
    AsIntIsExactBelow2G(start);
    if start >= HALF32 {
      var text := seq(start, _ => '.') + "a";
      assert text[start] == 'a' && !StartsSentence(text, start);
      assert CapFlag(text, start);
    }
  }

  /** One symbol with the letters and digits behind it. */
  ghost predicate IsToken(text: string, symbols: string, t: Token) {
    && 1 < t.length && t.index + t.length <= |text|
    && text[t.index] in symbols
    && (forall k :: t.index < k < t.index + t.length ==> IsAlnum(text[k]))
    && (t.index + t.length < |text| ==> !IsAlnum(text[t.index + t.length]))
    && t.text == text[t.index..t.index + t.length]
    && t.shouldCap == CapFlag(text, t.index)
  }

  /** Where the text behind the first n tokens starts. */
  ghost function EndOf(tokens: seq<Token>, n: nat): nat
    requires n <= |tokens|
  {
    if n == 0 then 0 else tokens[n - 1].index + tokens[n - 1].length
  }

  /** Each token lies behind the one before it, and all lie within the first `end` characters. */
  ghost predicate Ordered(tokens: seq<Token>, end: nat) {
    && (forall i {:trigger EndOf(tokens, i)} :: 0 <= i < |tokens| ==> EndOf(tokens, i) <= tokens[i].index)
    && (forall i :: 0 <= i < |tokens| ==> tokens[i].index + tokens[i].length <= end)
  }

  /** So they are strictly ordered and disjoint. */
  lemma {:induction false} OrderedPairs(tokens: seq<Token>, end: nat, i: nat, j: nat)
    requires Ordered(tokens, end) && i < j < |tokens|
    ensures tokens[i].index + tokens[i].length <= tokens[j].index
    decreases j
  {
    assert EndOf(tokens, j) <= tokens[j].index;
    if i < j - 1 { OrderedPairs(tokens, end, i, j - 1); }
  }

  lemma OrderedPrefix(tokens: seq<Token>, end: nat, m: nat)
    requires Ordered(tokens, end) && m <= |tokens|
    ensures Ordered(tokens[..m], end) && forall i :: 0 <= i <= m ==> EndOf(tokens[..m], i) == EndOf(tokens, i)
  {
    forall i | 0 <= i <= m ensures EndOf(tokens[..m], i) == EndOf(tokens, i) {}
  }

  lemma OrderedAppend(tokens: seq<Token>, idx: nat, t: Token)
    requires Ordered(tokens, idx) && idx <= t.index
    ensures Ordered(tokens + [t], t.index + t.length)
  {
    var all := tokens + [t];
    forall i | 0 <= i < |all| ensures EndOf(all, i) <= all[i].index {
      if i < |tokens| { assert EndOf(tokens, i) <= tokens[i].index; }
    }
  }

  ghost predicate Covered(tokens: seq<Token>, k: int) {
    exists i :: 0 <= i < |tokens| && tokens[i].index <= k < tokens[i].index + tokens[i].length
  }

  /** No token is missed: outside the tokens a symbol has no letter or digit behind it. */
  ghost predicate NoneMissed(text: string, symbols: string, tokens: seq<Token>, end: nat)
    requires end <= |text|
  {
    forall k :: 0 <= k < end && text[k] in symbols && !Covered(tokens, k) ==>
      k + 1 == |text| || !IsAlnum(text[k + 1])
  }

  ghost function TotalLength(tokens: seq<Token>): nat {
    if tokens == [] then 0 else TotalLength(tokens[..|tokens| - 1]) + tokens[|tokens| - 1].length
  }

  lemma TotalAppend(tokens: seq<Token>, t: Token)
    ensures TotalLength(tokens + [t]) == TotalLength(tokens) + t.length
  {
    assert (tokens + [t])[..|tokens + [t]| - 1] == tokens;
  }

  ghost predicate IsParse(text: string, symbols: string, tokens: seq<Token>) {
    && (forall i :: 0 <= i < |tokens| ==> IsToken(text, symbols, tokens[i]))
    && Ordered(tokens, |text|)
    && NoneMissed(text, symbols, tokens, |text|)
  }

  /** struct TagLexerResult. */
  class Result {
    var tokens: array<Token>
    var tokencount: nat
    var totalTokenLen: nat

    ghost function Tokens(): seq<Token>
      requires tokencount <= tokens.Length
      reads this, tokens
    {
      tokens[..tokencount]
    }

    ghost predicate Valid()
      reads this, tokens
    {
      tokencount <= tokens.Length && 0 < tokens.Length && totalTokenLen == TotalLength(Tokens())
    }

    /** TagLexerResult_Init (src/cmdtaglexer.c:100-108). */
    constructor ()
      ensures Valid() && Tokens() == [] && fresh(tokens)
    {
      tokens := new Token[4](_ => Token("", 0, 0, false));
      tokencount, totalTokenLen := 0, 0;
    }

    /** The growth of the token array (src/cmdtaglexer.c:139-146). */
    method Reserve()
      requires Valid()
      modifies `tokens
      ensures Valid() && tokencount < tokens.Length && Tokens() == old(Tokens())
      ensures tokens == old(tokens) || fresh(tokens)
    {
      ghost var was := Tokens();
      if tokencount >= tokens.Length {
        var grown := new Token[tokens.Length * 2](_ => Token("", 0, 0, false));
        forall k | 0 <= k < tokencount { grown[k] := tokens[k]; }
        tokens := grown;
        assert Tokens() == was;
      }
    }

    /** TagLexer_AddTaggedToken (src/cmdtaglexer.c:135-158). */
    method AddTaggedToken(str: string, index: nat, len: nat, cap: bool)
      requires Valid() && len <= |str|
      modifies this, tokens
      ensures Valid() && (tokens == old(tokens) || fresh(tokens))
      ensures Tokens() == old(Tokens()) + [Token(str[..len], index, len, cap)]
    {
      Reserve();
      ghost var before, t := Tokens(), Token(str[..len], index, len, cap);
      TotalAppend(before, t);
      tokens[tokencount] := Token(str[..len], index, len, cap);
      tokencount := tokencount + 1;
      totalTokenLen := totalTokenLen + len;
      assert Tokens() == before + [t];
    }
  }

  /** ShouldCapitalize (src/cmdtaglexer.c:160-175); idx is an int. */
  method ShouldCapitalize(text: string, start: nat) returns (cap: bool)
    requires start < |text|
    ensures cap == CapFlag(text, start)
  {
    var idx := AsInt(start);
    while idx >= 0
      invariant idx < |text| && (AsInt(start) >= 0 ==> -1 <= idx)
      invariant AsInt(start) >= 0 ==> StartsSentence(text, AsInt(start)) == StartsSentence(text, idx)
      decreases idx
    {
      if IsAlpha(text[idx]) {
        return false;
      } else if text[idx] == '.' {
        return true;
      }
      idx := idx - 1;
    }
    return true;
  }

  /** strpbrk: the first character of text from `from` on that is in symbols, if any. */
  method StrPBrk(text: string, from: nat, symbols: string) returns (found: bool, at: nat)
    requires from <= |text|
    ensures at == NextSymbol(text, symbols, from)
    ensures found <==> at < |text|
  {
    at := from;
    while at < |text| && text[at] !in symbols
      invariant from <= at <= |text|
      invariant NextSymbol(text, symbols, from) == NextSymbol(text, symbols, at)
    {
      at := at + 1;
    }
    found := at < |text|;
  }

  /** Every token found so far is one, they are ordered, and up to idx none is missed. */
  ghost predicate ParsedTo(text: string, symbols: string, tokens: seq<Token>, idx: nat)
    requires idx <= |text|
  {
    && (forall i :: 0 <= i < |tokens| ==> IsToken(text, symbols, tokens[i]))
    && Ordered(tokens, idx)
    && NoneMissed(text, symbols, tokens, idx)
  }

  lemma SkipKeepsParsed(text: string, symbols: string, tokens: seq<Token>, idx: nat, to: nat)
    requires idx <= to <= |text| && ParsedTo(text, symbols, tokens, idx)
    requires forall k :: idx <= k < to && text[k] in symbols ==> k + 1 == |text| || !IsAlnum(text[k + 1])
    ensures ParsedTo(text, symbols, tokens, to)
  {
  }

  lemma CoveredAppend(tokens: seq<Token>, t: Token, k: int)
    ensures Covered(tokens + [t], k) <==> Covered(tokens, k) || t.index <= k < t.index + t.length
  {
    var all := tokens + [t];
    assert all[|tokens|] == t;
    assert forall i :: 0 <= i < |tokens| ==> all[i] == tokens[i];
  }

  lemma TokenKeepsParsed(text: string, symbols: string, tokens: seq<Token>, idx: nat, t: Token)
    requires idx <= |text| && ParsedTo(text, symbols, tokens, idx)
    requires IsToken(text, symbols, t) && t.index == NextSymbol(text, symbols, idx)
    ensures ParsedTo(text, symbols, tokens + [t], t.index + t.length)
  {
    var all, end := tokens + [t], t.index + t.length;
    OrderedAppend(tokens, idx, t);
    forall k | 0 <= k < end && text[k] in symbols && !Covered(all, k)
      ensures k + 1 == |text| || !IsAlnum(text[k + 1])
    {
      CoveredAppend(tokens, t, k);
    }
  }

  /** The letters and digits behind a symbol (src/cmdtaglexer.c:188-195). */
  method ScanRun(text: string, offset: nat) returns (length: nat)
    requires offset < |text|
    ensures 1 <= length && offset + length <= |text|
    ensures forall k :: offset < k < offset + length ==> IsAlnum(text[k])
    ensures offset + length < |text| ==> !IsAlnum(text[offset + length])
  {
    length := 1;
    while length + offset < |text|
      invariant 1 <= length && offset + length <= |text|
      invariant forall k :: offset < k < offset + length ==> IsAlnum(text[k])
    {
      if !IsAlnum(text[offset + length]) {
        break;
      }
      length := length + 1;
    }
  }

  lemma FoundToken(text: string, symbols: string, offset: nat, length: nat, cap: bool) returns (t: Token)
    requires 1 < length && offset + length <= |text| && text[offset] in symbols
    requires forall k :: offset < k < offset + length ==> IsAlnum(text[k])
    requires offset + length < |text| ==> !IsAlnum(text[offset + length])
    requires cap == CapFlag(text, offset)
    ensures t == Token(text[offset..][..length], offset, length, cap) && IsToken(text, symbols, t)
  {
    t := Token(text[offset..][..length], offset, length, cap);
    assert text[offset..][..length] == text[offset..offset + length];
  }

  /** The tokens after a symbol with a run of the given length was read. */
  ghost function AfterRun(text: string, tokens: seq<Token>, offset: nat, length: nat, cap: bool): seq<Token>
    requires offset + length <= |text|
  {
    if length > 1 then tokens + [Token(text[offset..][..length], offset, length, cap)] else tokens
  }

  lemma RunKeepsParsed(text: string, symbols: string, tokens: seq<Token>, idx: nat, offset: nat, length: nat, cap: bool)
    requires idx <= |text| && ParsedTo(text, symbols, tokens, idx)
    requires offset == NextSymbol(text, symbols, idx) && offset < |text|
    requires 1 <= length && offset + length <= |text|
    requires forall k :: offset < k < offset + length ==> IsAlnum(text[k])
    requires offset + length < |text| ==> !IsAlnum(text[offset + length])
    requires length > 1 ==> cap == CapFlag(text, offset)
    ensures ParsedTo(text, symbols, AfterRun(text, tokens, offset, length, cap), offset + length)
  {
    if length > 1 {
      var t := FoundToken(text, symbols, offset, length, cap);
      TokenKeepsParsed(text, symbols, tokens, idx, t);
    } else {
      SkipKeepsParsed(text, symbols, tokens, idx, offset + length);
    }
  }

  /** Reads the run behind a symbol and stores the token, if it is one (src/cmdtaglexer.c:187-202). */
  method ReadRun(symbols: string, text: string, idx: nat, offset: nat, result: Result) returns (next: nat)
    requires result.Valid() && idx <= |text| && ParsedTo(text, symbols, result.Tokens(), idx)
    requires offset == NextSymbol(text, symbols, idx) && offset < |text|
    modifies result, result.tokens
    ensures result.Valid() && (result.tokens == old(result.tokens) || fresh(result.tokens))
    ensures idx < next <= |text| && ParsedTo(text, symbols, result.Tokens(), next)
  {
    hide ParsedTo;
    var length := ScanRun(text, offset);
    next := offset + length;
    if length > 1 {
      var cap := ShouldCapitalize(text, offset);
      ghost var was := result.Tokens();
      RunKeepsParsed(text, symbols, was, idx, offset, length, cap);
      result.AddTaggedToken(text[offset..], offset, length, cap);
      assert result.Tokens() == AfterRun(text, was, offset, length, cap);
    } else {
      RunKeepsParsed(text, symbols, result.Tokens(), idx, offset, length, false);
    }
  }

  /** One round of TagLexer_Parse (src/cmdtaglexer.c:184-203). */
  method ParseRound(symbols: string, text: string, idx: nat, result: Result) returns (start: bool, next: nat)
    requires result.Valid() && idx <= |text| && ParsedTo(text, symbols, result.Tokens(), idx)
    modifies result, result.tokens
    ensures result.Valid() && (result.tokens == old(result.tokens) || fresh(result.tokens))
    ensures next <= |text| && (start ==> idx < next)
    ensures ParsedTo(text, symbols, result.Tokens(), if start then next else |text|)
  {
    var offset;
    start, offset := StrPBrk(text, idx, symbols);
    next := idx;
    if start {
      next := ReadRun(symbols, text, idx, offset, result);
    } else {
      SkipKeepsParsed(text, symbols, result.Tokens(), idx, |text|);
    }
  }

  /** TagLexer_Parse (src/cmdtaglexer.c:177-207). */
  method Parse(symbols: string, text: string, result: Result)
    requires result.Valid() && result.Tokens() == []
    modifies result, result.tokens
    ensures result.Valid() && IsParse(text, symbols, result.Tokens())
  {
    var idx: nat := 0;
    var start := true;
    while start
      invariant result.tokens == old(result.tokens) || fresh(result.tokens)
      invariant result.Valid() && idx <= |text|
      invariant ParsedTo(text, symbols, result.Tokens(), if start then idx else |text|)
      decreases start, |text| - idx
    {
      start, idx := ParseRound(symbols, text, idx, result);
    }
  }

  // ---------- substitution ----------

  /** A substitute as it goes into the text: its first letter raised for a token that starts a
      sentence. */
  function Capped(sub: string, cap: bool): (r: string)
    ensures |r| == |sub|
  {
    if cap && sub != "" then [ToUpper(sub[0])] + sub[1..] else sub
  }

  /** What raising does, letter by letter: a small first letter becomes the capital at the same place
      of the alphabet; everything else stays as it is. */
  lemma RaisedLetter(sub: string, cap: bool)
    ensures var r := Capped(sub, cap);
      && |r| == |sub| && (forall k :: 0 < k < |sub| ==> r[k] == sub[k])
      && (cap && sub != "" && 'a' <= sub[0] <= 'z' ==>
            'A' <= r[0] <= 'Z' && r[0] as int - 'A' as int == sub[0] as int - 'a' as int)
      && (!(cap && sub != "" && 'a' <= sub[0] <= 'z') ==> r == sub)
  {
    var r := Capped(sub, cap);
    if cap && sub != "" {
      assert forall k :: 0 < k < |sub| ==> r[k] == sub[1..][k - 1];
      if !('a' <= sub[0] <= 'z') { assert r == [sub[0]] + sub[1..] == sub; }
    }
  }

  /** The text up to the end of token n, each token replaced by its substitute. */
  ghost function Spliced(text: string, tokens: seq<Token>, subs: seq<string>, n: nat): string
    requires Ordered(tokens, |text|) && |subs| == |tokens| && n <= |tokens|
  {
    if n == 0 then ""
    else
      Spliced(text, tokens, subs, n - 1) + text[EndOf(tokens, n - 1)..tokens[n - 1].index]
        + Capped(subs[n - 1], tokens[n - 1].shouldCap)
  }

  ghost function Substituted(text: string, tokens: seq<Token>, subs: seq<string>): string
    requires Ordered(tokens, |text|) && |subs| == |tokens|
  {
    Spliced(text, tokens, subs, |tokens|) + text[EndOf(tokens, |tokens|)..]
  }

  ghost function TotalSubs(subs: seq<string>): nat {
    if subs == [] then 0 else TotalSubs(subs[..|subs| - 1]) + |subs[|subs| - 1]|
  }

  lemma {:induction false} SplicedPrefix(text: string, tokens: seq<Token>, subs: seq<string>, m: nat, n: nat)
    requires Ordered(tokens, |text|) && |subs| == |tokens| && n <= m <= |tokens|
    ensures Ordered(tokens[..m], |text|)
    ensures Spliced(text, tokens[..m], subs[..m], n) == Spliced(text, tokens, subs, n)
    decreases n
  {
    OrderedPrefix(tokens, |text|, m);
    if n > 0 {
      SplicedPrefix(text, tokens, subs, m, n - 1);
      assert tokens[..m][n - 1] == tokens[n - 1] && subs[..m][n - 1] == subs[n - 1];
    }
  }

  lemma SplicedNext(text: string, tokens: seq<Token>, subs: seq<string>, n: nat)
    requires Ordered(tokens, |text|) && |subs| == |tokens| && n < |tokens|
    ensures EndOf(tokens, n) <= tokens[n].index && EndOf(tokens, n + 1) == tokens[n].index + tokens[n].length <= |text|
    ensures Spliced(text, tokens, subs, n + 1) ==
      Spliced(text, tokens, subs, n) + text[EndOf(tokens, n)..tokens[n].index] + Capped(subs[n], tokens[n].shouldCap)
  {
  }

  /** The spliced text is as long as the text, less the tokens, plus the substitutes. */
  lemma {:induction false} SplicedLength(text: string, tokens: seq<Token>, subs: seq<string>)
    requires Ordered(tokens, |text|) && |subs| == |tokens|
    ensures |Spliced(text, tokens, subs, |tokens|)| == EndOf(tokens, |tokens|) - TotalLength(tokens) + TotalSubs(subs)
    ensures TotalLength(tokens) <= EndOf(tokens, |tokens|) <= |text|
    decreases |tokens|
  {
    if tokens != [] {
      hide Spliced, Capped;
      var m := |tokens| - 1;
      OrderedPrefix(tokens, |text|, m);
      SplicedLength(text, tokens[..m], subs[..m]);
      SplicedPrefix(text, tokens, subs, m, m);
      SplicedNext(text, tokens, subs, m);
    }
  }

  lemma SubstitutedLength(text: string, tokens: seq<Token>, subs: seq<string>)
    requires Ordered(tokens, |text|) && |subs| == |tokens|
    ensures |Substituted(text, tokens, subs)| == (|text| - TotalLength(tokens)) + TotalSubs(subs)
    ensures TotalLength(tokens) <= |text|
  {
    SplicedLength(text, tokens, subs);
  }

  predicate IsLower(c: char) { 'a' <= c <= 'z' }

  /** A token whose symbol substitution turns into another character. */
  predicate Raises(t: Token) {
    t.shouldCap && t.text != "" && IsLower(t.text[0])
  }

  /** No token in the first 2^31 characters is one, nor is any whose symbol is no small letter. */
  lemma TokenKeepsCase(text: string, symbols: string, t: Token)
    requires IsToken(text, symbols, t) && (t.index < HALF32 || forall c :: c in symbols ==> !IsLower(c))
    ensures !Raises(t)
  {
    assert t.text[0] == text[t.index];
    AsIntIsExactBelow2G(t.index);
  }

  lemma JoinSlices(text: string, a: nat, b: nat, c: nat)
    requires a <= b <= c <= |text|
    ensures text[..a] + text[a..b] + text[b..c] == text[..c]
  {
  }

  /** The substitute, capitalized where asked, is the piece of text it replaces. */
  ghost predicate PutsBackAt(text: string, tokens: seq<Token>, subs: seq<string>, i: int) {
    && 0 <= i < |tokens| && i < |subs| && tokens[i].index + tokens[i].length <= |text|
    && Capped(subs[i], tokens[i].shouldCap) == text[tokens[i].index..tokens[i].index + tokens[i].length]
  }

  ghost predicate PutsBack(text: string, tokens: seq<Token>, subs: seq<string>) {
    forall i :: 0 <= i < |tokens| ==> PutsBackAt(text, tokens, subs, i)
  }

  /** Up to the end of token n the spliced text is the text. */
  ghost predicate SplicedIsText(text: string, tokens: seq<Token>, subs: seq<string>, n: nat)
    requires Ordered(tokens, |text|) && |subs| == |tokens| && n <= |tokens|
  {
    EndOf(tokens, n) <= |text| && Spliced(text, tokens, subs, n) == text[..EndOf(tokens, n)]
  }

  lemma SelfSpliceOne(text: string, tokens: seq<Token>, subs: seq<string>, k: nat)
    requires Ordered(tokens, |text|) && |subs| == |tokens| && k < |tokens|
    requires SplicedIsText(text, tokens, subs, k)
    requires PutsBackAt(text, tokens, subs, k)
    ensures SplicedIsText(text, tokens, subs, k + 1)
  {
    SplicedNext(text, tokens, subs, k);
    JoinSlices(text, EndOf(tokens, k), tokens[k].index, tokens[k].index + tokens[k].length);
  }

  lemma {:induction false} SelfSplice(text: string, tokens: seq<Token>, subs: seq<string>, n: nat)
    requires Ordered(tokens, |text|) && |subs| == |tokens| && PutsBack(text, tokens, subs) && n <= |tokens|
    ensures SplicedIsText(text, tokens, subs, n)
    decreases n
  {
    if n > 0 {
      hide Spliced, EndOf, SplicedIsText, PutsBackAt, Capped;
      SelfSplice(text, tokens, subs, n - 1);
      assert PutsBackAt(text, tokens, subs, n - 1);
      SelfSpliceOne(text, tokens, subs, n - 1);
    }
  }

  /** Substitutes as long as their tokens leave every character in its place. */
  ghost predicate SameLengths(tokens: seq<Token>, subs: seq<string>) {
    |subs| == |tokens| && forall k :: 0 <= k < |tokens| ==> |subs[k]| == tokens[k].length > 0
  }

  lemma FillsNext(text: string, tokens: seq<Token>, subs: seq<string>, n: nat)
    requires Ordered(tokens, |text|) && |subs| == |tokens| && n < |tokens| && |subs[n]| == tokens[n].length
    requires |Spliced(text, tokens, subs, n)| == EndOf(tokens, n)
    ensures |Spliced(text, tokens, subs, n + 1)| == EndOf(tokens, n + 1) <= |text|
  {
    SplicedNext(text, tokens, subs, n);
  }

  lemma {:induction false} SplicedFills(text: string, tokens: seq<Token>, subs: seq<string>, n: nat)
    requires Ordered(tokens, |text|) && SameLengths(tokens, subs) && n <= |tokens|
    ensures |Spliced(text, tokens, subs, n)| == EndOf(tokens, n) <= |text|
    decreases n
  {
    if n > 0 {
      SplicedFills(text, tokens, subs, n - 1);
      FillsNext(text, tokens, subs, n - 1);
    }
  }

  lemma SplitSum(t: string, a: string, b: string, c: string, sum: string, w: nat)
    requires w == |a| + |b| + |c| && w <= |t| && sum == a + b + c && sum == t[..w]
    ensures a == t[..|a|] && c == t[|a| + |b|..w]
  {
    assert t[..w][..|a|] == (a + b + c)[..|a|] == a;
    assert t[..w][|a| + |b|..] == (a + b + c)[|a| + |b|..] == c;
  }

  lemma SplicedBackOne(text: string, tokens: seq<Token>, subs: seq<string>, k: nat)
    requires Ordered(tokens, |text|) && SameLengths(tokens, subs) && k < |tokens|
    requires SplicedIsText(text, tokens, subs, k + 1)
    ensures SplicedIsText(text, tokens, subs, k) && PutsBackAt(text, tokens, subs, k)
  {
    SplicedFills(text, tokens, subs, k);
    SplicedNext(text, tokens, subs, k);
    SplitSum(text, Spliced(text, tokens, subs, k), text[EndOf(tokens, k)..tokens[k].index],
             Capped(subs[k], tokens[k].shouldCap), Spliced(text, tokens, subs, k + 1), EndOf(tokens, k + 1));
  }

  lemma SplicedBackStep(text: string, tokens: seq<Token>, subs: seq<string>, k: nat)
    requires Ordered(tokens, |text|) && SameLengths(tokens, subs) && k < |tokens|
    requires SplicedIsText(text, tokens, subs, k + 1)
    ensures SplicedIsText(text, tokens, subs, k)
  {
    SplicedBackOne(text, tokens, subs, k);
  }

  lemma {:induction false} SplicedBefore(text: string, tokens: seq<Token>, subs: seq<string>, n: nat, m: nat)
    requires Ordered(tokens, |text|) && SameLengths(tokens, subs) && m <= n <= |tokens|
    requires SplicedIsText(text, tokens, subs, n)
    ensures SplicedIsText(text, tokens, subs, m)
    decreases n - m
  {
    hide SplicedIsText;
    if m < n {
      SplicedBefore(text, tokens, subs, n, m + 1);
      SplicedBackStep(text, tokens, subs, m);
    }
  }

  /** If the spliced text is the text, each substitute is the piece it replaces. */
  lemma SplicedBack(text: string, tokens: seq<Token>, subs: seq<string>, n: nat, i: nat)
    requires Ordered(tokens, |text|) && SameLengths(tokens, subs) && i < n <= |tokens|
    requires SplicedIsText(text, tokens, subs, n)
    ensures PutsBackAt(text, tokens, subs, i)
  {
    hide SplicedIsText, PutsBackAt;
    SplicedBefore(text, tokens, subs, n, i + 1);
    SplicedBackOne(text, tokens, subs, i);
  }

  ghost predicate AreOwnTexts(tokens: seq<Token>, subs: seq<string>) {
    |subs| == |tokens| && forall i :: 0 <= i < |tokens| ==> subs[i] == tokens[i].text
  }

  lemma Rejoin(text: string, at: nat)
    requires at <= |text|
    ensures text[..at] + text[at..] == text
  {
  }

  lemma SelfSubstituted(text: string, tokens: seq<Token>, subs: seq<string>)
    requires Ordered(tokens, |text|) && |subs| == |tokens| && PutsBack(text, tokens, subs)
    ensures Substituted(text, tokens, subs) == text
  {
    SelfSplice(text, tokens, subs, |tokens|);
    Rejoin(text, EndOf(tokens, |tokens|));
  }

  lemma KeptTokensPutBack(text: string, symbols: string, tokens: seq<Token>, subs: seq<string>)
    requires IsParse(text, symbols, tokens) && AreOwnTexts(tokens, subs)
    requires forall i :: 0 <= i < |tokens| ==> !Raises(tokens[i])
    ensures Substituted(text, tokens, subs) == text
  {
    SelfSubstituted(text, tokens, subs);
  }

  lemma RaisedIsChanged(t: Token)
    requires Raises(t)
    ensures Capped(t.text, t.shouldCap) != t.text
  {
    assert Capped(t.text, true)[0] == ToUpper(t.text[0]);
  }

  lemma RaisedTokenShows(text: string, symbols: string, tokens: seq<Token>, subs: seq<string>, i: nat)
    requires IsParse(text, symbols, tokens) && AreOwnTexts(tokens, subs)
    requires i < |tokens| && Raises(tokens[i])
    ensures Substituted(text, tokens, subs) != text
  {
    var n := |tokens|;
    SplicedFills(text, tokens, subs, n);
    RaisedIsChanged(tokens[i]);
    if Substituted(text, tokens, subs) == text {
      assert text[..EndOf(tokens, n)] == Spliced(text, tokens, subs, n);
      SplicedBack(text, tokens, subs, n, i);
    }
  }

  /** Round trip: putting every token back in its own place gives the text again, exactly if no
      token is raised.  In texts of up to 2^31 characters none is, whatever the tag symbols. */
  lemma SelfSubstitution(text: string, symbols: string, tokens: seq<Token>, subs: seq<string>)
    requires IsParse(text, symbols, tokens) && AreOwnTexts(tokens, subs)
    ensures Substituted(text, tokens, subs) == text <==> forall i :: 0 <= i < |tokens| ==> !Raises(tokens[i])
    ensures |text| <= HALF32 || (forall c :: c in symbols ==> !IsLower(c)) ==> Substituted(text, tokens, subs) == text
  {
    if i: nat :| i < |tokens| && Raises(tokens[i]) {
      RaisedTokenShows(text, symbols, tokens, subs, i);
      if |text| <= HALF32 || forall c :: c in symbols ==> !IsLower(c) {
        TokenKeepsCase(text, symbols, tokens[i]);
      }
    } else {
      KeptTokensPutBack(text, symbols, tokens, subs);
    }
  }

  /** A longer text that does not come back: the tag symbol is a, the token "ab" at 2^31. */
  lemma LongTextIsChanged() returns (text: string, tokens: seq<Token>)
    ensures |text| == HALF32 + 2 && IsParse(text, "a", tokens) && AreOwnTexts(tokens, ["ab"])
    ensures Substituted(text, tokens, ["ab"]) != text
  {
    text := seq(HALF32, _ => ' ') + "ab";
    tokens := [Token("ab", HALF32, 2, true)];
    AsIntIsExactBelow2G(HALF32);
    assert text[HALF32..HALF32 + 2] == "ab";
    RaisedTokenShows(text, "a", tokens, ["ab"], 0);
  }

  ghost function TextsOf(subs: seq<Sub>): seq<string> {
    seq(|subs|, k requires 0 <= k < |subs| => subs[k].text)
  }

  ghost predicate Measured(subs: seq<Sub>) {
    forall k :: 0 <= k < |subs| ==> subs[k].length == |subs[k].text|
  }

  /** No text is longer than its recorded length; it is shorter where AddSub was given a length
      beyond the end of the string. */
  ghost predicate Bounded(subs: seq<Sub>) {
    forall k :: 0 <= k < |subs| ==> |subs[k].text| <= subs[k].length
  }

  ghost function TotalLengths(subs: seq<Sub>): nat {
    if subs == [] then 0 else TotalLengths(subs[..|subs| - 1]) + subs[|subs| - 1].length
  }

  lemma TextsAppend(subs: seq<Sub>, s: Sub)
    ensures TextsOf(subs + [s]) == TextsOf(subs) + [s.text]
    ensures TotalSubs(TextsOf(subs) + [s.text]) == TotalSubs(TextsOf(subs)) + |s.text|
  {
    var texts := TextsOf(subs) + [s.text];
    assert texts[..|texts| - 1] == TextsOf(subs);
  }

  lemma LengthsAppend(subs: seq<Sub>, s: Sub)
    ensures TotalLengths(subs + [s]) == TotalLengths(subs) + s.length
    ensures Bounded(subs) && |s.text| <= s.length ==> Bounded(subs + [s])
  {
    assert (subs + [s])[..|subs|] == subs;
  }

  /** The recorded total covers all texts, and is exactly theirs if every length is. */
  lemma {:induction false} TotalsCoverTexts(subs: seq<Sub>)
    requires Bounded(subs)
    ensures TotalSubs(TextsOf(subs)) <= TotalLengths(subs)
    ensures TotalSubs(TextsOf(subs)) == TotalLengths(subs) <==> Measured(subs)
  {
    if subs != [] {
      var front, last := subs[..|subs| - 1], subs[|subs| - 1];
      assert subs == front + [last];
      TotalsCoverTexts(front);
      TextsAppend(front, last);
      LengthsAppend(front, last);
    }
  }

  /** struct TagLexerSubList. */
  class SubList {
    var subs: array<Sub>
    var subscount: nat
    var totalSubLen: nat

    ghost function Subs(): seq<Sub>
      requires subscount <= subs.Length
      reads this, subs
    {
      subs[..subscount]
    }

    ghost predicate Valid()
      reads this, subs
    {
      && subscount <= subs.Length && 0 < subs.Length
      && Bounded(Subs()) && totalSubLen == TotalLengths(Subs())
    }

    /** TagLexerSubList_Init (src/cmdtaglexer.c:25-32). */
    constructor ()
      ensures Valid() && Subs() == [] && fresh(subs)
    {
      subs := new Sub[4](_ => Sub("", 0));
      subscount, totalSubLen := 0, 0;
    }

    method Reserve()
      requires Valid()
      modifies `subs
      ensures Valid() && subscount < subs.Length && Subs() == old(Subs())
      ensures subs == old(subs) || fresh(subs)
    {
      ghost var was := Subs();
      if subscount >= subs.Length {
        var grown := new Sub[subs.Length * 2](_ => Sub("", 0));
        forall k | 0 <= k < subscount { grown[k] := subs[k]; }
        subs := grown;
        assert Subs() == was;
      }
    }

    /** src/cmdtaglexer.c:91-96, with room in the array. */
    method Store(s: Sub)
      requires subscount < subs.Length
      modifies `subscount, subs
      ensures subscount == old(subscount) + 1 && Subs() == old(Subs()) + [s]
    {
      subs[subscount] := s;
      subscount := subscount + 1;
      assert subs[..subscount - 1] == old(subs[..subscount]);
    }

    /** src/cmdtaglexer.c:91-97. */
    method AppendSub(s: Sub)
      requires Valid() && subscount < subs.Length && |s.text| <= s.length
      modifies `subscount, `totalSubLen, subs
      ensures Valid() && Subs() == old(Subs()) + [s]
    {
      LengthsAppend(Subs(), s);
      Store(s);
      totalSubLen := totalSubLen + s.length;
    }

    /** TagLexerSubList_AddSub (src/cmdtaglexer.c:82-98); strncpy stops at the end of the string,
        the length recorded is the one given. */
    method AddSub(str: string, len: nat)
      requires Valid()
      modifies this, subs
      ensures Valid() && (subs == old(subs) || fresh(subs))
      ensures Subs() == old(Subs()) + [Sub(if len < |str| then str[..len] else str, len)]
    {
      Reserve();
      AppendSub(Sub(if len < |str| then str[..len] else str, len));
    }
  }

  datatype Option<T> = None | Some(value: T)

  /** What substitution leaves of a substitute. */
  function Raised(s: Sub, cap: bool): Sub {
    s.(text := Capped(s.text, cap))
  }

  /** The first n substitutes are raised where their tokens ask for it, the others as before. */
  ghost predicate RaisedTo(subs: seq<Sub>, was: seq<Sub>, tokens: seq<Token>, n: nat) {
    && |subs| == |was| && n <= |subs| && n <= |tokens|
    && (forall k :: 0 <= k < n ==> subs[k] == Raised(was[k], tokens[k].shouldCap))
    && (forall k :: n <= k < |subs| ==> subs[k] == was[k])
  }

  lemma RaiseNext(subs: seq<Sub>, was: seq<Sub>, tokens: seq<Token>, n: nat)
    requires RaisedTo(subs, was, tokens, n) && n < |subs| && n < |tokens|
    ensures RaisedTo(subs[n := Raised(subs[n], tokens[n].shouldCap)], was, tokens, n + 1)
  {
  }

  lemma SplitOffLast(s: seq<Sub>, m: nat)
    requires 0 < m <= |s|
    ensures s[..m] == s[..m - 1] + [s[m - 1]]
  {
  }

  lemma BoundedFront(s: seq<Sub>, x: Sub)
    requires Bounded(s + [x])
    ensures Bounded(s) && |x.text| <= x.length
  {
    assert (s + [x])[|s|] == x;
    assert forall k :: 0 <= k < |s| ==> (s + [x])[k] == s[k];
  }

  /** Raising letters keeps all lengths. */
  lemma {:induction false} RaisedLengths(subs: seq<Sub>, was: seq<Sub>, tokens: seq<Token>, n: nat, m: nat)
    requires RaisedTo(subs, was, tokens, n) && m <= |was| && Bounded(was[..m])
    ensures Bounded(subs[..m]) && TotalLengths(subs[..m]) == TotalLengths(was[..m])
    decreases m
  {
    if m > 0 {
      SplitOffLast(was, m);
      SplitOffLast(subs, m);
      BoundedFront(was[..m - 1], was[m - 1]);
      RaisedLengths(subs, was, tokens, n, m - 1);
      LengthsAppend(was[..m - 1], was[m - 1]);
      LengthsAppend(subs[..m - 1], subs[m - 1]);
    }
  }

  /** What strncat appends: up to n characters, or those before the NUL. */
  function StrNCat(s: string, n: nat): string {
    if n < |s| then s[..n] else s
  }

  /** One round of the substitution (src/cmdtaglexer.c:65-76): the gap before the token, then
      its substitute, whose first letter is raised in place. */
  method SpliceOne(subs: array<Sub>, idx: nat, t: Token, text: string, strpos: nat, out: string)
      returns (out': string, strpos': nat)
    requires idx < subs.Length && |subs[idx].text| <= subs[idx].length
    requires strpos <= t.index && t.index + t.length <= |text|
    modifies subs
    ensures out' == out + text[strpos..t.index] + Capped(old(subs[idx].text), t.shouldCap)
    ensures strpos' == t.index + t.length
    ensures subs[..] == old(subs[..])[idx := Raised(old(subs[idx]), t.shouldCap)]
  {
    out' := out + text[strpos..t.index];
    if t.shouldCap && subs[idx].text != "" {
      subs[idx] := subs[idx].(text := Capped(subs[idx].text, true));
    }
    out' := out' + StrNCat(subs[idx].text, subs[idx].length);
    strpos' := strpos + (t.index - strpos) + t.length;
  }

  /** Where the loop stands after n rounds. */
  ghost predicate SplicedTo(text: string, tokens: seq<Token>, texts: seq<string>, was: seq<Sub>,
                            subs: seq<Sub>, out: string, strpos: nat, n: nat) {
    && Ordered(tokens, |text|) && |texts| == |tokens| <= |was| && n <= |tokens|
    && Bounded(was[..|tokens|]) && texts == TextsOf(was[..|tokens|])
    && strpos == EndOf(tokens, n) && strpos <= |text|
    && out == Spliced(text, tokens, texts, n)
    && RaisedTo(subs, was, tokens, n)
  }

  lemma SplicedToNext(text: string, tokens: seq<Token>, texts: seq<string>, was: seq<Sub>,
                      subs: seq<Sub>, out: string, strpos: nat, n: nat)
    requires SplicedTo(text, tokens, texts, was, subs, out, strpos, n) && n < |tokens|
    ensures |subs[n].text| <= subs[n].length
    ensures strpos <= tokens[n].index && tokens[n].index + tokens[n].length <= |text|
    ensures SplicedTo(text, tokens, texts, was, subs[n := Raised(subs[n], tokens[n].shouldCap)],
                      out + text[strpos..tokens[n].index] + Capped(subs[n].text, tokens[n].shouldCap),
                      tokens[n].index + tokens[n].length, n + 1)
  {
    SplicedNext(text, tokens, texts, n);
    RaiseNext(subs, was, tokens, n);
    assert was[..|tokens|][n] == was[n] == subs[n];
  }

  /** One round keeps the account of the loop. */
  method SpliceNext(subs: array<Sub>, idx: nat, t: Token, text: string, strpos: nat, out: string,
                    ghost tokens: seq<Token>, ghost texts: seq<string>, ghost was: seq<Sub>)
      returns (out': string, strpos': nat)
    requires SplicedTo(text, tokens, texts, was, subs[..], out, strpos, idx) && idx < |tokens| && t == tokens[idx]
    modifies subs
    ensures SplicedTo(text, tokens, texts, was, subs[..], out', strpos', idx + 1)
  {
    SplicedToNext(text, tokens, texts, was, subs[..], out, strpos, idx);
    assert subs[idx] == subs[..][idx];
    out', strpos' := SpliceOne(subs, idx, t, text, strpos, out);
  }

  lemma NothingSpliced(text: string, tokens: seq<Token>, texts: seq<string>, was: seq<Sub>)
    requires Ordered(tokens, |text|) && |texts| == |tokens| <= |was|
    requires Bounded(was[..|tokens|]) && texts == TextsOf(was[..|tokens|])
    ensures SplicedTo(text, tokens, texts, was, was, "", 0, 0)
  {
  }

  /** The loop of the substitution (src/cmdtaglexer.c:63-77). */
  method SpliceAll(tokens: array<Token>, count: nat, subs: array<Sub>, text: string,
                   ghost toks: seq<Token>, ghost texts: seq<string>, ghost was: seq<Sub>)
      returns (out: string, strpos: nat)
    requires count <= tokens.Length && tokens[..count] == toks && subs[..] == was
    requires SplicedTo(text, toks, texts, was, was, "", 0, 0)
    modifies subs
    ensures SplicedTo(text, toks, texts, was, subs[..], out, strpos, count)
  {
    out, strpos := "", 0;
    var idx := 0;
    while idx < count
      invariant 0 <= idx <= count && SplicedTo(text, toks, texts, was, subs[..], out, strpos, idx)
    {
      out, strpos := SpliceNext(subs, idx, tokens[idx], text, strpos, out, toks, texts, was);
      idx := idx + 1;
    }
  }

  /** TagLexerResult_PerformSub (src/cmdtaglexer.c:49-80): null when the counts differ; otherwise
      the result fits the buffer of `required` characters with its NUL, and fills it exactly if
      every substitute is as long as AddSub was told. */
  method PerformSub(result: Result, subs: SubList, text: string) returns (subbed: Option<string>, required: int)
    requires result.Valid() && subs.Valid() && Ordered(result.Tokens(), |text|)
    modifies subs.subs
    ensures subbed.None? <==> result.tokencount != subs.subscount
    ensures subbed.Some? ==>
      && required == (|text| - TotalLength(old(result.Tokens()))) + TotalLengths(old(subs.Subs())) + 1
      && |subbed.value| <= required - 1
      && (|subbed.value| == required - 1 <==> Measured(old(subs.Subs())))
      && subbed.value == Substituted(text, old(result.Tokens()), TextsOf(old(subs.Subs())))
    ensures subs.Valid()
    ensures subbed.None? ==> subs.subs[..] == old(subs.subs[..])
    ensures subbed.Some? ==> RaisedTo(subs.subs[..], old(subs.subs[..]), old(result.Tokens()), subs.subscount)
  {
    if result.tokencount != subs.subscount {
      return None, 0;
    }
    ghost var toks, texts := result.Tokens(), TextsOf(subs.Subs());
    SubstitutedLength(text, toks, texts);
    TotalsCoverTexts(subs.Subs());
    assert subs.subs[..][..subs.subscount] == subs.Subs();
    required := (|text| - result.totalTokenLen) + subs.totalSubLen + 1;
    ghost var was := subs.subs[..];
    NothingSpliced(text, toks, texts, was);
    var out, strpos := SpliceAll(result.tokens, result.tokencount, subs.subs, text, toks, texts, was);
    RaisedLengths(subs.subs[..], was, toks, subs.subscount, subs.subscount);
    assert subs.subs[..][..subs.subscount] == subs.Subs() && was[..subs.subscount] == old(subs.Subs());
    out := out + text[strpos..];
    subbed := Some(out);
  }
}
