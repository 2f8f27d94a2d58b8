/** The byte-at-a-time telnet parser of src/telnet.c.  The framing is that of section
    "TELNET COMMAND STRUCTURE" of RFC 854, except that IAC IAC is read as a command verb. */
module Telnet {
  newtype byte = x: int | 0 <= x < 256

  const IAC: byte := 255
  const DONT: byte := 254
  const DO: byte := 253
  const WONT: byte := 252
  const WILL: byte := 251
  const SB: byte := 250
  const SE: byte := 240

  const ECHO: byte := 1
  const SGA: byte := 3
  const TT: byte := 24
  const TS: byte := 32
  const LM: byte := 34
  const MCCP2: byte := 86
  const MCCP3: byte := 87

  datatype TelState = INPUT | IAC_SEEN | IN_SB | IN_SE | CMD | ERROR

  /** The option bits the parser changes. */
  datatype Options = Options(echo: bool, sga: bool, mccp2: bool, mccp3: bool)

  /** src/telnet.c:105-113. */
  predicate Is2ByteCmd(x: byte) {
    SE <= x <= 250
  }

  predicate Is3ByteCmd(x: byte) {
    x <= 140 || x == 86 || x == 87
  }

  /** What a three-byte command does to the options (src/telnet.c:130-211). */
  function OptionsAfter(opts: Options, verb: byte, x: byte): Options {
    if x == MCCP2 && verb == DO then opts.(mccp2 := true)
    else if x == ECHO && verb == DO then opts.(echo := true)
    else if x == SGA && verb == DO then opts.(sga := true)
    else if x == SGA && verb == DONT then opts.(sga := false)
    else opts
  }

  /** What a three-byte command sends back. */
  function Reply(verb: byte, x: byte): seq<byte> {
    if x == TS then [IAC, SB, TS, ECHO, IAC, SE]
    else if x == TT then [IAC, SB, TT, ECHO, IAC, SE]
    else if x == MCCP2 then (if verb == DO then [IAC, SB, MCCP2, IAC, SE] else [])
    else if x == MCCP3 || x == ECHO || x == LM || x == SGA then []
    else if verb == DO then [IAC, WONT, x]
    else if verb == WILL then [IAC, DONT, x]
    else []
  }

  /** RunSubnegotiationCmd (src/telnet.c:213-275) on the options. */
  function OptionsAfterSub(opts: Options, args: seq<byte>): Options {
    if args != [] && args[0] == MCCP3 then opts.(mccp3 := true) else opts
  }

  /** A parser with its argument buffer, the characters collected and the bytes sent. */
  datatype Stream = Stream(state: TelState, lastByte: byte, args: seq<byte>, argCapacity: nat,
                           dump: seq<byte>, dumpCapacity: nat, opts: Options, sent: seq<byte>)

  // ---------- the grammar ----------

  datatype Item =
    | Data(b: byte)
    | Cmd2(c: byte)
    | Cmd3(verb: byte, option: byte)
    | Sub(subArgs: seq<byte>)

  ghost predicate IsItem(item: Item) {
    match item
    case Data(b) => b != IAC
    case Cmd2(c) => SE <= c < SB
    case Cmd3(v, o) => !Is2ByteCmd(v) && Is3ByteCmd(o)
    case Sub(args) => IAC !in args
  }

  ghost function EncodeItem(item: Item): seq<byte> {
    match item
    case Data(b) => [b]
    case Cmd2(c) => [IAC, c]
    case Cmd3(v, o) => [IAC, v, o]
    case Sub(args) => [IAC, SB] + args + [IAC, SE]
  }

  ghost function Encode(items: seq<Item>): seq<byte> {
    if items == [] then [] else Encode(items[..|items| - 1]) + EncodeItem(items[|items| - 1])
  }

  ghost function DataOf(items: seq<Item>): seq<byte> {
    if items == [] then []
    else DataOf(items[..|items| - 1]) + (if items[|items| - 1].Data? then [items[|items| - 1].b] else [])
  }

  ghost function RunItem(opts: Options, item: Item): Options {
    match item
    case Data(_) => opts
    case Cmd2(_) => opts
    case Cmd3(v, o) => OptionsAfter(opts, v, o)
    case Sub(args) => OptionsAfterSub(opts, args)
  }

  ghost function RunItems(opts: Options, items: seq<Item>): Options {
    if items == [] then opts else RunItem(RunItems(opts, items[..|items| - 1]), items[|items| - 1])
  }

  ghost function RepliesTo(items: seq<Item>): seq<byte> {
    if items == [] then []
    else
      var last := items[|items| - 1];
      RepliesTo(items[..|items| - 1]) + (if last.Cmd3? then Reply(last.verb, last.option) else [])
  }

  ghost predicate Fits(items: seq<Item>, argCapacity: nat, dumpCapacity: nat) {
    && (forall k :: 0 <= k < |items| ==> IsItem(items[k]))
    && (forall k :: 0 <= k < |items| && items[k].Sub? ==> |items[k].subArgs| <= argCapacity)
    && |DataOf(items)| <= dumpCapacity
  }

  // ---------- the parser as a function ----------

  /** TelnetStream_ProcessByte (src/telnet.c:288-385). */
  function Step(s: Stream, x: byte): Stream {
    var t :=
      match s.state
      case INPUT =>
        if x == IAC then s.(state := IAC_SEEN)
        else if |s.dump| < s.dumpCapacity then s.(dump := s.dump + [x])
        else s.(state := ERROR)
      case IAC_SEEN =>
        if x == SB then s.(state := IN_SB, args := [])
        else if !Is2ByteCmd(x) then s.(state := CMD)
        else s.(state := INPUT)
      case IN_SB =>
        if x == IAC then s.(state := IN_SE)
        else if |s.args| < s.argCapacity then s.(args := s.args + [x])
        else s.(state := ERROR)
      case IN_SE =>
        if x == SE then s.(state := INPUT, opts := OptionsAfterSub(s.opts, s.args))
        else s.(state := ERROR)
      case CMD =>
        if Is3ByteCmd(x) then
          s.(state := INPUT, opts := OptionsAfter(s.opts, s.lastByte, x), sent := s.sent + Reply(s.lastByte, x))
        else s.(state := ERROR)
      case ERROR => s;
    t.(lastByte := x)
  }

  ghost function Run(s: Stream, bytes: seq<byte>): Stream {
    if bytes == [] then s else Step(Run(s, bytes[..|bytes| - 1]), bytes[|bytes| - 1])
  }

  lemma {:induction false} RunConcat(s: Stream, a: seq<byte>, b: seq<byte>)
    ensures Run(s, a + b) == Run(Run(s, a), b)
    decreases |b|
  {
    if b == [] {
      assert a + b == a;
    } else {
      RunConcat(s, a, b[..|b| - 1]);
      assert (a + b)[..|a + b| - 1] == a + b[..|b| - 1];
    }
  }

  /** A stream at the start of input. */
  ghost predicate Fresh(s: Stream) {
    s.state == INPUT && s.dump == [] && s.sent == []
  }

  /** The bytes read since the last complete item, told by the state. */
  ghost function Partial(s: Stream): seq<byte> {
    match s.state
    case INPUT => []
    case IAC_SEEN => [IAC]
    case IN_SB => [IAC, SB] + s.args
    case IN_SE => [IAC, SB] + s.args + [IAC]
    case CMD => [IAC, s.lastByte]
    case ERROR => []
  }

  /** s is what reading the items and then the partial item of s leaves behind. */
  ghost predicate Explains(s0: Stream, bytes: seq<byte>, s: Stream, items: seq<Item>) {
    && Fits(items, s0.argCapacity, s0.dumpCapacity)
    && bytes == Encode(items) + Partial(s)
    && s.dump == DataOf(items) && s.opts == RunItems(s0.opts, items) && s.sent == RepliesTo(items)
    && s.argCapacity == s0.argCapacity && s.dumpCapacity == s0.dumpCapacity
    && (s.state == IN_SB || s.state == IN_SE ==> IAC !in s.args && |s.args| <= s.argCapacity)
    && (s.state == CMD ==> !Is2ByteCmd(s.lastByte))
  }

  lemma ItemCompletes(items: seq<Item>, item: Item, opts: Options)
    ensures (items + [item])[..|items|] == items
    ensures Encode(items + [item]) == Encode(items) + EncodeItem(item)
    ensures DataOf(items + [item]) == DataOf(items) + (if item.Data? then [item.b] else [])
    ensures RunItems(opts, items + [item]) == RunItem(RunItems(opts, items), item)
    ensures RepliesTo(items + [item]) == RepliesTo(items) + (if item.Cmd3? then Reply(item.verb, item.option) else [])
  {
    assert (items + [item])[..|items + [item]| - 1] == items;
  }

  lemma FitsAppend(items: seq<Item>, item: Item, argCapacity: nat, dumpCapacity: nat)
    requires Fits(items, argCapacity, dumpCapacity) && IsItem(item)
    requires item.Sub? ==> |item.subArgs| <= argCapacity
    requires item.Data? ==> |DataOf(items)| < dumpCapacity
    ensures Fits(items + [item], argCapacity, dumpCapacity)
  {
    ItemCompletes(items, item, Options(false, false, false, false));
  }

  lemma Assoc(a: seq<byte>, b: seq<byte>, c: seq<byte>)
    ensures (a + b) + c == a + (b + c)
  {
  }

  /** The item that byte x completes in a state that returns to input. */
  ghost function Completed(s: Stream, x: byte): Item {
    match s.state
    case INPUT => Data(x)
    case IAC_SEEN => Cmd2(x)
    case CMD => Cmd3(s.lastByte, x)
    case _ => Sub(s.args)
  }

  lemma CompletedBytes(s: Stream, x: byte)
    requires s.state != ERROR && Step(s, x).state == INPUT
    requires s.state == IN_SB || s.state == IN_SE ==> IAC !in s.args
    requires s.state == CMD ==> !Is2ByteCmd(s.lastByte)
    ensures IsItem(Completed(s, x)) && Partial(s) + [x] == EncodeItem(Completed(s, x))
  {
  }

  lemma CompletedEffects(s: Stream, x: byte)
    requires s.state != ERROR && Step(s, x).state == INPUT
    ensures var item, t := Completed(s, x), Step(s, x);
      && t.dump == s.dump + (if item.Data? then [item.b] else [])
      && t.opts == RunItem(s.opts, item) && Partial(t) == []
      && t.sent == s.sent + (if item.Cmd3? then Reply(item.verb, item.option) else [])
      && t.argCapacity == s.argCapacity && t.dumpCapacity == s.dumpCapacity
      && (item.Data? ==> |s.dump| < s.dumpCapacity) && (item.Sub? ==> s.state == IN_SE && item.subArgs == s.args)
  {
  }

  lemma StepCompletes(s0: Stream, bytes: seq<byte>, s: Stream, items: seq<Item>, x: byte)
    requires s.state != ERROR && Explains(s0, bytes, s, items) && Step(s, x).state == INPUT
    ensures Explains(s0, bytes + [x], Step(s, x), items + [Completed(s, x)])
  {
    var item := Completed(s, x);
    CompletedBytes(s, x);
    CompletedEffects(s, x);
    ItemCompletes(items, item, s0.opts);
    FitsAppend(items, item, s0.argCapacity, s0.dumpCapacity);
    Assoc(Encode(items), Partial(s), [x]);
  }

  lemma PartialGrows(s: Stream, x: byte)
    requires Step(s, x).state != ERROR && Step(s, x).state != INPUT
    ensures Partial(s) + [x] == Partial(Step(s, x))
  {
  }

  lemma StepExtends(s0: Stream, bytes: seq<byte>, s: Stream, items: seq<Item>, x: byte)
    requires s.state != ERROR && Explains(s0, bytes, s, items)
    requires Step(s, x).state != ERROR && Step(s, x).state != INPUT
    ensures Explains(s0, bytes + [x], Step(s, x), items)
  {
    hide Encode, DataOf, RunItems, RepliesTo, Fits;
    PartialGrows(s, x);
    Assoc(Encode(items), Partial(s), [x]);
  }

  /** One byte either extends the partial item or completes an item. */
  lemma StepExplained(s0: Stream, bytes: seq<byte>, s: Stream, items: seq<Item>, x: byte) returns (items': seq<Item>)
    requires s.state != ERROR && Explains(s0, bytes, s, items) && Step(s, x).state != ERROR
    ensures Explains(s0, bytes + [x], Step(s, x), items')
  {
    if Step(s, x).state == INPUT {
      StepCompletes(s0, bytes, s, items, x);
      items' := items + [Completed(s, x)];
    } else {
      StepExtends(s0, bytes, s, items, x);
      items' := items;
    }
  }

  lemma {:induction false} ErrorIsAbsorbing(s: Stream, bytes: seq<byte>)
    requires s.state == ERROR
    ensures Run(s, bytes).state == ERROR && Run(s, bytes).dump == s.dump
    ensures Run(s, bytes).opts == s.opts && Run(s, bytes).sent == s.sent
    decreases |bytes|
  {
    if bytes != [] { ErrorIsAbsorbing(s, bytes[..|bytes| - 1]); }
  }

  lemma NothingRead(s0: Stream)
    requires Fresh(s0)
    ensures Explains(s0, [], s0, [])
  {
  }

  lemma LastByte(s0: Stream, bytes: seq<byte>)
    requires bytes != []
    ensures bytes == bytes[..|bytes| - 1] + [bytes[|bytes| - 1]]
    ensures Run(s0, bytes) == Step(Run(s0, bytes[..|bytes| - 1]), bytes[|bytes| - 1])
    ensures Run(s0, bytes).state != ERROR ==> Run(s0, bytes[..|bytes| - 1]).state != ERROR
  {
  }

  /** Soundness: every run that has not failed reads a list of items and part of another one;
      data, options and replies are those of the items. */
  lemma {:induction false} RunExplained(s0: Stream, bytes: seq<byte>) returns (items: seq<Item>)
    requires Fresh(s0) && Run(s0, bytes).state != ERROR
    ensures Explains(s0, bytes, Run(s0, bytes), items)
    decreases |bytes|
  {
    if bytes == [] {
      NothingRead(s0);
      items := [];
    } else {
      var before, x := bytes[..|bytes| - 1], bytes[|bytes| - 1];
      LastByte(s0, bytes);
      items := RunExplained(s0, before);
      items := StepExplained(s0, before, Run(s0, before), items, x);
    }
  }

  // ---------- completeness ----------

  lemma RunSingle(s: Stream, x: byte)
    ensures Run(s, [x]) == Step(s, x)
  {
    assert [x][..0] == [];
    assert Run(s, [x][..0]) == s;
  }

  lemma {:induction false} RunArgs(s: Stream, args: seq<byte>)
    requires s.state == IN_SB && s.args == [] && IAC !in args && |args| <= s.argCapacity
    ensures var t := Run(s, args);
      t == s.(args := args, lastByte := t.lastByte)
    decreases |args|
  {
    if args != [] {
      var shorter := args[..|args| - 1];
      RunArgs(s, shorter);
      assert shorter + [args[|args| - 1]] == args;
      assert args[|args| - 1] in args;
    }
  }

  lemma RunsSub(s: Stream, args: seq<byte>)
    requires s.state == INPUT && IAC !in args && |args| <= s.argCapacity
    ensures var t := Run(s, [IAC, SB] + args + [IAC, SE]);
      t == s.(state := INPUT, args := args, opts := OptionsAfterSub(s.opts, args), lastByte := SE)
  {
    RunSingle(s, IAC);
    RunConcat(s, [IAC], [SB]);
    assert [IAC] + [SB] == [IAC, SB];
    var s1 := Run(s, [IAC]);
    RunSingle(s1, SB);
    var s2 := Run(s, [IAC, SB]);
    RunArgs(s2, args);
    RunConcat(s, [IAC, SB], args);
    var s3 := Run(s2, args);
    RunSingle(s3, IAC);
    RunConcat(s, [IAC, SB] + args, [IAC]);
    var s4 := Run(s3, [IAC]);
    RunSingle(s4, SE);
    RunConcat(s, [IAC, SB] + args + [IAC], [SE]);
    assert [IAC, SB] + args + [IAC] + [SE] == [IAC, SB] + args + [IAC, SE];
  }

  /** Reading one item from the input state. */
  lemma RunsItem(s: Stream, item: Item)
    requires s.state == INPUT && IsItem(item)
    requires item.Sub? ==> |item.subArgs| <= s.argCapacity
    requires item.Data? ==> |s.dump| < s.dumpCapacity
    ensures var t := Run(s, EncodeItem(item));
      && t.state == INPUT && t.opts == RunItem(s.opts, item)
      && t.dump == s.dump + (if item.Data? then [item.b] else [])
      && t.sent == s.sent + (if item.Cmd3? then Reply(item.verb, item.option) else [])
      && t.argCapacity == s.argCapacity && t.dumpCapacity == s.dumpCapacity
  {
    match item
    case Data(b) => RunSingle(s, b);
    case Cmd2(c) =>
      RunSingle(s, IAC);
      RunConcat(s, [IAC], [c]);
      RunSingle(Run(s, [IAC]), c);
    case Cmd3(v, o) =>
      RunSingle(s, IAC);
      RunConcat(s, [IAC], [v]);
      RunSingle(Run(s, [IAC]), v);
      RunConcat(s, [IAC] + [v], [o]);
      RunSingle(Run(s, [IAC] + [v]), o);
      assert [IAC] + [v] + [o] == EncodeItem(item);
    case Sub(args) => RunsSub(s, args);
  }

  lemma FitsPrefix(items: seq<Item>, argCapacity: nat, dumpCapacity: nat)
    requires items != [] && Fits(items, argCapacity, dumpCapacity)
    ensures Fits(items[..|items| - 1], argCapacity, dumpCapacity)
    ensures items[|items| - 1].Data? ==> |DataOf(items[..|items| - 1])| < dumpCapacity
  {
  }

  /** Completeness: the parser reads every list of items within its capacities. */
  lemma {:induction false} RunsItems(s0: Stream, items: seq<Item>)
    requires Fresh(s0) && Fits(items, s0.argCapacity, s0.dumpCapacity)
    ensures var t := Run(s0, Encode(items));
      && t.state == INPUT && t.dump == DataOf(items) && t.opts == RunItems(s0.opts, items) && t.sent == RepliesTo(items)
      && t.argCapacity == s0.argCapacity && t.dumpCapacity == s0.dumpCapacity
    decreases |items|
  {
    if items != [] {
      var shorter, last := items[..|items| - 1], items[|items| - 1];
      FitsPrefix(items, s0.argCapacity, s0.dumpCapacity);
      RunsItems(s0, shorter);
      RunConcat(s0, Encode(shorter), EncodeItem(last));
      RunsItem(Run(s0, Encode(shorter)), last);
    }
  }

  /** The parser is back at input exactly when the bytes are a list of items within capacity,
      and the characters it collected are then exactly the data bytes. */
  lemma AcceptsExactlyItems(s0: Stream, bytes: seq<byte>)
    requires Fresh(s0)
    ensures Run(s0, bytes).state == INPUT <==>
      exists items :: Fits(items, s0.argCapacity, s0.dumpCapacity) && Encode(items) == bytes
    ensures forall items :: Fits(items, s0.argCapacity, s0.dumpCapacity) && Encode(items) == bytes ==>
      && Run(s0, bytes).dump == DataOf(items)
      && Run(s0, bytes).opts == RunItems(s0.opts, items)
      && Run(s0, bytes).sent == RepliesTo(items)
  {
    if Run(s0, bytes).state == INPUT {
      var items := RunExplained(s0, bytes);
      assert Encode(items) == bytes;
    }
    forall items | Fits(items, s0.argCapacity, s0.dumpCapacity) && Encode(items) == bytes
      ensures && Run(s0, bytes).state == INPUT && Run(s0, bytes).dump == DataOf(items)
              && Run(s0, bytes).opts == RunItems(s0.opts, items) && Run(s0, bytes).sent == RepliesTo(items)
    {
      RunsItems(s0, items);
    }
  }

  /** In the command state the last byte is the verb behind the pending IAC. */
  lemma CommandStateHoldsVerb(s0: Stream, bytes: seq<byte>) returns (items: seq<Item>)
    requires Fresh(s0) && Run(s0, bytes).state == CMD
    ensures bytes == Encode(items) + [IAC, Run(s0, bytes).lastByte] && !Is2ByteCmd(Run(s0, bytes).lastByte)
  {
    items := RunExplained(s0, bytes);
  }

  // ---------- what is answered, in numbers ----------

  /** A second byte behind 255 completes a command exactly if it is 240 to 249. */
  lemma TwoByteCommands(s: Stream, v: byte)
    requires s.state == INPUT
    ensures var t := Run(s, [255, v]);
      && (t.state == INPUT <==> 240 <= v <= 249) && t.state != ERROR
      && t.opts == s.opts && t.sent == s.sent && t.dump == s.dump
  {
    RunSingle(s, 255);
    RunConcat(s, [255], [v]);
    assert [255] + [v] == [255, v];
    RunSingle(Run(s, [255]), v);
  }

  lemma RunThree(s: Stream, v: byte, x: byte)
    requires s.state == INPUT && (v < 240 || 250 < v)
    ensures Run(s, [255, v]) == s.(state := CMD, lastByte := v)
    ensures Run(s, [255, v, x]) == Step(s.(state := CMD, lastByte := v), x)
  {
    RunSingle(s, 255);
    RunConcat(s, [255], [v]);
    assert [255] + [v] == [255, v];
    RunSingle(Run(s, [255]), v);
    RunConcat(s, [255, v], [x]);
    assert [255, v] + [x] == [255, v, x];
    RunSingle(Run(s, [255, v]), x);
  }

  /** Options up to 140 can be negotiated; behind others the stream fails, without an answer. */
  lemma OptionsUpTo140(s: Stream, v: byte, x: byte)
    requires s.state == INPUT && (v < 240 || 250 < v)
    ensures Run(s, [255, v, x]).state == if x <= 140 then INPUT else ERROR
    ensures Run(s, [255, v, x]).dump == s.dump
    ensures x > 140 ==> Run(s, [255, v, x]).sent == s.sent && Run(s, [255, v, x]).opts == s.opts
  {
    RunThree(s, v, x);
  }

  predicate IsKnown(x: byte) { x in {1, 3, 24, 32, 34, 86, 87} }

  /** An offer (251) or a request (253) of an unknown option is refused, with the verb that answers
      it, 254 or 252, and the same option; nothing else is. */
  lemma UnknownOptionsAreRefused(s: Stream, v: byte, x: byte)
    requires s.state == INPUT && (v < 240 || 250 < v) && x <= 140 && !IsKnown(x)
    ensures Run(s, [255, v, x]).sent ==
      s.sent + (if v == 251 || v == 253 then [255, (505 - v as int) as byte, x] else [])
    ensures Run(s, [255, v, x]).opts == s.opts
  {
    RunThree(s, v, x);
  }

  /** What the known options change: 253 turns 86, 1 and 3 on, 254 turns 3 off. */
  lemma KnownOptionsChange(s: Stream, v: byte, x: byte)
    requires s.state == INPUT && (v < 240 || 250 < v) && IsKnown(x)
    ensures var o, o' := s.opts, Run(s, [255, v, x]).opts;
      && (o'.mccp2 <==> o.mccp2 || (v == 253 && x == 86))
      && (o'.echo <==> o.echo || (v == 253 && x == 1))
      && (o'.sga <==> (o.sga && !(v == 254 && x == 3)) || (v == 253 && x == 3))
      && o'.mccp3 == o.mccp3
  {
    RunThree(s, v, x);
  }

  /** What is sent for them: a subnegotiation that asks for the terminal's speed or type, or, for a
      request of 86, that announces compression. */
  lemma KnownOptionsAnswer(s: Stream, v: byte, x: byte)
    requires s.state == INPUT && (v < 240 || 250 < v) && IsKnown(x)
    ensures Run(s, [255, v, x]).sent == s.sent +
      (if x == 24 || x == 32 then [255, 250, x, 1, 255, 240]
       else if x == 86 && v == 253 then [255, 250, 86, 255, 240]
       else [])
  {
    RunThree(s, v, x);
  }

  /** A subnegotiation turns the compression of input on exactly if it starts with 87, and is not
      answered. */
  lemma SubnegotiationTurnsOn87(s: Stream, args: seq<byte>)
    requires s.state == INPUT && 255 !in args && |args| <= s.argCapacity
    ensures var t := Run(s, [255, 250] + args + [255, 240]);
      && t.state == INPUT && t.sent == s.sent && t.dump == s.dump
      && t.opts == s.opts.(mccp3 := s.opts.mccp3 || (args != [] && args[0] == 87))
  {
    RunsSub(s, args);
  }

  // ---------- negotiation ends ----------

  /** Nothing sent or collected, back at input, with the same capacities. */
  ghost predicate Silent(s: Stream, t: Stream) {
    && s.state == INPUT && t.state == INPUT && t.sent == s.sent && t.dump == s.dump
    && t.argCapacity == s.argCapacity && t.dumpCapacity == s.dumpCapacity
  }

  /** A refusal is not answered. */
  lemma RefusalEndsIt(s: Stream, v: byte, x: byte)
    requires s.state == INPUT && (v == 251 || v == 253) && x <= 140 && !IsKnown(x)
    ensures Silent(s, Run(s, [255, (505 - v as int) as byte, x]))
  {
    RunThree(s, (505 - v as int) as byte, x);
  }

  lemma SubIsNotAnswered(s: Stream, args: seq<byte>, bytes: seq<byte>)
    requires s.state == INPUT && IAC !in args && |args| <= s.argCapacity && bytes == [IAC, SB] + args + [IAC, SE]
    ensures Silent(s, Run(s, bytes))
  {
    RunsSub(s, args);
  }

  lemma RunNothing(s: Stream)
    requires s.state == INPUT
    ensures Silent(s, Run(s, []))
  {
  }

  /** A parser that reads an answer of another one does not answer. */
  lemma AnswerIsNotAnswered(s: Stream, v: byte, x: byte)
    requires s.state == INPUT && 2 <= s.argCapacity && Is3ByteCmd(x)
    ensures Silent(s, Run(s, Reply(v, x)))
  {
    hide Run, Silent;
    if x == TS || x == TT {
      SubIsNotAnswered(s, [x, ECHO], Reply(v, x));
    } else if Reply(v, x) == [] {
      RunNothing(s);
    } else if x == MCCP2 {
      SubIsNotAnswered(s, [MCCP2], Reply(v, x));
    } else {
      RefusalEndsIt(s, v, x);
    }
  }

  lemma {:induction false} AnswersAreNotAnswered(s: Stream, items: seq<Item>)
    requires s.state == INPUT && 2 <= s.argCapacity && forall k :: 0 <= k < |items| ==> IsItem(items[k])
    ensures Silent(s, Run(s, RepliesTo(items)))
    decreases |items|
  {
    if items != [] {
      var shorter, last := items[..|items| - 1], items[|items| - 1];
      AnswersAreNotAnswered(s, shorter);
      if last.Cmd3? {
        RunConcat(s, RepliesTo(shorter), Reply(last.verb, last.option));
        AnswerIsNotAnswered(Run(s, RepliesTo(shorter)), last.verb, last.option);
      } else {
        assert RepliesTo(shorter) + [] == RepliesTo(shorter);
      }
    }
  }

  /** Negotiation between two such parsers ends: what one sends, whatever bytes made it, the other
      reads to the end, without data, without failing and without sending anything back. */
  lemma NegotiationEnds(s0: Stream, bytes: seq<byte>, peer: Stream)
    requires Fresh(s0) && Run(s0, bytes).state != ERROR && peer.state == INPUT && 2 <= peer.argCapacity
    ensures Silent(peer, Run(peer, Run(s0, bytes).sent))
  {
    var items := RunExplained(s0, bytes);
    AnswersAreNotAnswered(peer, items);
  }

  // ---------- the decomposition is unique ----------

  ghost predicate AreItems(items: seq<Item>) {
    forall k :: 0 <= k < |items| ==> IsItem(items[k])
  }

  lemma EncodeLast(items: seq<Item>, init: seq<Item>, last: Item)
    requires items == init + [last]
    ensures Encode(items) == Encode(init) + EncodeItem(last)
  {
    assert items[..|items| - 1] == init;
  }

  lemma SplitLast(a: seq<Item>, b: seq<Item>)
    requires b != []
    ensures a + b == (a + b[..|b| - 1]) + [b[|b| - 1]] && b == b[..|b| - 1] + [b[|b| - 1]]
  {
  }

  lemma {:induction false} EncodeConcat(a: seq<Item>, b: seq<Item>)
    ensures Encode(a + b) == Encode(a) + Encode(b)
    decreases |b|
  {
    if b == [] {
      assert a + b == a;
    } else {
      var init, last := b[..|b| - 1], b[|b| - 1];
      SplitLast(a, b);
      EncodeConcat(a, init);
      EncodeLast(a + b, a + init, last);
      EncodeLast(b, init, last);
      Assoc(Encode(a), Encode(init), EncodeItem(last));
    }
  }

  lemma EncodeOne(item: Item)
    ensures Encode([item]) == EncodeItem(item)
  {
    assert [item][..0] == [];
  }

  lemma EncodeFront(items: seq<Item>)
    requires items != []
    ensures Encode(items) == EncodeItem(items[0]) + Encode(items[1..])
  {
    EncodeConcat([items[0]], items[1..]);
    EncodeOne(items[0]);
    assert [items[0]] + items[1..] == items;
  }

  lemma FirstIac(a: seq<byte>, r: seq<byte>)
    requires IAC !in a
    ensures var w := a + [IAC, SE] + r;
      && w[|a|] == IAC && (forall k :: 0 <= k < |a| ==> w[k] != IAC)
      && w[..|a|] == a && w[|a| + 2..] == r
  {
  }

  lemma SubEndsAtFirstIac(a: seq<byte>, b: seq<byte>, r: seq<byte>, t: seq<byte>)
    requires IAC !in a && IAC !in b && a + [IAC, SE] + r == b + [IAC, SE] + t
    ensures a == b && r == t
  {
    FirstIac(a, r);
    FirstIac(b, t);
  }

  /** What the first bytes of an encoding tell about the item and the rest. */
  lemma HeadTells(x: Item, r: seq<byte>)
    ensures var w := EncodeItem(x) + r;
      match x
      case Data(b) => w[0] == b && r == w[1..]
      case Cmd2(c) => w[0] == IAC && w[1] == c && r == w[2..]
      case Cmd3(v, o) => w[0] == IAC && w[1] == v && w[2] == o && r == w[3..]
      case Sub(args) => w[0] == IAC && w[1] == SB && w[2..] == args + [IAC, SE] + r
  {
    if x.Sub? {
      assert EncodeItem(x) + r == [IAC, SB] + (x.subArgs + [IAC, SE] + r);
    }
  }

  /** No encoded item is a proper prefix of another one. */
  lemma ItemsArePrefixFree(x: Item, y: Item, r: seq<byte>, t: seq<byte>)
    requires IsItem(x) && IsItem(y) && EncodeItem(x) + r == EncodeItem(y) + t
    ensures x == y && r == t
  {
    HeadTells(x, r);
    HeadTells(y, t);
    if x.Sub? { SubEndsAtFirstIac(x.subArgs, y.subArgs, r, t); }
  }

  lemma EncodedIsLonger(items: seq<Item>)
    requires items != []
    ensures Encode(items) != []
  {
    EncodeFront(items);
  }

  /** Equal encodings start with the same item and go on with the same bytes. */
  lemma HeadsAgree(a: seq<Item>, b: seq<Item>)
    requires AreItems(a) && AreItems(b) && a != [] && b != [] && Encode(a) == Encode(b)
    ensures a[0] == b[0] && Encode(a[1..]) == Encode(b[1..])
  {
    EncodeFront(a);
    EncodeFront(b);
    ItemsArePrefixFree(a[0], b[0], Encode(a[1..]), Encode(b[1..]));
  }

  lemma SameHeadAndRest(a: seq<Item>, b: seq<Item>)
    requires a != [] && b != [] && a[0] == b[0] && a[1..] == b[1..]
    ensures a == b
  {
    assert a == [a[0]] + a[1..] && b == [b[0]] + b[1..];
  }

  /** A byte string decomposes into items in at most one way. */
  lemma {:induction false} DecompositionIsUnique(a: seq<Item>, b: seq<Item>)
    requires AreItems(a) && AreItems(b) && Encode(a) == Encode(b)
    ensures a == b
    decreases |a|
  {
    if a == [] {
      if b != [] { EncodedIsLonger(b); }
    } else if b == [] {
      EncodedIsLonger(a);
    } else {
      HeadsAgree(a, b);
      DecompositionIsUnique(a[1..], b[1..]);
      SameHeadAndRest(a, b);
    }
  }

  // ---------- the parser as the source has it ----------

  /** cv_t as the parser uses it: cv_pushlimited and cv_clear (src/charvector.c:50-54, 147-160). */
  class CharVector {
    var data: array<byte>
    var length: nat

    ghost predicate Valid()
      reads this
    {
      length <= data.Length
    }

    ghost function Contents(): seq<byte>
      requires Valid()
      reads this, data
    {
      data[..length]
    }

    constructor (capacity: nat)
      ensures Valid() && Contents() == [] && fresh(data) && data.Length == capacity
    {
      data := new byte[capacity](_ => 0);
      length := 0;
    }

    method PushLimited(newel: byte) returns (r: int)
      requires Valid()
      modifies this`length, data
      ensures Valid()
      ensures r == if old(length) < data.Length then 0 else -1
      ensures Contents() == if old(length) < data.Length then old(Contents()) + [newel] else old(Contents())
    {
      if length < data.Length {
        data[length] := newel;
        length := length + 1;
        return 0;
      } else {
        return -1;
      }
    }

    method Clear()
      requires Valid()
      modifies this`length, data
      ensures Valid() && Contents() == []
    {
      forall k | 0 <= k < data.Length { data[k] := 0; }
      length := 0;
    }
  }

  class TelnetStream {
    var state: TelState
    var lastByte: byte
    const sbArgs: CharVector
    var opts: Options
    var sent: seq<byte>      // what went to the socket

    ghost predicate Valid(dump: CharVector)
      reads this, sbArgs, sbArgs.data, dump, dump.data
    {
      sbArgs.Valid() && dump.Valid() && sbArgs != dump && sbArgs.data != dump.data
    }

    ghost function Abstract(dump: CharVector): Stream
      requires Valid(dump)
      reads this, sbArgs, sbArgs.data, dump, dump.data
    {
      Stream(state, lastByte, sbArgs.Contents(), sbArgs.data.Length, dump.Contents(), dump.data.Length, opts, sent)
    }

    constructor (argCapacity: nat)
      ensures state == INPUT && sent == [] && fresh(sbArgs) && sbArgs.Valid() && fresh(sbArgs.data)
      ensures sbArgs.Contents() == [] && sbArgs.data.Length == argCapacity
    {
      state, lastByte, sent := INPUT, 0, [];
      opts := Options(false, false, false, false);
      sbArgs := new CharVector(argCapacity);
    }

    /** Run3ByteCmd (src/telnet.c:130-211). */
    method Run3ByteCmd(x: byte)
      modifies `opts, `sent
      ensures opts == OptionsAfter(old(opts), lastByte, x) && sent == old(sent) + Reply(lastByte, x)
    {
      if x == TS {
        sent := sent + [IAC, SB, TS, ECHO, IAC, SE];
      } else if x == TT {
        sent := sent + [IAC, SB, TT, ECHO, IAC, SE];
      } else if x == MCCP2 {
        if lastByte == DO {
          opts := opts.(mccp2 := true);
          sent := sent + [IAC, SB, MCCP2, IAC, SE];
        }
      } else if x == MCCP3 {
      } else if x == ECHO {
        if lastByte == DO { opts := opts.(echo := true); }
      } else if x == LM {
      } else if x == SGA {
        if lastByte == DO { opts := opts.(sga := true); }
        else if lastByte == DONT { opts := opts.(sga := false); }
      } else if lastByte == DO || lastByte == WILL {
        sent := sent + [IAC, if lastByte == DO then WONT else DONT, x];
      }
    }

    /** TelnetStream_ProcessByte (src/telnet.c:288-385). */
    method ProcessByte(x: byte, dump: CharVector) returns (pending: bool)
      requires Valid(dump)
      modifies this, sbArgs`length, sbArgs.data, dump`length, dump.data
      ensures Valid(dump) && Abstract(dump) == Step(old(Abstract(dump)), x)
      ensures pending <==> state != INPUT
    {
      match state {
        case INPUT =>
          if x == IAC {
            state := IAC_SEEN;
          } else {
            var r := dump.PushLimited(x);
            if r < 0 { state := ERROR; }
          }
        case IAC_SEEN =>
          if x == SB {
            state := IN_SB;
            sbArgs.Clear();
          } else if !Is2ByteCmd(x) {
            state := CMD;
          } else {
            state := INPUT;
          }
        case IN_SB =>
          if x == IAC {
            state := IN_SE;
          } else {
            var r := sbArgs.PushLimited(x);
            if r < 0 { state := ERROR; }
          }
        case IN_SE =>
          if x == SE {
            if sbArgs.length > 0 && sbArgs.data[0] == MCCP3 {
              opts := opts.(mccp3 := true);
            }
            state := INPUT;
          } else {
            state := ERROR;
          }
        case CMD =>
          if Is3ByteCmd(x) {
            Run3ByteCmd(x);
            state := INPUT;
          } else {
            state := ERROR;
          }
        case ERROR =>
      }
      lastByte := x;
      return state != INPUT;
    }
  }
}
