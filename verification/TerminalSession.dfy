/** The terminal at work: two output streams, each with its own decoding status, feed one
    terminal, and what a client meant by its commands is what the terminal does. */
module TerminalSession {
  import opened Ascii
  import opened Wrappers
  import opened Sequences
  import opened TerminalStream
  import opened TerminalProgram
  import opened TerminalLaws

  // ----- The first command of a stream

  /** The earlier contents of entry i change what the handler does. */
  predicate Decisive(cmd: Command, i: nat) {
    match cmd
    case SetEcho(echo) => i == 0 && echo
    case GetSize => false
    case Remove => false
    case SetScrollAreaToScreen => false
    case SetCursor(_, _) => i <= 1
    case SetScrollArea(_, _) => i <= 1
    case SetCursorVisible(visible) => i == 0 || (i == 1 && !visible)
    case _ => i == 0
  }

  lemma CollectDigit(start: params, d: byte)
    requires d < 10
    ensures PrintArguments([d]) == [ZERO + d]
    ensures Collect(start, [ZERO + d]) == (1, start[0 := start[0] * 10 + d])
  {
    assert [ZERO + d][..0] == [];
  }

  lemma CollectTwoDigits(start: params, d: byte, e: byte)
    requires d < 10 && e < 10
    ensures PrintArguments([d, e]) == [ZERO + d, SEMICOLON, ZERO + e]
    ensures Collect(start, [ZERO + d, SEMICOLON, ZERO + e])
         == (2, start[0 := start[0] * 10 + d][1 := start[1] * 10 + e])
  {
    CollectDigit(start, d);
    assert [d, e][..1] == [d];
    assert [ZERO + d, SEMICOLON][..1] == [ZERO + d];
    assert [ZERO + d, SEMICOLON, ZERO + e][..2] == [ZERO + d, SEMICOLON];
  }

  /** The command's event with parameters p, which show its arguments where the array held
      zeros. */
  lemma UnderstoodIff(cmd: Command, start: params, p: params)
    requires NonNegative(cmd.Arguments())
    requires forall i :: 0 <= i < N ==> (p[i] == Padded(cmd.Arguments())[i] <==> start[i] == 0)
    requires cmd.SetEcho? ==> p[0] == start[0] * 10 + cmd.Arguments()[0]
    requires cmd.SetCursorVisible? ==> p[1] == start[1] * 10 + cmd.Arguments()[1]
    ensures var e := Sequence(cmd.Kind(), |cmd.Arguments()|, p, cmd.Final());
      && Handled(e)
      && (Handle(e) == Meaning(cmd) <==> forall i :: 0 <= i < N && Decisive(cmd, i) ==> start[i] == 0)
  {
    var a := cmd.Arguments();
    assert |a| > 0 ==> (p[0] == a[0] <==> start[0] == 0);
    assert |a| > 1 ==> (p[1] == a[1] <==> start[1] == 0);
  }

  /** What is dispatched for a command read into an array with these contents. */
  function FirstEvent(start: params, cmd: Command): Event
    requires NonNegative(cmd.Arguments())
  {
    FieldsOfArguments(cmd.Arguments());
    var (count, p) := Collect(start, PrintArguments(cmd.Arguments()));
    Sequence(cmd.Kind(), count, p, cmd.Final())
  }

  /** None of the entries that matter to the command holds anything. */
  predicate Harmless(start: params, cmd: Command) {
    forall i :: 0 <= i < N && Decisive(cmd, i) ==> start[i] == 0
  }

  lemma FirstEventUnderstoodIff(start: params, cmd: Command)
    requires NonNegative(cmd.Arguments())
    ensures Handled(FirstEvent(start, cmd))
    ensures Handle(FirstEvent(start, cmd)) == Meaning(cmd) <==> Harmless(start, cmd)
  {
    hide Collect;
    hide Handle;
    hide Handled;
    hide Meaning;
    hide Decisive;
    hide PrintArguments;
    var a := cmd.Arguments();
    CollectOfArguments(a);
    CollectFrom(start, PrintArguments(a));
    if cmd.SetEcho? {
      CollectDigit(start, a[0]);
    } else if cmd.SetCursorVisible? {
      CollectTwoDigits(start, a[0], a[1]);
    }
    UnderstoodIff(cmd, start, Collect(start, PrintArguments(a)).1);
  }

  lemma FirstCommandRead(isStderr: bool, start: params, cmd: Command)
    requires NonNegative(cmd.Arguments())
    ensures Run(State(Text, 0, start), isStderr, Encode(cmd)) == (INITIAL, [FirstEvent(start, cmd)])
  {
    hide Run;
    hide Collect;
    hide PrintArguments;
    FieldsOfArguments(cmd.Arguments());
    RunSequence(start, isStderr, cmd.Kind(), PrintArguments(cmd.Arguments()), cmd.Final());
  }

  /** The parameter array of a new stream is not initialised. The terminal does what the first
      command means exactly when the decisive entries happen to be zero. */
  lemma FirstCommandUnderstoodIff(isStderr: bool, start: params, cmd: Command)
    requires NonNegative(cmd.Arguments())
    ensures var (end, events) := Run(State(Text, 0, start), isStderr, Encode(cmd));
      && end == INITIAL && |events| == 1 && Handled(events[0])
      && (Handle(events[0]) == Meaning(cmd) <==> forall i :: 0 <= i < N && Decisive(cmd, i) ==> start[i] == 0)
  {
    hide Run;
    hide FirstEvent;
    hide Handle;
    hide Handled;
    hide Meaning;
    FirstCommandRead(isStderr, start, cmd);
    FirstEventUnderstoodIff(start, cmd);
  }

  /** With a 7 in the array, the first command to turn the echo on turns it off. */
  lemma EchoMisunderstood()
    ensures var events := Run(State(Text, 0, [7, 0, 0, 0]), false, Encode(SetEcho(true))).1;
      && |events| == 1 && Handled(events[0])
      && Handle(events[0]) == [ChangeEcho(false)]
  {
    hide Run;
    var start: params := [7, 0, 0, 0];
    FirstCommandRead(false, start, SetEcho(true));
    CollectDigit(start, 1);
    assert FirstEvent(start, SetEcho(true)).parameters[0] == 71;
  }

  // ----- Colours

  /** The handler of a colour sequence reads behind its parameter array exactly when more than N
      fields count as parameters. */
  lemma OverReadIff(isStderr: bool, s: seq<byte>)
    requires forall i :: 0 <= i < |s| ==> IsParameterByte(s[i])
    ensures var events := Run(INITIAL, isStderr, [ESC, LEFT_BRACKET] + (s + ['m' as int])).1;
      && |events| == 1
      && (!Handled(events[0]) <==> |Counted(Fields(s))| > 4)
  {
    hide Run;
    hide Collect;
    hide Fields;
    CollectMeaning(s);
    RunSequence(ZEROS, isStderr, Vt100, s, 'm' as int);
  }

  /** Five colours are one too many. */
  lemma FiveColorsOverRead()
    ensures var events := Run(INITIAL, false, EncodeSequence(Vt100, [1, 2, 3, 4, 5], 'm' as int)).1;
      |events| == 1 && !Handled(events[0])
  {
    hide Run;
    hide PrintArguments;
    var a := [1, 2, 3, 4, 5];
    FieldsOfArguments(a);
    OverReadIff(false, PrintArguments(a));
  }

  // ----- Two streams

  /** Something the terminal is meant to do: show a character or carry out a command. */
  datatype Deed = Show(c: byte, red: bool) | Do(cmd: Command)

  function DoneOne(t: Terminal, d: Deed, screen: Screen): Terminal {
    match d
    case Show(c, red) => t.(calls := t.calls + [WriteCall(c, red)])
    case Do(cmd) => PerformAll(t, Meaning(cmd), screen)
  }

  function Done(t: Terminal, deeds: seq<Deed>, screen: Screen): Terminal {
    if deeds == [] then t
    else DoneOne(Done(t, deeds[..|deeds| - 1], screen), deeds[|deeds| - 1], screen)
  }

  /** A character of plain text: a tab is four blanks, and a carriage return nothing. */
  function Shown(isStderr: bool, c: byte): seq<Deed> {
    if c == RETURN then []
    else if c == TAB then [Show(SPACE, false), Show(SPACE, false), Show(SPACE, false), Show(SPACE, false)]
    else [Show(c, isStderr)]
  }

  /** What each byte of an item is to bring about: text appears character by character, and a
      command is carried out with its last byte. */
  function ItemDeeds(isStderr: bool, item: Item): (d: seq<seq<Deed>>)
    ensures |d| == |item.Bytes()|
  {
    match item
    case Plain(content) => seq(|content|, i requires 0 <= i < |content| => Shown(isStderr, content[i]))
    case Cmd(cmd) => seq(|Encode(cmd)|, i => if i == |Encode(cmd)| - 1 then [Do(cmd)] else [])
  }

  function StreamDeeds(isStderr: bool, items: seq<Item>): (d: seq<seq<Deed>>)
    ensures |d| == |StreamBytes(items)|
  {
    if items == [] then []
    else StreamDeeds(isStderr, items[..|items| - 1]) + ItemDeeds(isStderr, items[|items| - 1])
  }

  /** The events do to every terminal what the deeds say. */
  ghost predicate Causes(events: seq<Event>, deeds: seq<Deed>) {
    && (forall i :: 0 <= i < |events| ==> events[i].Write? || Handled(events[i]))
    && forall t, screen :: Effect(t, events, screen) == Done(t, deeds, screen)
  }

  lemma NothingCauses()
    ensures Causes([], [])
  {
  }

  lemma DoneSingle(t: Terminal, d: Deed, screen: Screen)
    ensures Done(t, [d], screen) == DoneOne(t, d, screen)
  {
    assert [d][..0] == [];
  }

  lemma DoneTab(t: Terminal, screen: Screen)
    ensures Done(t, Shown(false, TAB), screen) == Wrote(Wrote(Wrote(Wrote(t, SPACES), SPACES), SPACES), SPACES)
  {
    var w := Show(SPACE, false);
    assert [w][..0] == [];
    assert [w, w][..1] == [w];
    assert [w, w, w][..2] == [w, w];
    assert [w, w, w, w][..3] == [w, w, w];
    assert Done(t, [w], screen) == Wrote(t, SPACES);
    assert Done(t, [w, w], screen) == Wrote(Wrote(t, SPACES), SPACES);
  }

  lemma TextCauses(isStderr: bool, c: byte)
    ensures Causes(TextEvents(isStderr, c), Shown(isStderr, c))
  {
    var events, deeds := TextEvents(isStderr, c), Shown(isStderr, c);
    forall t, screen
      ensures Effect(t, events, screen) == Done(t, deeds, screen)
    {
      EffectOfOne(t, events, screen);
      if c == TAB {
        DoneTab(t, screen);
      } else if c != RETURN {
        DoneSingle(t, deeds[0], screen);
      }
    }
  }

  lemma CommandCauses(start: params, cmd: Command)
    requires NonNegative(cmd.Arguments()) && Harmless(start, cmd)
    ensures Causes([FirstEvent(start, cmd)], [Do(cmd)])
  {
    hide Meaning;
    hide Handle;
    hide Handled;
    hide FirstEvent;
    FirstEventUnderstoodIff(start, cmd);
    var e := FirstEvent(start, cmd);
    assert Handled(e);
    forall t, screen
      ensures Effect(t, [e], screen) == Done(t, [Do(cmd)], screen)
    {
      EventDone(t, e, cmd, screen);
    }
  }

  lemma EventDone(t: Terminal, e: Event, cmd: Command, screen: Screen)
    requires Handled(e) && Handle(e) == Meaning(cmd)
    ensures Effect(t, [e], screen) == Done(t, [Do(cmd)], screen)
  {
    hide Meaning;
    hide Handle;
    EffectOfOne(t, [e], screen);
    DoneSingle(t, Do(cmd), screen);
  }

  /** The events of byte j of a text, read from its beginning with these contents of the array. */
  function EventsAt(start: params, isStderr: bool, bytes: seq<byte>, j: nat): seq<Event>
    requires j < |bytes|
  {
    Step(Run(State(Text, 0, start), isStderr, bytes[..j]).0, isStderr, bytes[j]).1
  }

  lemma TextByte(start: params, isStderr: bool, content: seq<byte>, j: nat)
    requires ESC !in content && j < |content|
    ensures EventsAt(start, isStderr, content, j) == TextEvents(isStderr, content[j])
  {
    hide Run;
    assert ESC !in content[..j] && content[j] in content;
    TextIsWritten(start, isStderr, content[..j]);
  }

  lemma SequenceByte(start: params, isStderr: bool, kind: Kind, s: seq<byte>, final: byte, j: nat)
    requires (forall i :: 0 <= i < |s| ==> IsParameterByte(s[i])) && !IsParameterByte(final)
    requires j < |s| + 3
    ensures EventsAt(start, isStderr, [ESC, Opening(kind)] + (s + [final]), j)
         == if j == |s| + 2 then [Sequence(kind, Collect(start, s).0, Collect(start, s).1, final)] else []
  {
    hide Run;
    hide Collect;
    var bytes := [ESC, Opening(kind)] + (s + [final]);
    RunNothing(start, isStderr);
    if j == 0 {
      assert bytes[..j] == [];
    } else if j == 1 {
      assert bytes[..j] == [ESC];
      RunOne(State(Text, 0, start), isStderr, ESC);
    } else {
      assert bytes[..j] == [ESC, Opening(kind)] + s[..j - 2];
      RunOpened(start, isStderr, kind, s[..j - 2]);
      if j < |s| + 2 {
        assert bytes[j] == s[j - 2];
      } else {
        assert s[..j - 2] == s;
      }
    }
  }

  lemma CommandByte(start: params, isStderr: bool, cmd: Command, j: nat)
    requires NonNegative(cmd.Arguments()) && j < |Encode(cmd)|
    ensures EventsAt(start, isStderr, Encode(cmd), j)
         == if j == |Encode(cmd)| - 1 then [FirstEvent(start, cmd)] else []
  {
    hide EventsAt;
    hide Collect;
    hide PrintArguments;
    hide Command.Kind;
    hide Command.Arguments;
    hide Command.Final;
    FieldsOfArguments(cmd.Arguments());
    SequenceByte(start, isStderr, cmd.Kind(), PrintArguments(cmd.Arguments()), cmd.Final(), j);
  }

  lemma RunNothing(start: params, isStderr: bool)
    ensures Run(State(Text, 0, start), isStderr, []) == (State(Text, 0, start), [])
  {
  }

  lemma ItemByte(start: params, isStderr: bool, item: Item, j: nat)
    requires item.Sendable() && j < |item.Bytes()| && (item.Cmd? ==> Harmless(start, item.cmd))
    ensures Causes(EventsAt(start, isStderr, item.Bytes(), j), ItemDeeds(isStderr, item)[j])
  {
    hide Causes;
    hide EventsAt;
    hide FirstEvent;
    hide Encode;
    match item {
      case Plain(content) =>
        TextByte(start, isStderr, content, j);
        TextCauses(isStderr, content[j]);
      case Cmd(cmd) =>
        CommandByte(start, isStderr, cmd, j);
        CommandCauses(start, cmd);
        NothingCauses();
    }
  }

  /** Text leaves the array alone, a command leaves it empty. */
  lemma ItemEnds(start: params, isStderr: bool, item: Item)
    requires item.Sendable()
    ensures Run(State(Text, 0, start), isStderr, item.Bytes()).0
         == if item.Cmd? then INITIAL else State(Text, 0, start)
  {
    hide Run;
    hide FirstEvent;
    match item {
      case Plain(content) => TextIsWritten(start, isStderr, content);
      case Cmd(cmd) => FirstCommandRead(isStderr, start, cmd);
    }
  }

  predicate AllSendable(items: seq<Item>) {
    forall i :: 0 <= i < |items| ==> items[i].Sendable()
  }

  function FirstCommand(items: seq<Item>): Option<Command> {
    if items == [] then None
    else
      match FirstCommand(items[..|items| - 1])
      case Some(cmd) => Some(cmd)
      case None => if items[|items| - 1].Cmd? then Some(items[|items| - 1].cmd) else None
  }

  /** What the array holds at first does not matter to the first command of the stream. */
  predicate Undisturbed(start: params, items: seq<Item>) {
    match FirstCommand(items)
    case None => true
    case Some(cmd) => Harmless(start, cmd)
  }

  /** What the array holds when some items have been read. */
  function Held(start: params, items: seq<Item>): params {
    if FirstCommand(items).Some? then ZEROS else start
  }

  lemma {:induction false} StreamEnds(start: params, isStderr: bool, items: seq<Item>)
    requires AllSendable(items)
    ensures Run(State(Text, 0, start), isStderr, StreamBytes(items)).0 == State(Text, 0, Held(start, items))
  {
    hide Item.Bytes;
    hide Step;
    if items == [] {
      RunNothing(start, isStderr);
    } else {
      hide Run;
      var n := |items| - 1;
      StreamEnds(start, isStderr, items[..n]);
      ItemEnds(Held(start, items[..n]), isStderr, items[n]);
      RunInPieces(State(Text, 0, start), isStderr, StreamBytes(items[..n]), items[n].Bytes());
    }
  }

  lemma NextHarmless(start: params, items: seq<Item>)
    requires items != [] && Undisturbed(start, items)
    ensures Undisturbed(start, items[..|items| - 1])
    ensures items[|items| - 1].Cmd? ==> Harmless(Held(start, items[..|items| - 1]), items[|items| - 1].cmd)
  {
    hide Decisive;
  }

  /** Every byte of an encoded stream brings about what it is to bring about, if what the array
      held at first does not matter to the first command. */
  lemma {:induction false} StreamByte(start: params, isStderr: bool, items: seq<Item>, j: nat)
    requires AllSendable(items) && Undisturbed(start, items) && j < |StreamBytes(items)|
    ensures Causes(EventsAt(start, isStderr, StreamBytes(items), j), StreamDeeds(isStderr, items)[j])
  {
    hide Causes;
    hide Run;
    hide Step;
    hide Item.Bytes;
    hide ItemDeeds;
    hide Undisturbed;
    hide Held;
    var n := |items| - 1;
    var before, last := StreamBytes(items[..n]), items[n].Bytes();
    NextHarmless(start, items);
    if j < |before| {
      StreamByte(start, isStderr, items[..n], j);
      assert (before + last)[..j] == before[..j];
    } else {
      var k := j - |before|;
      ItemByte(Held(start, items[..n]), isStderr, items[n], k);
      assert (before + last)[..j] == before + last[..k];
      StreamEnds(start, isStderr, items[..n]);
      RunInPieces(State(Text, 0, start), isStderr, before, last[..k]);
    }
  }

  /** One byte of one of the two streams, and the screen as it is when the byte is processed. */
  datatype Tagged = Tagged(isStderr: bool, c: byte, screen: Screen)

  function BytesOf(m: seq<Tagged>, isStderr: bool): (s: seq<byte>) {
    if m == [] then []
    else BytesOf(m[..|m| - 1], isStderr) + if m[|m| - 1].isStderr == isStderr then [m[|m| - 1].c] else []
  }

  /** What the two streams carry, and what the arrays of their statuses hold at first. */
  datatype Streams = Streams(out: seq<Item>, err: seq<Item>, outMemory: params, errMemory: params)
  {
    function Memory(isStderr: bool): params {
      if isStderr then errMemory else outMemory
    }

    function Of(isStderr: bool): seq<Item> {
      if isStderr then err else out
    }

    /** Where the bytes processed so far have brought the status of a stream. */
    function StatusAfter(m: seq<Tagged>, isStderr: bool): State {
      Run(State(Text, 0, Memory(isStderr)), isStderr, BytesOf(m, isStderr)).0
    }

    /** The bytes processed so far are the beginnings of the two encoded streams. */
    predicate Carry(m: seq<Tagged>) {
      && AllSendable(out) && AllSendable(err)
      && Undisturbed(outMemory, out) && Undisturbed(errMemory, err)
      && BytesOf(m, false) <= StreamBytes(out)
      && BytesOf(m, true) <= StreamBytes(err)
    }
  }

  lemma CarryBefore(s: Streams, m: seq<Tagged>, b: Tagged)
    requires s.Carry(m + [b])
    ensures s.Carry(m)
    ensures BytesOf(m + [b], b.isStderr) == BytesOf(m, b.isStderr) + [b.c]
    ensures BytesOf(m + [b], !b.isStderr) == BytesOf(m, !b.isStderr)
  {
    assert (m + [b])[..|m|] == m;
    assert BytesOf(m, !b.isStderr) + [] == BytesOf(m, !b.isStderr);
  }

  /** What the next byte is to bring about. */
  function Next(s: Streams, m: seq<Tagged>, b: Tagged): seq<Deed>
    requires s.Carry(m + [b])
  {
    CarryBefore(s, m, b);
    StreamDeeds(b.isStderr, s.Of(b.isStderr))[|BytesOf(m, b.isStderr)|]
  }

  /** The terminal after all deeds of the bytes processed so far, in the order of the bytes. */
  function Performed(t: Terminal, s: Streams, m: seq<Tagged>): Terminal
    requires s.Carry(m)
  {
    if m == [] then t
    else
      var before, b := m[..|m| - 1], m[|m| - 1];
      assert before + [b] == m;
      CarryBefore(s, before, b);
      Done(Performed(t, s, before), Next(s, before, b), b.screen)
  }

  lemma NextCaused(s: Streams, m: seq<Tagged>, b: Tagged)
    requires s.Carry(m + [b])
    ensures Causes(Step(s.StatusAfter(m, b.isStderr), b.isStderr, b.c).1, Next(s, m, b))
  {
    hide Causes;
    hide Run;
    hide Step;
    hide Undisturbed;
    CarryBefore(s, m, b);
    var bytes := StreamBytes(s.Of(b.isStderr));
    var j := |BytesOf(m, b.isStderr)|;
    assert BytesOf(m + [b], b.isStderr)[j] == b.c;
    assert bytes[..j] == BytesOf(m, b.isStderr);
    StreamByte(s.Memory(b.isStderr), b.isStderr, s.Of(b.isStderr), j);
  }

  lemma PerformedNext(t: Terminal, s: Streams, m: seq<Tagged>, b: Tagged)
    requires s.Carry(m + [b])
    ensures s.Carry(m)
    ensures Performed(t, s, m + [b]) == Done(Performed(t, s, m), Next(s, m, b), b.screen)
  {
    CarryBefore(s, m, b);
    assert (m + [b])[..|m|] == m;
  }

  lemma PerformedNothing(t: Terminal, s: Streams)
    ensures s.Carry([]) ==> Performed(t, s, []) == t
  {
  }

  // ----- Each stream in its own order

  function Flat(d: seq<seq<Deed>>): seq<Deed> {
    if d == [] then [] else Flat(d[..|d| - 1]) + d[|d| - 1]
  }

  /** What the items mean, without their bytes. */
  function Meant(isStderr: bool, items: seq<Item>): seq<Deed> {
    if items == [] then []
    else
      Meant(isStderr, items[..|items| - 1])
        + match items[|items| - 1]
          case Cmd(cmd) => [Do(cmd)]
          case Plain(content) => Characters(isStderr, content)
  }

  function Characters(isStderr: bool, content: seq<byte>): seq<Deed> {
    if content == [] then [] else Characters(isStderr, content[..|content| - 1]) + Shown(isStderr, content[|content| - 1])
  }

  lemma {:induction false} FlatInPieces(a: seq<seq<Deed>>, b: seq<seq<Deed>>)
    ensures Flat(a + b) == Flat(a) + Flat(b)
  {
    if b == [] {
      assert a + b == a;
    } else {
      assert (a + b)[..|a| + |b| - 1] == a + b[..|b| - 1];
      FlatInPieces(a, b[..|b| - 1]);
      Regroup(Flat(a), Flat(b[..|b| - 1]), b[|b| - 1]);
    }
  }

  lemma {:induction false} FlatNothing(d: seq<seq<Deed>>)
    requires forall i :: 0 <= i < |d| ==> d[i] == []
    ensures Flat(d) == []
  {
    if d != [] {
      FlatNothing(d[..|d| - 1]);
    }
  }

  lemma {:induction false} FlatText(isStderr: bool, content: seq<byte>)
    ensures Flat(ItemDeeds(isStderr, Plain(content))) == Characters(isStderr, content)
  {
    if content != [] {
      var n := |content| - 1;
      FlatText(isStderr, content[..n]);
      assert ItemDeeds(isStderr, Plain(content))[..n] == ItemDeeds(isStderr, Plain(content[..n]));
    }
  }

  lemma FlatCommand(isStderr: bool, cmd: Command)
    ensures Flat(ItemDeeds(isStderr, Cmd(cmd))) == [Do(cmd)]
  {
    hide Encode;
    var d := ItemDeeds(isStderr, Cmd(cmd));
    assert |Encode(cmd)| >= 1 by {
      EncodeNotEmpty(cmd);
    }
    FlatNothing(d[..|d| - 1]);
  }

  lemma EncodeNotEmpty(cmd: Command)
    ensures |Encode(cmd)| >= 3
  {
  }

  lemma {:induction false} FlatStream(isStderr: bool, items: seq<Item>)
    ensures Flat(StreamDeeds(isStderr, items)) == Meant(isStderr, items)
  {
    if items != [] {
      hide Flat;
      hide ItemDeeds;
      var n := |items| - 1;
      FlatStream(isStderr, items[..n]);
      FlatInPieces(StreamDeeds(isStderr, items[..n]), ItemDeeds(isStderr, items[n]));
      match items[n] {
        case Cmd(cmd) => FlatCommand(isStderr, cmd);
        case Plain(content) => FlatText(isStderr, content);
      }
    }
  }

  /** A deed, the stream it comes from, and the screen as it was then. */
  datatype Moment = Moment(isStderr: bool, deed: Deed, screen: Screen)

  function DoneTimed(t: Terminal, line: seq<Moment>): Terminal {
    if line == [] then t
    else DoneOne(DoneTimed(t, line[..|line| - 1]), line[|line| - 1].deed, line[|line| - 1].screen)
  }

  function Moments(isStderr: bool, deeds: seq<Deed>, screen: Screen): seq<Moment> {
    seq(|deeds|, i requires 0 <= i < |deeds| => Moment(isStderr, deeds[i], screen))
  }

  /** All deeds of both streams in the order in which they are done. */
  function Timeline(s: Streams, m: seq<Tagged>): seq<Moment>
    requires s.Carry(m)
  {
    if m == [] then []
    else
      var before, b := m[..|m| - 1], m[|m| - 1];
      assert before + [b] == m;
      CarryBefore(s, before, b);
      Timeline(s, before) + Moments(b.isStderr, Next(s, before, b), b.screen)
  }

  function DeedsOf(line: seq<Moment>, isStderr: bool): seq<Deed> {
    if line == [] then []
    else
      DeedsOf(line[..|line| - 1], isStderr)
        + if line[|line| - 1].isStderr == isStderr then [line[|line| - 1].deed] else []
  }

  lemma {:induction false} MomentsDone(t: Terminal, line: seq<Moment>, isStderr: bool, deeds: seq<Deed>, screen: Screen)
    ensures DoneTimed(t, line + Moments(isStderr, deeds, screen)) == Done(DoneTimed(t, line), deeds, screen)
  {
    var more := Moments(isStderr, deeds, screen);
    if deeds == [] {
      assert line + more == line;
    } else {
      var n := |deeds| - 1;
      assert (line + more)[..|line| + n] == line + Moments(isStderr, deeds[..n], screen);
      MomentsDone(t, line, isStderr, deeds[..n], screen);
    }
  }

  lemma {:induction false} DeedsOfMoments(line: seq<Moment>, isStderr: bool, deeds: seq<Deed>, screen: Screen, of: bool)
    ensures DeedsOf(line + Moments(isStderr, deeds, screen), of)
         == DeedsOf(line, of) + if isStderr == of then deeds else []
  {
    var more := Moments(isStderr, deeds, screen);
    if deeds == [] {
      assert line + more == line;
    } else {
      var n := |deeds| - 1;
      assert (line + more)[..|line| + n] == line + Moments(isStderr, deeds[..n], screen);
      DeedsOfMoments(line, isStderr, deeds[..n], screen, of);
      assert deeds == deeds[..n] + [deeds[n]];
    }
  }

  lemma FlatOneMore(d: seq<seq<Deed>>, k: nat)
    requires k < |d|
    ensures Flat(d[..k + 1]) == Flat(d[..k]) + d[k]
  {
    assert d[..k + 1][..k] == d[..k];
  }

  lemma NextOf(s: Streams, m: seq<Tagged>, b: Tagged)
    requires s.Carry(m + [b])
    ensures |BytesOf(m + [b], b.isStderr)| == |BytesOf(m, b.isStderr)| + 1 <= |StreamDeeds(b.isStderr, s.Of(b.isStderr))|
    ensures Next(s, m, b) == StreamDeeds(b.isStderr, s.Of(b.isStderr))[|BytesOf(m, b.isStderr)|]
  {
    hide Undisturbed;
    CarryBefore(s, m, b);
  }

  lemma TimelineNext(s: Streams, m: seq<Tagged>, b: Tagged)
    requires s.Carry(m + [b])
    ensures s.Carry(m)
    ensures Timeline(s, m + [b]) == Timeline(s, m) + Moments(b.isStderr, Next(s, m, b), b.screen)
  {
    hide Undisturbed;
    CarryBefore(s, m, b);
    assert (m + [b])[..|m|] == m;
  }

  lemma NothingYet(t: Terminal, s: Streams, isStderr: bool)
    requires s.Carry([])
    ensures Timeline(s, []) == [] && DoneTimed(t, []) == t && BytesOf([], isStderr) == []
    ensures Flat(StreamDeeds(isStderr, s.Of(isStderr))[..0]) == [] && DeedsOf([], isStderr) == []
  {
    assert StreamDeeds(isStderr, s.Of(isStderr))[..0] == [];
  }

  /** What the terminal does is the timeline, and in it each stream's deeds are in their order. */
  lemma {:induction false} TimelineSoFar(t: Terminal, s: Streams, m: seq<Tagged>, isStderr: bool)
    requires s.Carry(m)
    ensures Performed(t, s, m) == DoneTimed(t, Timeline(s, m))
    ensures |BytesOf(m, isStderr)| <= |StreamDeeds(isStderr, s.Of(isStderr))|
    ensures DeedsOf(Timeline(s, m), isStderr)
         == Flat(StreamDeeds(isStderr, s.Of(isStderr))[..|BytesOf(m, isStderr)|])
    decreases |m|
  {
    hide *;
    if m == [] {
      NothingYet(t, s, isStderr);
      PerformedNothing(t, s);
    } else {
      var before, b := m[..|m| - 1], m[|m| - 1];
      assert before + [b] == m;
      CarryBefore(s, before, b);
      TimelineSoFar(t, s, before, isStderr);
      PerformedNext(t, s, before, b);
      TimelineNext(s, before, b);
      MomentsDone(t, Timeline(s, before), b.isStderr, Next(s, before, b), b.screen);
      DeedsOfMoments(Timeline(s, before), b.isStderr, Next(s, before, b), b.screen, isStderr);
      if b.isStderr == isStderr {
        NextOf(s, before, b);
        FlatOneMore(StreamDeeds(isStderr, s.Of(isStderr)), |BytesOf(before, isStderr)|);
      } else {
        assert DeedsOf(Timeline(s, before), isStderr) + [] == DeedsOf(Timeline(s, before), isStderr);
      }
    }
  }

  /** The terminal does one thing after the other, each with the screen as it is at that time,
      and what it does for a stream that has arrived completely is what its items mean, item by
      item, whatever the other stream does in between. */
  lemma EachInOrder(t: Terminal, s: Streams, m: seq<Tagged>, isStderr: bool)
    requires s.Carry(m) && BytesOf(m, isStderr) == StreamBytes(s.Of(isStderr))
    ensures Performed(t, s, m) == DoneTimed(t, Timeline(s, m))
    ensures DeedsOf(Timeline(s, m), isStderr) == Meant(isStderr, s.Of(isStderr))
  {
    hide *;
    var d := StreamDeeds(isStderr, s.Of(isStderr));
    TimelineSoFar(t, s, m, isStderr);
    assert d[..|StreamBytes(s.Of(isStderr))|] == d;
    FlatStream(isStderr, s.Of(isStderr));
  }

  lemma {:induction false} AllOfOne(line: seq<Moment>, isStderr: bool)
    requires forall i :: 0 <= i < |line| ==> line[i].isStderr == isStderr
    ensures DeedsOf(line, isStderr) == seq(|line|, i requires 0 <= i < |line| => line[i].deed)
  {
    if line != [] {
      AllOfOne(line[..|line| - 1], isStderr);
    }
  }

  lemma {:induction false} TimelineOfOne(s: Streams, m: seq<Tagged>, isStderr: bool)
    requires s.Carry(m) && forall i :: 0 <= i < |m| ==> m[i].isStderr == isStderr
    ensures forall i :: 0 <= i < |Timeline(s, m)| ==> Timeline(s, m)[i].isStderr == isStderr
  {
    hide Streams.Carry;
    hide Next;
    if m != [] {
      var before, b := m[..|m| - 1], m[|m| - 1];
      assert before + [b] == m;
      CarryBefore(s, before, b);
      TimelineOfOne(s, before, isStderr);
    }
  }

  /** A stream that has the terminal for itself is carried out item by item. */
  lemma AloneInOrder(t: Terminal, s: Streams, m: seq<Tagged>, isStderr: bool)
    requires s.Carry(m) && BytesOf(m, isStderr) == StreamBytes(s.Of(isStderr))
    requires forall i :: 0 <= i < |m| ==> m[i].isStderr == isStderr
    ensures Performed(t, s, m) == DoneTimed(t, Timeline(s, m))
    ensures Meant(isStderr, s.Of(isStderr))
         == seq(|Timeline(s, m)|, i requires 0 <= i < |Timeline(s, m)| => Timeline(s, m)[i].deed)
  {
    hide *;
    EachInOrder(t, s, m, isStderr);
    TimelineOfOne(s, m, isStderr);
    AllOfOne(Timeline(s, m), isStderr);
  }

  // ----- The two output routines

  lemma RunAppend(st: State, isStderr: bool, bytes: seq<byte>, c: byte)
    ensures Run(st, isStderr, bytes + [c]).0 == Step(Run(st, isStderr, bytes).0, isStderr, c).0
  {
    assert (bytes + [c])[..|bytes|] == bytes;
  }

  ghost predicate Apart(out: StreamStatus, err: StreamStatus)
    reads out, err
  {
    out != err && out.parameters != err.parameters && out.Valid() && err.Valid()
  }

  /** Each status is where its own stream's bytes have brought it. */
  ghost predicate InStep(out: StreamStatus, err: StreamStatus, s: Streams, m: seq<Tagged>)
    reads out, err, out.parameters, err.parameters
  {
    && Apart(out, err)
    && out.View() == s.StatusAfter(m, false)
    && err.View() == s.StatusAfter(m, true)
  }

  method ProcessByte(program: Program, out: StreamStatus, err: StreamStatus, b: Tagged,
                     ghost m: seq<Tagged>, ghost s: Streams, ghost t: Terminal)
    requires InStep(out, err, s, m) && s.Carry(m + [b]) && s.Carry(m)
    requires program.View() == Performed(t, s, m)
    modifies program, out, err, out.parameters, err.parameters
    ensures InStep(out, err, s, m + [b]) && program.View() == Performed(t, s, m + [b])
  {
    hide Run;
    hide Step;
    hide Undisturbed;
    CarryBefore(s, m, b);
    NextCaused(s, m, b);
    PerformedNext(t, s, m, b);
    RunAppend(State(Text, 0, s.Memory(b.isStderr)), b.isStderr, BytesOf(m, b.isStderr), b.c);
    var st := if b.isStderr then err else out;
    program.ProcessOutput(st, b.isStderr, b.c, b.screen);
  }

  /** A successful read of one of the routines; the lock is held while its bytes are processed. */
  datatype Chunk = Chunk(isStderr: bool, bytes: seq<(byte, Screen)>)
  {
    function Content(): seq<Tagged> {
      seq(|bytes|, i requires 0 <= i < |bytes| => Tagged(isStderr, bytes[i].0, bytes[i].1))
    }
  }

  function AllOf(chunks: seq<Chunk>): seq<Tagged> {
    if chunks == [] then [] else AllOf(chunks[..|chunks| - 1]) + chunks[|chunks| - 1].Content()
  }

  lemma {:induction false} BytesOfPrefix(m: seq<Tagged>, k: nat, isStderr: bool)
    requires k <= |m|
    ensures BytesOf(m[..k], isStderr) <= BytesOf(m, isStderr)
    decreases |m| - k
  {
    if k < |m| {
      BytesOfPrefix(m, k + 1, isStderr);
      assert m[..k + 1][..k] == m[..k];
    } else {
      assert m[..k] == m;
    }
  }

  lemma CarryPrefix(s: Streams, m: seq<Tagged>, k: nat)
    requires s.Carry(m) && k <= |m|
    ensures s.Carry(m[..k])
  {
    BytesOfPrefix(m, k, false);
    BytesOfPrefix(m, k, true);
  }

  /** The body of a routine's loop. */
  method ProcessChunk(program: Program, out: StreamStatus, err: StreamStatus, chunk: Chunk,
                      ghost m: seq<Tagged>, ghost s: Streams, ghost t: Terminal)
    requires s.Carry(m) && s.Carry(m + chunk.Content())
    requires InStep(out, err, s, m) && program.View() == Performed(t, s, m)
    modifies program, out, err, out.parameters, err.parameters
    ensures InStep(out, err, s, m + chunk.Content()) && program.View() == Performed(t, s, m + chunk.Content())
  {
    hide InStep;
    hide Streams.Carry;
    hide Performed;
    hide BytesOf;
    hide Run;
    hide Step;
    ghost var content := chunk.Content();
    assert m + content[..0] == m;
    for i := 0 to |chunk.bytes|
      invariant s.Carry(m + content[..i])
      invariant InStep(out, err, s, m + content[..i])
      invariant program.View() == Performed(t, s, m + content[..i])
    {
      var b := Tagged(chunk.isStderr, chunk.bytes[i].0, chunk.bytes[i].1);
      assert (m + content)[..|m| + i + 1] == m + content[..i + 1] == (m + content[..i]) + [b];
      CarryPrefix(s, m + content, |m| + i + 1);
      ProcessByte(program, out, err, b, m + content[..i], s, t);
    }
    assert content[..|content|] == content;
  }

  /** The two output routines of one terminal, in the order in which their reads get the lock.
      However the two streams are cut into reads and interleaved, the terminal ends as if what
      the clients wrote and meant had been done directly, each thing when its last byte came. The
      arrays may hold at first what does not matter to the first commands. */
  method OutputRoutines(program: Program, out: StreamStatus, err: StreamStatus, chunks: seq<Chunk>, ghost s: Streams)
    requires Apart(out, err)
    requires out.View() == State(Text, 0, s.outMemory) && err.View() == State(Text, 0, s.errMemory)
    requires s.Carry(AllOf(chunks))
    modifies program, out, err, out.parameters, err.parameters
    ensures InStep(out, err, s, AllOf(chunks))
    ensures program.View() == Performed(old(program.View()), s, AllOf(chunks))
  {
    hide InStep;
    hide Streams.Carry;
    hide Performed;
    hide BytesOf;
    hide Run;
    hide Step;
    ghost var t := program.View();
    StartsInStep(out, err, s);
    CarryPrefix(s, AllOf(chunks), 0);
    PerformedNothing(t, s);
    assert AllOf(chunks)[..0] == [];
    for i := 0 to |chunks|
      invariant s.Carry(AllOf(chunks[..i]))
      invariant InStep(out, err, s, AllOf(chunks[..i]))
      invariant program.View() == Performed(t, s, AllOf(chunks[..i]))
    {
      assert chunks[..i + 1][..i] == chunks[..i];
      AllOfPrefix(chunks, i + 1);
      CarryPrefix(s, AllOf(chunks), |AllOf(chunks[..i + 1])|);
      ProcessChunk(program, out, err, chunks[i], AllOf(chunks[..i]), s, t);
    }
    assert chunks[..|chunks|] == chunks;
  }

  lemma StartsInStep(out: StreamStatus, err: StreamStatus, s: Streams)
    requires Apart(out, err)
    requires out.View() == State(Text, 0, s.outMemory) && err.View() == State(Text, 0, s.errMemory)
    ensures InStep(out, err, s, [])
  {
  }

  lemma {:induction false} AllOfPrefix(chunks: seq<Chunk>, k: nat)
    requires k <= |chunks|
    ensures |AllOf(chunks[..k])| <= |AllOf(chunks)|
    ensures AllOf(chunks)[..|AllOf(chunks[..k])|] == AllOf(chunks[..k])
    decreases |chunks| - k
  {
    if k < |chunks| {
      AllOfPrefix(chunks, k + 1);
      assert chunks[..k + 1][..k] == chunks[..k];
    } else {
      assert chunks[..k] == chunks;
    }
  }
}
