/** The terminal program: its decoder, and what it does with a decoded sequence. */
module TerminalProgram {
  import opened Ascii
  import opened TerminalStream
  import Decimal

  /** What a handler asks of the screen or changes in the terminal itself. */
  datatype Action =
    | MoveCursor(dx: int, dy: int)
    | PlaceCursor(x: int, y: int)
    | ResetColors
    | Foreground(color: int)
    | Background(color: int)
    | ClearScreen
    | ReportCursor
    | ScrollAreaScreen
    | ScrollArea(start: int, end: int)
    | ScrollBy(lines: int)
    | ChangeMode(mode: int)
    | ChangeEcho(on: bool)
    | ReportSize
    | Put(c: int)
    | RemoveCharacter
    | Control(pid: int)
    | ShowCursor(visible: bool)

  function Color(parameter: int): seq<Action> {
    if parameter == 0 then [ResetColors]
    else if 30 <= parameter < 40 then [Foreground(parameter - 30)]
    else if 40 <= parameter < 50 then [Background(parameter - 40)]
    else []
  }

  function Colors(parameters: seq<int>): seq<Action> {
    if parameters == [] then []
    else Colors(parameters[..|parameters| - 1]) + Color(parameters[|parameters| - 1])
  }

  /** A colour setting with more than N parameters makes the handler read behind its array; such
      sequences are outside the model. `OverReadIff` says which they are. */
  predicate Handled(e: Event) {
    e.Sequence? && (e.kind == Vt100 && e.control == 'm' as int ==> e.count <= N)
  }

  function HandleVt100(count: nat, p: params, control: byte): (r: seq<Action>)
    requires control == 'm' as int ==> count <= N
  {
    if control == 'A' as int then [MoveCursor(0, -p[0])]
    else if control == 'B' as int then [MoveCursor(0, p[0])]
    else if control == 'C' as int then [MoveCursor(p[0], 0)]
    else if control == 'D' as int then [MoveCursor(-p[0], 0)]
    else if control == 'm' as int then Colors(p[..count])
    else if control == 'J' as int then (if count == 1 && p[0] == 2 then [ClearScreen] else [])
    else if control == 'f' as int then [PlaceCursor(p[1], p[0])]
    else if control == 'n' as int then (if p[0] == 6 then [ReportCursor] else [])
    else if control == 'r' as int then (if count == 0 then [ScrollAreaScreen] else [ScrollArea(p[0], p[1])])
    else if control == 'S' as int then [ScrollBy(p[0])]
    else if control == 'T' as int then [ScrollBy(-p[0])]
    else []
  }

  function HandleGhostterm(p: params, control: byte): (r: seq<Action>) {
    if control == 'm' as int then [ChangeMode(p[0])]
    else if control == 'e' as int then [ChangeEcho(p[0] == 1)]
    else if control == 'i' as int then [ReportSize]
    else if control == 'p' as int then [Put(p[0])]
    else if control == 'x' as int then [RemoveCharacter]
    else if control == 'c' as int then [Control(p[0])]
    else if control == 'C' as int then (if p[0] == 0 then [ShowCursor(p[1] != 0)] else [])
    else []
  }

  function Handle(e: Event): (r: seq<Action>)
    requires Handled(e)
  {
    if e.kind == Vt100 then HandleVt100(e.count, e.parameters, e.control)
    else HandleGhostterm(e.parameters, e.control)
  }

  /** What a client means by a command. */
  function Meaning(cmd: Command): (r: seq<Action>) {
    match cmd
    case SetEcho(echo) => [ChangeEcho(echo)]
    case SetMode(mode) => [ChangeMode(mode)]
    case PutChar(c) => [Put(c)]
    case SetCursor(x, y) => [PlaceCursor(x, y)]
    case GetCursor => [ReportCursor]
    case GetSize => [ReportSize]
    case MoveCursorUp(n) => [MoveCursor(0, -n)]
    case MoveCursorDown(n) => [MoveCursor(0, n)]
    case MoveCursorForward(n) => [MoveCursor(n, 0)]
    case MoveCursorBack(n) => [MoveCursor(-n, 0)]
    case Remove => [RemoveCharacter]
    case SetControlProcess(pid) => [Control(pid)]
    case Clear => [ClearScreen]
    case SetScrollAreaToScreen => [ScrollAreaScreen]
    case SetScrollArea(start, end) => [ScrollArea(start, end)]
    case Scroll(value) => [ScrollBy(value)]
    case SetCursorVisible(visible) => [ShowCursor(visible)]
  }

  /** The decoded command does what its sender meant. */
  lemma HandledAsMeant(cmd: Command)
    requires NonNegative(cmd.Arguments())
    ensures Handled(Expected(cmd)) && Handle(Expected(cmd)) == Meaning(cmd)
  {
    var p := Padded(cmd.Arguments());
    assert |cmd.Arguments()| > 0 ==> p[0] == cmd.Arguments()[0];
    assert |cmd.Arguments()| > 1 ==> p[1] == cmd.Arguments()[1];
  }

  // ----- Replies

  function CursorReply(x: nat, y: nat): seq<byte> {
    EncodeSequence(Vt100, [y, x], 'R' as int)
  }

  function SizeReply(columns: nat, rows: nat): seq<byte> {
    EncodeSequence(Ghostterm, [columns, rows], 'i' as int)
  }

  /** The low 16 bits of a key behind a substitute character, low byte first. */
  function Termkey(key: int): (s: seq<byte>) {
    [SUB, key % 256, key / 256 % 256]
  }

  // ----- The terminal as a state

  /** The screen as far as the terminal asks it: cursor and size. */
  datatype Screen = Screen(x: nat, y: nat, columns: nat, rows: nat)

  /** A call on the screen. */
  datatype Call = WriteCall(c: byte, red: bool) | ActionCall(action: Action)

  datatype Terminal = Terminal(mode: int, echo: bool, controlled: int, toShell: seq<byte>, calls: seq<Call>)

  function Perform(t: Terminal, a: Action, screen: Screen): Terminal {
    match a
    case ChangeMode(mode) => t.(mode := mode)
    case ChangeEcho(on) => t.(echo := on)
    case Control(pid) => t.(controlled := pid)
    case ReportCursor => t.(toShell := t.toShell + CursorReply(screen.x, screen.y))
    case ReportSize => t.(toShell := t.toShell + SizeReply(screen.columns, screen.rows))
    case _ => t.(calls := t.calls + [ActionCall(a)])
  }

  function PerformAll(t: Terminal, actions: seq<Action>, screen: Screen): Terminal {
    if actions == [] then t
    else Perform(PerformAll(t, actions[..|actions| - 1], screen), actions[|actions| - 1], screen)
  }

  const SPACES: Event := Write(SPACE, false)

  function Wrote(t: Terminal, e: Event): Terminal
    requires e.Write?
  {
    t.(calls := t.calls + [WriteCall(e.c, e.red)])
  }

  /** What the events of one byte do to the terminal. */
  function Effect(t: Terminal, events: seq<Event>, screen: Screen): Terminal
    requires forall i :: 0 <= i < |events| ==> events[i].Write? || Handled(events[i])
  {
    if events == [] then t
    else
      var before := Effect(t, events[..|events| - 1], screen);
      var e := events[|events| - 1];
      if e.Write? then Wrote(before, e)
      else PerformAll(before, Handle(e), screen)
  }

  // ----- The programs

  /** The shared decoding status of one stream. */
  class StreamStatus {
    var status: Status
    var parameterCount: nat
    const parameters: array<int>
    var controlCharacter: byte

    ghost predicate Valid()
      reads this
    {
      parameters.Length == N
    }

    ghost function View(): State
      reads this, parameters
      requires Valid()
    {
      State(status, parameterCount, parameters[..])
    }

    /** The initialisers cover status and count; the array holds whatever memory held. */
    constructor (memory: seq<int>)
      requires |memory| == N
      ensures Valid() && View() == State(Text, 0, memory) && fresh(parameters)
    {
      status, parameterCount := Text, 0;
      controlCharacter := 0;
      parameters := new int[N](i requires 0 <= i < N => memory[i]);
      new;
      assert parameters[..] == memory;
    }

    /** A digit or a semicolon within a sequence. */
    method Parameter(c: byte)
      requires Valid() && IsParameterByte(c)
      modifies this, parameters
      ensures Valid() && status == old(status)
      ensures (parameterCount, parameters[..]) == ParameterStep(old(parameterCount), old(parameters[..]), c)
    {
      if IsDigit(c) {
        if parameterCount == 0 {
          parameterCount := 1;
        }
        if parameterCount <= N {
          parameters[parameterCount - 1] := parameters[parameterCount - 1] * 10;
          parameters[parameterCount - 1] := parameters[parameterCount - 1] + (c - ZERO);
          ghost var p := old(parameters[..]);
          assert parameters[..] == p[parameterCount - 1 := p[parameterCount - 1] * 10 + (c - ZERO)];
        }
      } else {
        parameterCount := parameterCount + 1;
      }
    }

    method Reset()
      requires Valid()
      modifies this, parameters
      ensures Valid() && View() == INITIAL
    {
      parameterCount := 0;
      for i := 0 to N
        invariant parameterCount == 0 && forall j :: 0 <= j < i ==> parameters[j] == 0
      {
        parameters[i] := 0;
      }
      status := Text;
      assert parameters[..] == ZEROS;
    }
  }

  class Program {
    var inputMode: int
    var inputEcho: bool
    var controlProcess: int
    var shellStdin: seq<byte>
    var calls: seq<Call>

    ghost function View(): Terminal
      reads this
    {
      Terminal(inputMode, inputEcho, controlProcess, shellStdin, calls)
    }

    constructor ()
      ensures View() == Terminal(0, true, -1, [], [])
    {
      inputMode, inputEcho, controlProcess, shellStdin, calls := 0, true, -1, [], [];
    }

    method ProcessOutput(st: StreamStatus, isStderr: bool, c: byte, screen: Screen)
      requires st.Valid()
      requires forall e :: e in Step(st.View(), isStderr, c).1 ==> e.Write? || Handled(e)
      modifies this, st, st.parameters
      ensures st.Valid() && st.View() == Step(old(st.View()), isStderr, c).0
      ensures View() == Effect(old(View()), Step(old(st.View()), isStderr, c).1, screen)
    {
      ghost var events := Step(st.View(), isStderr, c).1;
      EffectOfOne(View(), events, screen);
      if st.status == Text {
        if c == RETURN {
          return;
        } else if c == TAB {
          calls := calls + [WriteCall(SPACE, false)];
          calls := calls + [WriteCall(SPACE, false)];
          calls := calls + [WriteCall(SPACE, false)];
          calls := calls + [WriteCall(SPACE, false)];
        } else if c == ESC {
          st.status := LastWasEsc;
        } else {
          calls := calls + [WriteCall(c, isStderr)];
        }
      } else if st.status == LastWasEsc {
        if c == LEFT_BRACKET {
          st.status := WithinVt100;
        } else if c == LEFT_BRACE {
          st.status := WithinGhostterm;
        } else {
          st.status := Text;
        }
      } else {
        if IsDigit(c) || c == SEMICOLON {
          st.Parameter(c);
        } else {
          assert events == [Sequence(st.View().Kind(), st.parameterCount, st.parameters[..], c)];
          assert events[0] in events;
          st.controlCharacter := c;
          if st.status == WithinVt100 {
            ProcessSequenceVt100(st, screen);
          } else {
            ProcessSequenceGhostterm(st, screen);
          }
          st.Reset();
        }
      }
    }

    method ProcessSequenceVt100(st: StreamStatus, screen: Screen)
      requires st.Valid() && (st.controlCharacter == 'm' as int ==> st.parameterCount <= N)
      modifies this
      ensures View() == PerformAll(old(View()),
        HandleVt100(st.parameterCount, st.parameters[..], st.controlCharacter), screen)
    {
      hide Color;
      ghost var before := View();
      var p := st.parameters[..];
      var control := st.controlCharacter;
      if control == 'm' as int {
        for i := 0 to st.parameterCount
          invariant View() == PerformAll(before, Colors(p[..i]), screen)
        {
          assert p[..i + 1][..i] == p[..i];
          PerformInPieces(before, Colors(p[..i]), Color(p[i]), screen);
          SetColor(p[i], screen);
        }
      } else {
        hide PerformAll;
        hide EncodeSequence;
        PerformOne(before, screen);
        if control == 'A' as int {
          calls := calls + [ActionCall(MoveCursor(0, -p[0]))];
        } else if control == 'B' as int {
          calls := calls + [ActionCall(MoveCursor(0, p[0]))];
        } else if control == 'C' as int {
          calls := calls + [ActionCall(MoveCursor(p[0], 0))];
        } else if control == 'D' as int {
          calls := calls + [ActionCall(MoveCursor(-p[0], 0))];
        } else if control == 'J' as int {
          if st.parameterCount == 1 {
            if p[0] == 2 {
              calls := calls + [ActionCall(ClearScreen)];
            }
          }
        } else if control == 'f' as int {
          calls := calls + [ActionCall(PlaceCursor(p[1], p[0]))];
        } else if control == 'n' as int {
          if p[0] == 6 {
            ReplyCursor(screen);
          }
        } else if control == 'r' as int {
          if st.parameterCount == 0 {
            calls := calls + [ActionCall(ScrollAreaScreen)];
          } else {
            calls := calls + [ActionCall(ScrollArea(p[0], p[1]))];
          }
        } else if control == 'S' as int {
          calls := calls + [ActionCall(ScrollBy(p[0]))];
        } else if control == 'T' as int {
          calls := calls + [ActionCall(ScrollBy(-p[0]))];
        }
      }
    }

    method SetColor(parameter: int, screen: Screen)
      modifies this
      ensures View() == PerformAll(old(View()), Color(parameter), screen)
    {
      PerformOne(View(), screen);
      if parameter == 0 {
        calls := calls + [ActionCall(ResetColors)];
      } else if 30 <= parameter < 40 {
        calls := calls + [ActionCall(Foreground(parameter - 30))];
      } else if 40 <= parameter < 50 {
        calls := calls + [ActionCall(Background(parameter - 40))];
      }
    }

    method ReplyCursor(screen: Screen)
      modifies this
      ensures View() == Perform(old(View()), ReportCursor, screen)
    {
      hide EncodeSequence;
      var position := Decimal.Print(screen.y) + [SEMICOLON] + Decimal.Print(screen.x);
      ReplyText(Vt100, screen.y, screen.x, 'R' as int);
      shellStdin := shellStdin + ([ESC, LEFT_BRACKET] + position + ['R' as int]);
    }

    method ReplySize(screen: Screen)
      modifies this
      ensures View() == Perform(old(View()), ReportSize, screen)
    {
      hide EncodeSequence;
      var size := Decimal.Print(screen.columns) + [SEMICOLON] + Decimal.Print(screen.rows);
      ReplyText(Ghostterm, screen.columns, screen.rows, 'i' as int);
      shellStdin := shellStdin + ([ESC, LEFT_BRACE] + size + ['i' as int]);
    }

    method ProcessSequenceGhostterm(st: StreamStatus, screen: Screen)
      requires st.Valid()
      modifies this
      ensures View() == PerformAll(old(View()), HandleGhostterm(st.parameters[..], st.controlCharacter), screen)
    {
      hide PerformAll;
      hide EncodeSequence;
      PerformOne(View(), screen);
      var p := st.parameters[..];
      var control := st.controlCharacter;
      if control == 'm' as int {
        inputMode := p[0];
      } else if control == 'e' as int {
        inputEcho := p[0] == 1;
      } else if control == 'i' as int {
        ReplySize(screen);
      } else if control == 'p' as int {
        calls := calls + [ActionCall(Put(p[0]))];
      } else if control == 'x' as int {
        calls := calls + [ActionCall(RemoveCharacter)];
      } else if control == 'c' as int {
        controlProcess := p[0];
      } else if control == 'C' as int {
        if p[0] == 0 {
          calls := calls + [ActionCall(ShowCursor(p[1] != 0))];
        }
      }
    }

    method WriteTermkeyToShell(termkey: int)
      modifies this`shellStdin
      ensures shellStdin == old(shellStdin) + Termkey(termkey)
    {
      var low, high := termkey % 256, termkey / 256 % 256;
      shellStdin := shellStdin + [SUB, low, high];
    }
  }

  lemma PerformOne(t: Terminal, screen: Screen)
    ensures forall a :: PerformAll(t, [a], screen) == Perform(t, a, screen)
    ensures PerformAll(t, [], screen) == t
  {
    forall a
      ensures PerformAll(t, [a], screen) == Perform(t, a, screen)
    {
      assert [a][..0] == [];
    }
  }

  lemma {:induction false} PerformInPieces(t: Terminal, a: seq<Action>, b: seq<Action>, screen: Screen)
    ensures PerformAll(t, a + b, screen) == PerformAll(PerformAll(t, a, screen), b, screen)
  {
    if b == [] {
      assert a + b == a;
    } else {
      PerformInPieces(t, a, b[..|b| - 1], screen);
      assert (a + b)[..|a| + |b| - 1] == a + b[..|b| - 1];
    }
  }

  lemma ReplyText(kind: Kind, a: nat, b: nat, final: byte)
    ensures EncodeSequence(kind, [a, b], final)
         == [ESC, Opening(kind)] + (Decimal.Print(a) + [SEMICOLON] + Decimal.Print(b)) + [final]
  {
    var pa, pb := Decimal.Print(a), Decimal.Print(b);
    assert [a, b][..1] == [a];
    assert PrintArguments([a]) == pa;
    assert PrintArguments([a, b]) == pa + ([SEMICOLON] + pb);
  }

  /** The effect of what a single byte can cause: nothing, one event, or a tab. */
  lemma EffectOfOne(t: Terminal, events: seq<Event>, screen: Screen)
    requires forall i :: 0 <= i < |events| ==> events[i].Write? || Handled(events[i])
    ensures events == [] ==> Effect(t, events, screen) == t
    ensures |events| == 1 && events[0].Sequence? ==> Effect(t, events, screen) == PerformAll(t, Handle(events[0]), screen)
    ensures |events| == 1 && events[0].Write? ==> Effect(t, events, screen) == Wrote(t, events[0])
    ensures events == TextEvents(false, TAB) ==> Effect(t, events, screen) == Wrote(Wrote(Wrote(Wrote(t, SPACES), SPACES), SPACES), SPACES)
  {
    if events == TextEvents(false, TAB) {
      var w := SPACES;
      assert events == [w, w, w, w];
      assert [w][..0] == [];
      assert Effect(t, [w], screen) == Wrote(t, w);
      assert [w, w][..1] == [w];
      assert Effect(t, [w, w], screen) == Wrote(Wrote(t, w), w);
      assert [w, w, w][..2] == [w, w];
      assert [w, w, w, w][..3] == [w, w, w];
    }
  }
}
