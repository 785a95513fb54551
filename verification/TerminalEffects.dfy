/** What the terminal stream looks like byte by byte, and what each byte sequence finally does to
    the terminal. */
module TerminalEffects {
  import opened Ascii
  import opened TerminalStream
  import opened TerminalProgram
  import Decimal

  // ----- The bytes the client library writes

  /** The sequences of the client library, as its format strings show them. */
  lemma WireFormat(cmd: Command)
    ensures cmd.SetEcho? ==> Encode(cmd) == [ESC, '{' as int] + PrintInt(if cmd.echo then 1 else 0) + ['e' as int]
    ensures cmd.SetMode? ==> Encode(cmd) == [ESC, '{' as int] + PrintInt(cmd.mode) + ['m' as int]
    ensures cmd.PutChar? ==> Encode(cmd) == [ESC, '{' as int] + PrintInt(cmd.c) + ['p' as int]
    ensures cmd.SetCursor? ==>
      Encode(cmd) == [ESC, '[' as int] + PrintInt(cmd.y) + [';' as int] + PrintInt(cmd.x) + ['f' as int]
    ensures cmd.GetCursor? ==> Encode(cmd) == [ESC, '[' as int, '6' as int, 'n' as int]
    ensures cmd.GetSize? ==> Encode(cmd) == [ESC, '{' as int, 'i' as int]
    ensures cmd.MoveCursorUp? ==> Encode(cmd) == [ESC, '[' as int] + PrintInt(cmd.n) + ['A' as int]
    ensures cmd.MoveCursorDown? ==> Encode(cmd) == [ESC, '[' as int] + PrintInt(cmd.n) + ['B' as int]
    ensures cmd.MoveCursorForward? ==> Encode(cmd) == [ESC, '[' as int] + PrintInt(cmd.n) + ['C' as int]
    ensures cmd.MoveCursorBack? ==> Encode(cmd) == [ESC, '[' as int] + PrintInt(cmd.n) + ['D' as int]
    ensures cmd.Remove? ==> Encode(cmd) == [ESC, '{' as int, 'x' as int]
    ensures cmd.SetControlProcess? ==> Encode(cmd) == [ESC, '{' as int] + PrintInt(cmd.pid) + ['c' as int]
    ensures cmd.Clear? ==> Encode(cmd) == [ESC, '[' as int, '2' as int, 'J' as int]
    ensures cmd.SetScrollAreaToScreen? ==> Encode(cmd) == [ESC, '[' as int, 'r' as int]
    ensures cmd.SetScrollArea? ==>
      Encode(cmd) == [ESC, '[' as int] + PrintInt(cmd.start) + [';' as int] + PrintInt(cmd.end) + ['r' as int]
    ensures cmd.Scroll? && cmd.value >= 0 ==> Encode(cmd) == [ESC, '[' as int] + PrintInt(cmd.value) + ['S' as int]
    ensures cmd.Scroll? && cmd.value < 0 ==> Encode(cmd) == [ESC, '[' as int] + PrintInt(-cmd.value) + ['T' as int]
    ensures cmd.SetCursorVisible? ==>
      Encode(cmd) == [ESC, '{' as int, '0' as int, ';' as int] + PrintInt(if cmd.visible then 1 else 0) + ['C' as int]
  {
    hide EncodeSequence;
    hide PrintInt;
    PrintedConstants();
    var a := cmd.Arguments();
    var kind, final := cmd.Kind(), cmd.Final();
    if a == [] {
      NoNumber(kind, final);
    } else if |a| == 1 {
      assert a == [a[0]];
      OneNumber(kind, a[0], final);
    } else {
      assert a == [a[0], a[1]];
      TwoNumbers(kind, a[0], a[1], final);
    }
  }

  lemma NoNumber(kind: Kind, final: byte)
    ensures EncodeSequence(kind, [], final) == [ESC] + [Opening(kind), final]
  {
  }

  lemma OneNumber(kind: Kind, n: int, final: byte)
    ensures EncodeSequence(kind, [n], final) == [ESC] + [Opening(kind)] + PrintInt(n) + [final]
  {
    hide PrintInt;
    assert PrintArguments([n]) == PrintInt(n);
  }

  lemma TwoNumbers(kind: Kind, n: int, m: int, final: byte)
    ensures EncodeSequence(kind, [n, m], final)
         == [ESC] + [Opening(kind)] + PrintInt(n) + [SEMICOLON] + PrintInt(m) + [final]
  {
    hide PrintInt;
    assert [n, m][..1] == [n];
    assert PrintArguments([n]) == PrintInt(n);
    assert PrintArguments([n, m]) == PrintInt(n) + ([SEMICOLON] + PrintInt(m));
  }

  lemma PrintedConstants()
    ensures PrintInt(0) == ['0' as int] && PrintInt(2) == ['2' as int] && PrintInt(6) == ['6' as int]
  {
  }

  // ----- What a character does

  /** A byte outside a sequence: a tab shows four blanks, a carriage return nothing, and anything
      else itself, in red if it comes from the error stream. */
  lemma TextEffect(t: Terminal, screen: Screen, isStderr: bool, c: byte)
    requires c != ESC
    ensures var (end, events) := Run(INITIAL, isStderr, [c]);
      && end == INITIAL
      && (forall i :: 0 <= i < |events| ==> events[i].Write?)
      && Effect(t, events, screen)
           == if c == 13 then t
              else if c == 9 then
                t.(calls := t.calls + [WriteCall(32, false), WriteCall(32, false), WriteCall(32, false), WriteCall(32, false)])
              else t.(calls := t.calls + [WriteCall(c, isStderr)])
  {
    RunOne(INITIAL, isStderr, c);
    var events := Run(INITIAL, isStderr, [c]).1;
    EffectOfOne(t, events, screen);
    if c == 9 {
      var w := WriteCall(32, false);
      assert t.calls + [w] + [w] + [w] + [w] == t.calls + [w, w, w, w];
    }
  }

  /** An escape character in front of anything but a bracket or a brace swallows it. */
  lemma OtherEscape(isStderr: bool, c: byte)
    requires c != '[' as int && c != '{' as int
    ensures Run(INITIAL, isStderr, [ESC, c]) == (INITIAL, [])
  {
    RunOne(INITIAL, isStderr, ESC);
    RunInPieces(INITIAL, isStderr, [ESC], [c]);
    RunOne(INITIAL.(status := LastWasEsc), isStderr, c);
    assert [ESC] + [c] == [ESC, c];
  }

  // ----- What a command does

  /** The effect of each command, from its bytes to the terminal. */
  lemma CommandEffect(t: Terminal, screen: Screen, isStderr: bool, cmd: Command)
    requires NonNegative(cmd.Arguments())
    ensures Run(INITIAL, isStderr, Encode(cmd)).1 == [Expected(cmd)] && Handled(Expected(cmd))
    ensures var r := Effect(t, [Expected(cmd)], screen);
      && (cmd.SetEcho? ==> r == t.(echo := cmd.echo))
      && (cmd.SetMode? ==> r == t.(mode := cmd.mode))
      && (cmd.SetControlProcess? ==> r == t.(controlled := cmd.pid))
      && (cmd.GetCursor? ==> r == t.(toShell := t.toShell
           + ([ESC, '[' as int] + Decimal.Print(screen.y) + [';' as int] + Decimal.Print(screen.x) + ['R' as int])))
      && (cmd.GetSize? ==> r == t.(toShell := t.toShell
           + ([ESC, '{' as int] + Decimal.Print(screen.columns) + [';' as int] + Decimal.Print(screen.rows) + ['i' as int])))
      && (cmd.PutChar? ==> r == Called(t, Put(cmd.c)))
      && (cmd.SetCursor? ==> r == Called(t, PlaceCursor(cmd.x, cmd.y)))
      && (cmd.MoveCursorUp? ==> r == Called(t, MoveCursor(0, -cmd.n)))
      && (cmd.MoveCursorDown? ==> r == Called(t, MoveCursor(0, cmd.n)))
      && (cmd.MoveCursorForward? ==> r == Called(t, MoveCursor(cmd.n, 0)))
      && (cmd.MoveCursorBack? ==> r == Called(t, MoveCursor(-cmd.n, 0)))
      && (cmd.Remove? ==> r == Called(t, RemoveCharacter))
      && (cmd.Clear? ==> r == Called(t, ClearScreen))
      && (cmd.SetScrollAreaToScreen? ==> r == Called(t, ScrollAreaScreen))
      && (cmd.SetScrollArea? ==> r == Called(t, ScrollArea(cmd.start, cmd.end)))
      && (cmd.Scroll? ==> r == Called(t, ScrollBy(cmd.value)))
      && (cmd.SetCursorVisible? ==> r == Called(t, ShowCursor(cmd.visible)))
  {
    hide Run;
    hide Effect;
    hide PrintArguments;
    DecodeSequence(isStderr, cmd.Kind(), cmd.Arguments(), cmd.Final());
    HandledAsMeant(cmd);
    EffectOfOne(t, [Expected(cmd)], screen);
    hide Handle;
    hide Handled;
    MeaningEffect(t, screen, cmd);
  }

  lemma MeaningEffect(t: Terminal, screen: Screen, cmd: Command)
    ensures var r := PerformAll(t, Meaning(cmd), screen);
      && (cmd.SetEcho? ==> r == t.(echo := cmd.echo))
      && (cmd.SetMode? ==> r == t.(mode := cmd.mode))
      && (cmd.SetControlProcess? ==> r == t.(controlled := cmd.pid))
      && (cmd.GetCursor? ==> r == t.(toShell := t.toShell
           + ([ESC, '[' as int] + Decimal.Print(screen.y) + [';' as int] + Decimal.Print(screen.x) + ['R' as int])))
      && (cmd.GetSize? ==> r == t.(toShell := t.toShell
           + ([ESC, '{' as int] + Decimal.Print(screen.columns) + [';' as int] + Decimal.Print(screen.rows) + ['i' as int])))
      && (cmd.PutChar? ==> r == Called(t, Put(cmd.c)))
      && (cmd.SetCursor? ==> r == Called(t, PlaceCursor(cmd.x, cmd.y)))
      && (cmd.MoveCursorUp? ==> r == Called(t, MoveCursor(0, -cmd.n)))
      && (cmd.MoveCursorDown? ==> r == Called(t, MoveCursor(0, cmd.n)))
      && (cmd.MoveCursorForward? ==> r == Called(t, MoveCursor(cmd.n, 0)))
      && (cmd.MoveCursorBack? ==> r == Called(t, MoveCursor(-cmd.n, 0)))
      && (cmd.Remove? ==> r == Called(t, RemoveCharacter))
      && (cmd.Clear? ==> r == Called(t, ClearScreen))
      && (cmd.SetScrollAreaToScreen? ==> r == Called(t, ScrollAreaScreen))
      && (cmd.SetScrollArea? ==> r == Called(t, ScrollArea(cmd.start, cmd.end)))
      && (cmd.Scroll? ==> r == Called(t, ScrollBy(cmd.value)))
      && (cmd.SetCursorVisible? ==> r == Called(t, ShowCursor(cmd.visible)))
  {
    hide PerformAll;
    hide EncodeSequence;
    PerformOne(t, screen);
    Replies(screen);
  }

  /** The terminal after one more call on the screen. */
  function Called(t: Terminal, a: Action): Terminal {
    t.(calls := t.calls + [ActionCall(a)])
  }

  lemma Replies(screen: Screen)
    ensures CursorReply(screen.x, screen.y)
         == [ESC, '[' as int] + Decimal.Print(screen.y) + [';' as int] + Decimal.Print(screen.x) + ['R' as int]
    ensures SizeReply(screen.columns, screen.rows)
         == [ESC, '{' as int] + Decimal.Print(screen.columns) + [';' as int] + Decimal.Print(screen.rows) + ['i' as int]
  {
    hide EncodeSequence;
    ReplyText(Vt100, screen.y, screen.x, 'R' as int);
    ReplyText(Ghostterm, screen.columns, screen.rows, 'i' as int);
  }

  // ----- Sequences the client library does not write

  lemma SequenceEffect(t: Terminal, screen: Screen, isStderr: bool, kind: Kind, a: seq<int>, final: byte)
    requires NonNegative(a) && |a| <= N && !IsParameterByte(final)
    ensures var e := Sequence(kind, |a|, Padded(a), final);
      && Run(INITIAL, isStderr, EncodeSequence(kind, a, final)).1 == [e]
      && Handled(e)
      && Effect(t, [e], screen) == PerformAll(t, Handle(e), screen)
  {
    hide Run;
    hide Effect;
    DecodeSequence(isStderr, kind, a, final);
    EffectOfOne(t, [Sequence(kind, |a|, Padded(a), final)], screen);
  }

  /** A colour setting: 0 resets, 30 to 39 is the foreground, 40 to 49 the background, and other
      numbers do nothing. */
  lemma ColorEffect(t: Terminal, screen: Screen, isStderr: bool, p: nat)
    ensures var e := Sequence(Vt100, 1, Padded([p]), 'm' as int);
      && Run(INITIAL, isStderr, EncodeSequence(Vt100, [p], 'm' as int)).1 == [e]
      && Handled(e)
      && Effect(t, [e], screen)
           == if p == 0 then Called(t, ResetColors)
              else if 30 <= p <= 39 then Called(t, Foreground(p - 30))
              else if 40 <= p <= 49 then Called(t, Background(p - 40))
              else t
  {
    hide Run;
    hide Effect;
    hide EncodeSequence;
    hide Colors;
    SequenceEffect(t, screen, isStderr, Vt100, [p], 'm' as int);
    OneColor(p);
    PerformOne(t, screen);
    hide PerformAll;
  }

  lemma OneColor(p: nat)
    ensures Colors(Padded([p])[..1]) == Color(p)
  {
    assert Padded([p])[..1] == [p];
    assert [p][..0] == [];
    assert Colors([]) + Color(p) == Color(p);
  }

  /** Several colours are set in the order of the numbers. */
  lemma ColorsInOrder(t: Terminal, screen: Screen, isStderr: bool, p: nat, q: nat)
    requires 30 <= p <= 39 && 40 <= q <= 49
    ensures var e := Sequence(Vt100, 2, Padded([p, q]), 'm' as int);
      && Run(INITIAL, isStderr, EncodeSequence(Vt100, [p, q], 'm' as int)).1 == [e]
      && Handled(e)
      && Effect(t, [e], screen) == Called(Called(t, Foreground(p - 30)), Background(q - 40))
  {
    hide Run;
    hide Effect;
    hide EncodeSequence;
    SequenceEffect(t, screen, isStderr, Vt100, [p, q], 'm' as int);
    TwoColors(p, q);
    hide Colors;
    hide Padded;
    TwoCalls(t, screen, Foreground(p - 30), Background(q - 40));
    hide PerformAll;
  }

  lemma TwoColors(p: nat, q: nat)
    requires 30 <= p <= 39 && 40 <= q <= 49
    ensures Colors(Padded([p, q])[..2]) == [Foreground(p - 30), Background(q - 40)]
  {
    assert Padded([p, q])[..2] == [p, q];
    assert [p, q][..1] == [p];
    assert [p][..0] == [];
    assert Colors([p]) == [Foreground(p - 30)];
  }

  lemma TwoCalls(t: Terminal, screen: Screen, a: Action, b: Action)
    requires a.Foreground? && b.Background?
    ensures PerformAll(t, [a, b], screen) == Called(Called(t, a), b)
  {
    assert [a, b][..1] == [a];
    assert [a][..0] == [];
    assert PerformAll(t, [a], screen) == Called(t, a);
  }

  /** Sequences with an unknown final character do nothing, nor does clearing less than the whole
      screen or asking for anything but the cursor. */
  lemma NoEffectVt100(t: Terminal, screen: Screen, isStderr: bool, a: seq<int>, final: byte)
    requires NonNegative(a) && |a| <= N && !IsParameterByte(final)
    requires var c := final as char;
      && c != 'A' && c != 'B' && c != 'C' && c != 'D' && c != 'm' && c != 'f' && c != 'r' && c != 'S' && c != 'T'
      && (c == 'J' ==> a != [2]) && (c == 'n' ==> a == [] || a[0] != 6)
    ensures var e := Sequence(Vt100, |a|, Padded(a), final);
      && Run(INITIAL, isStderr, EncodeSequence(Vt100, a, final)).1 == [e]
      && Handled(e)
      && Effect(t, [e], screen) == t
  {
    hide Run;
    hide Effect;
    hide EncodeSequence;
    SequenceEffect(t, screen, isStderr, Vt100, a, final);
    assert a != [] ==> Padded(a)[0] == a[0];
    assert |a| == 1 ==> a == [a[0]];
    assert Handle(Sequence(Vt100, |a|, Padded(a), final)) == [];
  }

  /** The same for the other kind, where a control of anything but the cursor does nothing. */
  lemma NoEffectGhostterm(t: Terminal, screen: Screen, isStderr: bool, a: seq<int>, final: byte)
    requires NonNegative(a) && |a| <= N && !IsParameterByte(final)
    requires var c := final as char;
      && c != 'm' && c != 'e' && c != 'i' && c != 'p' && c != 'x' && c != 'c'
      && (c == 'C' ==> a != [] && a[0] != 0)
    ensures var e := Sequence(Ghostterm, |a|, Padded(a), final);
      && Run(INITIAL, isStderr, EncodeSequence(Ghostterm, a, final)).1 == [e]
      && Handled(e)
      && Effect(t, [e], screen) == t
  {
    hide Run;
    hide Effect;
    hide EncodeSequence;
    SequenceEffect(t, screen, isStderr, Ghostterm, a, final);
    assert a != [] ==> Padded(a)[0] == a[0];
    assert Handle(Sequence(Ghostterm, |a|, Padded(a), final)) == [];
  }
}
