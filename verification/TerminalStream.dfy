/** The byte stream between a program and its terminal: the automaton that decodes it, the
    commands the client library encodes into it, and the replies that travel back. */
module TerminalStream {
  import opened Ascii
  import Decimal

  /** TERMINAL_STREAM_CONTROL_MAX_PARAMETERS */
  const N: nat := 4

  type params = p: seq<int> | |p| == N witness [0, 0, 0, 0]

  const ZEROS: params := [0, 0, 0, 0]

  // ----- Parameters

  predicate IsParameterByte(c: int) {
    IsDigit(c) || c == SEMICOLON
  }

  /** What one digit or semicolon does to the parameter count and values. Digits of parameters
      beyond the last are dropped. */
  function ParameterStep(count: nat, p: params, c: int): (r: (nat, params))
    requires IsParameterByte(c)
  {
    if c == SEMICOLON then (count + 1, p)
    else
      var count := if count == 0 then 1 else count;
      (count, if count <= N then p[count - 1 := p[count - 1] * 10 + (c - ZERO)] else p)
  }

  function Collect(start: params, s: seq<byte>): (r: (nat, params))
    requires forall i :: 0 <= i < |s| ==> IsParameterByte(s[i])
  {
    if s == [] then (0, start)
    else
      var (count, p) := Collect(start, s[..|s| - 1]);
      ParameterStep(count, p, s[|s| - 1])
  }

  // ----- The automaton

  datatype Status = Text | LastWasEsc | WithinVt100 | WithinGhostterm

  datatype Kind = Vt100 | Ghostterm

  datatype State = State(status: Status, count: nat, parameters: params)
  {
    predicate Within() {
      status == WithinVt100 || status == WithinGhostterm
    }

    function Kind(): Kind
      requires Within()
    {
      if status == WithinVt100 then Vt100 else Ghostterm
    }

    /** Outside a sequence nothing of an earlier one is left. */
    predicate Clean() {
      !Within() ==> count == 0 && parameters == ZEROS
    }
  }

  const INITIAL: State := State(Text, 0, ZEROS)

  /** A character written to the screen, in red if it came from the error stream, or a complete
      control sequence. */
  datatype Event =
    | Write(c: byte, red: bool)
    | Sequence(kind: Kind, count: nat, parameters: params, control: byte)

  const TAB: byte := 9
  const RETURN: byte := 13

  function TextEvents(isStderr: bool, c: byte): seq<Event> {
    if c == RETURN then []
    else if c == TAB then [Write(SPACE, false), Write(SPACE, false), Write(SPACE, false), Write(SPACE, false)]
    else [Write(c, isStderr)]
  }

  function Step(st: State, isStderr: bool, c: byte): (r: (State, seq<Event>)) {
    match st.status
    case Text =>
      if c == ESC then (st.(status := LastWasEsc), []) else (st, TextEvents(isStderr, c))
    case LastWasEsc =>
      (st.(status := if c == LEFT_BRACKET then WithinVt100
                     else if c == LEFT_BRACE then WithinGhostterm else Text), [])
    case _ =>
      if IsParameterByte(c) then
        var (count, p) := ParameterStep(st.count, st.parameters, c);
        (State(st.status, count, p), [])
      else
        (INITIAL, [Sequence(st.Kind(), st.count, st.parameters, c)])
  }

  function Run(st: State, isStderr: bool, bytes: seq<byte>): (r: (State, seq<Event>)) {
    if bytes == [] then (st, [])
    else
      var (mid, before) := Run(st, isStderr, bytes[..|bytes| - 1]);
      var (end, events) := Step(mid, isStderr, bytes[|bytes| - 1]);
      (end, before + events)
  }

  /** Where the bytes are cut into reads makes no difference. */
  lemma {:induction false} RunInPieces(st: State, isStderr: bool, a: seq<byte>, b: seq<byte>)
    ensures var (mid, first) := Run(st, isStderr, a);
      var (end, second) := Run(mid, isStderr, b);
      Run(st, isStderr, a + b) == (end, first + second)
  {
    hide Step;
    if b == [] {
      assert a + b == a;
      assert Run(st, isStderr, a).1 + [] == Run(st, isStderr, a).1;
    } else {
      var n := |b| - 1;
      assert (a + b)[..|a| + n] == a + b[..n];
      RunInPieces(st, isStderr, a, b[..n]);
      var (mid, first) := Run(st, isStderr, a);
      var (late, second) := Run(mid, isStderr, b[..n]);
      var events := Step(late, isStderr, b[n]).1;
      assert (first + second) + events == first + (second + events);
    }
  }

  lemma RunOne(st: State, isStderr: bool, c: byte)
    ensures Run(st, isStderr, [c]) == Step(st, isStderr, c)
  {
    assert [c][..0] == [];
    assert [] + Step(st, isStderr, c).1 == Step(st, isStderr, c).1;
  }

  /** On every run from a clean state, count and parameters are zero outside a sequence. */
  lemma {:induction false} RunStaysClean(st: State, isStderr: bool, bytes: seq<byte>)
    requires st.Clean()
    ensures Run(st, isStderr, bytes).0.Clean()
  {
    if bytes != [] {
      RunStaysClean(st, isStderr, bytes[..|bytes| - 1]);
    }
  }

  // ----- What a string of digits and semicolons means

  /** The text between the semicolons. */
  function Fields(s: seq<byte>): (f: seq<seq<byte>>)
    ensures |f| >= 1
  {
    if s == [] then [[]] else FieldsStep(Fields(s[..|s| - 1]), s[|s| - 1])
  }

  /** The fields with a text added to the last one. */
  function Extended(f: seq<seq<byte>>, d: seq<byte>): seq<seq<byte>>
    requires |f| >= 1
  {
    f[..|f| - 1] + [f[|f| - 1] + d]
  }

  function FieldsStep(f: seq<seq<byte>>, c: byte): (next: seq<seq<byte>>)
    requires |f| >= 1
    ensures |next| >= 1
  {
    if c == SEMICOLON then f + [[]] else Extended(f, [c])
  }

  /** The fields that count as parameters: an empty first one does not. */
  function Counted(f: seq<seq<byte>>): seq<seq<byte>>
    requires |f| >= 1
  {
    if f[0] == [] then f[1..] else f
  }

  predicate AllNumbers(f: seq<seq<byte>>) {
    forall i :: 0 <= i < |f| ==> Decimal.AllDigits(f[i])
  }

  function ValueAt(f: seq<seq<byte>>, i: nat): int
    requires AllNumbers(f)
  {
    if i < |f| then Decimal.Value(f[i]) else 0
  }

  /** Parameter contents that show the given fields. */
  predicate Shows(r: (nat, params), f: seq<seq<byte>>)
    requires |f| >= 1
  {
    && AllNumbers(f)
    && r.0 == |Counted(f)|
    && forall i :: 0 <= i < N ==> r.1[i] == ValueAt(Counted(f), i)
  }

  lemma ShowsAfterSemicolon(r: (nat, params), f: seq<seq<byte>>)
    requires |f| >= 1 && Shows(r, f)
    ensures Shows(ParameterStep(r.0, r.1, SEMICOLON), FieldsStep(f, SEMICOLON))
  {
    var g := f + [[]];
    assert Counted(g) == Counted(f) + [[]];
  }

  lemma CountedExtended(f: seq<seq<byte>>, c: byte)
    requires |f| >= 1
    ensures f == [[]] ==> Counted(f) == [] && Counted(Extended(f, [c])) == [[c]]
    ensures f != [[]] ==> |Counted(f)| >= 1 && Counted(Extended(f, [c])) == Extended(Counted(f), [c])
    ensures f != [[]] ==> Counted(f)[|Counted(f)| - 1] == f[|f| - 1]
  {
    if f == [[]] {
      assert [] + [c] == [c];
      assert Extended(f, [c]) == [[c]];
    }
  }

  lemma ShowsAfterDigit(r: (nat, params), f: seq<seq<byte>>, c: byte)
    requires |f| >= 1 && Shows(r, f) && IsDigit(c)
    ensures Shows(ParameterStep(r.0, r.1, c), FieldsStep(f, c))
  {
    hide Decimal.Value;
    hide Counted;
    CountedExtended(f, c);
    Decimal.ValueAppend(f[|f| - 1], c);
    SingleDigit(c);
  }

  lemma SingleDigit(c: byte)
    requires IsDigit(c)
    ensures Decimal.AllDigits([c]) && Decimal.Value([c]) == c - ZERO
  {
    assert [c][..0] == [];
  }

  /** Each counted field is a parameter with the field's decimal value; missing and empty ones
      are zero, and those beyond the last are ignored. */
  lemma {:induction false} CollectMeaning(s: seq<byte>)
    requires forall i :: 0 <= i < |s| ==> IsParameterByte(s[i])
    ensures Shows(Collect(ZEROS, s), Fields(s))
  {
    hide ParameterStep;
    hide FieldsStep;
    if s != [] {
      var n := |s| - 1;
      CollectMeaning(s[..n]);
      hide Shows;
      if s[n] == SEMICOLON {
        ShowsAfterSemicolon(Collect(ZEROS, s[..n]), Fields(s[..n]));
      } else {
        ShowsAfterDigit(Collect(ZEROS, s[..n]), Fields(s[..n]), s[n]);
      }
    }
  }

  /** ";5" is one parameter, not two of which the first is empty. */
  lemma LeadingSemicolon()
    ensures Collect(ZEROS, [SEMICOLON, ZERO + 5]) == (1, [5, 0, 0, 0])
  {
    var s: seq<byte> := [SEMICOLON, ZERO + 5];
    assert s[..1] == [SEMICOLON] && [SEMICOLON][..0] == [];
    assert Collect(ZEROS, [SEMICOLON]) == (1, ZEROS);
    assert Collect(ZEROS, s) == ParameterStep(1, ZEROS, ZERO + 5);
    assert ZEROS[0 := 5] == [5, 0, 0, 0];
  }

  // ----- Commands

  datatype Command =
    | SetEcho(echo: bool)
    | SetMode(mode: int)
    | PutChar(c: int)
    | SetCursor(x: int, y: int)
    | GetCursor
    | GetSize
    | MoveCursorUp(n: int)
    | MoveCursorDown(n: int)
    | MoveCursorForward(n: int)
    | MoveCursorBack(n: int)
    | Remove
    | SetControlProcess(pid: int)
    | Clear
    | SetScrollAreaToScreen
    | SetScrollArea(start: int, end: int)
    | Scroll(value: int)
    | SetCursorVisible(visible: bool)
  {
    function Kind(): Kind {
      match this
      case SetEcho(_) => Ghostterm
      case SetMode(_) => Ghostterm
      case PutChar(_) => Ghostterm
      case GetSize => Ghostterm
      case Remove => Ghostterm
      case SetControlProcess(_) => Ghostterm
      case SetCursorVisible(_) => Ghostterm
      case _ => Vt100
    }

    /** The numbers the library prints. */
    function Arguments(): (a: seq<int>)
      ensures |a| <= 2
    {
      match this
      case SetEcho(echo) => [if echo then 1 else 0]
      case SetMode(mode) => [mode]
      case PutChar(c) => [c]
      case SetCursor(x, y) => [y, x]
      case GetCursor => [6]
      case GetSize => []
      case MoveCursorUp(n) => [n]
      case MoveCursorDown(n) => [n]
      case MoveCursorForward(n) => [n]
      case MoveCursorBack(n) => [n]
      case Remove => []
      case SetControlProcess(pid) => [pid]
      case Clear => [2]
      case SetScrollAreaToScreen => []
      case SetScrollArea(start, end) => [start, end]
      case Scroll(value) => [if value >= 0 then value else -value]
      case SetCursorVisible(visible) => [0, if visible then 1 else 0]
    }

    function Final(): (c: byte)
      ensures !IsParameterByte(c) && c != MINUS
    {
      (match this
       case SetEcho(_) => 'e'
       case SetMode(_) => 'm'
       case PutChar(_) => 'p'
       case SetCursor(_, _) => 'f'
       case GetCursor => 'n'
       case GetSize => 'i'
       case MoveCursorUp(_) => 'A'
       case MoveCursorDown(_) => 'B'
       case MoveCursorForward(_) => 'C'
       case MoveCursorBack(_) => 'D'
       case Remove => 'x'
       case SetControlProcess(_) => 'c'
       case Clear => 'J'
       case SetScrollAreaToScreen => 'r'
       case SetScrollArea(_, _) => 'r'
       case Scroll(value) => if value >= 0 then 'S' else 'T'
       case SetCursorVisible(_) => 'C') as int
    }
  }

  /** "%d" */
  function PrintInt(n: int): (s: seq<byte>) {
    if n >= 0 then Decimal.Print(n) else [MINUS] + Decimal.Print(-n)
  }

  function PrintArguments(a: seq<int>): (s: seq<byte>) {
    if a == [] then []
    else if |a| == 1 then PrintInt(a[0])
    else PrintArguments(a[..|a| - 1]) + ([SEMICOLON] + PrintInt(a[|a| - 1]))
  }

  function Opening(kind: Kind): byte {
    if kind == Vt100 then LEFT_BRACKET else LEFT_BRACE
  }

  /** A control sequence with the given arguments. */
  function EncodeSequence(kind: Kind, a: seq<int>, final: byte): seq<byte> {
    [ESC, Opening(kind)] + (PrintArguments(a) + [final])
  }

  function Encode(cmd: Command): seq<byte> {
    EncodeSequence(cmd.Kind(), cmd.Arguments(), cmd.Final())
  }

  function Padded(a: seq<int>): params
    requires |a| <= N
  {
    a + ZEROS[|a|..]
  }

  predicate NonNegative(a: seq<int>) {
    forall i :: 0 <= i < |a| ==> a[i] >= 0
  }

  function Expected(cmd: Command): Event {
    Sequence(cmd.Kind(), |cmd.Arguments()|, Padded(cmd.Arguments()), cmd.Final())
  }

  // ----- Decoding undoes encoding

  lemma ExtendedMore(f: seq<seq<byte>>, d: seq<byte>, c: byte)
    requires |f| >= 1
    ensures Extended(f, []) == f
    ensures |Extended(f, d)| >= 1 && Extended(Extended(f, d), [c]) == Extended(f, d + [c])
  {
    var last := f[|f| - 1];
    assert (last + d) + [c] == last + (d + [c]);
    assert last + [] == last;
  }

  lemma FieldsOfDigit(s: seq<byte>, c: byte)
    requires IsDigit(c)
    ensures Fields(s + [c]) == Extended(Fields(s), [c])
  {
    assert (s + [c])[..|s|] == s;
  }

  lemma {:induction false} FieldsOfDigits(s: seq<byte>, d: seq<byte>)
    requires Decimal.AllDigits(d)
    ensures Fields(s + d) == Extended(Fields(s), d)
    decreases |d|
  {
    hide Fields;
    hide Extended;
    if d == [] {
      assert s + d == s;
      ExtendedMore(Fields(s), [], 0);
    } else {
      var n := |d| - 1;
      FieldsOfDigits(s, d[..n]);
      ExtendedMore(Fields(s), d[..n], d[n]);
      FieldsOfDigit(s + d[..n], d[n]);
      assert s + d == (s + d[..n]) + [d[n]];
      assert d == d[..n] + [d[n]];
    }
  }

  lemma FieldsOfSemicolon(s: seq<byte>, d: seq<byte>)
    requires Decimal.AllDigits(d)
    ensures Fields(s + ([SEMICOLON] + d)) == Fields(s) + [d]
  {
    assert s + ([SEMICOLON] + d) == (s + [SEMICOLON]) + d;
    assert (s + [SEMICOLON])[..|s|] == s;
    FieldsOfDigits(s + [SEMICOLON], d);
    assert [] + d == d;
  }

  function Printed(a: seq<int>): (f: seq<seq<byte>>)
    requires NonNegative(a)
  {
    seq(|a|, i requires 0 <= i < |a| => Decimal.Print(a[i]))
  }

  lemma {:induction false} FieldsOfArguments(a: seq<int>)
    requires NonNegative(a)
    ensures forall i :: 0 <= i < |PrintArguments(a)| ==> IsParameterByte(PrintArguments(a)[i])
    ensures Counted(Fields(PrintArguments(a))) == Printed(a)
    ensures a != [] ==> Fields(PrintArguments(a)) == Printed(a)
  {
    hide Fields;
    if a == [] {
      FieldsOfNothing();
    } else if |a| == 1 {
      FieldsOfNothing();
      var d := Decimal.Print(a[0]);
      FieldsOfDigits([], d);
      assert [] + d == d;
      assert [[]][..0] + [d] == [d];
      assert Printed(a) == [d];
    } else {
      var n := |a| - 1;
      FieldsOfArguments(a[..n]);
      FieldsOfSemicolon(PrintArguments(a[..n]), Decimal.Print(a[n]));
      assert Printed(a) == Printed(a[..n]) + [Decimal.Print(a[n])];
    }
  }

  lemma FieldsOfNothing()
    ensures Fields([]) == [[]]
  {
  }

  lemma CollectOfArguments(a: seq<int>)
    requires NonNegative(a) && |a| <= N
    ensures forall i :: 0 <= i < |PrintArguments(a)| ==> IsParameterByte(PrintArguments(a)[i])
    ensures Collect(ZEROS, PrintArguments(a)) == (|a|, Padded(a))
  {
    FieldsOfArguments(a);
    CollectMeaning(PrintArguments(a));
    var (count, p) := Collect(ZEROS, PrintArguments(a));
    forall i | 0 <= i < N
      ensures p[i] == Padded(a)[i]
    {
      if i < |a| {
        Decimal.ValueOfPrint(a[i]);
        assert Printed(a)[i] == Decimal.Print(a[i]);
      }
    }
    assert p == Padded(a);
  }

  /** Within a sequence the automaton collects parameters. */
  lemma {:induction false} RunCollects(status: Status, start: params, isStderr: bool, s: seq<byte>)
    requires status == WithinVt100 || status == WithinGhostterm
    requires forall i :: 0 <= i < |s| ==> IsParameterByte(s[i])
    ensures Run(State(status, 0, start), isStderr, s)
         == (State(status, Collect(start, s).0, Collect(start, s).1), [])
  {
    if s != [] {
      RunCollects(status, start, isStderr, s[..|s| - 1]);
      var none: seq<Event> := [];
      assert none + none == none;
    }
  }

  function Inside(kind: Kind): Status {
    if kind == Vt100 then WithinVt100 else WithinGhostterm
  }

  /** The opening of a sequence and its parameter bytes dispatch nothing yet. */
  lemma RunOpened(start: params, isStderr: bool, kind: Kind, s: seq<byte>)
    requires forall i :: 0 <= i < |s| ==> IsParameterByte(s[i])
    ensures Run(State(Text, 0, start), isStderr, [ESC, Opening(kind)] + s)
         == (State(Inside(kind), Collect(start, s).0, Collect(start, s).1), [])
  {
    hide Collect;
    hide ParameterStep;
    var text := State(Text, 0, start);
    var within := State(Inside(kind), 0, start);
    RunOne(text, isStderr, ESC);
    RunOne(text.(status := LastWasEsc), isStderr, Opening(kind));
    RunInPieces(text, isStderr, [ESC], [Opening(kind)]);
    assert [ESC] + [Opening(kind)] == [ESC, Opening(kind)];
    assert Run(text, isStderr, [ESC, Opening(kind)]) == (within, []);
    RunCollects(within.status, start, isStderr, s);
    RunInPieces(text, isStderr, [ESC, Opening(kind)], s);
  }

  /** A sequence of parameter bytes and a final byte, read from any parameter contents. */
  lemma RunSequence(start: params, isStderr: bool, kind: Kind, s: seq<byte>, final: byte)
    requires forall i :: 0 <= i < |s| ==> IsParameterByte(s[i])
    requires !IsParameterByte(final)
    ensures Run(State(Text, 0, start), isStderr, [ESC, Opening(kind)] + (s + [final]))
         == (INITIAL, [Sequence(kind, Collect(start, s).0, Collect(start, s).1, final)])
  {
    hide Run;
    hide Collect;
    hide ParameterStep;
    var front := [ESC, Opening(kind)] + s;
    RunOpened(start, isStderr, kind, s);
    RunOne(State(Inside(kind), Collect(start, s).0, Collect(start, s).1), isStderr, final);
    RunInPieces(State(Text, 0, start), isStderr, front, [final]);
    assert front + [final] == [ESC, Opening(kind)] + (s + [final]);
    var event := Sequence(kind, Collect(start, s).0, Collect(start, s).1, final);
    assert [] + [event] == [event];
  }

  lemma DecodeSequence(isStderr: bool, kind: Kind, a: seq<int>, final: byte)
    requires NonNegative(a) && |a| <= N && !IsParameterByte(final)
    ensures Run(INITIAL, isStderr, EncodeSequence(kind, a, final))
         == (INITIAL, [Sequence(kind, |a|, Padded(a), final)])
  {
    CollectOfArguments(a);
    RunSequence(ZEROS, isStderr, kind, PrintArguments(a), final);
  }
}
