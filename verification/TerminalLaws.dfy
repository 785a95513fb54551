/** What the two ends of the terminal stream promise each other over whole streams. */
module TerminalLaws {
  import opened Ascii
  import opened Sequences
  import opened TerminalStream
  import Decimal

  // ----- Streams of commands and text

  datatype Item = Cmd(cmd: Command) | Plain(content: seq<byte>)
  {
    predicate Sendable() {
      match this
      case Cmd(cmd) => NonNegative(cmd.Arguments())
      case Plain(content) => ESC !in content
    }

    function Bytes(): seq<byte> {
      match this
      case Cmd(cmd) => Encode(cmd)
      case Plain(content) => content
    }

    function Events(isStderr: bool): seq<Event> {
      match this
      case Cmd(cmd) => [Expected(cmd)]
      case Plain(content) => Written(isStderr, content)
    }
  }

  /** What text looks like on the screen. */
  function Written(isStderr: bool, content: seq<byte>): seq<Event> {
    if content == [] then []
    else Written(isStderr, content[..|content| - 1]) + TextEvents(isStderr, content[|content| - 1])
  }

  function StreamBytes(items: seq<Item>): seq<byte> {
    if items == [] then [] else StreamBytes(items[..|items| - 1]) + items[|items| - 1].Bytes()
  }

  function StreamEvents(isStderr: bool, items: seq<Item>): seq<Event> {
    if items == [] then [] else StreamEvents(isStderr, items[..|items| - 1]) + items[|items| - 1].Events(isStderr)
  }

  lemma {:induction false} TextIsWritten(start: params, isStderr: bool, content: seq<byte>)
    requires ESC !in content
    ensures Run(State(Text, 0, start), isStderr, content) == (State(Text, 0, start), Written(isStderr, content))
  {
    if content != [] {
      var n := |content| - 1;
      assert ESC !in content[..n];
      assert content[n] in content;
      TextIsWritten(start, isStderr, content[..n]);
    }
  }

  /** Text without tabs and carriage returns appears as it is. */
  lemma {:induction false} PlainTextVerbatim(isStderr: bool, content: seq<byte>)
    requires TAB !in content && RETURN !in content
    ensures Written(isStderr, content) == seq(|content|, i requires 0 <= i < |content| => Write(content[i], isStderr))
  {
    if content != [] {
      var n := |content| - 1;
      assert content[n] in content;
      PlainTextVerbatim(isStderr, content[..n]);
    }
  }

  lemma ItemDecoded(isStderr: bool, item: Item)
    requires item.Sendable()
    ensures Run(INITIAL, isStderr, item.Bytes()) == (INITIAL, item.Events(isStderr))
  {
    if item.Cmd? {
      DecodeSequence(isStderr, item.cmd.Kind(), item.cmd.Arguments(), item.cmd.Final());
    } else {
      TextIsWritten(ZEROS, isStderr, item.content);
    }
  }

  /** Decoding an encoded stream yields exactly the commands and the text that were sent, in
      order, and leaves the automaton in its initial state. */
  lemma {:induction false} DecodeOfEncode(isStderr: bool, items: seq<Item>)
    requires forall i :: 0 <= i < |items| ==> items[i].Sendable()
    ensures Run(INITIAL, isStderr, StreamBytes(items)) == (INITIAL, StreamEvents(isStderr, items))
  {
    if items != [] {
      hide Run;
      hide Item.Bytes;
      hide Item.Events;
      var n := |items| - 1;
      DecodeOfEncode(isStderr, items[..n]);
      ItemDecoded(isStderr, items[n]);
      RunInPieces(INITIAL, isStderr, StreamBytes(items[..n]), items[n].Bytes());
    }
  }

  // ----- Commands with a negative number

  /** Parameter bytes, and then a minus sign. */
  predicate MinusAfter(s: seq<byte>, before: seq<byte>, behind: seq<byte>) {
    s == before + ([MINUS] + behind) && forall i :: 0 <= i < |before| ==> IsParameterByte(before[i])
  }

  lemma LastArgument(a: seq<int>)
    requires a != []
    ensures |a| == 1 ==> PrintArguments(a) == PrintInt(a[0])
    ensures |a| > 1 ==> PrintArguments(a) == PrintArguments(a[..|a| - 1]) + ([SEMICOLON] + PrintInt(a[|a| - 1]))
  {
  }

  lemma MinusInLast(a: seq<int>) returns (before: seq<byte>, behind: seq<byte>)
    requires a != [] && a[|a| - 1] < 0 && NonNegative(a[..|a| - 1])
    ensures MinusAfter(PrintArguments(a), before, behind)
  {
    hide PrintArguments;
    var n := |a| - 1;
    LastArgument(a);
    behind := Decimal.Print(-a[n]);
    assert PrintInt(a[n]) == [MINUS] + behind;
    hide PrintInt;
    if n == 0 {
      before := [];
      assert [] + PrintInt(a[0]) == PrintInt(a[0]);
    } else {
      FieldsOfArguments(a[..n]);
      before := PrintArguments(a[..n]) + [SEMICOLON];
      Regroup(PrintArguments(a[..n]), [SEMICOLON], [MINUS] + behind);
    }
  }

  /** The printed arguments up to the first minus sign and behind it. */
  lemma {:induction false} MinusSplits(a: seq<int>) returns (before: seq<byte>, behind: seq<byte>)
    requires !NonNegative(a)
    ensures MinusAfter(PrintArguments(a), before, behind)
  {
    hide PrintInt;
    hide PrintArguments;
    var n := |a| - 1;
    if NonNegative(a[..n]) {
      before, behind := MinusInLast(a);
    } else {
      before, behind := MinusSplits(a[..n]);
      LastArgument(a);
      var tail := [SEMICOLON] + PrintInt(a[n]);
      ExtendBehind(before, behind, tail);
      behind := behind + tail;
      assert MinusAfter(PrintArguments(a), before, behind);
    }
  }

  lemma ExtendBehind(before: seq<byte>, behind: seq<byte>, tail: seq<byte>)
    ensures (before + ([MINUS] + behind)) + tail == before + ([MINUS] + (behind + tail))
  {
  }

  /** A command is decoded as what it is exactly when none of its numbers is negative: a minus
      sign ends the sequence. */
  lemma DecodedIffNonNegative(isStderr: bool, cmd: Command)
    ensures Run(INITIAL, isStderr, Encode(cmd)).1 == [Expected(cmd)] <==> NonNegative(cmd.Arguments())
  {
    hide Run;
    hide Collect;
    var a := cmd.Arguments();
    if NonNegative(a) {
      DecodeSequence(isStderr, cmd.Kind(), a, cmd.Final());
    } else {
      var before, behind := MinusSplits(a);
      RunSequence(ZEROS, isStderr, cmd.Kind(), before, MINUS);
      var early := [ESC, Opening(cmd.Kind())] + (before + [MINUS]);
      RunInPieces(INITIAL, isStderr, early, behind + [cmd.Final()]);
      assert Encode(cmd) == early + (behind + [cmd.Final()]);
      var events := Run(INITIAL, isStderr, Encode(cmd)).1;
      assert events[0].control == MINUS;
    }
  }

  /** Moving up by -1 becomes an unknown sequence and the text "1A". */
  lemma NegativeMove()
    ensures Run(INITIAL, false, Encode(MoveCursorUp(-1))).1
         == [Sequence(Vt100, 0, ZEROS, MINUS), Write(ZERO + 1, false), Write('A' as int, false)]
  {
    hide Run;
    var rest: seq<byte> := [ZERO + 1, 'A' as int];
    RunSequence(ZEROS, false, Vt100, [], MINUS);
    TextIsWritten(ZEROS, false, rest);
    PlainTextVerbatim(false, rest);
    RunInPieces(INITIAL, false, [ESC, LEFT_BRACKET] + ([] + [MINUS]), rest);
    assert PrintArguments([-1]) == [MINUS, ZERO + 1];
    assert Encode(MoveCursorUp(-1)) == [ESC, LEFT_BRACKET] + ([] + [MINUS]) + rest;
  }

  // ----- The first sequence of a stream

  lemma {:induction false} CollectFrom(start: params, s: seq<byte>)
    requires forall i :: 0 <= i < |s| ==> IsParameterByte(s[i])
    ensures Collect(start, s).0 == Collect(ZEROS, s).0
    ensures forall i :: 0 <= i < N ==> (Collect(start, s).1[i] == Collect(ZEROS, s).1[i] <==> start[i] == 0)
  {
    if s != [] {
      CollectFrom(start, s[..|s| - 1]);
    }
  }
}
