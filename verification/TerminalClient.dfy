/** The client library's side of the terminal: keys read from standard input, the queue that
    holds keys typed while a reply is awaited, and the queries. */
module TerminalClient {
  import opened Ascii
  import opened Wrappers
  import opened TerminalStream

  const QUEUE: nat := 64
  const EOF: int := -1

  // ----- Reading keys

  /** One key and the input behind it: a byte, or a 16-bit value behind a substitute character;
      -1 at the end of the input. */
  function ReadKey(s: seq<byte>): (r: (int, seq<byte>))
    ensures |r.1| <= |s|
    ensures r.0 != EOF ==> |r.1| < |s|
  {
    if s == [] then (EOF, [])
    else if s[0] != SUB then (s[0], s[1..])
    else if |s| < 3 then (EOF, [])
    else (s[2] as int * 256 + s[1], s[3..])
  }

  /** The keys up to the first escape key, and the input behind it. */
  function UntilEsc(s: seq<byte>): (r: Option<(seq<int>, seq<byte>)>)
    ensures r.Some? ==> |r.value.1| < |s|
    decreases |s|
  {
    var (k, rest) := ReadKey(s);
    if k == ESC then Some(([], rest))
    else if k == EOF then None
    else
      match UntilEsc(rest)
      case None => None
      case Some((keys, end)) => Some(([k] + keys, end))
  }

  /** Parameters, the key that ended them, and the input behind it. */
  function ReadParameters(count: nat, p: params, s: seq<byte>): (r: (params, int, seq<byte>))
    ensures |r.2| <= |s|
    decreases |s|
  {
    var (k, rest) := ReadKey(s);
    if IsParameterByte(k) then
      var (count, p) := ParameterStep(count, p, k);
      ReadParameters(count, p, rest)
    else (p, k, rest)
  }

  datatype Answer = Answer(first: int, second: int)

  const INVALID: Answer := Answer(-1, -1)

  datatype Position = Position(x: int, y: int)
  datatype Dimension = Dimension(width: int, height: int)

  /** The reply for the cursor says the line first. */
  function CursorOf(a: Answer): Position {
    Position(a.second, a.first)
  }

  function SizeOf(a: Answer): Dimension {
    Dimension(a.first, a.second)
  }

  /** The keys in front of a reply, what the reply says, and the input behind it. */
  function Query(s: seq<byte>, opening: byte, final: byte): (r: (seq<int>, Answer, seq<byte>))
    requires UntilEsc(s).Some?
  {
    var (strays, reply) := UntilEsc(s).value;
    var (ch, body) := ReadKey(reply);
    if ch == opening then
      var (p, mode, rest) := ReadParameters(0, ZEROS, body);
      (strays, if mode == final then Answer(p[0], p[1]) else INVALID, rest)
    else (strays, INVALID, body)
  }

  /** The key `getChar` returns, the queue and the input after it. */
  function TakeKey(queue: seq<int>, input: seq<byte>): (r: (int, seq<int>, seq<byte>)) {
    if queue != [] then (queue[0], queue[1..], input)
    else
      var (k, rest) := ReadKey(input);
      (k, [], rest)
  }

  /** The queue after more keys arrived: what does not fit is dropped. */
  function Enqueued(queue: seq<int>, keys: seq<int>): (q: seq<int>)
    requires |queue| <= QUEUE
    ensures |q| <= QUEUE
  {
    if |queue| + |keys| <= QUEUE then queue + keys else queue + keys[..QUEUE - |queue|]
  }

  // ----- The library

  class Client {
    var input: seq<byte>
    var output: seq<byte>
    var buffer: array?<int>
    var bufferedChars: nat

    ghost predicate Valid()
      reads this
    {
      && bufferedChars <= QUEUE
      && (if buffer == null then bufferedChars == 0 else buffer.Length == QUEUE)
    }

    ghost function Queue(): seq<int>
      reads this, buffer
      requires Valid()
    {
      if buffer == null then [] else buffer[..bufferedChars]
    }

    constructor (input: seq<byte>)
      ensures Valid() && Queue() == [] && this.input == input && output == []
    {
      this.input := input;
      output := [];
      buffer := null;
      bufferedChars := 0;
    }

    method GetC() returns (c: int)
      modifies this`input
      ensures if old(input) == [] then c == EOF && input == [] else c == old(input)[0] && input == old(input)[1..]
    {
      if input == [] {
        return EOF;
      }
      c := input[0];
      input := input[1..];
    }

    method ReadUnbuffered() returns (c: int)
      modifies this`input
      ensures (c, input) == ReadKey(old(input))
    {
      c := GetC();
      if c == SUB {
        var b1 := GetC();
        if b1 == EOF {
          return EOF;
        }
        var b2 := GetC();
        if b2 == EOF {
          return EOF;
        }
        return b2 * 256 + b1;
      }
    }

    method BufferChar(c: int)
      requires Valid()
      modifies this`buffer, this`bufferedChars, if buffer == null then {} else {buffer}
      ensures Valid() && Queue() == Enqueued(old(Queue()), [c])
      ensures buffer != null && (buffer == old(buffer) || fresh(buffer))
    {
      if buffer == null {
        buffer := new int[QUEUE];
        bufferedChars := 0;
      }
      if bufferedChars < QUEUE {
        buffer[bufferedChars] := c;
        bufferedChars := bufferedChars + 1;
      }
    }

    /** Does not return unless an escape key is on its way; `TerminalDuplex.EscComesIff` says when. */
    method ReadAndBufferUntilEsc()
      requires Valid() && UntilEsc(input).Some?
      modifies this`input, this`buffer, this`bufferedChars, if buffer == null then {} else {buffer}
      ensures Valid() && input == UntilEsc(old(input)).value.1
      ensures Queue() == Enqueued(old(Queue()), UntilEsc(old(input)).value.0)
      ensures buffer == old(buffer) || fresh(buffer)
    {
      hide Enqueued;
      hide ReadKey;
      ghost var queue := Queue();
      EnqueuedNothing(queue);
      ghost var all := UntilEsc(input).value;
      ghost var keys: seq<int> := [];
      assert [] + all.0 == all.0;
      var c := ReadUnbuffered();
      assert c != ESC ==> [] + [c] + UntilEsc(input).value.0 == [c] + UntilEsc(input).value.0;
      while c != ESC
        invariant Valid() && (buffer == old(buffer) || fresh(buffer))
        invariant c != EOF
        invariant Queue() == Enqueued(queue, keys)
        invariant if c == ESC then all == (keys, input)
                  else UntilEsc(input).Some? && all == (keys + [c] + UntilEsc(input).value.0, UntilEsc(input).value.1)
        decreases if c == ESC then 0 else 1, |input|
      {
        EnqueuedMore(queue, keys, c);
        BufferChar(c);
        keys := keys + [c];
        ghost var before := input;
        ghost var later := UntilEsc(input).value.0;
        c := ReadUnbuffered();
        assert c == ESC ==> keys + later == keys;
        assert c != ESC ==> keys + later == keys + [c] + UntilEsc(input).value.0;
      }
    }

    /** The memcpy of all but the first element onto the first. */
    static method MoveDown(a: array<int>)
      requires a.Length >= 1
      modifies a
      ensures a[..a.Length - 1] == old(a[1..])
    {
      for i := 0 to a.Length - 1
        invariant a[..i] == old(a[1..i + 1])
        invariant a[i..] == old(a[i..])
      {
        assert a[i + 1] == a[i..][1];
        a[i] := a[i + 1];
        assert a[..i + 1] == a[..i] + [a[i]];
      }
    }

    method GetChar() returns (c: int)
      requires Valid()
      modifies this`input, this`bufferedChars, if buffer == null then {} else {buffer}
      ensures Valid() && (c, Queue(), input) == TakeKey(old(Queue()), old(input))
    {
      if buffer != null && bufferedChars > 0 {
        c := buffer[0];
        MoveDown(buffer);
        bufferedChars := bufferedChars - 1;
        assert buffer[..bufferedChars] == buffer[..QUEUE - 1][..bufferedChars];
        assert Queue() == old(Queue())[1..];
      } else {
        assert Queue() == [];
        c := ReadUnbuffered();
        assert Queue() == [];
      }
    }

    method ReadEscapedParameters(parameters: array<int>) returns (c: int)
      requires parameters.Length == N
      modifies this`input, parameters
      ensures (parameters[..], c, input) == ReadParameters(0, old(parameters[..]), old(input))
    {
      var parameterCount: nat := 0;
      ghost var whole := ReadParameters(0, parameters[..], input);
      while true
        invariant whole == ReadParameters(parameterCount, parameters[..], input)
        decreases |input|
      {
        ghost var p := parameters[..];
        c := ReadUnbuffered();
        if '0' as int <= c <= '9' as int {
          if parameterCount == 0 {
            parameterCount := 1;
          }
          if parameterCount <= N {
            parameters[parameterCount - 1] := parameters[parameterCount - 1] * 10;
            parameters[parameterCount - 1] := parameters[parameterCount - 1] + (c - '0' as int);
            assert parameters[..] == p[parameterCount - 1 := p[parameterCount - 1] * 10 + (c - ZERO)];
          }
        } else if c == SEMICOLON {
          parameterCount := parameterCount + 1;
        } else {
          break;
        }
      }
    }

    /** `getCursor` and `getSize` differ in the request and in the reply's two characters. */
    method Ask(request: Command, opening: byte, final: byte) returns (answer: Answer)
      requires Valid() && UntilEsc(input).Some?
      modifies this, if buffer == null then {} else {buffer}
      ensures Valid() && output == old(output) + Encode(request)
      ensures answer == Query(old(input), opening, final).1
      ensures input == Query(old(input), opening, final).2
      ensures Queue() == Enqueued(old(Queue()), Query(old(input), opening, final).0)
    {
      output := output + Encode(request);
      ReadAndBufferUntilEsc();
      label awaited:
      var ch := ReadUnbuffered();
      if ch == opening {
        var parameters := new int[N](_ => 0);
        assert parameters[..] == ZEROS;
        var mode := ReadEscapedParameters(parameters);
        if mode == final {
          return Answer(parameters[0], parameters[1]);
        }
      }
      answer := INVALID;
    }

    method GetCursor() returns (position: Position)
      requires Valid() && UntilEsc(input).Some?
      modifies this, if buffer == null then {} else {buffer}
      ensures Valid() && output == old(output) + Encode(Command.GetCursor)
      ensures position == CursorOf(Query(old(input), LEFT_BRACKET, 'R' as int).1)
      ensures input == Query(old(input), LEFT_BRACKET, 'R' as int).2
      ensures Queue() == Enqueued(old(Queue()), Query(old(input), LEFT_BRACKET, 'R' as int).0)
    {
      var answer := Ask(Command.GetCursor, LEFT_BRACKET, 'R' as int);
      position := Position(answer.second, answer.first);
    }

    method GetSize() returns (size: Dimension)
      requires Valid() && UntilEsc(input).Some?
      modifies this, if buffer == null then {} else {buffer}
      ensures Valid() && output == old(output) + Encode(Command.GetSize)
      ensures size == SizeOf(Query(old(input), LEFT_BRACE, 'i' as int).1)
      ensures input == Query(old(input), LEFT_BRACE, 'i' as int).2
      ensures Queue() == Enqueued(old(Queue()), Query(old(input), LEFT_BRACE, 'i' as int).0)
    {
      var answer := Ask(Command.GetSize, LEFT_BRACE, 'i' as int);
      size := Dimension(answer.first, answer.second);
    }
  }

  lemma EnqueuedNothing(queue: seq<int>)
    requires |queue| <= QUEUE
    ensures Enqueued(queue, []) == queue
  {
  }

  lemma EnqueuedMore(queue: seq<int>, keys: seq<int>, c: int)
    requires |queue| <= QUEUE
    ensures Enqueued(Enqueued(queue, keys), [c]) == Enqueued(queue, keys + [c])
  {
  }

  // ----- When the wait for a reply ends

  /** The result of the k-th of many reads. */
  function NthKey(s: seq<byte>, k: nat): int
    decreases k
  {
    if k == 0 then ReadKey(s).0 else NthKey(ReadKey(s).1, k - 1)
  }

  lemma {:induction false} OnlyEofAtTheEnd(k: nat)
    ensures NthKey([], k) == EOF
  {
    if k > 0 {
      OnlyEofAtTheEnd(k - 1);
    }
  }

  lemma {:induction false} EscAt(s: seq<byte>) returns (k: nat)
    requires UntilEsc(s).Some?
    ensures NthKey(s, k) == ESC
    decreases |s|
  {
    if ReadKey(s).0 == ESC {
      k := 0;
    } else {
      var j := EscAt(ReadKey(s).1);
      k := j + 1;
    }
  }

  lemma {:induction false} NoEscAt(s: seq<byte>, k: nat)
    requires UntilEsc(s).None?
    ensures NthKey(s, k) != ESC
    decreases k
  {
    if ReadKey(s).0 == EOF {
      OnlyEofAtTheEnd(k);
      if k > 0 {
        OnlyEofAtTheEnd(k - 1);
      }
    } else if k > 0 {
      NoEscAt(ReadKey(s).1, k - 1);
    }
  }

  /** Where `UntilEsc` has no result, no read of the waiting loop ever yields an escape key: at the
      end of the input it reads -1 for ever. */
  lemma EscNeverComesIff(s: seq<byte>)
    ensures UntilEsc(s).None? <==> forall k :: NthKey(s, k) != ESC
  {
    if UntilEsc(s).Some? {
      var k := EscAt(s);
    } else {
      forall k ensures NthKey(s, k) != ESC {
        NoEscAt(s, k);
      }
    }
  }
}
