/** Both directions of a terminal session together: a query crosses to the terminal, its reply
    comes back between typed keys, and no key is lost. */
module TerminalDuplex {
  import opened Arithmetic
  import opened Ascii
  import opened Wrappers
  import opened Sequences
  import opened TerminalStream
  import opened TerminalProgram
  import opened TerminalClient

  // ----- Keys as the terminal sends them

  /** A plain byte, or a 16-bit key behind a substitute character. */
  datatype Key = PlainKey(c: byte) | WideKey(value: nat)
  {
    predicate Valid() {
      match this
      case PlainKey(c) => c != SUB
      case WideKey(value) => value < 0x1_0000
    }

    function Bytes(): seq<byte>
      requires Valid()
    {
      match this
      case PlainKey(c) => [c]
      case WideKey(value) => Termkey(value)
    }

    function Value(): int {
      match this
      case PlainKey(c) => c
      case WideKey(value) => value
    }
  }

  predicate AllValid(keys: seq<Key>) {
    forall i :: 0 <= i < |keys| ==> keys[i].Valid()
  }

  function KeyBytes(keys: seq<Key>): seq<byte>
    requires AllValid(keys)
  {
    if keys == [] then [] else keys[0].Bytes() + KeyBytes(keys[1..])
  }

  function Values(keys: seq<Key>): seq<int> {
    seq(|keys|, i requires 0 <= i < |keys| => keys[i].Value())
  }

  /** No key decodes to the escape character. */
  predicate NoEsc(keys: seq<Key>) {
    forall i :: 0 <= i < |keys| ==> keys[i].Value() != ESC
  }

  /** Reading a key undoes writing it. */
  lemma ReadKeyOfBytes(k: Key, rest: seq<byte>)
    requires k.Valid()
    ensures ReadKey(k.Bytes() + rest) == (k.Value(), rest)
  {
    var s := k.Bytes() + rest;
    match k {
      case PlainKey(c) =>
        assert s[1..] == rest;
      case WideKey(value) =>
        assert s[3..] == rest;
    }
  }

  /** The bytes of a 16-bit key, low byte first. */
  lemma KeyOfBytes(low: byte, high: byte, rest: seq<byte>)
    ensures ReadKey([SUB, low, high] + rest) == (high * 256 + low, rest)
    ensures Termkey(high * 256 + low) == [26, low, high]
  {
    assert ([SUB, low, high] + rest)[3..] == rest;
    DivUnique(high, 256, low);
  }

  /** Whatever value is written as a key, its low 16 bits are read. */
  lemma TermkeyIsMasked(key: int, rest: seq<byte>)
    ensures ReadKey(Termkey(key) + rest) == (key % 0x1_0000, rest)
  {
    var s := Termkey(key) + rest;
    assert s[3..] == rest;
    var low, high := key % 256, key / 256 % 256;
    assert key == (key / 256 / 256) * 0x1_0000 + (high * 256 + low);
    DivUnique(key / 256 / 256, 0x1_0000, high * 256 + low);
  }

  lemma ValuesHead(keys: seq<Key>)
    requires keys != []
    ensures Values(keys) == [keys[0].Value()] + Values(keys[1..])
  {
  }

  lemma {:induction false} UntilEscOfKeys(keys: seq<Key>, esc: Key, rest: seq<byte>)
    requires AllValid(keys) && NoEsc(keys) && esc.Valid() && esc.Value() == ESC
    ensures UntilEsc(KeyBytes(keys) + (esc.Bytes() + rest)) == Some((Values(keys), rest))
  {
    hide Key.Bytes;
    hide ReadKey;
    var tail := esc.Bytes() + rest;
    if keys == [] {
      assert KeyBytes(keys) + tail == tail;
      ReadKeyOfBytes(esc, rest);
      assert UntilEsc(tail) == Some(([], rest));
      assert Values(keys) == [];
    } else {
      UntilEscOfKeys(keys[1..], esc, rest);
      Regroup(keys[0].Bytes(), KeyBytes(keys[1..]), tail);
      ReadKeyOfBytes(keys[0], KeyBytes(keys[1..]) + tail);
      ValuesHead(keys);
    }
  }

  lemma EscBytes()
    ensures PlainKey(ESC).Bytes() == [ESC]
  {
  }

  /** What was read as a key was one. */
  lemma KeyRead(s: seq<byte>) returns (k: Key)
    requires ReadKey(s).0 != EOF
    ensures k.Valid() && k.Value() == ReadKey(s).0 && s == k.Bytes() + ReadKey(s).1
  {
    if s[0] == SUB {
      k := WideKey(s[2] as int * 256 + s[1]);
      assert s == [SUB, s[1], s[2]] + s[3..];
    } else {
      k := PlainKey(s[0]);
    }
  }

  /** An input with valid keys, none of them an escape key, and then an escape key: a plain one
      or a 16-bit one. */
  ghost predicate EscBehind(s: seq<byte>, keys: seq<Key>, esc: Key, rest: seq<byte>) {
    && AllValid(keys) && NoEsc(keys)
    && esc.Valid() && esc.Value() == ESC
    && s == KeyBytes(keys) + (esc.Bytes() + rest)
  }

  lemma {:induction false} EscFound(s: seq<byte>) returns (keys: seq<Key>, esc: Key)
    requires UntilEsc(s).Some?
    ensures EscBehind(s, keys, esc, UntilEsc(s).value.1)
    decreases |s|
  {
    hide Key.Bytes;
    hide ReadKey;
    var first := KeyRead(s);
    if ReadKey(s).0 == ESC {
      keys, esc := [], first;
      assert KeyBytes(keys) + (esc.Bytes() + ReadKey(s).1) == s;
    } else {
      var later;
      later, esc := EscFound(ReadKey(s).1);
      keys := [first] + later;
      assert keys[1..] == later;
      Regroup(first.Bytes(), KeyBytes(later), esc.Bytes() + UntilEsc(s).value.1);
    }
  }

  /** The wait for a reply ends if and only if the input holds an escape key behind complete
      keys, and then it has collected those keys and stopped behind the first escape key; on
      every other input no read ever yields an escape key. */
  lemma EscComesIff(s: seq<byte>)
    ensures UntilEsc(s).Some? <==> exists keys, esc, rest :: EscBehind(s, keys, esc, rest)
    ensures forall keys, esc, rest :: EscBehind(s, keys, esc, rest) ==> UntilEsc(s) == Some((Values(keys), rest))
    ensures (exists k :: NthKey(s, k) == ESC) <==> exists keys, esc, rest :: EscBehind(s, keys, esc, rest)
  {
    hide UntilEsc;
    hide NthKey;
    EscNeverComesIff(s);
    if UntilEsc(s).Some? {
      var keys, esc := EscFound(s);
    }
    forall keys, esc, rest | EscBehind(s, keys, esc, rest)
      ensures UntilEsc(s) == Some((Values(keys), rest))
    {
      UntilEscOfKeys(keys, esc, rest);
    }
  }

  /** A substitute character whose two bytes are cut off ends the input for good: the escape
      character behind it is never seen. */
  lemma CutKeyHidesEsc()
    ensures UntilEsc([SUB, ESC]).None?
  {
  }

  // ----- The client's parameter reader is the terminal's

  lemma CollectMore(before: seq<byte>, c: byte)
    requires (forall i :: 0 <= i < |before| ==> IsParameterByte(before[i])) && IsParameterByte(c)
    ensures forall i :: 0 <= i < |before + [c]| ==> IsParameterByte((before + [c])[i])
    ensures Collect(ZEROS, before + [c])
         == ParameterStep(Collect(ZEROS, before).0, Collect(ZEROS, before).1, c)
  {
    assert (before + [c])[..|before|] == before;
  }

  lemma {:induction false} ReadParametersCollects(before: seq<byte>, s: seq<byte>, end: byte, rest: seq<byte>)
    requires forall i :: 0 <= i < |before| ==> IsParameterByte(before[i])
    requires forall i :: 0 <= i < |s| ==> IsParameterByte(s[i])
    requires !IsParameterByte(end) && end != SUB
    ensures forall i :: 0 <= i < |before + s| ==> IsParameterByte((before + s)[i])
    ensures ReadParameters(Collect(ZEROS, before).0, Collect(ZEROS, before).1, s + ([end] + rest))
         == (Collect(ZEROS, before + s).1, end, rest)
    decreases |s|
  {
    hide Collect;
    hide ParameterStep;
    if s == [] {
      assert before + s == before;
      assert s + ([end] + rest) == [end] + rest;
      assert ([end] + rest)[1..] == rest;
    } else {
      var whole := s + ([end] + rest);
      assert whole[1..] == s[1..] + ([end] + rest);
      CollectMore(before, s[0]);
      ReadParametersCollects(before + [s[0]], s[1..], end, rest);
      assert (before + [s[0]]) + s[1..] == before + s;
    }
  }

  /** For every string of digits and semicolons, empty and excess parameters included, ended by
      any other byte but a substitute character, the client's reader and the automaton that
      terminal and ghsh implement find the same parameters and the same final character. */
  lemma DecodersAgree(s: seq<byte>, end: byte, rest: seq<byte>, isStderr: bool, kind: Kind)
    requires forall i :: 0 <= i < |s| ==> IsParameterByte(s[i])
    requires !IsParameterByte(end) && end != SUB
    ensures var (p, final, after) := ReadParameters(0, ZEROS, s + ([end] + rest));
      && final == end && after == rest
      && Run(INITIAL, isStderr, [ESC, Opening(kind)] + (s + [end]))
           == (INITIAL, [Sequence(kind, Collect(ZEROS, s).0, p, end)])
  {
    ReadParametersCollects([], s, end, rest);
    assert [] + s == s;
    RunSequence(ZEROS, isStderr, kind, s, end);
  }

  // ----- A query over a busy input

  /** Whatever is typed ahead of a reply, the client reads the two numbers of the reply, collects
      the keys in front of it in order, and stops right behind it. */
  lemma QueryOfReply(strays: seq<Key>, kind: Kind, a: nat, b: nat, final: byte, rest: seq<byte>)
    requires AllValid(strays) && NoEsc(strays)
    requires !IsParameterByte(final) && final != SUB
    ensures var s := KeyBytes(strays) + (EncodeSequence(kind, [a, b], final) + rest);
      && UntilEsc(s).Some?
      && Query(s, Opening(kind), final) == (Values(strays), Answer(a, b), rest)
  {
    hide KeyBytes;
    hide PrintArguments;
    hide UntilEsc;
    hide ReadParameters;
    var text := PrintArguments([a, b]);
    var body := text + ([final] + rest);
    var reply := EncodeSequence(kind, [a, b], final) + rest;
    assert reply == [ESC] + ([Opening(kind)] + body);
    EscBytes();
    UntilEscOfKeys(strays, PlainKey(ESC), [Opening(kind)] + body);
    assert ([Opening(kind)] + body)[1..] == body;
    CollectOfArguments([a, b]);
    assert Collect(ZEROS, []) == (0, ZEROS);
    ReadParametersCollects([], text, final, rest);
    assert [] + text == text;
    assert Padded([a, b])[0] == a && Padded([a, b])[1] == b;
  }

  lemma {:induction false} StopsAtStrayEsc(keys: seq<Key>, rest: seq<byte>)
    requires AllValid(keys) && !NoEsc(keys)
    ensures UntilEsc(KeyBytes(keys) + rest).Some? && |UntilEsc(KeyBytes(keys) + rest).value.0| < |keys|
  {
    hide Key.Bytes;
    hide ReadKey;
    Regroup(keys[0].Bytes(), KeyBytes(keys[1..]), rest);
    ReadKeyOfBytes(keys[0], KeyBytes(keys[1..]) + rest);
    if keys[0].Value() != ESC {
      assert !NoEsc(keys[1..]) by {
        var i :| 0 <= i < |keys| && keys[i].Value() == ESC;
        assert keys[1..][i - 1].Value() == ESC;
      }
      StopsAtStrayEsc(keys[1..], rest);
    }
  }

  /** The reply is found behind the stray keys exactly when none of them is an escape key. */
  lemma QueryExactIff(strays: seq<Key>, kind: Kind, a: nat, b: nat, final: byte, rest: seq<byte>)
    requires AllValid(strays) && !IsParameterByte(final) && final != SUB
    ensures var s := KeyBytes(strays) + (EncodeSequence(kind, [a, b], final) + rest);
      && UntilEsc(s).Some?
      && (Query(s, Opening(kind), final) == (Values(strays), Answer(a, b), rest) <==> NoEsc(strays))
  {
    hide KeyBytes;
    hide UntilEsc;
    hide ReadParameters;
    if NoEsc(strays) {
      hide Query;
      QueryOfReply(strays, kind, a, b, final, rest);
    } else {
      StopsAtStrayEsc(strays, EncodeSequence(kind, [a, b], final) + rest);
    }
  }

  /** With the escape key typed ahead, the query fails, and the rest of the reply is left to be
      read as if it had been typed. */
  lemma StrayEscMissesReply()
    ensures var s := KeyBytes([PlainKey(ESC)]) + CursorReply(3, 4);
      && UntilEsc(s).Some?
      && Query(s, LEFT_BRACKET, 'R' as int) == ([], Answer(-1, -1), [LEFT_BRACKET] + (PrintArguments([4, 3]) + ['R' as int]))
  {
    hide PrintArguments;
    var reply := [LEFT_BRACKET] + (PrintArguments([4, 3]) + ['R' as int]);
    var s := KeyBytes([PlainKey(ESC)]) + CursorReply(3, 4);
    assert CursorReply(3, 4) == [ESC] + reply;
    assert KeyBytes([PlainKey(ESC)]) == [ESC];
    assert s == [ESC, ESC] + reply;
    assert s[1..] == [ESC] + reply;
    assert s[1..][1..] == reply;
  }

  lemma ManyKeys(c: byte, n: nat)
    requires c != SUB && c != ESC
    ensures AllValid(Repeated(c, n)) && NoEsc(Repeated(c, n)) && Values(Repeated(c, n)) == seq(n, _ => c as int)
  {
  }

  function Repeated(c: byte, n: nat): seq<Key> {
    seq(n, _ => PlainKey(c))
  }

  /** A reply of another kind is no answer, and it is gone. */
  lemma OtherReply(strays: seq<Key>, kind: Kind, a: nat, b: nat, final: byte, other: byte, rest: seq<byte>)
    requires AllValid(strays) && NoEsc(strays) && other != final
    requires !IsParameterByte(other) && other != SUB
    ensures var s := KeyBytes(strays) + (EncodeSequence(kind, [a, b], other) + rest);
      && UntilEsc(s).Some?
      && Query(s, Opening(kind), final) == (Values(strays), Answer(-1, -1), rest)
  {
    hide KeyBytes;
    hide PrintArguments;
    hide UntilEsc;
    hide ReadParameters;
    var text := PrintArguments([a, b]);
    var body := text + ([other] + rest);
    var reply := EncodeSequence(kind, [a, b], other) + rest;
    assert reply == [ESC] + ([Opening(kind)] + body);
    EscBytes();
    UntilEscOfKeys(strays, PlainKey(ESC), [Opening(kind)] + body);
    assert ([Opening(kind)] + body)[1..] == body;
    CollectOfArguments([a, b]);
    assert Collect(ZEROS, []) == (0, ZEROS);
    ReadParametersCollects([], text, other, rest);
  }

  /** All keys still to come, in the order `getChar` returns them. */
  function Pending(queue: seq<int>, input: seq<byte>): seq<int> {
    queue + AllKeys(input)
  }

  function AllKeys(s: seq<byte>): (keys: seq<int>)
    decreases |s|
  {
    var (k, rest) := ReadKey(s);
    if k == EOF then [] else [k] + AllKeys(rest)
  }

  /** The keys n calls of getChar return. */
  function TakeKeys(queue: seq<int>, input: seq<byte>, n: nat): (keys: seq<int>)
    ensures |keys| == n
    decreases n
  {
    if n == 0 then []
    else
      var (c, q, rest) := TakeKey(queue, input);
      [c] + TakeKeys(q, rest, n - 1)
  }

  /** Successive calls of getChar return the pending keys in order, first those of the queue,
      then those of the input. */
  lemma {:induction false} GetCharsTakePending(queue: seq<int>, input: seq<byte>, n: nat)
    requires n <= |Pending(queue, input)|
    ensures TakeKeys(queue, input, n) == Pending(queue, input)[..n]
    decreases n
  {
    if n > 0 {
      var (c, q, rest) := TakeKey(queue, input);
      FirstPending(queue, input);
      GetCharsTakePending(q, rest, n - 1);
      assert Pending(queue, input)[..n] == [c] + Pending(q, rest)[..n - 1];
    }
  }

  lemma FirstPending(queue: seq<int>, input: seq<byte>)
    requires Pending(queue, input) != []
    ensures var (c, q, rest) := TakeKey(queue, input);
      Pending(queue, input) == [c] + Pending(q, rest)
  {
    if queue != [] {
      assert queue == [queue[0]] + queue[1..];
    }
  }

  /** A query keeps every typed key, in order, exactly when the queue can hold the ones in front
      of the reply; if it cannot, the last of those are lost. */
  lemma QueryKeepsKeysIff(queue: seq<int>, strays: seq<Key>, kind: Kind, a: nat, b: nat, final: byte, rest: seq<byte>)
    requires |queue| <= QUEUE && AllValid(strays) && NoEsc(strays)
    requires !IsParameterByte(final) && final != SUB
    ensures var s := KeyBytes(strays) + (EncodeSequence(kind, [a, b], final) + rest);
      && UntilEsc(s).Some?
      && var (keys, answer, after) := Query(s, Opening(kind), final);
      && answer == Answer(a, b)
      && var complete := Pending(Enqueued(queue, keys), after) == queue + Values(strays) + AllKeys(rest);
      && (complete <==> |queue| + |strays| <= 64)
      && (|queue| + |strays| > 64 ==>
            Pending(Enqueued(queue, keys), after) == (queue + Values(strays))[..64] + AllKeys(rest))
  {
    hide Query;
    hide UntilEsc;
    QueryOfReply(strays, kind, a, b, final, rest);
    var kept := Enqueued(queue, Values(strays));
    if |queue| + |strays| > 64 {
      assert kept == (queue + Values(strays))[..64];
      assert |kept + AllKeys(rest)| < |queue + Values(strays) + AllKeys(rest)|;
    }
  }

  /** Of 65 keys typed ahead of a reply the last one is lost. */
  lemma LostKey()
    ensures var strays := Repeated('a' as int, 65);
      && AllValid(strays)
      && var s := KeyBytes(strays) + (CursorReply(3, 4) + []);
      && UntilEsc(s).Some?
      && var (keys, answer, after) := Query(s, LEFT_BRACKET, 'R' as int);
      && answer == Answer(4, 3)
      && Pending(Enqueued([], keys), after) == seq(64, _ => 'a' as int)
  {
    hide Query;
    hide UntilEsc;
    hide KeyBytes;
    hide EncodeSequence;
    ManyKeys('a' as int, 65);
    var strays := Repeated('a' as int, 65);
    QueryOfReply(strays, Vt100, 4, 3, 'R' as int, []);
    assert AllKeys([]) == [];
    assert Enqueued([], Values(strays)) == seq(64, _ => 'a' as int);
  }

  // ----- There and back

  /** The cursor query as the client sends it makes the terminal send its cursor position. */
  lemma TerminalAnswersQuery(t: Terminal, screen: Screen)
    ensures var events := Run(INITIAL, false, Encode(GetCursor)).1;
      && events == [Expected(GetCursor)] && Handled(events[0])
      && Effect(t, events, screen) == t.(toShell := t.toShell + CursorReply(screen.x, screen.y))
  {
    hide Run;
    DecodeSequence(false, Vt100, [6], 'n' as int);
    HandledAsMeant(GetCursor);
    EffectOfOne(t, [Expected(GetCursor)], screen);
    PerformOne(t, screen);
  }

  lemma TerminalAnswersSize(t: Terminal, screen: Screen)
    ensures var events := Run(INITIAL, false, Encode(GetSize)).1;
      && events == [Expected(GetSize)] && Handled(events[0])
      && Effect(t, events, screen) == t.(toShell := t.toShell + SizeReply(screen.columns, screen.rows))
  {
    hide Run;
    DecodeSequence(false, Ghostterm, [], 'i' as int);
    HandledAsMeant(GetSize);
    EffectOfOne(t, [Expected(GetSize)], screen);
    PerformOne(t, screen);
  }

  lemma ReplyBetweenKeys(queue: seq<int>, before: seq<Key>, behind: seq<Key>, kind: Kind, a: nat, b: nat, final: byte)
    requires AllValid(before) && NoEsc(before) && AllValid(behind) && |queue| + |before| <= QUEUE
    requires !IsParameterByte(final) && final != SUB
    ensures var stdin := KeyBytes(before) + EncodeSequence(kind, [a, b], final) + KeyBytes(behind);
      && UntilEsc(stdin).Some?
      && var (keys, answer, after) := Query(stdin, Opening(kind), final);
      && answer == Answer(a, b)
      && Pending(Enqueued(queue, keys), after) == queue + Values(before) + Values(behind)
  {
    hide Query;
    hide UntilEsc;
    hide EncodeSequence;
    Regroup(KeyBytes(before), EncodeSequence(kind, [a, b], final), KeyBytes(behind));
    QueryKeepsKeysIff(queue, before, kind, a, b, final, KeyBytes(behind));
    AllKeysOfBytes(behind);
  }

  /** Full duplex: with keys typed before and after the reply, the client's cursor query returns
      the terminal's cursor, and the keys it will read are the ones it had queued, then those
      typed before the reply, then those typed after it. */
  lemma FullDuplex(queue: seq<int>, t: Terminal, screen: Screen, before: seq<Key>, behind: seq<Key>)
    requires AllValid(before) && NoEsc(before) && AllValid(behind)
    requires |queue| + |before| <= QUEUE && t.toShell == KeyBytes(before)
    ensures Run(INITIAL, false, Encode(GetCursor)).1 == [Expected(GetCursor)] && Handled(Expected(GetCursor))
    ensures var stdin := Effect(t, [Expected(GetCursor)], screen).toShell + KeyBytes(behind);
      && UntilEsc(stdin).Some?
      && var (keys, answer, after) := Query(stdin, LEFT_BRACKET, 'R' as int);
      && CursorOf(answer) == Position(screen.x, screen.y)
      && Pending(Enqueued(queue, keys), after) == queue + Values(before) + Values(behind)
  {
    hide Query;
    hide UntilEsc;
    hide Run;
    hide Effect;
    TerminalAnswersQuery(t, screen);
    ReplyBetweenKeys(queue, before, behind, Vt100, screen.y, screen.x, 'R' as int);
  }

  /** The same for the size of the screen. */
  lemma FullDuplexSize(queue: seq<int>, t: Terminal, screen: Screen, before: seq<Key>, behind: seq<Key>)
    requires AllValid(before) && NoEsc(before) && AllValid(behind)
    requires |queue| + |before| <= QUEUE && t.toShell == KeyBytes(before)
    ensures Run(INITIAL, false, Encode(GetSize)).1 == [Expected(GetSize)] && Handled(Expected(GetSize))
    ensures var stdin := Effect(t, [Expected(GetSize)], screen).toShell + KeyBytes(behind);
      && UntilEsc(stdin).Some?
      && var (keys, answer, after) := Query(stdin, LEFT_BRACE, 'i' as int);
      && SizeOf(answer) == Dimension(screen.columns, screen.rows)
      && Pending(Enqueued(queue, keys), after) == queue + Values(before) + Values(behind)
  {
    hide Query;
    hide UntilEsc;
    hide Run;
    hide Effect;
    TerminalAnswersSize(t, screen);
    ReplyBetweenKeys(queue, before, behind, Ghostterm, screen.columns, screen.rows, 'i' as int);
  }

  lemma {:induction false} AllKeysOfBytes(keys: seq<Key>)
    requires AllValid(keys)
    ensures AllKeys(KeyBytes(keys)) == Values(keys)
  {
    hide Key.Bytes;
    if keys != [] {
      AllKeysOfBytes(keys[1..]);
      ReadKeyOfBytes(keys[0], KeyBytes(keys[1..]));
      ValuesHead(keys);
    }
  }
}
