/** The shell's command language as functions on the remaining characters: what `parser_t`
    computes, one function per method. */
module ShellGrammar {
  import opened Ascii
  import opened Wrappers

  /** A signed char, and one that is not the end marker -1. */
  type schar = c: int | -128 <= c < 128
  type tchar = c: int | -128 <= c < 128 && c != -1

  const END: schar := -1
  const BLANK: tchar := 32
  const QUOTE: tchar := 34
  const BACKSLASH: tchar := 92
  const PIPE: tchar := 124

  type text = seq<tchar>

  predicate AllSpace(s: text) {
    forall i :: 0 <= i < |s| ==> IsSpace(s[i])
  }

  datatype Call = Call(program: text, arguments: seq<text>)

  function SkipWhitespace(s: text): (rest: text)
    ensures |rest| <= |s|
    ensures rest == [] || !IsSpace(rest[0])
  {
    if s != [] && IsSpace(s[0]) then SkipWhitespace(s[1..]) else s
  }

  /** Reads up to a space or a pipe. */
  function ReadProgram(s: text): (r: (text, text))
    ensures r.0 + r.1 == s
    ensures r.1 == [] || r.1[0] == PIPE || IsSpace(r.1[0])
  {
    if s == [] || s[0] == PIPE || IsSpace(s[0]) then ([], s)
    else
      var (program, rest) := ReadProgram(s[1..]);
      ([s[0]] + program, rest)
  }

  predicate Stops(c: tchar, instr: bool, escaped: bool) {
    !instr && !escaped && (c == PIPE || c == BLANK)
  }

  /** The loop of `argument`: `arg` is what was read so far. */
  function ReadArgument(s: text, arg: text, instr: bool, escaped: bool): (r: (text, text))
    ensures |r.1| <= |s|
    ensures s != [] && !Stops(s[0], instr, escaped) ==> |r.1| < |s|
    ensures r.1 == [] || r.1[0] == PIPE || r.1[0] == BLANK
    decreases |s|
  {
    if s == [] then (arg, s)
    else if !escaped && s[0] == BACKSLASH then ReadArgument(s[1..], arg, instr, true)
    else if instr then
      if s[0] == QUOTE && !escaped then ReadArgument(s[1..], arg, false, false)
      else ReadArgument(s[1..], arg + [s[0]], true, false)
    else if Stops(s[0], instr, escaped) then (arg, s)
    else if s[0] == QUOTE && !escaped then ReadArgument(s[1..], arg, true, false)
    else ReadArgument(s[1..], arg + [s[0]], false, false)
  }

  function ReadArguments(s: text): (r: (seq<text>, text))
    ensures |r.1| <= |s|
    ensures r.1 == [] || r.1[0] == PIPE
    decreases |s|
  {
    var start := SkipWhitespace(s);
    if start == [] || start[0] == PIPE then ([], start)
    else
      var (arg, rest) := ReadArgument(start, [], false, false);
      var (args, end) := ReadArguments(rest);
      ([arg] + args, end)
  }

  /** After a call there is a pipe or nothing: the parser's "unexpected character" branch is
      unreachable. */
  function ReadCall(s: text): (r: Option<(Call, text)>)
    ensures r.Some? ==> |r.value.1| < |s|
    ensures r.Some? ==> r.value.1 == [] || r.value.1[0] == PIPE
    ensures r.None? <==> s == [] || s[0] == PIPE || IsSpace(s[0])
  {
    var (program, rest) := ReadProgram(s);
    if program == [] then None
    else
      var (args, end) := ReadArguments(rest);
      Some((Call(program, args), end))
  }

  function Prepend(call: Call, r: Option<seq<Call>>): Option<seq<Call>> {
    match r
    case None => None
    case Some(calls) => Some([call] + calls)
  }

  function ReadPipeline(s: text): (r: Option<seq<Call>>)
    decreases |s|
  {
    match ReadCall(SkipWhitespace(s))
    case None => None
    case Some((call, rest)) => if rest == [] then Some([call]) else Prepend(call, ReadPipeline(rest[1..]))
  }

  /** The input up to the first byte that equals the end marker. */
  function Effective(input: seq<schar>): (s: text)
    ensures |s| <= |input|
  {
    if input == [] || input[0] == END then [] else [input[0]] + Effective(input[1..])
  }

  lemma {:induction false} EffectiveSuffix(input: seq<schar>, k: nat)
    requires k <= |input| && END !in input[..k]
    ensures |Effective(input)| == k + |Effective(input[k..])|
  {
    if k == 0 {
      assert input[0..] == input;
    } else {
      assert input[..k][0] == input[0];
      assert input[1..][..k - 1] == input[..k][1..];
      assert input[1..][k - 1..] == input[k..];
      EffectiveSuffix(input[1..], k - 1);
    }
  }

  /** Nothing behind a byte that equals the end marker is seen. */
  lemma {:induction false} EndMarkerHides(front: text, back: seq<schar>)
    ensures Effective(front + ([END] + back)) == front
  {
    var input: seq<schar> := front + ([END] + back);
    if front == [] {
      assert input[0] == END;
    } else {
      assert input[1..] == front[1..] + ([END] + back);
      EndMarkerHides(front[1..], back);
    }
  }

  /** The parser sees the whole input exactly when no byte equals the end marker. */
  lemma {:induction false} WholeInputSeenIff(input: seq<schar>)
    ensures |Effective(input)| == |input| <==> END !in input
  {
    if input != [] && input[0] != END {
      WholeInputSeenIff(input[1..]);
      assert input == [input[0]] + input[1..];
    }
  }
}

/** The parser object, stepping through its input one character at a time. */
module ShellParser {
  import opened Ascii
  import opened Wrappers
  import Sequences
  import opened ShellGrammar

  class Parser {
    const input: seq<schar>
    var current: schar
    var position: nat
    /** The index `current` was read from. */
    ghost var at: nat

    ghost predicate Valid()
      reads this
    {
      && at <= |input| && END !in input[..at]
      && current == (if at < |input| then input[at] else END)
      && position == (if at < |input| then at + 1 else |input|)
    }

    ghost function Rest(): text
      reads this
      requires Valid()
    {
      Effective(input[at..])
    }

    constructor (input: seq<schar>)
      ensures this.input == input
      ensures Valid() && Rest() == Effective(input)
    {
      this.input := input;
      position := 0;
      current := END;
      at := 0;
      new;
      Step();
      assert input[0..] == input;
    }

    method Step()
      requires position <= |input|
      modifies this
      ensures at == old(position)
      ensures old(position) < |input| ==> current == input[old(position)] && position == old(position) + 1
      ensures old(position) == |input| ==> current == END && position == old(position)
    {
      at := position;
      if position < |input| {
        current := input[position];
        position := position + 1;
      } else {
        current := END;
      }
    }

    lemma CurrentIsFirst()
      requires Valid()
      ensures current == END <==> Rest() == []
      ensures current != END ==> Rest()[0] == current && at < |input|
    {
    }

    /** Stepping past a character that is not the end marker. */
    method Advance()
      requires Valid() && current != END
      modifies this
      ensures Valid() && Rest() == old(Rest())[1..]
    {
      assert input[at..][1..] == input[at + 1..];
      assert input[..at + 1] == input[..at] + [input[at]];
      Step();
    }

    method SkipSpaces()
      requires Valid()
      modifies this
      ensures Valid() && Rest() == SkipWhitespace(old(Rest()))
    {
      CurrentIsFirst();
      while IsSpace(current)
        invariant Valid() && SkipWhitespace(Rest()) == SkipWhitespace(old(Rest()))
        invariant current == END <==> Rest() == []
        invariant current != END ==> Rest()[0] == current
        decreases |Rest()|
      {
        Advance();
        CurrentIsFirst();
      }
    }

    method PipeExpression() returns (r: Option<seq<Call>>)
      requires Valid()
      modifies this
      ensures Valid() && r == ReadPipeline(old(Rest()))
      ensures r.Some? ==> Rest() == []
    {
      hide ReadCall;
      hide SkipWhitespace;
      var calls: seq<Call> := [];
      ghost var all := ReadPipeline(Rest());
      assert all.Some? ==> [] + all.value == all.value;
      while true
        invariant Valid()
        invariant all == PrependAll(calls, ReadPipeline(Rest()))
        decreases |Rest()|
      {
        ghost var here := Rest();
        SkipSpaces();
        ghost var start := Rest();
        var pc := ProgramCall();
        if pc.None? {
          return None;
        }
        SkipNothing(Rest());
        SkipSpaces();
        CurrentIsFirst();
        PrependMore(calls, pc.value, ReadPipeline(if Rest() == [] then [] else Rest()[1..]));
        calls := calls + [pc.value];
        // A character other than a pipe and the end cannot be here.
        assert current == PIPE || current == END;
        if current == PIPE {
          Advance();
        } else {
          break;
        }
      }
      r := Some(calls);
    }

    static ghost function PrependAll(calls: seq<Call>, r: Option<seq<Call>>): Option<seq<Call>> {
      match r
      case None => None
      case Some(more) => Some(calls + more)
    }

    static lemma PrependMore(calls: seq<Call>, call: Call, r: Option<seq<Call>>)
      ensures PrependAll(calls, Prepend(call, r)) == PrependAll(calls + [call], r)
      ensures PrependAll(calls, Some([call])) == Some(calls + [call])
    {
      assert r.Some? ==> calls + ([call] + r.value) == (calls + [call]) + r.value;
    }

    static lemma SkipNothing(s: text)
      requires s == [] || s[0] == PIPE
      ensures SkipWhitespace(s) == s
    {
    }

    method ProgramCall() returns (r: Option<Call>)
      requires Valid()
      modifies this
      ensures Valid()
      ensures r.None? <==> ReadCall(old(Rest())).None?
      ensures r.Some? ==> ReadCall(old(Rest())) == Some((r.value, Rest()))
    {
      hide ReadArguments;
      hide ReadProgram;
      var program := ProgramName();
      if |program| == 0 {
        return None;
      }
      var arguments := Arguments();
      r := Some(Call(program, arguments));
    }

    /** The loop of `program_call` that collects the program's name. */
    method ProgramName() returns (program: text)
      requires Valid()
      modifies this
      ensures Valid() && (program, Rest()) == ReadProgram(old(Rest()))
    {
      program := [];
      CurrentIsFirst();
      assert [] + ReadProgram(Rest()).0 == ReadProgram(Rest()).0;
      while current != END && current != PIPE && !IsSpace(current)
        invariant Valid()
        invariant current == END <==> Rest() == []
        invariant current != END ==> Rest()[0] == current
        invariant ReadProgram(old(Rest())) == (program + ReadProgram(Rest()).0, ReadProgram(Rest()).1)
        decreases |Rest()|
      {
        ghost var s := Rest();
        assert program + ([s[0]] + ReadProgram(s[1..]).0) == (program + [s[0]]) + ReadProgram(s[1..]).0;
        program := program + [current];
        Advance();
        CurrentIsFirst();
      }
      assert program + [] == program;
    }

    /** The loop of `program_call` that collects arguments. */
    method Arguments() returns (arguments: seq<text>)
      requires Valid()
      modifies this
      ensures Valid() && (arguments, Rest()) == ReadArguments(old(Rest()))
    {
      hide ReadArgument;
      hide SkipWhitespace;
      arguments := [];
      assert [] + ReadArguments(Rest()).0 == ReadArguments(Rest()).0;
      while true
        invariant Valid()
        invariant ReadArguments(old(Rest())) == (arguments + ReadArguments(Rest()).0, ReadArguments(Rest()).1)
        decreases |Rest()|
      {
        ghost var s := Rest();
        var arg := Argument();
        if arg.None? {
          assert arguments + [] == arguments;
          break;
        }
        Sequences.Regroup(arguments, [arg.value], ReadArguments(Rest()).0);
        arguments := arguments + [arg.value];
      }
    }

    method Argument() returns (r: Option<text>)
      requires Valid()
      modifies this
      ensures Valid()
      ensures var start := SkipWhitespace(old(Rest()));
        if start == [] || start[0] == PIPE then r == None && Rest() == start
        else r.Some? && (r.value, Rest()) == ReadArgument(start, [], false, false)
    {
      SkipSpaces();
      CurrentIsFirst();
      if current == END {
        return None;
      }
      if current == PIPE {
        return None;
      }
      var arg: text := [];
      var instr := false;
      var escaped := false;
      ghost var whole := ReadArgument(Rest(), [], false, false);
      while true
        invariant Valid()
        invariant whole == ReadArgument(Rest(), arg, instr, escaped)
        decreases |Rest()|
      {
        CurrentIsFirst();
        if current == END {
          break;
        }
        if !escaped && current == BACKSLASH {
          escaped := true;
        } else if instr {
          if current == QUOTE && !escaped {
            instr := false;
          } else {
            arg := arg + [current];
          }
          if escaped {
            escaped := false;
          }
        } else {
          if !escaped && (current == PIPE || current == BLANK) {
            break;
          } else if current == QUOTE && !escaped {
            instr := true;
          } else {
            arg := arg + [current];
          }
          if escaped {
            escaped := false;
          }
        }
        Advance();
      }
      r := Some(arg);
    }

    /** After a successful parse the position is behind the whole effective input. */
    lemma Consumed()
      requires Valid() && Rest() == []
      ensures at == |Effective(input)|
    {
      EffectiveSuffix(input, at);
    }
  }
}
