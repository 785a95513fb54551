/** How a program's arguments travel: the shell joins them with unit separators into one C
    string, and the started program's C library splits and cleans that string again. */
module CommandLine {
  import opened Sequences
  import opened ShellGrammar
  import ShellPrinter

  const SEPARATOR: tchar := 0x1F
  const NUL: tchar := 0

  /** G_CLIARGS_BUFFER_LENGTH */
  const BUFFER_LENGTH: nat := 1024

  // ----- The shell's side

  function Joined(args: seq<text>): text {
    if args == [] then []
    else if |args| == 1 then args[0]
    else args[0] + ([SEPARATOR] + Joined(args[1..]))
  }

  lemma {:induction false} JoinedAppend(args: seq<text>, arg: text)
    requires args != []
    ensures Joined(args + [arg]) == Joined(args) + [SEPARATOR] + arg
  {
    if |args| == 1 {
      assert (args + [arg])[1..] == [arg];
    } else {
      assert (args + [arg])[1..] == args[1..] + [arg];
      JoinedAppend(args[1..], arg);
      assert args[0] + ([SEPARATOR] + (Joined(args[1..]) + [SEPARATOR] + arg))
          == args[0] + ([SEPARATOR] + Joined(args[1..])) + [SEPARATOR] + arg;
    }
  }

  method ConcatenateArguments(args: seq<text>) returns (stream: text)
    ensures stream == Joined(args)
  {
    stream := [];
    var first := true;
    for i := 0 to |args|
      invariant first <==> i == 0
      invariant stream == Joined(args[..i])
    {
      assert args[..i + 1] == args[..i] + [args[i]];
      if first {
        first := false;
        stream := stream + args[i];
      } else {
        JoinedAppend(args[..i], args[i]);
        stream := stream + [SEPARATOR];
        stream := stream + args[i];
      }
    }
    assert args[..|args|] == args;
  }

  /** A string as its C form shows it: up to the first terminator. */
  function CString(s: text): (c: text)
    ensures NUL !in c
    ensures NUL !in s ==> c == s
  {
    if s == [] || s[0] == NUL then [] else [s[0]] + CString(s[1..])
  }

  // ----- The library's side

  /** The part up to the next separator. */
  function Piece(line: text): (p: text)
    ensures |p| <= |line| && line[..|p|] == p
    ensures SEPARATOR !in p
    ensures |p| < |line| ==> line[|p|] == SEPARATOR
  {
    if line == [] || line[0] == SEPARATOR then [] else [line[0]] + Piece(line[1..])
  }

  /** The pieces of a line; nothing follows a separator at the very end. */
  function Split(line: text): (r: seq<text>)
    decreases |line|
  {
    if line == [] then []
    else if |Piece(line)| == |line| then [Piece(line)]
    else [Piece(line)] + Split(line[|Piece(line)| + 1..])
  }

  /** Unescaped quotes and backslashes dropped, as if they were still quoting something. */
  function Cleaned(s: text, esc: bool): (r: text)
    ensures |r| <= |s|
    ensures forall c :: c in r ==> c in s
  {
    if s == [] then []
    else if !esc && s[0] == BACKSLASH then Cleaned(s[1..], true)
    else if !esc && s[0] == QUOTE then Cleaned(s[1..], false)
    else [s[0]] + Cleaned(s[1..], false)
  }

  function CleanedAll(pieces: seq<text>): (r: seq<text>) {
    seq(|pieces|, i requires 0 <= i < |pieces| => Cleaned(pieces[i], false))
  }

  /** The joined arguments and their terminator fit the buffer the library gives them. */
  predicate Fits(args: seq<text>) {
    |CString(Joined(args))| + 1 <= BUFFER_LENGTH
  }

  /** What the started program finds behind its own name. */
  function Received(args: seq<text>): seq<text>
    requires Fits(args)
  {
    CleanedAll(Split(CString(Joined(args))))
  }

  /** Removes the character at p by moving the rest down, as the library's inner loops do. */
  method RemoveAt(arg: array<tchar>, p: nat, length: nat)
    requires p < length <= arg.Length
    modifies arg
    ensures arg[..p] == old(arg[..p]) && arg[p..length - 1] == old(arg[p + 1..length])
  {
    for x := p to length - 1
      invariant arg[..p] == old(arg[..p]) && arg[p..x] == old(arg[p + 1..x + 1])
      invariant forall i :: x <= i < length ==> arg[i] == old(arg[i])
    {
      arg[x] := arg[x + 1];
      assert arg[p..x + 1] == arg[p..x] + [arg[x]];
    }
  }

  /** The clean-up loop over one argument, in place. */
  method CleanArgument(arg: array<tchar>) returns (length: nat)
    modifies arg
    ensures length <= arg.Length && arg[..length] == Cleaned(old(arg[..]), false)
  {
    hide Cleaned;
    length := arg.Length;
    var esc := false;
    var p := 0;
    ghost var whole := Cleaned(arg[..], false);
    assert arg[..] == arg[0..length];
    assert arg[..0] + whole == whole;
    while p < length
      invariant p <= length <= arg.Length
      invariant whole == arg[..p] + Cleaned(arg[p..length], esc)
      decreases length - p
    {
      CleanedStep(arg[p..length], esc);
      assert arg[p..length][1..] == arg[p + 1..length];
      if !esc && arg[p] == BACKSLASH {
        RemoveAt(arg, p, length);
        length := length - 1;
        esc := true;
      } else if !esc && arg[p] == QUOTE {
        RemoveAt(arg, p, length);
        length := length - 1;
        esc := false;
      } else {
        Regroup(arg[..p], [arg[p]], Cleaned(arg[p + 1..length], false));
        assert arg[..p + 1] == arg[..p] + [arg[p]];
        esc := false;
        p := p + 1;
      }
    }
    CleanedNothing(arg[p..length], esc);
    assert arg[..p] + [] == arg[..p];
  }

  lemma CleanedStep(s: text, esc: bool)
    requires s != []
    ensures Cleaned(s, esc) == if !esc && (s[0] == BACKSLASH || s[0] == QUOTE)
      then Cleaned(s[1..], s[0] == BACKSLASH)
      else [s[0]] + Cleaned(s[1..], false)
  {
  }

  lemma CleanedNothing(s: text, esc: bool)
    requires s == []
    ensures Cleaned(s, esc) == []
  {
  }

  // ----- What cleaning means

  lemma CleanedEscaped(c: tchar, tail: text)
    ensures Cleaned([c] + tail, true) == [c] + Cleaned(tail, false)
  {
    assert ([c] + tail)[1..] == tail;
  }

  lemma CleanedOne(c: tchar, tail: text)
    ensures Cleaned(ShellPrinter.Printed(c) + tail, false) == [c] + Cleaned(tail, false)
  {
    var s := ShellPrinter.Printed(c) + tail;
    CleanedStep(s, false);
    CleanedEscaped(c, tail);
    hide Cleaned;
    assert s[1..] == if c == QUOTE || c == BACKSLASH then [c] + tail else tail;
  }

  lemma {:induction false} CleanedInQuotes(a: text, rest: text)
    ensures Cleaned(ShellPrinter.InQuotes(a) + rest, false) == a + Cleaned(rest, false)
  {
    hide Cleaned;
    hide ShellPrinter.Printed;
    if a == [] {
      assert ShellPrinter.InQuotes(a) + rest == rest;
    } else {
      var tail := ShellPrinter.InQuotes(a[1..]) + rest;
      CleanedInQuotes(a[1..], rest);
      CleanedOne(a[0], tail);
      assert ShellPrinter.InQuotes(a) + rest == ShellPrinter.Printed(a[0]) + tail;
      assert a == [a[0]] + a[1..];
    }
  }

  /** Cleaning undoes the quoting that the shell's parser undoes, so an argument must be quoted
      twice to arrive: the backslashes do it with or without quotes around them. */
  lemma CleaningUndoesQuoting(a: text)
    ensures Cleaned(ShellPrinter.InQuotes(a), false) == a
    ensures Cleaned([QUOTE] + ShellPrinter.InQuotes(a) + [QUOTE], false) == a
  {
    assert ShellPrinter.InQuotes(a) + [] == ShellPrinter.InQuotes(a);
    CleanedInQuotes(a, []);
    assert Cleaned([], false) == [] && a + [] == a;
    CleanedInQuotes(a, [QUOTE]);
    assert Cleaned([QUOTE], false) == [];
    var s := [QUOTE] + ShellPrinter.InQuotes(a) + [QUOTE];
    assert s[1..] == ShellPrinter.InQuotes(a) + [QUOTE];
    CleanedStep(s, false);
  }

  // ----- What arrives

  lemma {:induction false} PieceOfJoined(arg: text, rest: text)
    requires SEPARATOR !in arg && (rest == [] || rest[0] == SEPARATOR)
    ensures Piece(arg + rest) == arg
  {
    if arg == [] {
      assert arg + rest == rest;
    } else {
      assert (arg + rest)[1..] == arg[1..] + rest;
      PieceOfJoined(arg[1..], rest);
    }
  }

  lemma SplitStep(arg: text, rest: text)
    requires SEPARATOR !in arg
    ensures Split(arg + ([SEPARATOR] + rest)) == [arg] + Split(rest)
  {
    PieceOfJoined(arg, [SEPARATOR] + rest);
    assert (arg + ([SEPARATOR] + rest))[|arg| + 1..] == rest;
  }

  function WithoutEmptyLast(args: seq<text>): seq<text> {
    if args != [] && args[|args| - 1] == [] then args[..|args| - 1] else args
  }

  lemma WithoutEmptyLastStep(args: seq<text>)
    requires |args| > 1
    ensures WithoutEmptyLast(args) == [args[0]] + WithoutEmptyLast(args[1..])
  {
  }

  /** Splitting undoes joining, except that an empty last argument is lost. */
  lemma {:induction false} SplitOfJoined(args: seq<text>)
    requires forall i :: 0 <= i < |args| ==> SEPARATOR !in args[i]
    ensures Split(Joined(args)) == WithoutEmptyLast(args)
  {
    if |args| == 1 {
      PieceOfJoined(args[0], []);
      assert args[0] + [] == args[0];
    } else if |args| > 1 {
      hide Split;
      hide WithoutEmptyLast;
      SplitStep(args[0], Joined(args[1..]));
      SplitOfJoined(args[1..]);
      WithoutEmptyLastStep(args);
    }
  }

  lemma {:induction false} SplitPiecesPlain(line: text, i: nat)
    requires i < |Split(line)|
    ensures SEPARATOR !in Split(line)[i]
    ensures forall c :: c in Split(line)[i] ==> c in line
    decreases |line|
  {
    var p := Piece(line);
    assert forall c :: c in p ==> c in line;
    if |p| < |line| && i > 0 {
      SplitPiecesPlain(line[|p| + 1..], i - 1);
    }
  }

  lemma {:induction false} CleanedIff(s: text)
    ensures Cleaned(s, false) == s <==> BACKSLASH !in s && QUOTE !in s
  {
    if s != [] && s[0] != BACKSLASH && s[0] != QUOTE {
      CleanedIff(s[1..]);
      assert s == [s[0]] + s[1..];
    }
  }

  lemma {:induction false} JoinedHasNul(args: seq<text>)
    ensures NUL in Joined(args) <==> exists i :: 0 <= i < |args| && NUL in args[i]
  {
    if |args| > 1 {
      JoinedHasNul(args[1..]);
      assert (exists i :: 0 <= i < |args| && NUL in args[i])
        <==> NUL in args[0] || exists i :: 0 <= i < |args[1..]| && NUL in args[1..][i] by {
        if i :| 0 <= i < |args| && NUL in args[i] {
          assert i > 0 ==> NUL in args[1..][i - 1];
        }
      }
    }
  }

  /** None of the characters the route gives a meaning to. */
  predicate Plain(arg: text) {
    SEPARATOR !in arg && NUL !in arg && BACKSLASH !in arg && QUOTE !in arg
  }

  /** A program receives exactly the arguments the shell parsed, if they fit, if and only if they
      are plain and the last one is not empty. */
  lemma ReceivedIff(args: seq<text>)
    requires Fits(args)
    ensures Received(args) == args
       <==> (forall i :: 0 <= i < |args| ==> Plain(args[i])) && (args != [] ==> args[|args| - 1] != [])
  {
    var line := CString(Joined(args));
    var pieces := Split(line);
    if Received(args) == args {
      forall i | 0 <= i < |args|
        ensures SEPARATOR !in args[i] && NUL !in args[i]
      {
        SplitPiecesPlain(line, i);
        assert args[i] == Cleaned(pieces[i], false);
      }
    }
    if forall i :: 0 <= i < |args| ==> SEPARATOR !in args[i] && NUL !in args[i] {
      JoinedHasNul(args);
      SplitOfJoined(args);
      if args == [] || args[|args| - 1] != [] {
        forall i | 0 <= i < |args|
          ensures Received(args)[i] == args[i] <==> BACKSLASH !in args[i] && QUOTE !in args[i]
        {
          CleanedIff(args[i]);
        }
      }
    }
  }

  function Quoted(arg: text): text {
    [QUOTE] + ShellPrinter.InQuotes(arg) + [QUOTE]
  }

  function QuotedAll(args: seq<text>): (q: seq<text>)
    ensures |q| == |args|
  {
    seq(|args|, i requires 0 <= i < |args| => Quoted(args[i]))
  }

  lemma {:induction false} QuotingAddsNothingElse(a: text, c: tchar)
    requires c !in a && c != QUOTE && c != BACKSLASH
    ensures c !in ShellPrinter.InQuotes(a)
  {
    if a != [] {
      assert c !in a[1..];
      QuotingAddsNothingElse(a[1..], c);
    }
  }

  /** Arguments quoted once more than the shell needs arrive as they are, empty ones included. */
  lemma QuotedTwiceArrives(args: seq<text>)
    requires forall i :: 0 <= i < |args| ==> SEPARATOR !in args[i] && NUL !in args[i]
    requires Fits(QuotedAll(args))
    ensures Received(QuotedAll(args)) == args
  {
    var q := QuotedAll(args);
    forall i | 0 <= i < |args|
      ensures SEPARATOR !in q[i] && NUL !in q[i] && Cleaned(q[i], false) == args[i]
    {
      QuotingAddsNothingElse(args[i], SEPARATOR);
      QuotingAddsNothingElse(args[i], NUL);
      CleaningUndoesQuoting(args[i]);
    }
    hide Quoted;
    JoinedHasNul(q);
    SplitOfJoined(q);
    LastIsQuoted(args);
  }

  lemma LastIsQuoted(args: seq<text>)
    ensures WithoutEmptyLast(QuotedAll(args)) == QuotedAll(args)
  {
  }

  /** A quote that the shell was made to keep does not arrive. */
  lemma QuoteIsLost()
    ensures Fits([[QUOTE]]) && Received([[QUOTE]]) == [[]]
  {
    var args: seq<text> := [[QUOTE]];
    assert CString([QUOTE]) == [QUOTE];
    PieceOfJoined([QUOTE], []);
    assert Split([QUOTE]) == [[QUOTE]];
    assert Cleaned([QUOTE], false) == [];
  }
}

/** From the typed line to the arguments a program finds. */
module CommandRoute {
  import opened Wrappers
  import opened ShellGrammar
  import opened ShellPrinter
  import opened CommandLine

  /** A typed pipeline is started with the calls that were meant, and each program whose arguments
      fit receives them unchanged if and only if they are plain and the last one is not empty:
      quoting protects them from the shell, but not from the started program's C library. */
  lemma TypedArgumentsArriveIff(stages: seq<Stage>, i: nat)
    requires stages != [] && i < |stages| && forall j :: 0 <= j < |stages| ==> Printable(stages[j])
    requires Fits(Arguments(stages[i].words))
    ensures ReadPipeline(PrintPipeline(stages)) == Some(CallsOf(stages))
    ensures var meant := Arguments(stages[i].words);
      var unharmed := (forall j :: 0 <= j < |meant| ==> Plain(meant[j])) && (meant != [] ==> meant[|meant| - 1] != []);
      (Received(CallsOf(stages)[i].arguments) == meant <==> unharmed)
  {
    ParseOfPrint(stages);
    ReceivedIff(Arguments(stages[i].words));
  }
}
