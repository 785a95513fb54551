/** What the shell's parser accepts and means, stated without reference to the parser: a
    one-pass automaton, a division into stages, and a printer that the parser undoes. */
module ShellAutomaton {
  import opened Ascii
  import opened Wrappers
  import opened ShellGrammar

  datatype Mode = Lead | Program | Between | Argument(instr: bool, escaped: bool)

  /** The calls completed so far and the one being read. */
  datatype Machine = Machine(mode: Mode, done: seq<Call>, program: text, args: seq<text>, arg: text)

  predicate Splits(mode: Mode, c: tchar) {
    c == PIPE && (mode.Argument? ==> !mode.instr && !mode.escaped)
  }

  function Next(mode: Mode, c: tchar): Mode {
    match mode
    case Lead => if IsSpace(c) then Lead else if c == PIPE then Lead else Program
    case Program => if c == PIPE then Lead else if IsSpace(c) then Between else Program
    case Between => if c == PIPE then Lead else if IsSpace(c) then Between else InArgument(false, false, c)
    case Argument(instr, escaped) =>
      if Splits(mode, c) then Lead
      else if Stops(c, instr, escaped) then Between
      else InArgument(instr, escaped, c)
  }

  function InArgument(instr: bool, escaped: bool, c: tchar): Mode {
    if !escaped && c == BACKSLASH then Argument(instr, true)
    else if !escaped && c == QUOTE then Argument(!instr, false)
    else Argument(instr, false)
  }

  /** An argument's character, unless it is an unescaped quote or backslash. */
  function Literal(escaped: bool, c: tchar): text {
    if !escaped && (c == BACKSLASH || c == QUOTE) then [] else [c]
  }

  /** The call that ends where the current stage ends; a stage of whitespace is no call. */
  function Completed(m: Machine): Option<Call> {
    match m.mode
    case Lead => None
    case Program => Some(Call(m.program, []))
    case Between => Some(Call(m.program, m.args))
    case Argument(_, _) => Some(Call(m.program, m.args + [m.arg]))
  }

  function Step(m: Machine, c: tchar): (r: Option<Machine>) {
    if Splits(m.mode, c) then
      match Completed(m)
      case None => None
      case Some(call) => Some(Machine(Lead, m.done + [call], [], [], []))
    else
      Some(match m.mode
           case Lead => m.(mode := Next(Lead, c), program := if IsSpace(c) then [] else [c], args := [], arg := [])
           case Program => m.(mode := Next(Program, c), program := if IsSpace(c) then m.program else m.program + [c])
           case Between => m.(mode := Next(Between, c), arg := if IsSpace(c) then [] else Literal(false, c))
           case Argument(instr, escaped) =>
             if Stops(c, instr, escaped) then m.(mode := Between, args := m.args + [m.arg], arg := [])
             else m.(mode := Next(m.mode, c), arg := m.arg + Literal(escaped, c)))
  }

  /** Running the automaton to the end of the text. */
  function Outcome(m: Machine, s: text): (r: Option<seq<Call>>)
    decreases |s|
  {
    if s == [] then
      (match Completed(m) case None => None case Some(call) => Some(m.done + [call]))
    else
      match Step(m, s[0])
      case None => None
      case Some(next) => Outcome(next, s[1..])
  }

  const INITIAL: Machine := Machine(Lead, [], [], [], [])

  // ----- The recursive-descent parser computes what the automaton computes

  lemma {:induction false} LeadSkips(done: seq<Call>, s: text)
    ensures Outcome(Machine(Lead, done, [], [], []), s)
         == Outcome(Machine(Lead, done, [], [], []), SkipWhitespace(s))
  {
    if s != [] && IsSpace(s[0]) {
      LeadSkips(done, s[1..]);
    }
  }

  lemma {:induction false} BetweenSkips(m: Machine, s: text)
    requires m.mode == Between && m.arg == []
    ensures Outcome(m, s) == Outcome(m, SkipWhitespace(s))
  {
    if s != [] && IsSpace(s[0]) {
      BetweenSkips(m, s[1..]);
    }
  }

  lemma {:induction false} ProgramRuns(m: Machine, s: text)
    requires m.mode == Program && m.args == [] && m.arg == []
    ensures Outcome(m, s)
         == Outcome(m.(mode := Between, program := m.program + ReadProgram(s).0), ReadProgram(s).1)
    decreases |s|
  {
    if s == [] || s[0] == PIPE || IsSpace(s[0]) {
      assert m.program + [] == m.program;
    } else {
      ProgramRuns(m.(program := m.program + [s[0]]), s[1..]);
      assert (m.program + [s[0]]) + ReadProgram(s[1..]).0 == m.program + ([s[0]] + ReadProgram(s[1..]).0);
    }
  }

  lemma {:induction false} ArgumentRuns(m: Machine, s: text)
    requires m.mode.Argument?
    ensures var (arg, rest) := ReadArgument(s, m.arg, m.mode.instr, m.mode.escaped);
      Outcome(m, s) == Outcome(m.(mode := Between, args := m.args + [arg], arg := []), rest)
    decreases |s|
  {
    if s != [] && !Stops(s[0], m.mode.instr, m.mode.escaped) {
      assert !Splits(m.mode, s[0]);
      assert m.arg + [] == m.arg;
      ArgumentRuns(Step(m, s[0]).value, s[1..]);
    }
  }

  lemma SameStep(m: Machine, n: Machine, s: text)
    requires s != [] && Step(m, s[0]) == Step(n, s[0])
    ensures Outcome(m, s) == Outcome(n, s)
  {
    hide Step;
  }

  /** An argument that starts here. */
  lemma FirstArgument(m: Machine, s: text)
    requires m.mode == Between && m.arg == [] && s != [] && s[0] != PIPE && !IsSpace(s[0])
    ensures var (arg, rest) := ReadArgument(s, [], false, false);
      Outcome(m, s) == Outcome(m.(args := m.args + [arg]), rest)
  {
    hide Outcome;
    var n := m.(mode := Argument(false, false));
    ArgumentRuns(n, s);
    assert [] + Literal(false, s[0]) == Literal(false, s[0]);
    SameStep(m, n, s);
  }

  lemma {:induction false} ArgumentsRun(m: Machine, s: text)
    requires m.mode == Between && m.arg == []
    ensures Outcome(m, s)
         == Outcome(m.(args := m.args + ReadArguments(s).0), ReadArguments(s).1)
    decreases |s|
  {
    hide Outcome;
    hide ReadArgument;
    hide SkipWhitespace;
    var start := SkipWhitespace(s);
    BetweenSkips(m, s);
    if start == [] || start[0] == PIPE {
      assert m.args + [] == m.args;
    } else {
      var (arg, rest) := ReadArgument(start, [], false, false);
      FirstArgument(m, start);
      ArgumentsRun(m.(args := m.args + [arg]), rest);
      assert (m.args + [arg]) + ReadArguments(rest).0 == m.args + ([arg] + ReadArguments(rest).0);
    }
  }

  /** One call of the parser is one stage of the automaton. */
  lemma CallRuns(done: seq<Call>, s: text)
    requires ReadCall(s).Some?
    ensures var (call, rest) := ReadCall(s).value;
      Outcome(Machine(Lead, done, [], [], []), s)
        == Outcome(Machine(Between, done, call.program, call.arguments, []), rest)
  {
    hide ReadArguments;
    var m := Machine(Program, done, [s[0]], [], []);
    ProgramRuns(m, s[1..]);
    var (program, rest) := ReadProgram(s);
    assert program == [s[0]] + ReadProgram(s[1..]).0;
    ArgumentsRun(Machine(Between, done, program, [], []), rest);
    assert [] + ReadArguments(rest).0 == ReadArguments(rest).0;
  }

  lemma CallEnds(done: seq<Call>, call: Call, rest: text)
    requires rest == [] || rest[0] == PIPE
    ensures Outcome(Machine(Between, done, call.program, call.arguments, []), rest)
         == if rest == [] then Some(done + [call]) else Outcome(Machine(Lead, done + [call], [], [], []), rest[1..])
  {
  }

  lemma NoCall(done: seq<Call>, s: text)
    requires s == [] || s[0] == PIPE
    ensures Outcome(Machine(Lead, done, [], [], []), s) == None
  {
  }

  /** The parser is equal to the one-pass automaton on every text. */
  lemma {:induction false} ParserIsAutomaton(done: seq<Call>, s: text)
    ensures Outcome(Machine(Lead, done, [], [], []), s)
         == match ReadPipeline(s) case None => None case Some(calls) => Some(done + calls)
    decreases |s|
  {
    hide ReadCall;
    hide SkipWhitespace;
    hide Outcome;
    var start := SkipWhitespace(s);
    LeadSkips(done, s);
    if ReadCall(start).Some? {
      var (call, rest) := ReadCall(start).value;
      CallRuns(done, start);
      CallEnds(done, call, rest);
      if rest != [] {
        ParserIsAutomaton(done + [call], rest[1..]);
        var more := ReadPipeline(rest[1..]);
        assert more.Some? ==> (done + [call]) + more.value == done + ([call] + more.value);
      }
    } else {
      SkipStays(s);
      NoCall(done, start);
    }
  }

  lemma {:induction false} SkipStays(s: text)
    ensures SkipWhitespace(s) == [] || !IsSpace(SkipWhitespace(s)[0])
  {
  }

  // ----- The stages of a text

  /** The text cut at the pipes that are outside quotes and not escaped; `stage` is the part of
      the current stage already read. */
  function Stages(mode: Mode, stage: text, s: text): (r: seq<text>)
    ensures |r| >= 1
    decreases |s|
  {
    if s == [] then [stage]
    else if Splits(mode, s[0]) then [stage] + Stages(Lead, [], s[1..])
    else Stages(Next(mode, s[0]), stage + [s[0]], s[1..])
  }

  function Joined(stages: seq<text>): text {
    if stages == [] then []
    else if |stages| == 1 then stages[0]
    else stages[0] + [PIPE] + Joined(stages[1..])
  }

  /** The stages make up the text again. */
  lemma {:induction false} StagesJoin(mode: Mode, stage: text, s: text)
    ensures Joined(Stages(mode, stage, s)) == stage + s
    decreases |s|
  {
    if s != [] {
      if Splits(mode, s[0]) {
        StagesJoin(Lead, [], s[1..]);
        var rest := Stages(Lead, [], s[1..]);
        assert ([stage] + rest)[1..] == rest;
        assert Joined([stage] + rest) == stage + [PIPE] + Joined(rest);
      } else {
        StagesJoin(Next(mode, s[0]), stage + [s[0]], s[1..]);
      }
    }
  }

  predicate SomeBlank(stages: seq<text>) {
    exists i :: 0 <= i < |stages| && AllSpace(stages[i])
  }

  lemma BlankHead(stage: text, rest: seq<text>)
    ensures SomeBlank([stage] + rest) <==> AllSpace(stage) || SomeBlank(rest)
  {
    var all := [stage] + rest;
    assert all[0] == stage;
    if i :| 0 <= i < |rest| && AllSpace(rest[i]) {
      assert all[i + 1] == rest[i];
    }
  }

  /** The automaton fails exactly when some stage is whitespace only. */
  lemma {:induction false} FailsIffBlank(m: Machine, stage: text, s: text)
    requires m.mode == Lead <==> AllSpace(stage)
    ensures Outcome(m, s).None? <==> SomeBlank(Stages(m.mode, stage, s))
    decreases |s|
  {
    if s == [] {
      assert [stage][0] == stage;
    } else if Splits(m.mode, s[0]) {
      BlankHead(stage, Stages(Lead, [], s[1..]));
      if m.mode != Lead {
        FailsIffBlank(Step(m, s[0]).value, [], s[1..]);
      }
    } else {
      assert (stage + [s[0]])[|stage|] == s[0];
      assert AllSpace(stage + [s[0]]) <==> AllSpace(stage) && IsSpace(s[0]) by {
        assert forall i :: 0 <= i < |stage| ==> (stage + [s[0]])[i] == stage[i];
      }
      FailsIffBlank(Step(m, s[0]).value, stage + [s[0]], s[1..]);
    }
  }

  /** Every accepted text has as many calls as stages. */
  lemma {:induction false} CallPerStage(m: Machine, stage: text, s: text)
    requires Outcome(m, s).Some?
    ensures |Outcome(m, s).value| == |m.done| + |Stages(m.mode, stage, s)|
    decreases |s|
  {
    if s != [] {
      CallPerStage(Step(m, s[0]).value, if Splits(m.mode, s[0]) then [] else stage + [s[0]], s[1..]);
    }
  }

  /** The parser fails exactly on texts with a stage that is empty or whitespace only, and
      otherwise returns one call per stage. */
  lemma ParseFailsIff(s: text)
    ensures Joined(Stages(Lead, [], s)) == s
    ensures ReadPipeline(s).None? <==> SomeBlank(Stages(Lead, [], s))
    ensures ReadPipeline(s).Some? ==> |ReadPipeline(s).value| == |Stages(Lead, [], s)|
  {
    StagesJoin(Lead, [], s);
    assert [] + s == s;
    ParserIsAutomaton([], s);
    assert ReadPipeline(s).Some? ==> [] + ReadPipeline(s).value == ReadPipeline(s).value;
    FailsIffBlank(INITIAL, [], s);
    if Outcome(INITIAL, s).Some? {
      CallPerStage(INITIAL, [], s);
    }
  }
}

/** Printing command lines so that the parser reads back the same calls. */
module ShellPrinter {
  import opened Ascii
  import opened Wrappers
  import opened ShellGrammar
  import opened Sequences

  /** An argument, how it is to be written, and the whitespace in front of it. */
  datatype Word = Word(gap: text, argument: text, quoted: bool)
  datatype Stage = Stage(lead: text, program: text, words: seq<Word>, trail: text)

  /** Characters put between quotes, with quotes and backslashes escaped. */
  function InQuotes(a: text): text {
    if a == [] then [] else Printed(a[0]) + InQuotes(a[1..])
  }

  function Printed(c: tchar): text {
    if c == QUOTE || c == BACKSLASH then [BACKSLASH, c] else [c]
  }

  /** Every character behind a backslash. */
  function Escaped(a: text): text {
    if a == [] then [] else [BACKSLASH, a[0]] + Escaped(a[1..])
  }

  /** An argument as it is written. */
  function Body(w: Word): text {
    if w.quoted then [QUOTE] + InQuotes(w.argument) + [QUOTE] else Escaped(w.argument)
  }

  function PrintWord(w: Word): text {
    w.gap + Body(w)
  }

  function PrintWords(ws: seq<Word>): text {
    if ws == [] then [] else PrintWord(ws[0]) + PrintWords(ws[1..])
  }

  function PrintStage(st: Stage, rest: text): text {
    st.lead + (st.program + (PrintWords(st.words) + (st.trail + rest)))
  }

  function PrintPipeline(stages: seq<Stage>): text
    requires stages != []
  {
    PrintStage(stages[0], if |stages| == 1 then [] else [PIPE] + PrintPipeline(stages[1..]))
  }

  /** Whitespace that ends an argument: only a blank does. */
  predicate Gap(s: text) {
    AllSpace(s) && (s != [] ==> s[0] == BLANK)
  }

  /** A program name is not quoted or escaped, so it must be free of whitespace and pipes; an
      argument can be anything, but the empty one must be quoted. */
  predicate Printable(st: Stage) {
    && AllSpace(st.lead) && Gap(st.trail)
    && st.program != [] && (forall i :: 0 <= i < |st.program| ==> !IsSpace(st.program[i]) && st.program[i] != PIPE)
    && (forall i :: 0 <= i < |st.words| ==> PrintableWord(st.words[i]))
  }

  predicate PrintableWord(w: Word) {
    Gap(w.gap) && w.gap != [] && (w.argument == [] ==> w.quoted)
  }

  function Arguments(ws: seq<Word>): seq<text> {
    seq(|ws|, i requires 0 <= i < |ws| => ws[i].argument)
  }

  function CallOf(st: Stage): Call {
    Call(st.program, Arguments(st.words))
  }

  function CallsOf(stages: seq<Stage>): seq<Call> {
    seq(|stages|, i requires 0 <= i < |stages| => CallOf(stages[i]))
  }

  /** What may follow an argument. */
  predicate Ends(rest: text) {
    rest == [] || rest[0] == PIPE || rest[0] == BLANK
  }

  lemma {:induction false} SkipOver(w: text, rest: text)
    requires AllSpace(w)
    ensures SkipWhitespace(w + rest) == SkipWhitespace(rest)
  {
    if w == [] {
      assert w + rest == rest;
    } else {
      assert (w + rest)[1..] == w[1..] + rest;
      SkipOver(w[1..], rest);
    }
  }

  lemma ReadBehindBackslash(c: tchar, more: text, acc: text, instr: bool)
    ensures ReadArgument([BACKSLASH, c] + more, acc, instr, false) == ReadArgument(more, acc + [c], instr, false)
  {
    var s := [BACKSLASH, c] + more;
    assert s[1..][1..] == more;
    assert s[1..][0] == c;
  }

  /** One character of a quoted argument, as printed. */
  lemma ReadPrinted(c: tchar, more: text, acc: text)
    ensures ReadArgument(Printed(c) + more, acc, true, false) == ReadArgument(more, acc + [c], true, false)
  {
    if c == QUOTE || c == BACKSLASH {
      ReadBehindBackslash(c, more, acc, true);
    } else {
      assert ([c] + more)[1..] == more;
    }
  }

  lemma ReadClosingQuote(acc: text, rest: text)
    ensures ReadArgument([QUOTE] + rest, acc, true, false) == ReadArgument(rest, acc, false, false)
  {
    assert ([QUOTE] + rest)[1..] == rest;
  }

  lemma AppendFirst(acc: text, a: text)
    requires a != []
    ensures (acc + [a[0]]) + a[1..] == acc + a
  {
  }

  lemma {:induction false} ReadInQuotes(a: text, acc: text, rest: text)
    ensures ReadArgument(InQuotes(a) + ([QUOTE] + rest), acc, true, false) == ReadArgument(rest, acc + a, false, false)
  {
    hide ReadArgument;
    hide Printed;
    var tail := [QUOTE] + rest;
    if a == [] {
      assert InQuotes(a) + tail == tail;
      assert acc + a == acc;
      ReadClosingQuote(acc, rest);
    } else {
      Regroup(Printed(a[0]), InQuotes(a[1..]), tail);
      ReadPrinted(a[0], InQuotes(a[1..]) + tail, acc);
      ReadInQuotes(a[1..], acc + [a[0]], rest);
      AppendFirst(acc, a);
    }
  }

  lemma {:induction false} ReadEscaped(a: text, acc: text, rest: text)
    ensures ReadArgument(Escaped(a) + rest, acc, false, false) == ReadArgument(rest, acc + a, false, false)
  {
    hide ReadArgument;
    if a == [] {
      assert Escaped(a) + rest == rest;
      assert acc + a == acc;
    } else {
      Regroup([BACKSLASH, a[0]], Escaped(a[1..]), rest);
      ReadBehindBackslash(a[0], Escaped(a[1..]) + rest, acc, false);
      ReadEscaped(a[1..], acc + [a[0]], rest);
      AppendFirst(acc, a);
    }
  }

  /** Either way of writing an argument reads back as the argument. */
  lemma ReadBody(w: Word, rest: text)
    requires PrintableWord(w) && Ends(rest)
    ensures ReadArgument(Body(w) + rest, [], false, false) == (w.argument, rest)
    ensures Body(w) != [] && !IsSpace(Body(w)[0]) && Body(w)[0] != PIPE
  {
    assert [] + w.argument == w.argument;
    if w.quoted {
      assert (Body(w) + rest)[1..] == InQuotes(w.argument) + ([QUOTE] + rest);
      ReadInQuotes(w.argument, [], rest);
    } else {
      ReadEscaped(w.argument, [], rest);
    }
  }

  lemma ReadWord(w: Word, rest: text)
    requires PrintableWord(w) && Ends(rest)
    ensures ReadArguments(PrintWord(w) + rest) == ([w.argument] + ReadArguments(rest).0, ReadArguments(rest).1)
    ensures Ends(PrintWord(w) + rest)
  {
    hide ReadArgument;
    hide InQuotes;
    hide Escaped;
    var s := Body(w) + rest;
    assert PrintWord(w) + rest == w.gap + s;
    ReadBody(w, rest);
    hide Body;
    SkipOver(w.gap, s);
    assert SkipWhitespace(s) == s;
  }

  lemma ReadNoWords(trail: text, rest: text)
    requires Gap(trail) && (rest == [] || rest[0] == PIPE)
    ensures ReadArguments(trail + rest) == ([], rest) && Ends(trail + rest)
  {
    SkipOver(trail, rest);
  }

  lemma {:induction false} ReadWords(ws: seq<Word>, trail: text, rest: text)
    requires (forall i :: 0 <= i < |ws| ==> PrintableWord(ws[i])) && Gap(trail)
    requires rest == [] || rest[0] == PIPE
    ensures ReadArguments(PrintWords(ws) + (trail + rest))
         == (Arguments(ws), rest)
    ensures Ends(PrintWords(ws) + (trail + rest))
  {
    hide PrintWord;
    hide ReadArguments;
    var tail := trail + rest;
    if ws == [] {
      assert PrintWords(ws) + tail == tail;
      ReadNoWords(trail, rest);
    } else {
      ReadWords(ws[1..], trail, rest);
      Regroup(PrintWord(ws[0]), PrintWords(ws[1..]), tail);
      ReadWord(ws[0], PrintWords(ws[1..]) + tail);
      assert Arguments(ws)
          == [ws[0].argument] + Arguments(ws[1..]);
    }
  }

  lemma {:induction false} ReadName(program: text, rest: text)
    requires forall i :: 0 <= i < |program| ==> !IsSpace(program[i]) && program[i] != PIPE
    requires Ends(rest)
    ensures ReadProgram(program + rest) == (program, rest)
  {
    if program == [] {
      assert program + rest == rest;
    } else {
      assert (program + rest)[1..] == program[1..] + rest;
      ReadName(program[1..], rest);
      assert [program[0]] + program[1..] == program;
    }
  }

  lemma SkipNothing(program: text, rest: text)
    requires program != [] && !IsSpace(program[0])
    ensures SkipWhitespace(program + rest) == program + rest
  {
  }

  lemma ReadStage(st: Stage, rest: text)
    requires Printable(st) && (rest == [] || rest[0] == PIPE)
    ensures ReadCall(SkipWhitespace(PrintStage(st, rest))) == Some((CallOf(st), rest))
  {
    hide ReadArguments;
    hide ReadProgram;
    hide PrintWords;
    hide SkipWhitespace;
    var words := PrintWords(st.words) + (st.trail + rest);
    SkipOver(st.lead, st.program + words);
    SkipNothing(st.program, words);
    ReadWords(st.words, st.trail, rest);
    ReadName(st.program, words);
  }

  lemma FirstCall(stages: seq<Stage>)
    requires stages != []
    ensures CallsOf(stages) == [CallOf(stages[0])] + CallsOf(stages[1..])
  {
    hide CallOf;
  }

  lemma ReadFirst(s: text)
    ensures ReadCall(SkipWhitespace(s)).Some? ==>
      var (call, rest) := ReadCall(SkipWhitespace(s)).value;
      ReadPipeline(s) == if rest == [] then Some([call]) else Prepend(call, ReadPipeline(rest[1..]))
  {
    hide ReadCall;
    hide SkipWhitespace;
  }

  /** Parsing undoes printing, for every layout and every choice of quotes or backslashes. */
  lemma {:induction false} ParseOfPrint(stages: seq<Stage>)
    requires stages != [] && forall i :: 0 <= i < |stages| ==> Printable(stages[i])
    ensures ReadPipeline(PrintPipeline(stages)) == Some(CallsOf(stages))
    decreases |stages|
  {
    hide ReadPipeline;
    hide ReadCall;
    hide SkipWhitespace;
    hide PrintStage;
    hide Printable;
    hide CallsOf;
    var rest := if |stages| == 1 then [] else [PIPE] + PrintPipeline(stages[1..]);
    ReadStage(stages[0], rest);
    ReadFirst(PrintPipeline(stages));
    FirstCall(stages);
    if |stages| == 1 {
      NoCalls(stages[1..]);
      assert [CallOf(stages[0])] + [] == [CallOf(stages[0])];
    } else {
      assert rest[1..] == PrintPipeline(stages[1..]);
      ParseOfPrint(stages[1..]);
    }
  }

  lemma NoCalls(stages: seq<Stage>)
    requires stages == []
    ensures CallsOf(stages) == []
  {
  }
}
