/** Starting a parsed pipeline: pipes between neighbouring programs, the shell's own standard
    streams at both ends, and the descriptors the shell holds meanwhile. */
module Pipeline {
  import opened Wrappers
  import opened ShellGrammar
  import CommandLine

  const FD_NONE: int := -1
  const PID_NONE: int := -1

  /** What a descriptor of the shell refers to. */
  datatype End = Stream(id: int) | ReadEnd(pipe: nat) | WriteEnd(pipe: nat)

  /** A started process: its program, its argument string, its standard streams. */
  datatype Child = Child(path: text, arguments: text, stdin: End, stdout: End, stderr: End)

  /** How the system answers the requests for the k-th call, and which unused descriptors it
      gives to a new pipe. */
  datatype System = System(pipeWorks: nat -> bool, spawnWorks: nat -> bool, pid: nat -> int,
                           choose: (nat, set<int>) -> (int, int))
  {
    ghost predicate Valid() {
      forall k, used :: var (w, r) := choose(k, used); w != r && w !in used && r !in used && w != FD_NONE && r != FD_NONE
    }
  }

  type Table = t: map<int, End> | 0 in t && 1 in t && 2 in t
    witness map[0 := Stream(0), 1 := Stream(1), 2 := Stream(2)]

  predicate Succeeds(sys: System, n: nat, k: nat) {
    (k + 1 < n ==> sys.pipeWorks(k)) && sys.spawnWorks(k)
  }

  /** The first call that fails, or n. */
  function Failure(sys: System, n: nat, from: nat): (f: nat)
    requires from <= n
    ensures from <= f <= n
    ensures forall k :: from <= k < f ==> Succeeds(sys, n, k)
    ensures f < n ==> !Succeeds(sys, n, f)
    decreases n - from
  {
    if from < n && Succeeds(sys, n, from) then Failure(sys, n, from + 1) else from
  }

  /** The k-th process reads the pipe the one before it writes, and writes the pipe the next one
      reads; the first reads and the last writes the shell's own streams. Pipe k of this
      pipeline has number base + k. */
  function ChildOf(calls: seq<Call>, lookup: text -> text, open: Table, base: nat, k: nat): Child
    requires k < |calls|
  {
    Child(lookup(calls[k].program), CommandLine.Joined(calls[k].arguments),
          if k == 0 then open[0] else ReadEnd(base + k - 1),
          if k == |calls| - 1 then open[1] else WriteEnd(base + k),
          open[2])
  }

  function Children(calls: seq<Call>, lookup: text -> text, open: Table, base: nat, n: nat): (c: seq<Child>)
    requires n <= |calls|
    ensures |c| == n
  {
    seq(n, k requires 0 <= k < n => ChildOf(calls, lookup, open, base, k))
  }

  /** What stays open when call f fails: the read end kept for it, and both ends of its own pipe
      if that was made. */
  function Leaked(sys: System, n: nat, base: nat, f: nat): (ends: set<End>)
    requires f <= n
    ensures |ends| <= 3
  {
    if f == n then {}
    else if f + 1 < n && sys.pipeWorks(f) then Held(base, f) + Both(base + f)
    else Held(base, f)
  }

  function Held(base: nat, f: nat): set<End> {
    if f > 0 then {ReadEnd(base + f - 1)} else {}
  }

  function Both(pipe: nat): set<End> {
    {ReadEnd(pipe), WriteEnd(pipe)}
  }

  /** So many calls are started: all in front of the first whose pipe or process cannot be made. */
  predicate AsMany(calls: seq<Call>, sys: System, m: nat) {
    && m <= |calls|
    && (forall k :: 0 <= k < m ==> (k + 1 < |calls| ==> sys.pipeWorks(k)) && sys.spawnWorks(k))
    && (m < |calls| ==> (m + 1 < |calls| && !sys.pipeWorks(m)) || !sys.spawnWorks(m))
  }

  /** The first process reads the shell's input, the last of all calls writes its output, the
      others are joined by pipes of their own, errors go where the shell's go, and each runs the
      file found for its program with its arguments. */
  ghost predicate WellStarted(c: seq<Child>, calls: seq<Call>, lookup: text -> text, open: Table) {
    && |c| <= |calls|
    && (c != [] ==> c[0].stdin == open[0])
    && (c != [] && |c| == |calls| ==> c[|c| - 1].stdout == open[1])
    && (forall k :: 0 <= k < |c| ==> c[k].stderr == open[2] && c[k].path == lookup(calls[k].program))
    && (forall k :: 0 <= k < |c| ==> ArgumentsKept(c[k].arguments, calls[k].arguments))
    && (forall k :: 0 <= k < |c| && k + 1 < |calls| ==> c[k].stdout.WriteEnd?)
    && (forall k :: 0 <= k < |c| - 1 ==> c[k].stdout.WriteEnd? && c[k + 1].stdin == ReadEnd(c[k].stdout.pipe))
    && (forall j, k :: 0 <= j < k < |c| && k + 1 < |calls| ==> c[j].stdout != c[k].stdout)
  }

  /** Cut at the separators, the string gives the arguments back, but for an empty last one. */
  ghost predicate ArgumentsKept(line: text, arguments: seq<text>) {
    (forall i :: 0 <= i < |arguments| ==> CommandLine.SEPARATOR !in arguments[i])
      ==> CommandLine.Split(line) == CommandLine.WithoutEmptyLast(arguments)
  }

  lemma ArgumentsJoined(arguments: seq<text>)
    ensures ArgumentsKept(CommandLine.Joined(arguments), arguments)
  {
    if forall i :: 0 <= i < |arguments| ==> CommandLine.SEPARATOR !in arguments[i] {
      CommandLine.SplitOfJoined(arguments);
    }
  }

  lemma ChildrenStarted(calls: seq<Call>, lookup: text -> text, open: Table, base: nat, m: nat)
    requires m <= |calls|
    ensures WellStarted(Children(calls, lookup, open, base, m), calls, lookup, open)
  {
    hide ArgumentsKept;
    hide CommandLine.Joined;
    forall k | 0 <= k < m
      ensures ArgumentsKept(ChildOf(calls, lookup, open, base, k).arguments, calls[k].arguments)
    {
      ArgumentsJoined(calls[k].arguments);
    }
  }

  lemma FailureIsFirst(calls: seq<Call>, sys: System)
    ensures AsMany(calls, sys, Failure(sys, |calls|, 0))
  {
    var f := Failure(sys, |calls|, 0);
    forall k | 0 <= k < f
      ensures (k + 1 < |calls| ==> sys.pipeWorks(k)) && sys.spawnWorks(k)
    {
      assert Succeeds(sys, |calls|, k);
    }
  }

  lemma NewOnes(earlier: seq<Child>, more: seq<Child>)
    ensures (earlier + more)[..|earlier|] == earlier && (earlier + more)[|earlier|..] == more
  {
  }

  lemma NoChildren(calls: seq<Call>, lookup: text -> text, open: Table, base: nat, earlier: seq<Child>)
    ensures earlier + Children(calls, lookup, open, base, 0) == earlier
  {
  }

  class Shell {
    var open: Table
    /** Pipes made so far, which numbers the next one. */
    var pipes: nat
    var children: seq<Child>
    /** Processes waited for, and what the terminal was told to control. */
    var joined: seq<int>
    var controlled: seq<int>

    constructor (open: Table)
      ensures this.open == open && pipes == 0 && children == [] && joined == [] && controlled == []
    {
      this.open := open;
      pipes, children, joined, controlled := 0, [], [], [];
    }

    method MakePipe(sys: System, k: nat) returns (r: Option<(int, int)>)
      requires sys.Valid()
      modifies this`open, this`pipes
      ensures r.Some? <==> sys.pipeWorks(k)
      ensures r.None? ==> open == old(open) && pipes == old(pipes)
      ensures r.Some? ==> var (w, rd) := r.value;
        && w != rd && w !in old(open) && rd !in old(open) && w != FD_NONE && rd != FD_NONE
        && open == old(open)[w := WriteEnd(old(pipes))][rd := ReadEnd(old(pipes))]
        && pipes == old(pipes) + 1
    {
      if !sys.pipeWorks(k) {
        return None;
      }
      var (w, rd) := sys.choose(k, open.Keys);
      open := open[w := WriteEnd(pipes)][rd := ReadEnd(pipes)];
      pipes := pipes + 1;
      r := Some((w, rd));
    }

    method Close(fd: int)
      requires fd in open && fd != 0 && fd != 1 && fd != 2
      modifies this`open
      ensures open == old(open) - {fd}
    {
      open := open - {fd};
    }
  
    /** One round of the loop: a pipe unless the call is the last, then the process. */
    method StartCall(calls: seq<Call>, sys: System, lookup: text -> text, k: nat, lastPipeRead: int,
                     ghost before: Table, ghost base: nat)
      returns (ok: bool, pipeRead: int)
      requires sys.Valid() && k < |calls| && pipes == base + k
      requires Holding(before, open, base, k, |calls|, lastPipeRead)
      modifies this`open, this`pipes, this`children
      ensures ok <==> Succeeds(sys, |calls|, k)
      ensures ok ==> Holding(before, open, base, k + 1, |calls|, pipeRead)
      ensures ok ==> children == old(children) + [ChildOf(calls, lookup, before, base, k)]
      ensures ok && k + 1 < |calls| ==> pipes == base + k + 1
      ensures !ok ==> children == old(children) && LeftBehind(before, open, sys, |calls|, base, k)
    {
      hide CommandLine.Joined;
      hide LeftBehind;
      var n := |calls|;
      var call := calls[k];
      var arguments := CommandLine.ConcatenateArguments(call.arguments);

      ghost var held := open;
      var pipeWrite := FD_NONE;
      pipeRead := FD_NONE;
      if n > 1 && k < n - 1 {
        var made := MakePipe(sys, k);
        if made.None? {
          LeakWithoutPipe(before, open, base, k, n, lastPipeRead, sys);
          return false, pipeRead;
        }
        pipeWrite, pipeRead := made.value.0, made.value.1;
      }

      var stdin := if k == 0 then 0 else lastPipeRead;
      var stdout := if (n == 1 && k == 0) || k == n - 1 then 1 else pipeWrite;
      var path := lookup(call.program);
      if !sys.spawnWorks(k) {
        if k < n - 1 {
          LeakWithPipe(before, held, base, k, n, lastPipeRead, pipeWrite, pipeRead, sys);
        } else {
          LeakWithoutPipe(before, held, base, k, n, lastPipeRead, sys);
        }
        return false, pipeRead;
      }
      children := children + [Child(path, arguments, open[stdin], open[stdout], open[2])];
      if pipeWrite != FD_NONE {
        Close(pipeWrite);
      }
      if lastPipeRead != FD_NONE {
        Close(lastPipeRead);
      }
      ok := true;
    }

    /** `builtin` says whether a single call turned out to be a builtin command, which then did
        its work. */
    method ProcessExpression(calls: seq<Call>, sys: System, lookup: text -> text, builtin: bool)
      requires sys.Valid()
      modifies this
      ensures |calls| == 1 && builtin ==> open == old(open) && children == old(children)
      ensures |calls| == 1 && builtin ==> joined == old(joined) && controlled == old(controlled)
      ensures !(|calls| == 1 && builtin) ==>
        var n := |calls|;
        var f := Failure(sys, n, 0);
        && children == old(children) + Children(calls, lookup, old(open), old(pipes), f)
        && joined == old(joined) + (if f == n > 0 then [sys.pid(n - 1)] else [])
        && controlled == old(controlled) + (if f == n > 0 then [sys.pid(n - 1), 0] else [])
        && (if f == n then open == old(open) else LeftBehind(old(open), open, sys, n, old(pipes), f))
      ensures !(|calls| == 1 && builtin) ==>
        && |old(children)| <= |children| <= |old(children)| + |calls|
        && children[..|old(children)|] == old(children)
        && AsMany(calls, sys, |children| - |old(children)|)
        && WellStarted(children[|old(children)|..], calls, lookup, old(open))
      ensures open == old(open)
         <==> (|calls| == 1 && builtin) || Failure(sys, |calls|, 0) == |calls|
              || (Failure(sys, |calls|, 0) == 0 && !(|calls| > 1 && sys.pipeWorks(0)))
    {
      hide LeftBehind;
      hide Children;
      hide WellStarted;
      hide AsMany;
      hide ChildOf;
      NoChildren(calls, lookup, open, pipes, children);
      var lastPipeRead := FD_NONE;
      var tailProcessId := PID_NONE;
      var success := false;
      var n := |calls|;
      ghost var before: Table := open;
      ghost var base := pipes;
      var callIndex := 0;
      while callIndex < n
        invariant callIndex <= n
        invariant n == 1 && builtin ==> callIndex == 0
        invariant Failure(sys, n, 0) == Failure(sys, n, callIndex)
        invariant Holding(before, open, base, callIndex, n, lastPipeRead)
        invariant callIndex < n ==> pipes == base + callIndex
        invariant success <==> callIndex > 0
        invariant callIndex > 0 ==> tailProcessId == sys.pid(callIndex - 1)
        invariant children == old(children) + Children(calls, lookup, before, base, callIndex)
        invariant joined == old(joined) && controlled == old(controlled)
      {
        if n == 1 && callIndex == 0 && builtin {
          return;
        }
        ChildrenGrow(calls, lookup, before, base, callIndex, old(children));
        var ok, pipeRead := StartCall(calls, sys, lookup, callIndex, lastPipeRead, before, base);
        if !ok {
          success := false;
          break;
        }
        tailProcessId := sys.pid(callIndex);
        success := true;
        lastPipeRead := pipeRead;
        callIndex := callIndex + 1;
      }

      FailureIsFirst(calls, sys);
      ChildrenStarted(calls, lookup, before, base, callIndex);
      NewOnes(old(children), Children(calls, lookup, before, base, callIndex));
      if callIndex < n {
        LeftCount(before, open, sys, n, base, callIndex);
      }
      if success {
        controlled := controlled + [tailProcessId];
        joined := joined + [tailProcessId];
        controlled := controlled + [0];
      }
    }
  }

  lemma ChildrenGrow(calls: seq<Call>, lookup: text -> text, open: Table, base: nat, k: nat, earlier: seq<Child>)
    requires k < |calls|
    ensures earlier + Children(calls, lookup, open, base, k + 1)
         == earlier + Children(calls, lookup, open, base, k) + [ChildOf(calls, lookup, open, base, k)]
  {
  }

  /** Nothing of the table as it was has changed. */
  ghost predicate Kept(before: Table, now: Table) {
    forall fd :: fd in before ==> fd in now && now[fd] == before[fd]
  }

  /** What the descriptors refer to that were not there before. */
  ghost function NewEnds(before: Table, now: Table): set<End> {
    set fd | fd in now.Keys && fd !in before.Keys :: now[fd]
  }

  /** Between two calls the shell holds at most the read end for the next one. */
  ghost predicate Holding(before: Table, now: Table, base: nat, k: nat, n: nat, lastPipeRead: int) {
    if k == 0 || k == n then now == before && lastPipeRead == FD_NONE
    else lastPipeRead !in before && lastPipeRead != FD_NONE && now == before[lastPipeRead := ReadEnd(base + k - 1)]
  }

  /** After call f failed: the old descriptors as they were, and besides them exactly the leaked
      ends, one descriptor each, so at most three. */
  ghost predicate LeftBehind(before: Table, now: Table, sys: System, n: nat, base: nat, f: nat)
    requires f <= n
  {
    && Kept(before, now)
    && NewEnds(before, now) == Leaked(sys, n, base, f)
    && |now.Keys - before.Keys| == |Leaked(sys, n, base, f)| <= 3
  }

  /** The old descriptors as they were, and one new descriptor for each new end. */
  ghost predicate OneEach(before: Table, now: Table) {
    Kept(before, now) && |now.Keys - before.Keys| == |NewEnds(before, now)|
  }

  lemma NothingNew(before: Table)
    ensures OneEach(before, before) && NewEnds(before, before) == {}
  {
    assert before.Keys - before.Keys == {};
  }

  lemma EndsMore(before: Table, now: Table, fd: int, e: End)
    requires Kept(before, now) && fd !in now
    ensures NewEnds(before, now[fd := e]) == NewEnds(before, now) + {e}
  {
    var next := now[fd := e];
    assert fd in next && fd !in before && next[fd] == e;
    forall x | x in NewEnds(before, now)
      ensures x in NewEnds(before, next)
    {
      var g :| g in now.Keys && g !in before.Keys && now[g] == x;
      assert g in next && next[g] == x;
    }
  }

  lemma KeysMore(before: Table, now: Table, fd: int, e: End)
    requires Kept(before, now) && fd !in now
    ensures |now[fd := e].Keys - before.Keys| == |now.Keys - before.Keys| + 1
  {
    assert now[fd := e].Keys - before.Keys == (now.Keys - before.Keys) + {fd};
  }

  lemma OneMore(before: Table, now: Table, fd: int, e: End)
    requires OneEach(before, now) && fd !in now && e !in NewEnds(before, now)
    ensures OneEach(before, now[fd := e]) && NewEnds(before, now[fd := e]) == NewEnds(before, now) + {e}
  {
    hide NewEnds;
    EndsMore(before, now, fd, e);
    KeysMore(before, now, fd, e);
    assert Kept(before, now[fd := e]);
  }

  lemma HeldEnds(before: Table, held: Table, base: nat, k: nat, n: nat, last: int)
    requires k < n && Holding(before, held, base, k, n, last)
    ensures OneEach(before, held) && NewEnds(before, held) == Held(base, k)
  {
    hide NewEnds;
    NothingNew(before);
    if k > 0 {
      OneMore(before, before, last, ReadEnd(base + k - 1));
    }
  }

  /** A failure with no pipe of its own: none was made, or the call is the last. */
  lemma LeakWithoutPipe(before: Table, held: Table, base: nat, k: nat, n: nat, last: int, sys: System)
    requires k < n && Holding(before, held, base, k, n, last) && !(k + 1 < n && sys.pipeWorks(k))
    ensures LeftBehind(before, held, sys, n, base, k)
  {
    hide NewEnds;
    hide OneEach;
    HeldEnds(before, held, base, k, n, last);
    OneEachBound(before, held, sys, n, base, k);
  }

  lemma LeakWithPipe(before: Table, held: Table, base: nat, k: nat, n: nat, last: int, w: int, r: int, sys: System)
    requires k + 1 < n && Holding(before, held, base, k, n, last) && sys.pipeWorks(k)
    requires w != r && w !in held && r !in held
    ensures LeftBehind(before, held[w := WriteEnd(base + k)][r := ReadEnd(base + k)], sys, n, base, k)
  {
    hide NewEnds;
    hide OneEach;
    HeldEnds(before, held, base, k, n, last);
    OwnPipe(before, held, w, r, base + k);
    OneEachBound(before, held[w := WriteEnd(base + k)][r := ReadEnd(base + k)], sys, n, base, k);
  }

  lemma OwnPipe(before: Table, held: Table, w: int, r: int, pipe: nat)
    requires OneEach(before, held) && w != r && w !in held && r !in held
    requires WriteEnd(pipe) !in NewEnds(before, held) && ReadEnd(pipe) !in NewEnds(before, held)
    ensures var now := held[w := WriteEnd(pipe)][r := ReadEnd(pipe)];
      OneEach(before, now) && NewEnds(before, now) == NewEnds(before, held) + Both(pipe)
  {
    hide NewEnds;
    hide OneEach;
    OneMore(before, held, w, WriteEnd(pipe));
    OneMore(before, held[w := WriteEnd(pipe)], r, ReadEnd(pipe));
  }

  lemma OneEachBound(before: Table, now: Table, sys: System, n: nat, base: nat, f: nat)
    requires f <= n
    ensures OneEach(before, now) && NewEnds(before, now) == Leaked(sys, n, base, f) ==> LeftBehind(before, now, sys, n, base, f)
  {
    hide NewEnds;
  }

  /** The output of process i goes to process j exactly when j comes right after i. */
  lemma WiredToTheNext(calls: seq<Call>, lookup: text -> text, open: Table, base: nat, i: nat, j: nat)
    requires i < |calls| && j < |calls|
    requires open[0].Stream? && open[1].Stream?
    ensures (exists pipe :: ChildOf(calls, lookup, open, base, i).stdout == WriteEnd(pipe)
               && ChildOf(calls, lookup, open, base, j).stdin == ReadEnd(pipe))
       <==> j == i + 1
  {
    if j == i + 1 {
      assert ChildOf(calls, lookup, open, base, i).stdout == WriteEnd(base + i);
    }
  }

  lemma NothingLeftIff(before: Table, now: Table)
    requires Kept(before, now)
    ensures now == before <==> |now.Keys - before.Keys| == 0
  {
    if forall fd :: fd in now ==> fd in before {
      assert now.Keys - before.Keys == {};
      assert forall fd :: fd in before ==> fd in now && now[fd] == before[fd];
      assert now == before;
    } else {
      var fd :| fd in now && fd !in before;
      assert fd in now.Keys - before.Keys;
    }
  }

  /** How many descriptors a failing run leaves behind. */
  lemma LeftCount(before: Table, now: Table, sys: System, n: nat, base: nat, f: nat)
    requires f < n && LeftBehind(before, now, sys, n, base, f)
    ensures |now.Keys - before.Keys|
         == (if f > 0 then 1 else 0) + (if f + 1 < n && sys.pipeWorks(f) then 2 else 0)
    ensures now == before <==> f == 0 && !(n > 1 && sys.pipeWorks(0))
  {
    hide NewEnds;
    var pipe := Both(base + f);
    assert |pipe| == 2;
    assert f > 0 ==> |Held(base, f)| == 1 && Held(base, f) !! pipe;
    assert f > 0 ==> |Held(base, f) + pipe| == 3;
    NothingLeftIff(before, now);
  }

  // ----- A run that leaves three descriptors

  /** The lowest descriptor from fd on that is not in use. */
  function LowestUnused(used: set<int>, fd: int): (r: int)
    ensures r >= fd && r !in used
    decreases used
  {
    if fd in used then LowestUnused(used - {fd}, fd + 1) else fd
  }

  const STREAMS: Table := map[0 := Stream(0), 1 := Stream(1), 2 := Stream(2)]

  /** Every pipe can be made; the second process cannot be started. */
  function SecondFails(): (sys: System)
    ensures sys.Valid()
  {
    System(k => true, k => k != 1, k => 7,
           (k: nat, used: set<int>) => var w := LowestUnused(used, 0); (w, LowestUnused(used + {w}, 0)))
  }

  /** With three programs the shell keeps the read end of the first pipe and both ends of the
      second one. */
  method ThreeLeftOpen(calls: seq<Call>, lookup: text -> text) returns (open: Table)
    requires |calls| == 3
    ensures |open.Keys - STREAMS.Keys| == 3
    ensures NewEnds(STREAMS, open) == {ReadEnd(0), WriteEnd(1), ReadEnd(1)}
  {
    hide NewEnds;
    var sys := SecondFails();
    var shell := new Shell(STREAMS);
    assert Failure(sys, 3, 1) == 1;
    assert Failure(sys, 3, 0) == 1;
    shell.ProcessExpression(calls, sys, lookup, false);
    open := shell.open;
    LeftCount(STREAMS, open, sys, 3, 0, 1);
  }
}
