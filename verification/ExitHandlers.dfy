/** The registry behind `__cxa_atexit` and `__cxa_finalize`: a fixed table whose entries are
    called at most once, in every run in which handlers may register further handlers and
    finalize again while they are being run. */
module ExitHandlers {
  import opened Sequences

  /** G_ATEXIT_MAX */
  const MAX: nat := 64

  /** Function 0 is the null pointer, object 0 the null handle. */
  datatype Entry = Entry(func: nat, arg: int, dso: int, called: bool)

  /** What running code can ask of the registry. */
  datatype Action = Register(func: nat, arg: int, dso: int) | Finalize(dso: int)

  /** What a handler does when it is called with its argument, given the registry as it is. */
  type Behaviour = (nat, int, seq<Entry>) -> seq<Action>

  /** A handler was called with this argument. */
  datatype Invocation = Invocation(func: nat, arg: int)

  /** The table, the slots whose handlers were called, in order, and the calls themselves. */
  datatype World = World(table: seq<Entry>, log: seq<nat>, calls: seq<Invocation>)

  const EMPTY: World := World([], [], [])

  predicate Valid(w: World) {
    |w.table| <= MAX
  }

  function CalledCount(t: seq<Entry>): (n: nat)
    ensures n <= |t|
  {
    if t == [] then 0 else CalledCount(t[..|t| - 1]) + if t[|t| - 1].called then 1 else 0
  }

  /** Tables only grow, entries keep what was registered, calls are never forgotten. */
  predicate Extends(a: seq<Entry>, b: seq<Entry>) {
    && |a| <= |b|
    && forall k :: 0 <= k < |a| ==> b[k].(called := a[k].called) == a[k] && (a[k].called ==> b[k].called)
  }

  lemma {:induction false} CalledGrows(a: seq<Entry>, b: seq<Entry>)
    requires Extends(a, b)
    ensures CalledCount(a) <= CalledCount(b)
    decreases |b|
  {
    if |a| < |b| {
      CalledGrows(a, b[..|b| - 1]);
    } else if a != [] {
      CalledGrows(a[..|a| - 1], b[..|b| - 1]);
    }
  }

  lemma {:induction false} CalledMarked(t: seq<Entry>, i: nat)
    requires i < |t| && !t[i].called
    ensures CalledCount(t[i := t[i].(called := true)]) == CalledCount(t) + 1
  {
    var n := |t| - 1;
    var marked := t[i := t[i].(called := true)];
    if i == n {
      assert marked[..n] == t[..n];
    } else {
      assert marked[..n] == t[..n][i := t[i].(called := true)];
      CalledMarked(t[..n], i);
    }
  }

  predicate Accepts(w: World, func: nat) {
    func != 0 && |w.table| < MAX
  }

  function Registered(w: World, func: nat, arg: int, dso: int): World {
    if Accepts(w, func) then w.(table := w.table + [Entry(func, arg, dso, false)]) else w
  }

  function Invoked(w: World, func: nat, arg: int): World {
    w.(calls := w.calls + [Invocation(func, arg)])
  }

  /** Marked before it is called, so that it is not called again from within. */
  function Marked(w: World, i: nat): World
    requires i < |w.table|
  {
    var e := w.table[i];
    Invoked(w.(table := w.table[i := e.(called := true)], log := w.log + [i]), e.func, e.arg)
  }

  predicate Selected(e: Entry, dso: int) {
    !e.called && (dso == 0 || e.dso == dso)
  }

  // ----- Runs; the measure is the slots not yet called, then the loop index

  /** One round of the loop: the entry at k is called if it is selected. */
  function Visit(beh: Behaviour, w: World, dso: int, k: nat): (r: World)
    requires Valid(w) && k < |w.table|
    ensures Valid(r) && Extends(w.table, r.table)
    ensures dso == 0 || w.table[k].dso == dso ==> r.table[k].called
    decreases MAX - CalledCount(w.table), 0
  {
    if !Selected(w.table[k], dso) then w
    else
      CalledMarked(w.table, k);
      var marked := Marked(w, k);
      RunActions(beh, marked, beh(w.table[k].func, w.table[k].arg, marked.table))
  }

  function Loop(beh: Behaviour, w: World, dso: int, i: nat): (r: World)
    requires Valid(w) && i <= |w.table|
    ensures Valid(r) && Extends(w.table, r.table)
    decreases MAX - CalledCount(w.table), 1, i
  {
    if i == 0 then w
    else
      var next := Visit(beh, w, dso, i - 1);
      CalledGrows(w.table, next.table);
      Loop(beh, next, dso, i - 1)
  }

  function Finalized(beh: Behaviour, w: World, dso: int): (r: World)
    requires Valid(w)
    ensures Valid(r) && Extends(w.table, r.table)
    decreases MAX - CalledCount(w.table), 2
  {
    Loop(beh, w, dso, |w.table|)
  }

  function Perform(beh: Behaviour, w: World, a: Action): (r: World)
    requires Valid(w)
    ensures Valid(r) && Extends(w.table, r.table)
    decreases MAX - CalledCount(w.table), 3
  {
    match a
    case Register(func, arg, dso) => Registered(w, func, arg, dso)
    case Finalize(dso) => Finalized(beh, w, dso)
  }

  function RunActions(beh: Behaviour, w: World, actions: seq<Action>): (r: World)
    requires Valid(w)
    ensures Valid(r) && Extends(w.table, r.table)
    decreases MAX - CalledCount(w.table), 4, |actions|
  {
    if actions == [] then w
    else
      var next := Perform(beh, w, actions[0]);
      CalledGrows(w.table, next.table);
      RunActions(beh, next, actions[1..])
  }

  lemma VisitGrows(beh: Behaviour, w: World, dso: int, k: nat)
    requires Valid(w) && k < |w.table|
    ensures |w.table| <= |Visit(beh, w, dso, k).table| <= MAX
  {
    hide Visit;
  }

  lemma LoopUnfolds(beh: Behaviour, w: World, dso: int, i: nat)
    requires Valid(w) && i <= |w.table|
    ensures i == 0 ==> Loop(beh, w, dso, i) == w
    ensures i > 0 ==> |w.table| <= |Visit(beh, w, dso, i - 1).table| <= MAX
    ensures i > 0 ==> Loop(beh, w, dso, i) == Loop(beh, Visit(beh, w, dso, i - 1), dso, i - 1)
  {
    hide Visit;
    if i > 0 {
      VisitGrows(beh, w, dso, i - 1);
    }
  }

  // ----- No handler runs twice

  /** The log names exactly the slots whose handlers were called, each once, and each was called
      with what was registered for it. */
  predicate Consistent(w: World) {
    && (forall k :: k in w.log ==> k < |w.table| && w.table[k].called)
    && (forall k :: 0 <= k < |w.table| && w.table[k].called ==> k in w.log)
    && (forall i, j :: 0 <= i < j < |w.log| ==> w.log[i] != w.log[j])
    && CallsMatch(w)
  }

  predicate CallsMatch(w: World) {
    && |w.calls| == |w.log|
    && forall i :: 0 <= i < |w.log| ==> w.log[i] < |w.table| && w.calls[i] == InvocationOf(w.table[w.log[i]])
  }

  function InvocationOf(e: Entry): Invocation {
    Invocation(e.func, e.arg)
  }

  lemma LogGrows(a: seq<nat>, b: seq<nat>, c: seq<nat>)
    requires a <= b <= c
    ensures a <= c
  {
  }

  lemma MarkedConsistent(w: World, k: nat)
    requires k < |w.table| && !w.table[k].called && Consistent(w)
    ensures Consistent(Marked(w, k)) && w.log <= Marked(w, k).log
  {
    var r := Marked(w, k);
    assert forall j :: j in r.log <==> j in w.log || j == k;
  }

  lemma {:induction false} VisitConsistent(beh: Behaviour, w: World, dso: int, k: nat)
    requires Valid(w) && k < |w.table| && Consistent(w)
    ensures Consistent(Visit(beh, w, dso, k)) && w.log <= Visit(beh, w, dso, k).log
    decreases MAX - CalledCount(w.table), 0
  {
    if Selected(w.table[k], dso) {
      hide Consistent;
      MarkedConsistent(w, k);
      CalledMarked(w.table, k);
      var marked := Marked(w, k);
      RunConsistent(beh, marked, beh(w.table[k].func, w.table[k].arg, marked.table));
    }
  }

  lemma {:induction false} LoopConsistent(beh: Behaviour, w: World, dso: int, i: nat)
    requires Valid(w) && i <= |w.table| && Consistent(w)
    ensures Consistent(Loop(beh, w, dso, i)) && w.log <= Loop(beh, w, dso, i).log
    decreases MAX - CalledCount(w.table), 1, i
  {
    hide *;
    LoopUnfolds(beh, w, dso, i);
    if i > 0 {
      VisitConsistent(beh, w, dso, i - 1);
      var next := Visit(beh, w, dso, i - 1);
      CalledGrows(w.table, next.table);
      LoopConsistent(beh, next, dso, i - 1);
      LogGrows(w.log, next.log, Loop(beh, next, dso, i - 1).log);
    }
  }

  lemma {:induction false} PerformConsistent(beh: Behaviour, w: World, a: Action)
    requires Valid(w) && Consistent(w)
    ensures Consistent(Perform(beh, w, a)) && w.log <= Perform(beh, w, a).log
    decreases MAX - CalledCount(w.table), 3
  {
    if a.Finalize? {
      LoopConsistent(beh, w, a.dso, |w.table|);
    }
  }

  /** In every run, whatever the handlers register and finalize in turn, no handler is called
      twice, and a slot is marked exactly when its handler was called. */
  lemma {:induction false} RunConsistent(beh: Behaviour, w: World, actions: seq<Action>)
    requires Valid(w) && Consistent(w)
    ensures Consistent(RunActions(beh, w, actions)) && w.log <= RunActions(beh, w, actions).log
    decreases MAX - CalledCount(w.table), 4, |actions|
  {
    if actions != [] {
      var next := Perform(beh, w, actions[0]);
      PerformConsistent(beh, w, actions[0]);
      CalledGrows(w.table, next.table);
      RunConsistent(beh, next, actions[1..]);
    }
  }

  // ----- Every handler registered before a finalization is run by the end of it

  lemma {:induction false} LoopCovers(beh: Behaviour, w: World, dso: int, i: nat, k: nat)
    requires Valid(w) && k < i <= |w.table|
    requires dso == 0 || w.table[k].dso == dso
    ensures Loop(beh, w, dso, i).table[k].called
    decreases MAX - CalledCount(w.table), 1, i
  {
    hide Visit;
    var next := Visit(beh, w, dso, i - 1);
    CalledGrows(w.table, next.table);
    if k < i - 1 {
      LoopCovers(beh, next, dso, i - 1, k);
    }
  }

  /** After a finalization of an object, or of everything, all its handlers registered by then
      have been called, even when handlers register and finalize. */
  lemma FinalizeCovers(beh: Behaviour, w: World, dso: int)
    requires Valid(w)
    ensures forall k :: 0 <= k < |w.table| && (dso == 0 || w.table[k].dso == dso) ==>
      Finalized(beh, w, dso).table[k].called
  {
    forall k | 0 <= k < |w.table| && (dso == 0 || w.table[k].dso == dso)
      ensures Finalized(beh, w, dso).table[k].called
    {
      LoopCovers(beh, w, dso, |w.table|, k);
    }
  }

  // ----- Order, when handlers do not finalize

  predicate OnlyRegisters(actions: seq<Action>) {
    forall i :: 0 <= i < |actions| ==> actions[i].Register?
  }

  ghost predicate NonFinalizing(beh: Behaviour) {
    forall func, arg, table :: OnlyRegisters(beh(func, arg, table))
  }

  /** The selected slots below n, last first. */
  function Pending(t: seq<Entry>, dso: int, n: nat): (p: seq<nat>)
    requires n <= |t|
  {
    if n == 0 then []
    else (if Selected(t[n - 1], dso) then [n - 1] else []) + Pending(t, dso, n - 1)
  }

  /** The table with the selected slots from k up to n called. */
  function MarkedDown(t: seq<Entry>, dso: int, k: nat, n: nat): seq<Entry>
    requires n <= |t|
  {
    seq(|t|, j requires 0 <= j < |t| => t[j].(called := t[j].called || (k <= j < n && Selected(t[j], dso))))
  }

  /** The table with the selected slots below n called. */
  function AllMarked(t: seq<Entry>, dso: int, n: nat): seq<Entry>
    requires n <= |t|
  {
    MarkedDown(t, dso, 0, n)
  }

  /** Some of the calls registers a handler, if the table has room. */
  predicate Registers(actions: seq<Action>) {
    exists i :: 0 <= i < |actions| && actions[i].Register? && actions[i].func != 0
  }

  predicate NoneCalled(t: seq<Entry>) {
    forall k :: 0 <= k < |t| ==> !t[k].called
  }

  /** Registering leaves the log alone and appends entries not yet called. */
  lemma {:induction false} RegisteringAppends(beh: Behaviour, w: World, actions: seq<Action>) returns (added: seq<Entry>)
    requires Valid(w) && OnlyRegisters(actions)
    ensures RunActions(beh, w, actions) == w.(table := w.table + added) && NoneCalled(added)
    ensures added == [] <==> |w.table| == MAX || !Registers(actions)
    decreases |actions|
  {
    if actions == [] {
      added := [];
      assert w.table + added == w.table;
    } else {
      var next := Perform(beh, w, actions[0]);
      var more := RegisteringAppends(beh, next, actions[1..]);
      RegistersSplits(actions);
      if Accepts(w, actions[0].func) {
        added := [Entry(actions[0].func, actions[0].arg, actions[0].dso, false)] + more;
        assert next.table + more == w.table + added;
      } else {
        added := more;
      }
    }
  }

  lemma RegistersSplits(actions: seq<Action>)
    requires actions != []
    ensures Registers(actions) <==> (actions[0].Register? && actions[0].func != 0) || Registers(actions[1..])
  {
    if i :| 0 <= i < |actions| && actions[i].Register? && actions[i].func != 0 {
      assert i > 0 ==> actions[1..][i - 1] == actions[i];
    }
    if i :| 0 <= i < |actions[1..]| && actions[1..][i].Register? && actions[1..][i].func != 0 {
      assert actions[i + 1] == actions[1..][i];
    }
  }

  lemma {:induction false} PendingDependsOnPrefix(a: seq<Entry>, b: seq<Entry>, dso: int, n: nat)
    requires n <= |a| && n <= |b| && a[..n] == b[..n]
    ensures Pending(a, dso, n) == Pending(b, dso, n)
  {
    if n > 0 {
      assert a[n - 1] == a[..n][n - 1] && b[n - 1] == b[..n][n - 1];
      assert a[..n - 1] == a[..n][..n - 1] && b[..n - 1] == b[..n][..n - 1];
      PendingDependsOnPrefix(a, b, dso, n - 1);
    }
  }

  lemma {:induction false} LoopInOrder(beh: Behaviour, w: World, dso: int, i: nat) returns (added: seq<Entry>)
    requires Valid(w) && i <= |w.table| && NonFinalizing(beh)
    ensures Loop(beh, w, dso, i).table == AllMarked(w.table, dso, i) + added
    ensures Loop(beh, w, dso, i).log == w.log + Pending(w.table, dso, i)
    ensures NoneCalled(added)
    decreases i
  {
    hide *;
    LoopUnfolds(beh, w, dso, i);
    if i == 0 {
      added := [];
      NothingMarked(w, dso);
    } else {
      var first := VisitInOrder(beh, w, dso, i - 1);
      var next := Visit(beh, w, dso, i - 1);
      var rest := LoopInOrder(beh, next, dso, i - 1);
      added := first + rest;
      OneMoreInOrder(w, next, dso, i, first, rest);
    }
  }

  lemma NothingMarked(w: World, dso: int)
    ensures AllMarked(w.table, dso, 0) + [] == w.table && w.log + Pending(w.table, dso, 0) == w.log && NoneCalled([])
  {
    assert AllMarked(w.table, dso, 0) + [] == w.table;
    assert w.log + Pending(w.table, dso, 0) == w.log;
  }

  lemma OneMoreInOrder(w: World, next: World, dso: int, i: nat, first: seq<Entry>, rest: seq<Entry>)
    requires 0 < i <= |w.table| && NoneCalled(first)
    requires next.table == Visited(w.table, dso, i - 1) + first
    requires next.log == w.log + if Selected(w.table[i - 1], dso) then [i - 1] else []
    ensures AllMarked(next.table, dso, i - 1) + rest == AllMarked(w.table, dso, i) + (first + rest)
    ensures next.log + Pending(next.table, dso, i - 1) == w.log + Pending(w.table, dso, i)
    ensures NoneCalled(rest) ==> NoneCalled(first + rest)
  {
    hide AllMarked;
    PendingDependsOnPrefix(w.table, next.table, dso, i - 1);
    MarkedThenAll(w.table, first, dso, i);
    Regroup(AllMarked(w.table, dso, i), first, rest);
    Regroup(w.log, if Selected(w.table[i - 1], dso) then [i - 1] else [], Pending(w.table, dso, i - 1));
  }

  function Visited(t: seq<Entry>, dso: int, k: nat): (r: seq<Entry>)
    requires k < |t|
    ensures |r| == |t|
  {
    if Selected(t[k], dso) then t[k := t[k].(called := true)] else t
  }

  /** The entry at k is called, and its handler registers one. */
  predicate VisitRegisters(beh: Behaviour, t: seq<Entry>, dso: int, k: nat)
    requires k < |t|
  {
    Selected(t[k], dso) && Registers(beh(t[k].func, t[k].arg, t[k := t[k].(called := true)]))
  }

  /** One round with a handler that does not finalize. */
  lemma VisitInOrder(beh: Behaviour, w: World, dso: int, k: nat) returns (added: seq<Entry>)
    requires Valid(w) && k < |w.table| && NonFinalizing(beh)
    ensures Visit(beh, w, dso, k).table == Visited(w.table, dso, k) + added && NoneCalled(added)
    ensures Visit(beh, w, dso, k).log == w.log + if Selected(w.table[k], dso) then [k] else []
    ensures added == [] <==> |w.table| == MAX || !VisitRegisters(beh, w.table, dso, k)
  {
    hide Registers;
    if Selected(w.table[k], dso) {
      var marked := Marked(w, k);
      added := RegisteringAppends(beh, marked, beh(w.table[k].func, w.table[k].arg, marked.table));
    } else {
      added := [];
    }
  }

  lemma MarkedThenAll(t: seq<Entry>, first: seq<Entry>, dso: int, i: nat)
    requires 0 < i <= |t| && NoneCalled(first)
    ensures AllMarked(Visited(t, dso, i - 1) + first, dso, i - 1) == AllMarked(t, dso, i) + first
  {
  }

  /** With handlers that do not finalize, a finalization calls exactly the selected handlers
      registered by then, each once, in reverse order of registration; what handlers register
      meanwhile is appended and not called. */
  lemma FinalizeInReverse(beh: Behaviour, w: World, dso: int) returns (added: seq<Entry>)
    requires Valid(w) && NonFinalizing(beh)
    ensures Finalized(beh, w, dso).log == w.log + Pending(w.table, dso, |w.table|)
    ensures Finalized(beh, w, dso).table == AllMarked(w.table, dso, |w.table|) + added && NoneCalled(added)
  {
    added := LoopInOrder(beh, w, dso, |w.table|);
  }

  /** No selected handler from i downwards registers one, each called when those above it have
      been called. */
  ghost predicate NoneRegisters(beh: Behaviour, t: seq<Entry>, dso: int, i: nat)
    requires i <= |t|
  {
    forall k :: 0 <= k < i && Selected(t[k], dso) ==> !Registers(beh(t[k].func, t[k].arg, MarkedDown(t, dso, k, i)))
  }

  lemma NoneRegistersSplits(beh: Behaviour, t: seq<Entry>, dso: int, i: nat)
    requires 0 < i <= |t|
    ensures NoneRegisters(beh, t, dso, i)
       <==> !VisitRegisters(beh, t, dso, i - 1) && NoneRegisters(beh, Visited(t, dso, i - 1), dso, i - 1)
  {
    hide Registers;
    var next := Visited(t, dso, i - 1);
    assert forall k :: 0 <= k < i - 1 ==> next[k] == t[k];
    assert Selected(t[i - 1], dso) ==> MarkedDown(t, dso, i - 1, i) == t[i - 1 := t[i - 1].(called := true)];
    forall k | 0 <= k < i - 1
      ensures MarkedDown(next, dso, k, i - 1) == MarkedDown(t, dso, k, i)
    {
    }
  }

  lemma LoopGrows(beh: Behaviour, w: World, dso: int, i: nat)
    requires Valid(w) && i <= |w.table|
    ensures |w.table| <= |Loop(beh, w, dso, i).table| <= MAX
  {
    hide Loop;
  }

  lemma NobodyRegisters(beh: Behaviour, t: seq<Entry>, dso: int)
    ensures NoneRegisters(beh, t, dso, 0)
  {
  }

  lemma {:induction false} LoopAddsNothingIff(beh: Behaviour, w: World, dso: int, i: nat)
    requires Valid(w) && i <= |w.table| && NonFinalizing(beh)
    ensures |Loop(beh, w, dso, i).table| == |w.table| <==> |w.table| == MAX || NoneRegisters(beh, w.table, dso, i)
    decreases i
  {
    hide *;
    LoopUnfolds(beh, w, dso, i);
    if i == 0 {
      NobodyRegisters(beh, w.table, dso);
    } else {
      var added := VisitInOrder(beh, w, dso, i - 1);
      var next := Visit(beh, w, dso, i - 1);
      LoopGrows(beh, next, dso, i - 1);
      NoneRegistersSplits(beh, w.table, dso, i);
      if added == [] {
        assert next.table == Visited(w.table, dso, i - 1);
        LoopAddsNothingIff(beh, next, dso, i - 1);
      }
    }
  }

  predicate AllCalled(w: World) {
    forall k :: 0 <= k < |w.table| ==> w.table[k].called
  }

  /** The last finalization leaves no handler uncalled if and only if the table is full or none
      of the handlers it calls registers another one. */
  lemma AllCalledIff(beh: Behaviour, w: World)
    requires Valid(w) && NonFinalizing(beh)
    ensures AllCalled(Finalized(beh, w, 0))
       <==> |w.table| == MAX
            || forall k :: 0 <= k < |w.table| && Selected(w.table[k], 0) ==>
                 !Registers(beh(w.table[k].func, w.table[k].arg, MarkedDown(w.table, 0, k, |w.table|)))
  {
    var added := FinalizeInReverse(beh, w, 0);
    FinalizeCovers(beh, w, 0);
    LoopAddsNothingIff(beh, w, 0, |w.table|);
    var t := Finalized(beh, w, 0).table;
    if added != [] {
      assert t[|w.table|] == added[0];
    }
  }

  lemma {:induction false} NothingToCall(beh: Behaviour, w: World, i: nat)
    requires Valid(w) && AllCalled(w) && i <= |w.table|
    ensures Loop(beh, w, 0, i) == w
    decreases i
  {
    if i > 0 {
      NothingToCall(beh, w, i - 1);
    }
  }

  /** Whatever the handlers register and finalize, the last finalization leaves none uncalled, if
      and only if the table is full or nothing was pending. */
  lemma AlwaysAllCalledIff(w: World)
    requires Valid(w)
    ensures (forall beh: Behaviour :: AllCalled(Finalized(beh, w, 0))) <==> |w.table| == MAX || AllCalled(w)
  {
    if |w.table| == MAX || AllCalled(w) {
      forall beh: Behaviour
        ensures AllCalled(Finalized(beh, w, 0))
      {
        hide Loop;
        if AllCalled(w) {
          NothingToCall(beh, w, |w.table|);
        } else {
          FinalizeCovers(beh, w, 0);
        }
      }
    } else {
      var k :| 0 <= k < |w.table| && !w.table[k].called;
      var actions: seq<Action> := [Register(1, 0, 0)];
      var beh: Behaviour := (func, arg, table) => actions;
      assert actions[0].Register?;
      assert Registers(actions);
      assert Selected(w.table[k], 0);
      assert beh(w.table[k].func, w.table[k].arg, MarkedDown(w.table, 0, k, |w.table|)) == actions;
      hide Loop;
      AllCalledIff(beh, w);
    }
  }

  /** Handler 1 registers handler 2, which is never called. */
  lemma LateHandlerUncalled()
    ensures var beh: Behaviour := (func, arg, table) => if func == 1 then [Register(2, 0, 0)] else [];
      Finalized(beh, World([Entry(1, 0, 0, false)], [], []), 0)
        == World([Entry(1, 0, 0, true), Entry(2, 0, 0, false)], [0], [Invocation(1, 0)])
  {
    var beh: Behaviour := (func, arg, table) => if func == 1 then [Register(2, 0, 0)] else [];
    var w := World([Entry(1, 0, 0, false)], [], []);
    var marked := World([Entry(1, 0, 0, true)], [0], [Invocation(1, 0)]);
    assert Marked(w, 0) == marked;
    var actions: seq<Action> := [Register(2, 0, 0)];
    assert beh(1, 0, marked.table) == actions;
    var after := World([Entry(1, 0, 0, true), Entry(2, 0, 0, false)], [0], [Invocation(1, 0)]);
    assert Perform(beh, marked, actions[0]) == after;
    assert RunActions(beh, marked, actions) == after;
    assert Visit(beh, w, 0, 0) == after;
  }

  // ----- Nothing is left over when handlers finalize behind what they register

  /** Behind every registration its object or everything is finalized again. */
  predicate ClosesUp(actions: seq<Action>) {
    actions == [] || (ClosesUp(actions[1..]) && (Registers(actions[..1]) ==> Reaches(actions[1..], actions[0].dso)))
  }

  /** Handlers of the object are finalized. */
  predicate Reaches(actions: seq<Action>, dso: int) {
    Finalize(0) in actions || Finalize(dso) in actions
  }

  ghost predicate AlwaysClosesUp(beh: Behaviour) {
    forall func, arg, table :: ClosesUp(beh(func, arg, table))
  }

  predicate NoNewUncalled(w: World, r: World) {
    forall k :: 0 <= k < |r.table| && !r.table[k].called ==> k < |w.table| && !w.table[k].called
  }

  lemma {:induction false} VisitClosesUp(beh: Behaviour, w: World, dso: int, k: nat)
    requires Valid(w) && k < |w.table| && AlwaysClosesUp(beh)
    ensures NoNewUncalled(w, Visit(beh, w, dso, k))
    decreases MAX - CalledCount(w.table), 0
  {
    if Selected(w.table[k], dso) {
      CalledMarked(w.table, k);
      var marked := Marked(w, k);
      RunClosesUp(beh, marked, beh(w.table[k].func, w.table[k].arg, marked.table));
    }
  }

  lemma {:induction false} LoopClosesUp(beh: Behaviour, w: World, dso: int, i: nat)
    requires Valid(w) && i <= |w.table| && AlwaysClosesUp(beh)
    ensures NoNewUncalled(w, Loop(beh, w, dso, i))
    decreases MAX - CalledCount(w.table), 1, i
  {
    if i > 0 {
      hide Visit;
      hide CalledCount;
      hide AlwaysClosesUp;
      VisitClosesUp(beh, w, dso, i - 1);
      var next := Visit(beh, w, dso, i - 1);
      CalledGrows(w.table, next.table);
      LoopClosesUp(beh, next, dso, i - 1);
    }
  }

  lemma {:induction false} FinalizeClosesUp(beh: Behaviour, w: World, dso: int)
    requires Valid(w) && AlwaysClosesUp(beh)
    ensures NoNewUncalled(w, Finalized(beh, w, dso))
    decreases MAX - CalledCount(w.table), 2
  {
    LoopClosesUp(beh, w, dso, |w.table|);
  }

  lemma OneCalledLater(w: World, next: World, r: World)
    requires |next.table| == |w.table| + 1 && next.table[..|w.table|] == w.table
    requires NoNewUncalled(next, r) && |w.table| < |r.table| && r.table[|w.table|].called
    ensures NoNewUncalled(w, r)
  {
    forall k | 0 <= k < |r.table| && !r.table[k].called
      ensures k < |w.table| && !w.table[k].called
    {
      assert k < |next.table| && !next.table[k].called;
      assert k != |w.table|;
      assert next.table[..|w.table|][k] == next.table[k];
    }
  }

  /** Whatever handlers do, actions that reach an object leave none of its handlers uncalled that
      were registered before. */
  lemma {:induction false} RunCovers(beh: Behaviour, w: World, actions: seq<Action>, k: nat)
    requires Valid(w) && k < |w.table| && Reaches(actions, w.table[k].dso)
    ensures k < |RunActions(beh, w, actions).table| && RunActions(beh, w, actions).table[k].called
    decreases |actions|
  {
    hide CalledCount;
    hide Finalized;
    var next := Perform(beh, w, actions[0]);
    var d := w.table[k].dso;
    if actions[0] == Finalize(0) || actions[0] == Finalize(d) {
      FinalizeCovers(beh, w, actions[0].dso);
    } else {
      assert Reaches(actions[1..], d);
      RunCovers(beh, next, actions[1..], k);
    }
  }

  lemma {:induction false} RunClosesUp(beh: Behaviour, w: World, actions: seq<Action>)
    requires Valid(w) && AlwaysClosesUp(beh) && ClosesUp(actions)
    ensures NoNewUncalled(w, RunActions(beh, w, actions))
    decreases MAX - CalledCount(w.table), 4, |actions|
  {
    hide CalledCount;
    hide AlwaysClosesUp;
    hide Finalized;
    hide Reaches;
    if actions != [] {
      var next := Perform(beh, w, actions[0]);
      var r := RunActions(beh, next, actions[1..]);
      CalledGrows(w.table, next.table);
      RunClosesUp(beh, next, actions[1..]);
      if actions[0].Finalize? {
        FinalizeClosesUp(beh, w, actions[0].dso);
        assert NoNewUncalled(w, r);
      } else if Accepts(w, actions[0].func) {
        assert actions[..1][0] == actions[0];
        RunCovers(beh, next, actions[1..], |w.table|);
        OneCalledLater(w, next, r);
      }
    }
  }

  /** Handlers may finalize whatever they like: as long as behind everything they register they
      finalize its object or everything again, the last finalization leaves no handler uncalled. */
  lemma AllCalledWhenClosedUp(beh: Behaviour, w: World)
    requires Valid(w) && AlwaysClosesUp(beh)
    ensures AllCalled(Finalized(beh, w, 0))
  {
    hide Finalized;
    FinalizeClosesUp(beh, w, 0);
    FinalizeCovers(beh, w, 0);
  }

  lemma {:induction false} PendingSlots(t: seq<Entry>, dso: int, n: nat, k: nat)
    requires n <= |t|
    ensures k in Pending(t, dso, n) <==> k < n && Selected(t[k], dso)
  {
    if n > 0 {
      PendingSlots(t, dso, n - 1, k);
    }
  }

  /** Finalizing one object and then everything calls every handler registered before the second
      exactly once: first the object's, last registered first; then what was registered meanwhile
      and the others, last registered first. */
  lemma ObjectThenGlobal(beh: Behaviour, w: World, dso: int) returns (added: seq<Entry>, late: seq<Entry>)
    requires Valid(w) && Consistent(w) && dso != 0 && NonFinalizing(beh)
    ensures NoneCalled(added) && NoneCalled(late)
    ensures var t := AllMarked(w.table, dso, |w.table|) + added;
      var r := Finalized(beh, Finalized(beh, w, dso), 0);
      && r.table == AllMarked(t, 0, |t|) + late
      && r.log == w.log + Pending(w.table, dso, |w.table|) + Pending(t, 0, |t|)
      && Consistent(r)
      && (forall k :: 0 <= k < |t| ==> r.table[k].called && k in r.log)
      && (added == [] <==> |w.table| == MAX || NoneRegisters(beh, w.table, dso, |w.table|))
      && (late == [] <==> |t| == MAX || NoneRegisters(beh, t, 0, |t|))
  {
    hide NoneRegisters;
    hide NonFinalizing;
    hide Loop;
    var first := Finalized(beh, w, dso);
    added := FinalizeInReverse(beh, w, dso);
    late := FinalizeInReverse(beh, first, 0);
    LoopAddsNothingIff(beh, w, dso, |w.table|);
    LoopAddsNothingIff(beh, first, 0, |first.table|);
    LoopConsistent(beh, w, dso, |w.table|);
    LoopConsistent(beh, first, 0, |first.table|);
    FinalizeCovers(beh, first, 0);
  }

  // ----- Order under re-entrancy

  predicate RegistersOrFinalizesAll(actions: seq<Action>) {
    forall i :: 0 <= i < |actions| ==> actions[i].Register? || actions[i].dso == 0
  }

  ghost predicate NoSingleObject(beh: Behaviour) {
    forall func, arg, table :: RegistersOrFinalizesAll(beh(func, arg, table))
  }

  /** The calls of slots below n. */
  function CallsBelow(log: seq<nat>, n: nat): seq<nat> {
    if log == [] then []
    else CallsBelow(log[..|log| - 1], n) + if log[|log| - 1] < n then [log[|log| - 1]] else []
  }

  /** The calls of slots below n so far and those still to come, if everything is finalized. */
  function Schedule(w: World, n: nat): seq<nat>
    requires n <= |w.table|
  {
    CallsBelow(w.log, n) + Pending(w.table, 0, n)
  }

  lemma {:induction false} NothingPendingAbove(t: seq<Entry>, k: nat, n: nat)
    requires k <= n <= |t| && forall j :: k <= j < n ==> t[j].called
    ensures Pending(t, 0, n) == Pending(t, 0, k)
    decreases n - k
  {
    if k < n {
      NothingPendingAbove(t, k, n - 1);
    }
  }

  lemma MarkingKeepsSchedule(w: World, k: nat, n: nat)
    requires k < |w.table| && n <= |w.table| && !w.table[k].called
    requires forall j :: k < j < n ==> w.table[j].called
    ensures Schedule(Marked(w, k), n) == Schedule(w, n)
  {
    var marked := Marked(w, k);
    assert marked.log[..|w.log|] == w.log;
    if k < n {
      NothingPendingAbove(w.table, k + 1, n);
      NothingPendingAbove(marked.table, k, n);
      PendingDependsOnPrefix(marked.table, w.table, 0, k);
      Regroup(CallsBelow(w.log, n), [k], Pending(w.table, 0, k));
    } else {
      PendingDependsOnPrefix(marked.table, w.table, 0, n);
    }
  }

  /** Of the slots below n not yet called, those above one of an object belong to that object. */
  predicate Nested(t: seq<Entry>, n: nat)
    requires n <= |t|
  {
    forall i, j :: 0 <= i < j < n && !t[i].called && !t[j].called ==> t[i].dso == 0 || t[j].dso == t[i].dso
  }

  lemma NestedStays(a: seq<Entry>, b: seq<Entry>, n: nat)
    requires n <= |a| && Nested(a, n) && Extends(a, b)
    ensures Nested(b, n)
  {
    assert forall k :: 0 <= k < n ==> b[k].dso == a[k].dso && (a[k].called ==> b[k].called);
  }

  /** Either the table is such that it does not matter what handlers finalize, or they finalize
      everything or nothing. */
  ghost predicate Orderly(beh: Behaviour, t: seq<Entry>, n: nat, plain: bool)
    requires n <= |t|
  {
    Nested(t, n) || (NoSingleObject(beh) && plain)
  }

  lemma OrderlyStays(beh: Behaviour, a: seq<Entry>, b: seq<Entry>, n: nat, plain: bool)
    requires n <= |a| && Orderly(beh, a, n, plain) && Extends(a, b)
    ensures n <= |b| && Orderly(beh, b, n, plain)
  {
    hide NoSingleObject;
    if Nested(a, n) {
      NestedStays(a, b, n);
    }
  }

  /** What a handler does is no less orderly than the handlers are. */
  lemma OrderlyActions(beh: Behaviour, t: seq<Entry>, n: nat, plain: bool, func: nat, arg: int, seen: seq<Entry>)
    requires n <= |t| && Orderly(beh, t, n, plain)
    ensures Orderly(beh, t, n, RegistersOrFinalizesAll(beh(func, arg, seen)))
  {
  }

  /** Nothing from slot i up to n is left for this finalization. */
  predicate Passed(t: seq<Entry>, dso: int, i: nat, n: nat)
    requires n <= |t|
  {
    forall j :: i <= j < n ==> !Selected(t[j], dso)
  }

  lemma PassedStays(a: seq<Entry>, b: seq<Entry>, dso: int, i: nat, n: nat)
    requires n <= |a| && Extends(a, b) && Passed(a, dso, i, n)
    ensures Passed(b, dso, i, n)
  {
    assert forall k :: 0 <= k < n ==> b[k].dso == a[k].dso && (a[k].called ==> b[k].called);
  }

  /** When a slot is visited, the pending ones above it have been called. */
  lemma TopmostIsNext(beh: Behaviour, t: seq<Entry>, dso: int, k: nat, n: nat)
    requires k < |t| && n <= |t| && Selected(t[k], dso) && Passed(t, dso, k + 1, n)
    requires Orderly(beh, t, n, dso == 0)
    ensures forall j :: k < j < n ==> t[j].called
  {
    hide NoSingleObject;
  }

  lemma {:induction false} VisitKeepsSchedule(beh: Behaviour, w: World, dso: int, k: nat, n: nat)
    requires Valid(w) && k < |w.table| && n <= |w.table| && Passed(w.table, dso, k + 1, n)
    requires Orderly(beh, w.table, n, dso == 0)
    ensures Schedule(Visit(beh, w, dso, k), n) == Schedule(w, n)
    decreases MAX - CalledCount(w.table), 0
  {
    hide Schedule;
    hide Orderly;
    hide Passed;
    hide RegistersOrFinalizesAll;
    if Selected(w.table[k], dso) {
      CalledMarked(w.table, k);
      var marked := Marked(w, k);
      TopmostIsNext(beh, w.table, dso, k, n);
      MarkingKeepsSchedule(w, k, n);
      OrderlyStays(beh, w.table, marked.table, n, dso == 0);
      OrderlyActions(beh, marked.table, n, dso == 0, w.table[k].func, w.table[k].arg, marked.table);
      RunKeepsSchedule(beh, marked, beh(w.table[k].func, w.table[k].arg, marked.table), n);
    }
  }

  lemma PassedOneMore(beh: Behaviour, w: World, dso: int, k: nat, n: nat)
    requires Valid(w) && k < |w.table| && n <= |w.table| && Passed(w.table, dso, k + 1, n)
    ensures n <= |Visit(beh, w, dso, k).table| && Passed(Visit(beh, w, dso, k).table, dso, k, n)
  {
    var next := Visit(beh, w, dso, k);
    assert !Selected(next.table[k], dso) by {
      hide Visit;
    }
    hide Visit;
    PassedStays(w.table, next.table, dso, k + 1, n);
  }

  lemma {:induction false} LoopKeepsSchedule(beh: Behaviour, w: World, dso: int, i: nat, n: nat)
    requires Valid(w) && i <= |w.table| && n <= |w.table| && Passed(w.table, dso, i, n)
    requires Orderly(beh, w.table, n, dso == 0)
    ensures Schedule(Loop(beh, w, dso, i), n) == Schedule(w, n)
    decreases MAX - CalledCount(w.table), 1, i
  {
    hide *;
    LoopUnfolds(beh, w, dso, i);
    if i > 0 {
      VisitKeepsSchedule(beh, w, dso, i - 1, n);
      var next := Visit(beh, w, dso, i - 1);
      PassedOneMore(beh, w, dso, i - 1, n);
      OrderlyStays(beh, w.table, next.table, n, dso == 0);
      CalledGrows(w.table, next.table);
      LoopKeepsSchedule(beh, next, dso, i - 1, n);
    }
  }

  lemma {:induction false} PerformKeepsSchedule(beh: Behaviour, w: World, a: Action, n: nat)
    requires Valid(w) && n <= |w.table| && Orderly(beh, w.table, n, a.Register? || a.dso == 0)
    ensures Schedule(Perform(beh, w, a), n) == Schedule(w, n)
    decreases MAX - CalledCount(w.table), 3
  {
    if a.Finalize? {
      LoopKeepsSchedule(beh, w, a.dso, |w.table|, n);
    } else {
      PendingDependsOnPrefix(Perform(beh, w, a).table, w.table, 0, n);
    }
  }

  /** In every run, however deeply nested, what is called and what remains to be called stays the
      same plan, if the table is nested or the handlers finalize everything or nothing. */
  lemma {:induction false} RunKeepsSchedule(beh: Behaviour, w: World, actions: seq<Action>, n: nat)
    requires Valid(w) && n <= |w.table| && Orderly(beh, w.table, n, RegistersOrFinalizesAll(actions))
    ensures Schedule(RunActions(beh, w, actions), n) == Schedule(w, n)
    decreases MAX - CalledCount(w.table), 4, |actions|
  {
    if actions != [] {
      hide Schedule;
      hide Perform;
      hide CalledCount;
      hide NoSingleObject;
      var next := Perform(beh, w, actions[0]);
      PerformKeepsSchedule(beh, w, actions[0], n);
      CalledGrows(w.table, next.table);
      OrderlyStays(beh, w.table, next.table, n, RegistersOrFinalizesAll(actions));
      RunKeepsSchedule(beh, next, actions[1..], n);
    }
  }

  /** The last finalization calls the handlers registered before it, as far as they are pending,
      in reverse order of registration, each once, whatever is called between them. */
  ghost predicate KeepsOrder(beh: Behaviour, w: World)
    requires Valid(w)
  {
    CallsBelow(Finalized(beh, w, 0).log, |w.table|) == CallsBelow(w.log, |w.table|) + Pending(w.table, 0, |w.table|)
  }

  lemma PlanDone(r: World, n: nat)
    requires n <= |r.table| && Pending(r.table, 0, n) == Pending(r.table, 0, 0)
    ensures Schedule(r, n) == CallsBelow(r.log, n)
  {
    assert CallsBelow(r.log, n) + [] == CallsBelow(r.log, n);
  }

  lemma KeptPlanIsOrder(beh: Behaviour, w: World)
    requires Valid(w) && Schedule(Finalized(beh, w, 0), |w.table|) == Schedule(w, |w.table|)
    ensures KeepsOrder(beh, w)
  {
    hide CallsBelow;
    hide Finalized;
    hide CalledCount;
    var n := |w.table|;
    var r := Finalized(beh, w, 0);
    FinalizeCovers(beh, w, 0);
    NothingPendingAbove(r.table, 0, n);
    PlanDone(r, n);
  }

  /** Handlers that finalize everything or nothing keep the order. */
  lemma ReverseUnderReentry(beh: Behaviour, w: World)
    requires Valid(w) && NoSingleObject(beh)
    ensures KeepsOrder(beh, w)
  {
    hide Schedule;
    hide NoSingleObject;
    hide KeepsOrder;
    hide Loop;
    LoopKeepsSchedule(beh, w, 0, |w.table|, |w.table|);
    KeptPlanIsOrder(beh, w);
  }

  /** Apart from the topmost pending slot, above each pending slot of an object there are only
      pending slots of that object. */
  predicate Grouped(t: seq<Entry>) {
    forall i, j, k :: 0 <= i < j < k < |t| && !t[i].called && !t[j].called && !t[k].called ==>
      t[i].dso == 0 || t[j].dso == t[i].dso
  }

  lemma NestedOnceTopmostIsCalled(w: World, k: nat)
    requires k < |w.table| && !w.table[k].called && Grouped(w.table)
    requires forall j :: k < j < |w.table| ==> w.table[j].called
    ensures Nested(Marked(w, k).table, |w.table|)
  {
  }

  /** On a grouped table the loop keeps the plan: the topmost pending handler is called first
      anyway, and then the table is nested. */
  lemma {:induction false} FirstRoundsKeepSchedule(beh: Behaviour, w: World, i: nat)
    requires Valid(w) && i <= |w.table| && Grouped(w.table)
    requires forall j :: i <= j < |w.table| ==> w.table[j].called
    ensures Schedule(Loop(beh, w, 0, i), |w.table|) == Schedule(w, |w.table|)
    decreases i
  {
    hide Schedule;
    hide Loop;
    hide NoSingleObject;
    hide CalledCount;
    var n := |w.table|;
    LoopUnfolds(beh, w, 0, i);
    if i > 0 {
      var k := i - 1;
      if w.table[k].called {
        FirstRoundsKeepSchedule(beh, w, k);
      } else {
        hide Grouped;
        NestedOnceTopmostIsCalled(w, k);
        MarkingKeepsSchedule(w, k, n);
        var marked := Marked(w, k);
        hide Marked;
        RunKeepsSchedule(beh, marked, beh(w.table[k].func, w.table[k].arg, marked.table), n);
        var next := Visit(beh, w, 0, k);
        PassedOneMore(beh, w, 0, k, n);
        VisitExtendsMarked(beh, w, k);
        NestedStays(marked.table, next.table, n);
        LoopKeepsSchedule(beh, next, 0, k, n);
      }
    }
  }

  lemma VisitExtendsMarked(beh: Behaviour, w: World, k: nat)
    requires Valid(w) && k < |w.table| && !w.table[k].called
    ensures Extends(Marked(w, k).table, Visit(beh, w, 0, k).table)
    ensures Valid(Marked(w, k)) && |Marked(w, k).table| == |w.table|
    ensures Visit(beh, w, 0, k)
         == RunActions(beh, Marked(w, k), beh(w.table[k].func, w.table[k].arg, Marked(w, k).table))
  {
    CalledMarked(w.table, k);
  }

  lemma VisitSkips(beh: Behaviour, w: World, k: nat)
    requires Valid(w) && k < |w.table| && w.table[k].called
    ensures Visit(beh, w, 0, k) == w
  {
  }

  // ----- Tables whose order some handlers break

  /** Whatever the handlers do is to finalize object d. */
  ghost predicate FinalizesOnly(beh: Behaviour, d: int) {
    forall func, arg, table :: beh(func, arg, table) == [] || beh(func, arg, table) == [Finalize(d)]
  }

  lemma {:induction false} VisitSpares(beh: Behaviour, w: World, d: int, k: nat, j: nat)
    requires Valid(w) && k < |w.table| && j < |w.table| && d != 0 && w.table[j].dso != d && FinalizesOnly(beh, d)
    ensures Visit(beh, w, d, k).table[j].called == w.table[j].called
    decreases MAX - CalledCount(w.table), 0
  {
    if Selected(w.table[k], d) {
      CalledMarked(w.table, k);
      var marked := Marked(w, k);
      var actions := beh(w.table[k].func, w.table[k].arg, marked.table);
      if actions != [] {
        LoopSpares(beh, marked, d, |marked.table|, j);
        RunSingle(beh, marked, d);
      }
    }
  }

  lemma RunSingle(beh: Behaviour, w: World, d: int)
    requires Valid(w)
    ensures RunActions(beh, w, [Finalize(d)]) == Finalized(beh, w, d)
  {
    hide Finalized;
    var actions: seq<Action> := [Finalize(d)];
    assert actions[1..] == [];
  }

  lemma {:induction false} LoopSpares(beh: Behaviour, w: World, d: int, i: nat, j: nat)
    requires Valid(w) && i <= |w.table| && j < |w.table| && d != 0 && w.table[j].dso != d && FinalizesOnly(beh, d)
    ensures Loop(beh, w, d, i).table[j].called == w.table[j].called
    decreases MAX - CalledCount(w.table), 1, i
  {
    if i > 0 {
      hide Visit;
      hide CalledCount;
      hide FinalizesOnly;
      VisitSpares(beh, w, d, i - 1, j);
      var next := Visit(beh, w, d, i - 1);
      CalledGrows(w.table, next.table);
      LoopSpares(beh, next, d, i - 1, j);
    }
  }

  /** Finalize the object of slot i as long as slots i and j have not been called. */
  ghost function Breaking(d: int, i: nat, j: nat): Behaviour {
    (func, arg, table: seq<Entry>) =>
      if i < |table| && j < |table| && !table[i].called && !table[j].called then [Finalize(d)] else []
  }

  lemma OneBeforeTheOther(beh: Behaviour, w: World, d: int, i: nat, j: nat)
    requires Valid(w) && Consistent(w) && i < |w.table| && j < |w.table| && FinalizesOnly(beh, d)
    requires d != 0 && w.table[i].dso == d && w.table[j].dso != d && !w.table[j].called
    ensures var r := Finalized(beh, w, d); Consistent(r) && i in r.log && j !in r.log
  {
    hide FinalizesOnly;
    hide Loop;
    LoopConsistent(beh, w, d, |w.table|);
    LoopSpares(beh, w, d, |w.table|, j);
    FinalizeCovers(beh, w, d);
  }

  lemma BreakingActs(w: World, k: nat, i: nat, j: nat, d: int)
    requires i < j < k < |w.table| && !w.table[i].called && !w.table[j].called
    ensures FinalizesOnly(Breaking(d, i, j), d)
    ensures var t := Marked(w, k).table;
      |t| == |w.table| && t[i] == w.table[i] && t[j] == w.table[j]
      && Breaking(d, i, j)(w.table[k].func, w.table[k].arg, t) == [Finalize(d)]
  {
  }

  /** With these handlers the topmost pending slot calls slot i and not slot j. */
  lemma TopmostBreaks(w: World, k: nat, i: nat, j: nat)
    requires Valid(w) && Consistent(w) && i < j < k < |w.table|
    requires !w.table[i].called && !w.table[j].called && !w.table[k].called
    requires w.table[i].dso != 0 && w.table[j].dso != w.table[i].dso
    ensures var mid := Visit(Breaking(w.table[i].dso, i, j), w, 0, k);
      Valid(mid) && |w.table| <= |mid.table| && Consistent(mid) && i in mid.log && j !in mid.log
  {
    var d := w.table[i].dso;
    var beh := Breaking(d, i, j);
    BreakingActs(w, k, i, j, d);
    VisitExtendsMarked(beh, w, k);
    VisitGrows(beh, w, 0, k);
    MarkedConsistent(w, k);
    hide *;
    RunSingle(beh, Marked(w, k), d);
    OneBeforeTheOther(beh, Marked(w, k), d, i, j);
  }

  /** Hence slot i is called before slot j, although it is below it. */
  lemma {:induction false} BreaksOrder(w: World, m: nat, i: nat, j: nat, k: nat) returns (mid: World)
    requires Valid(w) && Consistent(w) && i < j < k < m <= |w.table|
    requires !w.table[i].called && !w.table[j].called && !w.table[k].called
    requires w.table[i].dso != 0 && w.table[j].dso != w.table[i].dso
    ensures i in mid.log && j !in mid.log
    ensures mid.log <= Loop(Breaking(w.table[i].dso, i, j), w, 0, m).log
    decreases m
  {
    hide *;
    var beh := Breaking(w.table[i].dso, i, j);
    LoopUnfolds(beh, w, 0, m);
    if w.table[m - 1].called {
      VisitSkips(beh, w, m - 1);
      mid := BreaksOrder(w, m - 1, i, j, k);
    } else {
      TopmostBreaks(w, m - 1, i, j);
      mid := Visit(beh, w, 0, m - 1);
      LoopConsistent(beh, mid, 0, m - 1);
    }
  }

  lemma {:induction false} CallsBelowPrefix(a: seq<nat>, b: seq<nat>, n: nat)
    requires a <= b
    ensures CallsBelow(a, n) <= CallsBelow(b, n)
    decreases |b|
  {
    if |a| < |b| {
      assert b[..|b| - 1][..|a|] == b[..|a|];
      CallsBelowPrefix(a, b[..|b| - 1], n);
    } else {
      assert a == b;
    }
  }

  lemma {:induction false} CallsBelowHas(log: seq<nat>, n: nat, k: nat)
    ensures k in CallsBelow(log, n) <==> k in log && k < n
  {
    if log != [] {
      CallsBelowHas(log[..|log| - 1], n, k);
      assert log == log[..|log| - 1] + [log[|log| - 1]];
    }
  }

  /** The pending slots around slot j. */
  lemma {:induction false} PendingAround(t: seq<Entry>, n: nat, j: nat) returns (above: seq<nat>)
    requires j < n <= |t| && !t[j].called
    ensures Pending(t, 0, n) == above + [j] + Pending(t, 0, j)
    ensures forall x :: x in above ==> x > j
    decreases n
  {
    if n == j + 1 {
      above := [];
      assert Pending(t, 0, n) == [j] + Pending(t, 0, j);
    } else {
      var rest := PendingAround(t, n - 1, j);
      above := (if Selected(t[n - 1], 0) then [n - 1] else []) + rest;
      assert Pending(t, 0, n) == above + [j] + Pending(t, 0, j);
    }
  }

  lemma PrefixReaches(p: seq<nat>, whole: seq<nat>, a: seq<nat>, j: nat, b: seq<nat>, i: nat)
    requires p <= whole && whole == a + [j] + b && i in p && i !in a
    ensures j in p
  {
    var q :| 0 <= q < |p| && p[q] == i;
    assert forall x :: 0 <= x < |a| ==> whole[x] == a[x] && a[x] in a;
    assert q >= |a|;
    assert p[|a|] == j;
  }

  lemma UngroupedBreaks(w: World, i: nat, j: nat, k: nat)
    requires Valid(w) && Consistent(w) && i < j < k < |w.table|
    requires !w.table[i].called && !w.table[j].called && !w.table[k].called
    requires w.table[i].dso != 0 && w.table[j].dso != w.table[i].dso
    ensures !KeepsOrder(Breaking(w.table[i].dso, i, j), w)
  {
    hide *;
    var beh := Breaking(w.table[i].dso, i, j);
    var n := |w.table|;
    if KeepsOrder(beh, w) {
      var mid := BreaksOrder(w, n, i, j, k);
      var last := Finalized(beh, w, 0);
      KeptOrder(beh, w);
      CallsBelowPrefix(mid.log, last.log, n);
      CallsBelowHas(mid.log, n, i);
      CallsBelowHas(mid.log, n, j);
      CallsBelowHas(w.log, n, i);
      NotLogged(w, i);
      var above := PendingAround(w.table, n, j);
      var front := CallsBelow(w.log, n) + above;
      assert CallsBelow(last.log, n) == front + [j] + Pending(w.table, 0, j);
      assert i !in front;
      PrefixReaches(CallsBelow(mid.log, n), CallsBelow(last.log, n), front, j, Pending(w.table, 0, j), i);
    }
  }

  lemma KeptOrder(beh: Behaviour, w: World)
    requires Valid(w) && KeepsOrder(beh, w)
    ensures Finalized(beh, w, 0) == Loop(beh, w, 0, |w.table|)
    ensures CallsBelow(Finalized(beh, w, 0).log, |w.table|) == CallsBelow(w.log, |w.table|) + Pending(w.table, 0, |w.table|)
  {
    hide Loop;
  }

  lemma NotLogged(w: World, i: nat)
    requires Consistent(w) && i < |w.table| && !w.table[i].called
    ensures i !in w.log
  {
  }

  /** The last finalization keeps the reverse order whatever the handlers register and finalize
      if and only if the table is grouped. */
  lemma OrderKeptIffGrouped(w: World)
    requires Valid(w) && Consistent(w)
    ensures (forall beh: Behaviour :: KeepsOrder(beh, w)) <==> Grouped(w.table)
  {
    hide KeepsOrder;
    if Grouped(w.table) {
      forall beh: Behaviour
        ensures KeepsOrder(beh, w)
      {
        FirstRoundsKeepSchedule(beh, w, |w.table|);
        KeptPlanIsOrder(beh, w);
      }
    } else {
      var i, j, k :| 0 <= i < j < k < |w.table| && !w.table[i].called && !w.table[j].called && !w.table[k].called
        && w.table[i].dso != 0 && w.table[j].dso != w.table[i].dso;
      UngroupedBreaks(w, i, j, k);
    }
  }

  /** A run out of order: the last handler finalizes the object of the first one, which is called
      before the one between them. */
  lemma OrderBrokenByOneObject()
    ensures var beh: Behaviour := (func, arg, table) => if func == 3 then [Finalize(1)] else [];
      Finalized(beh, World([Entry(1, 0, 1, false), Entry(2, 0, 2, false), Entry(3, 0, 2, false)], [], []), 0).log
        == [2, 0, 1]
  {
    var beh: Behaviour := (func, arg, table) => if func == 3 then [Finalize(1)] else [];
    var a, b, c := Entry(1, 0, 1, false), Entry(2, 0, 2, false), Entry(3, 0, 2, false);
    var a', b', c' := a.(called := true), b.(called := true), c.(called := true);
    var x, y, z := Invocation(1, 0), Invocation(2, 0), Invocation(3, 0);
    var inner := World([a, b, c'], [2], [z]);
    var first := World([a', b, c'], [2, 0], [z, x]);
    assert Marked(inner, 0) == first;
    assert Loop(beh, inner, 1, 3) == first by {
      LoopUnfolds(beh, inner, 1, 3);
      LoopUnfolds(beh, inner, 1, 2);
      LoopUnfolds(beh, inner, 1, 1);
      assert RunActions(beh, first, []) == first;
      assert Visit(beh, inner, 1, 2) == inner;
      assert Visit(beh, inner, 1, 1) == inner;
      assert Visit(beh, inner, 1, 0) == first;
    }
    var w := World([a, b, c], [], []);
    var actions: seq<Action> := [Finalize(1)];
    assert RunActions(beh, inner, actions) == first by {
      assert Perform(beh, inner, actions[0]) == first;
    }
    assert Marked(w, 2) == inner;
    assert Visit(beh, w, 0, 2) == first;
    var last := World([a', b', c'], [2, 0, 1], [z, x, y]);
    assert Marked(first, 1) == last;
    assert Visit(beh, first, 0, 1) == last by {
      assert RunActions(beh, last, []) == last;
    }
    assert Visit(beh, last, 0, 0) == last;
    LoopUnfolds(beh, w, 0, 3);
    LoopUnfolds(beh, first, 0, 2);
    LoopUnfolds(beh, last, 0, 1);
  }

  // ----- From registration to call

  /** The registrations the library does not refuse for their null function. */
  function Serious(actions: seq<Action>): (r: seq<Action>)
    requires OnlyRegisters(actions)
    ensures forall i :: 0 <= i < |r| ==> r[i].Register? && r[i].func != 0
  {
    if actions == [] then []
    else Serious(actions[..|actions| - 1]) + if actions[|actions| - 1].func != 0 then [actions[|actions| - 1]] else []
  }

  function Kept(actions: seq<Action>): nat
    requires OnlyRegisters(actions)
  {
    if |Serious(actions)| <= 64 then |Serious(actions)| else 64
  }

  lemma {:induction false} RunOneMore(beh: Behaviour, w: World, actions: seq<Action>, a: Action)
    requires Valid(w)
    ensures RunActions(beh, w, actions + [a]) == Perform(beh, RunActions(beh, w, actions), a)
    decreases |actions|
  {
    hide Perform;
    hide CalledCount;
    if actions == [] {
      assert actions + [a] == [a];
      assert RunActions(beh, Perform(beh, w, a), []) == Perform(beh, w, a);
      assert [a][1..] == [];
    } else {
      assert (actions + [a])[1..] == actions[1..] + [a];
      RunOneMore(beh, Perform(beh, w, actions[0]), actions[1..], a);
    }
  }

  /** After any registrations from the empty registry, entry k holds what the k-th of them with a
      function asked for, as far as there is room. */
  lemma {:induction false} TableOfRegistrations(beh: Behaviour, actions: seq<Action>)
    requires OnlyRegisters(actions)
    ensures var w := RunActions(beh, EMPTY, actions);
      && |w.table| == Kept(actions) && w.log == [] && w.calls == []
      && forall k :: 0 <= k < |w.table| ==>
           var a := Serious(actions)[k];
           w.table[k] == Entry(a.func, a.arg, a.dso, false)
  {
    if actions != [] {
      hide RunActions;
      var n := |actions| - 1;
      assert actions == actions[..n] + [actions[n]];
      TableOfRegistrations(beh, actions[..n]);
      RunOneMore(beh, EMPTY, actions[..n], actions[n]);
      assert Serious(actions[..n]) <= Serious(actions);
    } else {
      assert RunActions(beh, EMPTY, []) == EMPTY;
    }
  }

  lemma {:induction false} PendingOfNew(t: seq<Entry>, n: nat)
    requires n <= |t| && NoneCalled(t)
    ensures |Pending(t, 0, n)| == n
    ensures forall i :: 0 <= i < n ==> Pending(t, 0, n)[i] == n - 1 - i
  {
    if n > 0 {
      PendingOfNew(t, n - 1);
    }
  }

  lemma CallOf(w: World, r: World, i: nat, k: nat)
    requires Extends(w.table, r.table) && CallsMatch(r) && i < |r.log| && r.log[i] == k && k < |w.table|
    ensures r.calls[i] == InvocationOf(w.table[k])
  {
    assert r.table[k].func == w.table[k].func && r.table[k].arg == w.table[k].arg;
  }

  lemma NewAreCalled(beh: Behaviour, w: World)
    requires Valid(w) && NonFinalizing(beh) && NoneCalled(w.table) && w.log == [] && w.calls == []
    ensures var r := Finalized(beh, w, 0);
      && |r.calls| == |w.table|
      && forall i :: 0 <= i < |r.calls| ==> r.calls[i] == InvocationOf(w.table[|w.table| - 1 - i])
  {
    hide *;
    var n := |w.table|;
    var r := Finalized(beh, w, 0);
    var added := FinalizeInReverse(beh, w, 0);
    PendingOfNew(w.table, n);
    FinalizedConsistent(beh, w);
    assert r.log == Pending(w.table, 0, n);
    CallsAsLogged(r);
    forall i | 0 <= i < n
      ensures r.calls[i] == InvocationOf(w.table[n - 1 - i])
    {
      CallOf(w, r, i, n - 1 - i);
    }
  }

  lemma CallsAsLogged(r: World)
    requires CallsMatch(r)
    ensures |r.calls| == |r.log|
  {
  }

  /** Handlers that do not finalize are called when everything is finalized, each with the
      argument it was registered with, in reverse order of registration. */
  lemma RegisteredIsCalled(beh: Behaviour, actions: seq<Action>)
    requires OnlyRegisters(actions) && NonFinalizing(beh)
    ensures var r := Finalized(beh, RunActions(beh, EMPTY, actions), 0);
      && |r.calls| == Kept(actions)
      && forall i :: 0 <= i < |r.calls| ==>
           var a := Serious(actions)[|r.calls| - 1 - i];
           r.calls[i] == Invocation(a.func, a.arg)
  {
    hide RunActions;
    hide Finalized;
    hide NonFinalizing;
    TableOfRegistrations(beh, actions);
    NewAreCalled(beh, RunActions(beh, EMPTY, actions));
  }

  lemma FinalizedConsistent(beh: Behaviour, w: World)
    requires Valid(w) && NoneCalled(w.table) && w.log == [] && w.calls == []
    ensures CallsMatch(Finalized(beh, w, 0))
  {
    LoopConsistent(beh, w, 0, |w.table|);
  }

  // ----- The library

  class Registry {
    const entries: array<Entry>
    var count: nat
    /** Which handlers were called, and how; only for the specification. */
    ghost var log: seq<nat>
    ghost var calls: seq<Invocation>
    const behaviour: Behaviour

    ghost predicate Inv()
      reads this
    {
      entries.Length == MAX && count <= MAX
    }

    ghost function View(): World
      reads this, entries
      requires Inv()
    {
      World(entries[..count], log, calls)
    }

    constructor (behaviour: Behaviour)
      ensures Inv() && View() == EMPTY && this.behaviour == behaviour && fresh(entries)
    {
      this.behaviour := behaviour;
      entries := new Entry[MAX](_ => Entry(0, 0, 0, false));
      count := 0;
      log := [];
      calls := [];
    }

    method CxaAtexit(func: nat, arg: int, dso: int) returns (status: int)
      requires Inv()
      modifies this, entries
      ensures Inv() && View() == Registered(old(View()), func, arg, dso)
      ensures status == if Accepts(old(View()), func) then 0 else -1
    {
      if func == 0 || count >= MAX {
        return -1;
      }
      entries[count] := Entry(func, arg, dso, false);
      count := count + 1;
      return 0;
    }

    method CxaFinalize(dso: int)
      requires Inv()
      modifies this, entries
      ensures Inv() && View() == Finalized(behaviour, old(View()), dso)
      decreases MAX - CalledCount(entries[..count]), 2
    {
      hide CalledCount;
      if count == 0 {
        return;
      }
      hide Visit;
      ghost var start := View();
      var i: nat := count;
      while i > 0
        invariant Inv() && i <= count
        invariant Extends(start.table, View().table)
        invariant Loop(behaviour, View(), dso, i) == Finalized(behaviour, start, dso)
        decreases i
      {
        ghost var w := View();
        CalledGrows(start.table, w.table);
        VisitEntry(dso, i - 1);
        ExtendsThrough(start.table, w.table, View().table);
        i := i - 1;
      }
    }

    /** The body of the loop. */
    method VisitEntry(dso: int, k: nat)
      requires Inv() && k < count
      modifies this, entries
      ensures Inv() && View() == Visit(behaviour, old(View()), dso, k)
      decreases MAX - CalledCount(entries[..count]), 1
    {
      hide CalledCount;
      ghost var w := View();
      var entry := entries[k];
      if entry.called {
        return;
      }
      if dso != 0 && entry.dso != dso {
        return;
      }
      entries[k] := entry.(called := true);
      log := log + [k];
      assert Invoked(View(), entry.func, entry.arg) == Marked(w, k);
      CalledMarked(w.table, k);
      CallHandler(entry.func, entry.arg);
    }

    /** The running handler: a sequence of calls back into the registry. */
    method CallHandler(func: nat, arg: int)
      requires Inv()
      modifies this, entries
      ensures Inv()
      ensures View() == RunActions(behaviour, Invoked(old(View()), func, arg), behaviour(func, arg, old(View()).table))
      decreases MAX - CalledCount(entries[..count]), 4
    {
      hide CalledCount;
      calls := calls + [Invocation(func, arg)];
      ghost var start := View();
      var actions := behaviour(func, arg, entries[..count]);
      assert actions[0..] == actions;
      for i := 0 to |actions|
        invariant Inv() && Extends(start.table, View().table)
        invariant RunActions(behaviour, View(), actions[i..]) == RunActions(behaviour, start, actions)
      {
        ghost var w := View();
        assert actions[i..][1..] == actions[i + 1..];
        CalledGrows(start.table, w.table);
        match actions[i] {
          case Register(f, a, d) =>
            var status := CxaAtexit(f, a, d);
          case Finalize(d) =>
            CxaFinalize(d);
        }
        ExtendsThrough(start.table, w.table, View().table);
      }
    }
  }

  lemma ExtendsThrough(a: seq<Entry>, b: seq<Entry>, c: seq<Entry>)
    requires Extends(a, b)
    ensures Extends(b, c) ==> Extends(a, c)
  {
  }
}
