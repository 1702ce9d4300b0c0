/**
 The fence around runtime handles of nested parallel slots, as steps of any number of threads.  A
 mutating call on a handle first checks the run of each enclosing slot, innermost first, and then
 writes; checking and writing are separate steps, and runs are cancelled or closed in between.
 */
module LateWriteFences {
  import opened Outcomes

  datatype Control = Control(parent: Option<nat>, event: bool, active: bool)

  const MUTATING_METHODS: set<string> := {
    "set", "update", "delete", "clear", "write", "write_snapshot", "write_population_snapshot",
    "commit_population_snapshot", "set_context_store", "set_snapshot_store"
  }

  /** Item assignment and deletion, which a handle checks like the listed methods. */
  const ITEM_METHODS: set<string> := {"__setitem__", "__delitem__"}

  /** The attributes that a handle wraps in turn. */
  const STORE_ATTRIBUTES: set<string> := {"context_store", "snapshot_store"}

  ghost predicate ParentsFirst(cs: seq<Control>) {
    forall c | 0 <= c < |cs| :: cs[c].parent.Some? ==> cs[c].parent.value < c
  }

  ghost predicate IsSet(cs: seq<Control>, c: nat)
    requires ParentsFirst(cs) && c < |cs|
    decreases c
  {
    cs[c].event || (cs[c].parent.Some? && IsSet(cs, cs[c].parent.value))
  }

  ghost predicate Writable(cs: seq<Control>, c: nat)
    requires ParentsFirst(cs)
  {
    c < |cs| && !IsSet(cs, c) && cs[c].active
  }

  /** A run and all enclosing ones, innermost first. */
  ghost function Enclosing(cs: seq<Control>, c: nat): (runs: seq<nat>)
    requires ParentsFirst(cs) && c < |cs|
    ensures forall i | 0 <= i < |runs| :: runs[i] <= c
    decreases c
  {
    [c] + if cs[c].parent.Some? then Enclosing(cs, cs[c].parent.value) else []
  }

  // ---- Handles ---------------------------------------------------------------------------

  /** A store, or a handle wrapped once more on entry to a slot. */
  datatype Handle = Raw | Fenced(target: Handle, control: nat)

  /** What looking up a method gives: the store's own method, or a call that checks a run first. */
  datatype Method = Direct | FencedCall(control: nat, inner: Method)

  predicate IsMutating(name: string) {
    name in MUTATING_METHODS || name in ITEM_METHODS
  }

  /** Looking up a method asks the wrapped handle first and fences what it gives, if the method mutates. */
  function GetMethod(h: Handle, name: string): Method {
    match h
    case Raw => Direct
    case Fenced(target, control) =>
      if IsMutating(name) then FencedCall(control, GetMethod(target, name)) else GetMethod(target, name)
  }

  /** An attribute or item of a handle: a store is wrapped again, anything else is the object itself. */
  function GetAttribute(h: Handle, name: string): Handle {
    match h
    case Raw => Raw
    case Fenced(target, control) =>
      var attribute := GetAttribute(target, name);
      if name in STORE_ATTRIBUTES then Fenced(attribute, control) else attribute
  }

  /** What `path` leads to from a handle, one attribute after the other. */
  function Follow(h: Handle, path: seq<string>): Handle
    decreases |path|
  {
    if path == [] then h else Follow(GetAttribute(h, path[0]), path[1..])
  }

  /** Calling this method on what the path leads to is fenced. */
  predicate IsFenced(path: seq<string>, name: string) {
    IsMutating(name) && forall attribute <- path :: attribute in STORE_ATTRIBUTES
  }

  /** The runs that a handle was wrapped for, the last one first. */
  function Wrappers(h: Handle): seq<nat> {
    match h
    case Raw => []
    case Fenced(target, control) => [control] + Wrappers(target)
  }

  /** The runs that calling the method checks, in order. */
  function Checks(m: Method): seq<nat> {
    match m
    case Direct => []
    case FencedCall(control, inner) => [control] + Checks(inner)
  }

  lemma {:induction false} MutatingMethodsCheckEveryWrapper(h: Handle, name: string)
    ensures Checks(GetMethod(h, name)) == if IsMutating(name) then Wrappers(h) else []
  {
    if h.Fenced? {
      MutatingMethodsCheckEveryWrapper(h.target, name);
    }
  }

  lemma {:induction false} StoresKeepEveryWrapper(h: Handle, name: string)
    ensures Wrappers(GetAttribute(h, name)) == if name in STORE_ATTRIBUTES then Wrappers(h) else []
  {
    if h.Fenced? {
      StoresKeepEveryWrapper(h.target, name);
    }
  }

  /** A path through stores keeps every wrapper, and any other path loses all of them. */
  lemma {:induction false} PathsKeepEveryWrapper(h: Handle, path: seq<string>)
    ensures Wrappers(Follow(h, path)) ==
              if forall attribute <- path :: attribute in STORE_ATTRIBUTES then Wrappers(h) else []
    decreases |path|
  {
    if path != [] {
      StoresKeepEveryWrapper(h, path[0]);
      PathsKeepEveryWrapper(GetAttribute(h, path[0]), path[1..]);
      assert path == [path[0]] + path[1..];
    }
  }

  /** A method reached from a handle checks all its wrappers, outermost first, exactly if it is fenced. */
  lemma FencedMethodsCheckEveryWrapper(h: Handle, path: seq<string>, name: string)
    ensures Checks(GetMethod(Follow(h, path), name)) == if IsFenced(path, name) then Wrappers(h) else []
  {
    PathsKeepEveryWrapper(h, path);
    MutatingMethodsCheckEveryWrapper(Follow(h, path), name);
  }

  /** Every method by which a store, a snapshot store or an item is changed is among the fenced ones. */
  lemma WritesAreFenced(name: string)
    requires name in ["set", "update", "delete", "clear", "write", "write_snapshot", "write_population_snapshot",
                      "commit_population_snapshot", "set_context_store", "set_snapshot_store",
                      "__setitem__", "__delitem__"]
    ensures IsFenced([], name) && IsFenced(["context_store"], name) && IsFenced(["snapshot_store"], name)
  {
  }

  // ---- Steps -----------------------------------------------------------------------------

  /** A call in progress: what is left of its method, and when each run was found live. */
  datatype Call = Call(path: seq<string>, name: string, run: nat, rest: Method, passed: map<nat, nat>)

  /** The run controls, the handle in the context of each run, the calls in progress and the writes made. */
  datatype State = State(controls: seq<Control>, handles: seq<Handle>, calls: map<nat, Call>, landed: seq<nat>)

  datatype Step =
    | Nest(parent: Option<nat>)
    | CancelRun(control: nat)
    | CloseRun(control: nat)
    | Begin(call: nat, run: nat, path: seq<string>, name: string)
    | Check(call: nat)
    | Land(call: nat)

  ghost predicate Enabled(s: State, step: Step) {
    && ParentsFirst(s.controls) && |s.handles| == |s.controls|
    && match step
       case Nest(parent) => parent.Some? ==> parent.value < |s.controls|
       case CancelRun(c) => c < |s.controls|
       case CloseRun(c) => c < |s.controls|
       case Begin(call, run, _, _) => call !in s.calls && run < |s.controls|
       case Check(call) => call in s.calls && s.calls[call].rest.FencedCall?
       case Land(call) => call in s.calls && s.calls[call].rest.Direct?
  }

  /** Entering a slot: a control under the parent's, and the parent's handle wrapped once more. */
  function Entered(s: State, parent: Option<nat>): State
    requires |s.handles| == |s.controls| && (parent.Some? ==> parent.value < |s.controls|)
  {
    var outer := if parent.Some? then s.handles[parent.value] else Raw;
    s.(controls := s.controls + [Control(parent, false, true)], handles := s.handles + [Fenced(outer, |s.controls|)])
  }

  /** The step taken at time `now`; a check that fails raises and ends its call. */
  ghost function Next(s: State, step: Step, now: nat): State
    requires Enabled(s, step)
  {
    match step
    case Nest(parent) => Entered(s, parent)
    case CancelRun(c) => s.(controls := s.controls[c := s.controls[c].(event := true)])
    case CloseRun(c) => s.(controls := s.controls[c := s.controls[c].(active := false)])
    case Begin(call, run, path, name) =>
      var rest := GetMethod(Follow(s.handles[run], path), name);
      s.(calls := s.calls[call := Call(path, name, run, rest, map[])])
    case Check(call) =>
      var c := s.calls[call];
      if Writable(s.controls, c.rest.control) then
        s.(calls := s.calls[call := c.(rest := c.rest.inner, passed := c.passed[c.rest.control := now])])
      else s.(calls := s.calls - {call})
    case Land(call) => s.(calls := s.calls - {call}, landed := s.landed + [call])
  }

  ghost predicate IsRun(trace: seq<State>, steps: seq<Step>) {
    && |trace| == |steps| + 1
    && trace[0] == State([], [], map[], [])
    && forall i | 0 <= i < |steps| :: Enabled(trace[i], steps[i]) && trace[i + 1] == Next(trace[i], steps[i], i)
  }

  // ---- Cancelling and closing are one-way ------------------------------------------------

  /** `after` has the controls of `before`, perhaps further cancelled or closed, and perhaps more. */
  ghost predicate OnlyEnds(before: seq<Control>, after: seq<Control>) {
    && |before| <= |after|
    && forall c | 0 <= c < |before| ::
         && after[c].parent == before[c].parent
         && (before[c].event ==> after[c].event)
         && (after[c].active ==> before[c].active)
  }

  lemma {:induction false} EndedStaysEnded(before: seq<Control>, after: seq<Control>, c: nat)
    requires ParentsFirst(before) && ParentsFirst(after) && OnlyEnds(before, after) && c < |before|
    ensures IsSet(before, c) ==> IsSet(after, c)
    ensures !Writable(before, c) ==> !Writable(after, c)
    ensures Enclosing(after, c) == Enclosing(before, c)
    decreases c
  {
    if before[c].parent.Some? {
      EndedStaysEnded(before, after, before[c].parent.value);
    }
  }

  lemma {:induction false} ControlsOnlyEnd(trace: seq<State>, steps: seq<Step>, m: nat, n: nat)
    requires IsRun(trace, steps) && m <= n < |trace|
    ensures ParentsFirst(trace[n].controls)
    ensures OnlyEnds(trace[m].controls, trace[n].controls)
    decreases n
  {
    if n > 0 {
      ControlsOnlyEnd(trace, steps, if m < n then m else n - 1, n - 1);
      assert Enabled(trace[n - 1], steps[n - 1]) && trace[n - 1 + 1] == Next(trace[n - 1], steps[n - 1], n - 1);
    }
  }

  // ---- Handles are wrapped for all enclosing runs ----------------------------------------

  lemma {:induction false} EnclosingDescends(cs: seq<Control>, c: nat)
    requires ParentsFirst(cs) && c < |cs|
    ensures forall i, j | 0 <= i < j < |Enclosing(cs, c)| :: Enclosing(cs, c)[i] > Enclosing(cs, c)[j]
    decreases c
  {
    if cs[c].parent.Some? {
      EnclosingDescends(cs, cs[c].parent.value);
    }
  }

  /** In every run the handle of a slot is wrapped for its own run and each enclosing one, innermost first. */
  lemma {:induction false} HandlesWrapEnclosingRuns(trace: seq<State>, steps: seq<Step>, n: nat, c: nat)
    requires IsRun(trace, steps) && n < |trace| && c < |trace[n].controls|
    ensures ParentsFirst(trace[n].controls) && |trace[n].handles| == |trace[n].controls|
    ensures Wrappers(trace[n].handles[c]) == Enclosing(trace[n].controls, c)
    decreases n
  {
    var s, step := trace[n - 1], steps[n - 1];
    assert Enabled(s, step) && trace[n - 1 + 1] == Next(s, step, n - 1);
    ControlsOnlyEnd(trace, steps, n - 1, n);
    if c < |s.controls| {
      HandlesWrapEnclosingRuns(trace, steps, n - 1, c);
      EndedStaysEnded(s.controls, trace[n].controls, c);
    } else if step.parent.Some? {
      HandlesWrapEnclosingRuns(trace, steps, n - 1, step.parent.value);
      EndedStaysEnded(s.controls, trace[n].controls, step.parent.value);
    }
  }

  /** A call through the handle of a run checks exactly the enclosing runs if it is fenced, else nothing. */
  lemma CallsCheckEnclosingRuns(trace: seq<State>, steps: seq<Step>, b: nat)
    requires IsRun(trace, steps) && b < |steps| && steps[b].Begin?
    ensures ParentsFirst(trace[b].controls) && steps[b].run < |trace[b].controls|
    ensures steps[b].call in trace[b + 1].calls
    ensures Checks(trace[b + 1].calls[steps[b].call].rest) ==
              if IsFenced(steps[b].path, steps[b].name) then Enclosing(trace[b].controls, steps[b].run) else []
  {
    assert Enabled(trace[b], steps[b]) && trace[b + 1] == Next(trace[b], steps[b], b);
    HandlesWrapEnclosingRuns(trace, steps, b, steps[b].run);
    FencedMethodsCheckEveryWrapper(trace[b].handles[steps[b].run], steps[b].path, steps[b].name);
  }

  // ---- What a landed write proves --------------------------------------------------------

  /** A fenced call lands only if its run and every enclosing one were live when it began. */
  lemma LandedCallsBeganLive(trace: seq<State>, steps: seq<Step>, b: nat, m: nat)
    requires IsRun(trace, steps) && b < m < |steps| && steps[b].Begin? && IsFenced(steps[b].path, steps[b].name)
    requires forall k | b < k < m :: !steps[k].Begin? || steps[k].call != steps[b].call
    requires steps[m] == Land(steps[b].call)
    ensures ParentsFirst(trace[b].controls) && steps[b].run < |trace[b].controls|
    ensures forall c <- Enclosing(trace[b].controls, steps[b].run) :: Writable(trace[b].controls, c)
  {
    var id := steps[b].call;
    assert Enabled(trace[b], steps[b]) && Enabled(trace[m], steps[m]);
    BegunCallStays(trace, steps, b, m);
    LandedWritesPassedEveryFence(trace, steps, m);
    var call := trace[m].calls[id];
    var runs := Enclosing(trace[b].controls, steps[b].run);
    ControlsOnlyEnd(trace, steps, b, m);
    EndedStaysEnded(trace[b].controls, trace[m].controls, steps[b].run);
    forall i | 0 <= i < |runs| ensures Writable(trace[b].controls, runs[i]) {
      assert LiveAtCheck(trace, steps, id, call, runs[i], m);
      assert call.passed[runs[i]] >= b && runs[i] <= steps[b].run;
    }
  }

  /** Until the call ends it is the one that was begun, and it passes fences only after that. */
  lemma {:induction false} BegunCallStays(trace: seq<State>, steps: seq<Step>, b: nat, m: nat)
    requires IsRun(trace, steps) && b < m < |trace| && steps[b].Begin?
    requires forall k | b < k < m :: !steps[k].Begin? || steps[k].call != steps[b].call
    ensures var id := steps[b].call;
            id in trace[m].calls ==>
              && trace[m].calls[id].run == steps[b].run && trace[m].calls[id].path == steps[b].path
              && trace[m].calls[id].name == steps[b].name
              && forall c <- trace[m].calls[id].passed :: trace[m].calls[id].passed[c] >= b
    decreases m
  {
    assert Enabled(trace[m - 1], steps[m - 1]);
    assert trace[m - 1 + 1] == Next(trace[m - 1], steps[m - 1], m - 1);
    if m > b + 1 {
      BegunCallStays(trace, steps, b, m - 1);
    }
  }

  /** Run `c` was live when this call checked it, at the recorded time before `n`. */
  ghost predicate Passed(trace: seq<State>, steps: seq<Step>, id: nat, call: Call, c: nat, n: nat) {
    && c in call.passed
    && var k := call.passed[c];
       k < n <= |steps| && k < |trace| && steps[k] == Check(id)
       && ParentsFirst(trace[k].controls) && Writable(trace[k].controls, c)
  }

  /** The enclosing runs are checked in order: those before position `k` were passed one after the other. */
  ghost predicate CheckedUpTo(trace: seq<State>, steps: seq<Step>, id: nat, call: Call, runs: seq<nat>,
                              k: nat, n: nat) {
    && k <= |runs| && Checks(call.rest) == runs[k..]
    && (forall i | 0 <= i < k :: Passed(trace, steps, id, call, runs[i], n))
    && (forall i, j | 0 <= i < j < k ::
          runs[i] in call.passed && runs[j] in call.passed && call.passed[runs[i]] < call.passed[runs[j]])
  }

  lemma CheckAdvances(trace: seq<State>, steps: seq<Step>, id: nat, before: Call, after: Call,
                      runs: seq<nat>, k: nat, n: nat)
    requires n < |steps| && n < |trace| && steps[n] == Check(id) && ParentsFirst(trace[n].controls)
    requires forall i, j | 0 <= i < j < |runs| :: runs[i] > runs[j]
    requires CheckedUpTo(trace, steps, id, before, runs, k, n)
    requires before.rest.FencedCall? && Writable(trace[n].controls, before.rest.control)
    requires after == before.(rest := before.rest.inner, passed := before.passed[before.rest.control := n])
    ensures CheckedUpTo(trace, steps, id, after, runs, k + 1, n + 1)
  {
    assert before.rest.control == runs[k..][0] == runs[k];
    assert Checks(after.rest) == runs[k..][1..] == runs[k + 1..];
    forall i | 0 <= i < k ensures Passed(trace, steps, id, after, runs[i], n + 1) && after.passed[runs[i]] < n {
      assert Passed(trace, steps, id, before, runs[i], n);
    }
  }

  /** A fenced call begins with all its enclosing runs left to check. */
  lemma BegunCall(trace: seq<State>, steps: seq<Step>, b: nat)
    requires IsRun(trace, steps) && b < |steps| && steps[b].Begin? && IsFenced(steps[b].path, steps[b].name)
    ensures steps[b].call in trace[b + 1].calls
    ensures ParentsFirst(trace[b + 1].controls)
    ensures var call := trace[b + 1].calls[steps[b].call];
            && call.run < |trace[b + 1].controls|
            && CheckedUpTo(trace, steps, steps[b].call, call, Enclosing(trace[b + 1].controls, call.run), 0, b + 1)
  {
    assert Enabled(trace[b], steps[b]) && trace[b + 1] == Next(trace[b], steps[b], b);
    CallsCheckEnclosingRuns(trace, steps, b);
  }

  /** Every fenced call in progress has passed its enclosing runs in order, up to what it has left to check. */
  lemma {:induction false} CallsPassInOrder(trace: seq<State>, steps: seq<Step>, n: nat, id: nat) returns (k: nat)
    requires IsRun(trace, steps) && n < |trace| && id in trace[n].calls
    requires IsFenced(trace[n].calls[id].path, trace[n].calls[id].name)
    ensures ParentsFirst(trace[n].controls) && trace[n].calls[id].run < |trace[n].controls|
    ensures CheckedUpTo(trace, steps, id, trace[n].calls[id],
                          Enclosing(trace[n].controls, trace[n].calls[id].run), k, n)
    decreases n
  {
    var s, step := trace[n - 1], steps[n - 1];
    assert Enabled(s, step) && trace[n - 1 + 1] == Next(s, step, n - 1);
    ControlsOnlyEnd(trace, steps, n - 1, n);
    if step.Begin? && step.call == id {
      BegunCall(trace, steps, n - 1);
      k := 0;
    } else {
      k := CallsPassInOrder(trace, steps, n - 1, id);
      var run := s.calls[id].run;
      EndedStaysEnded(s.controls, trace[n].controls, run);
      if step == Check(id) {
        EnclosingDescends(s.controls, run);
        CheckAdvances(trace, steps, id, s.calls[id], trace[n].calls[id], Enclosing(s.controls, run), k, n - 1);
        k := k + 1;
      } else {
        StaysChecked(trace, steps, id, s.calls[id], Enclosing(s.controls, run), k, n - 1);
      }
    }
  }

  lemma StaysChecked(trace: seq<State>, steps: seq<Step>, id: nat, call: Call, runs: seq<nat>, k: nat, n: nat)
    requires CheckedUpTo(trace, steps, id, call, runs, k, n) && n < |steps|
    ensures CheckedUpTo(trace, steps, id, call, runs, k, n + 1)
  {
    forall i | 0 <= i < k ensures Passed(trace, steps, id, call, runs[i], n + 1) {
      assert Passed(trace, steps, id, call, runs[i], n);
    }
  }

  /**
   When a fenced call lands, it has checked its own run and each enclosing one, innermost first, and each
   was live at its check; hence a run that has ended by time `t` lets through only calls whose check it
   had passed before.
   */
  lemma LandedWritesPassedEveryFence(trace: seq<State>, steps: seq<Step>, m: nat)
    requires IsRun(trace, steps) && m < |steps| && steps[m].Land?
    requires steps[m].call in trace[m].calls
    requires IsFenced(trace[m].calls[steps[m].call].path, trace[m].calls[steps[m].call].name)
    ensures var call := trace[m].calls[steps[m].call];
            && ParentsFirst(trace[m].controls) && call.run < |trace[m].controls|
            && var runs := Enclosing(trace[m].controls, call.run);
               && (forall i | 0 <= i < |runs| :: LiveAtCheck(trace, steps, steps[m].call, call, runs[i], m))
               && (forall i, j | 0 <= i < j < |runs| ::
                     runs[i] in call.passed && runs[j] in call.passed && call.passed[runs[i]] < call.passed[runs[j]])
  {
    var id := steps[m].call;
    assert Enabled(trace[m], steps[m]);
    var call := trace[m].calls[id];
    var k := CallsPassInOrder(trace, steps, m, id);
    var runs := Enclosing(trace[m].controls, call.run);
    assert |runs[k..]| == 0;
    forall i | 0 <= i < |runs| ensures LiveAtCheck(trace, steps, id, call, runs[i], m) {
      assert Passed(trace, steps, id, call, runs[i], m);
      PassedWhileLive(trace, steps, id, call, runs[i], m);
    }
  }

  /** The call checked run `c` while it was live, before any time at which the run had ended. */
  ghost predicate LiveAtCheck(trace: seq<State>, steps: seq<Step>, id: nat, call: Call, c: nat, m: nat) {
    && Passed(trace, steps, id, call, c, m)
    && forall t: nat | t <= m && t < |trace| && c < |trace[t].controls| ::
         ParentsFirst(trace[t].controls) && (!Writable(trace[t].controls, c) ==> call.passed[c] < t)
  }

  lemma PassedWhileLive(trace: seq<State>, steps: seq<Step>, id: nat, call: Call, c: nat, m: nat)
    requires IsRun(trace, steps) && m < |trace| && Passed(trace, steps, id, call, c, m)
    ensures LiveAtCheck(trace, steps, id, call, c, m)
  {
    var k := call.passed[c];
    forall t: nat | t <= m && c < |trace[t].controls|
      ensures ParentsFirst(trace[t].controls) && (!Writable(trace[t].controls, c) ==> k < t)
    {
      ControlsOnlyEnd(trace, steps, t, t);
      if t <= k {
        ControlsOnlyEnd(trace, steps, t, k);
        EndedStaysEnded(trace[t].controls, trace[k].controls, c);
      }
    }
  }

  /** A call that is not fenced is never checked: it may write after its run was closed. */
  lemma UnfencedCallsWriteLate(path: seq<string>, name: string) returns (trace: seq<State>, steps: seq<Step>)
    requires !IsFenced(path, name)
    ensures IsRun(trace, steps) && trace[|steps|].landed == [0]
    ensures steps == [Nest(None), CloseRun(0), Begin(0, 0, path, name), Land(0)]
  {
    steps := [Nest(None), CloseRun(0), Begin(0, 0, path, name), Land(0)];
    var s0 := State([], [], map[], []);
    var s1 := Next(s0, steps[0], 0);
    var s2 := Next(s1, steps[1], 1);
    assert s2.handles == [Fenced(Raw, 0)];
    FencedMethodsCheckEveryWrapper(s2.handles[0], path, name);
    var s3 := Next(s2, steps[2], 2);
    assert s3.calls[0].rest.Direct?;
    trace := [s0, s1, s2, s3, Next(s3, steps[3], 3)];
  }

  /** Checking and writing are two steps: a write whose check passed lands even after its run closed. */
  lemma CheckedWriteLandsLate(path: seq<string>, name: string) returns (trace: seq<State>, steps: seq<Step>)
    requires IsFenced(path, name)
    ensures IsRun(trace, steps) && trace[|steps|].landed == [0]
    ensures steps == [Nest(None), Begin(0, 0, path, name), Check(0), CloseRun(0), Land(0)]
  {
    steps := [Nest(None), Begin(0, 0, path, name), Check(0), CloseRun(0), Land(0)];
    var s0 := State([], [], map[], []);
    var s1 := Next(s0, steps[0], 0);
    var s2 := Next(s1, steps[1], 1);
    assert s1.handles == [Fenced(Raw, 0)];
    FencedMethodsCheckEveryWrapper(s1.handles[0], path, name);
    OneCheck(s2.calls[0].rest, 0);
    var s3 := Next(s2, steps[2], 2);
    assert s3.calls[0].rest == Direct;
    assert s3.controls[0].active && !s3.controls[0].event;
    var s4 := Next(s3, steps[3], 3);
    trace := [s0, s1, s2, s3, s4, Next(s4, steps[4], 4)];
  }

  lemma OneCheck(m: Method, control: nat)
    requires Checks(m) == [control]
    ensures m == FencedCall(control, Direct)
  {
    assert m.FencedCall? && Checks(m) == [m.control] + Checks(m.inner);
    assert |Checks(m.inner)| == 0;
    assert m.control == Checks(m)[0];
  }
}
