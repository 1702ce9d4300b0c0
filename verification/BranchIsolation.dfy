/**
 Branches of one slot mutating their inputs step by step, in any interleaving.  The input is an object
 in a heap: a shell that refers to a nested mutable part.  A branch takes its input when it starts:
 a deep copy, a shallow copy that still refers to the nested part of the input, or the input itself.
 */
module BranchIsolation {
  import opened Outcomes

  datatype Copy = Deep | Shallow | Shared

  /**
   How a branch obtains its input: `deepcopy` if it works, else the object's own `copy` if that works,
   in strict mode too; else strict mode refuses and the other mode passes the input itself.
   */
  function CopyInput(deepcopies: bool, copies: bool, strict: bool): Option<Copy> {
    if deepcopies then Some(Deep)
    else if copies then Some(Shallow)
    else if strict then None
    else Some(Shared)
  }

  /** Strict mode never shares the input; the other mode never refuses it; a deep copy is preferred in both. */
  lemma CopyIsChosen(deepcopies: bool, copies: bool, strict: bool)
    ensures CopyInput(deepcopies, copies, strict) == Some(Deep) <==> deepcopies
    ensures CopyInput(deepcopies, copies, strict).None? <==> strict && !deepcopies && !copies
    ensures CopyInput(deepcopies, copies, strict) == Some(Shared) <==> !strict && !deepcopies && !copies
  {
  }

  type Ref = nat

  datatype Cell<S, N> = Shell(content: S, nested: Ref) | Part(part: N)

  /** What a branch sees of its input object. */
  datatype Contents<S, N> = Contents(shell: S, nested: N)

  /** The mutations that a branch applies to its input, in order. */
  type Program<!S, !N> = seq<Contents<S, N> -> Contents<S, N>>

  /** The heap, the input object that each started branch works on, and how many steps each has taken. */
  datatype State<S, N> = State(heap: map<Ref, Cell<S, N>>, roots: map<nat, Ref>, next: Ref, taken: seq<nat>)

  const INPUT: Ref := 0

  const INPUT_PART: Ref := 1

  function Initial<S, N>(input: Contents<S, N>, n: nat): State<S, N> {
    State(map[INPUT := Shell(input.shell, INPUT_PART), INPUT_PART := Part(input.nested)], map[], 2, seq(n, _ => 0))
  }

  predicate IsObject<S, N>(heap: map<Ref, Cell<S, N>>, r: Ref) {
    r in heap && heap[r].Shell? && heap[r].nested in heap && heap[heap[r].nested].Part?
  }

  function Read<S, N>(heap: map<Ref, Cell<S, N>>, r: Ref): Contents<S, N>
    requires IsObject(heap, r)
  {
    Contents(heap[r].content, heap[heap[r].nested].part)
  }

  /** Mutate the shell and the nested part in place. */
  function Write<S, N>(heap: map<Ref, Cell<S, N>>, r: Ref, c: Contents<S, N>): map<Ref, Cell<S, N>>
    requires IsObject(heap, r)
  {
    heap[r := heap[r].(content := c.shell)][heap[r].nested := Part(c.nested)]
  }

  predicate Enabled<S, N>(programs: seq<Program<S, N>>, s: State<S, N>, i: nat) {
    && i < |s.taken| == |programs| && s.taken[i] <= |programs[i]|
    && IsObject(s.heap, INPUT)
    && (s.taken[i] > 0 ==> i in s.roots && IsObject(s.heap, s.roots[i]))
  }

  /** A branch starts with its input. */
  function Take<S, N>(copy: Copy, s: State<S, N>, i: nat): State<S, N>
    requires IsObject(s.heap, INPUT)
  {
    var c := Read(s.heap, INPUT);
    match copy
    case Deep =>
      s.(heap := s.heap[s.next := Shell(c.shell, s.next + 1)][s.next + 1 := Part(c.nested)],
         roots := s.roots[i := s.next], next := s.next + 2)
    case Shallow =>
      s.(heap := s.heap[s.next := Shell(c.shell, s.heap[INPUT].nested)],
         roots := s.roots[i := s.next], next := s.next + 1)
    case Shared => s.(roots := s.roots[i := INPUT])
  }

  /** Branch `i` takes its input, or applies its next mutation in place. */
  function Next<S, N>(programs: seq<Program<S, N>>, copy: Copy, s: State<S, N>, i: nat): State<S, N>
    requires Enabled(programs, s, i)
  {
    var t := s.(taken := s.taken[i := s.taken[i] + 1]);
    if s.taken[i] == 0 then Take(copy, t, i)
    else t.(heap := Write(s.heap, s.roots[i], programs[i][s.taken[i] - 1](Read(s.heap, s.roots[i]))))
  }

  /** What the program makes of the input when nobody else touches it. */
  function Apply<S, N>(program: Program<S, N>, c: Contents<S, N>): Contents<S, N> {
    if program == [] then c else program[|program| - 1](Apply(program[..|program| - 1], c))
  }

  /** The states passed through when the branches take turns in the order of `schedule`. */
  ghost predicate IsRun<S, N>(programs: seq<Program<S, N>>, copy: Copy, input: Contents<S, N>, schedule: seq<nat>,
                              trace: seq<State<S, N>>)
  {
    && |trace| == |schedule| + 1
    && trace[0] == Initial(input, |programs|)
    && forall k | 0 <= k < |schedule| ::
         Enabled(programs, trace[k], schedule[k]) && trace[k + 1] == Next(programs, copy, trace[k], schedule[k])
  }

  /** No program mutates what its branches share: nothing, the nested part, or everything. */
  ghost predicate Harmless<S(!new), N(!new)>(copy: Copy, programs: seq<Program<S, N>>) {
    forall i, k, c: Contents<S, N> | 0 <= i < |programs| && 0 <= k < |programs[i]| ::
      && (copy.Shallow? ==> programs[i][k](c).nested == c.nested)
      && (copy.Shared? ==> programs[i][k](c) == c)
  }

  /** Branch `i` sees what its first mutations made of the input. */
  ghost predicate SeesOwn<S, N>(programs: seq<Program<S, N>>, input: Contents<S, N>, s: State<S, N>, i: nat)
    requires i < |programs| == |s.taken|
  {
    && s.taken[i] <= |programs[i]| + 1
    && (s.taken[i] == 0 <==> i !in s.roots)
    && (i in s.roots ==>
          IsObject(s.heap, s.roots[i])
          && Read(s.heap, s.roots[i]) == Apply(programs[i][..s.taken[i] - 1], input))
  }

  /** The cells of branch `i` are its own, as far as the copy provides. */
  ghost predicate OwnsCells<S, N>(copy: Copy, s: State<S, N>, i: nat) {
    i in s.roots && IsObject(s.heap, s.roots[i]) ==>
      match copy
      case Deep =>
        var r := s.roots[i];
        2 <= r < s.next && 2 <= s.heap[r].nested < s.next && r % 2 == 0 && s.heap[r].nested == r + 1
      case Shallow => 2 <= s.roots[i] < s.next && s.heap[s.roots[i]].nested == INPUT_PART
      case Shared => s.roots[i] == INPUT
  }

  ghost predicate Isolated<S, N>(programs: seq<Program<S, N>>, copy: Copy, input: Contents<S, N>, s: State<S, N>) {
    && |s.taken| == |programs| && s.next >= 2 && (copy.Deep? ==> s.next % 2 == 0)
    && IsObject(s.heap, INPUT) && s.heap[INPUT].nested == INPUT_PART && Read(s.heap, INPUT) == input
    && (forall r <- s.heap :: r < s.next)
    && (forall i <- s.roots :: i < |programs|)
    && (forall i | 0 <= i < |programs| :: SeesOwn(programs, input, s, i) && OwnsCells(copy, s, i))
    && (!copy.Shared? ==> forall i, j | i in s.roots && j in s.roots && i != j :: s.roots[i] != s.roots[j])
  }

  lemma ApplyNext<S, N>(program: Program<S, N>, k: nat, c: Contents<S, N>)
    requires k < |program|
    ensures Apply(program[..k + 1], c) == program[k](Apply(program[..k], c))
  {
    assert program[..k + 1][..k] == program[..k];
  }

  lemma TakeKeepsIsolation<S, N>(
    programs: seq<Program<S, N>>, copy: Copy, input: Contents<S, N>, s: State<S, N>, i: nat)
    requires Isolated(programs, copy, input, s) && Enabled(programs, s, i) && s.taken[i] == 0
    ensures Isolated(programs, copy, input, Next(programs, copy, s, i))
  {
    var t := Next(programs, copy, s, i);
    assert programs[i][..0] == [];
    forall j <- s.roots ensures !copy.Shared? ==> s.roots[j] < s.next {
      assert SeesOwn(programs, input, s, j) && OwnsCells(copy, s, j);
    }
    forall j | 0 <= j < |programs| && j != i ensures SeesOwn(programs, input, t, j) && OwnsCells(copy, t, j) {
      assert SeesOwn(programs, input, s, j) && OwnsCells(copy, s, j);
    }
  }

  lemma StepKeepsIsolation<S(!new), N(!new)>(programs: seq<Program<S, N>>, copy: Copy, input: Contents<S, N>,
                                             s: State<S, N>, i: nat)
    requires Isolated(programs, copy, input, s) && Enabled(programs, s, i) && s.taken[i] > 0
    requires Harmless(copy, programs)
    ensures Isolated(programs, copy, input, Next(programs, copy, s, i))
  {
    var t := Next(programs, copy, s, i);
    assert SeesOwn(programs, input, s, i) && OwnsCells(copy, s, i);
    ApplyNext(programs[i], s.taken[i] - 1, input);
    forall j | 0 <= j < |programs| && j != i ensures SeesOwn(programs, input, t, j) && OwnsCells(copy, t, j) {
      assert SeesOwn(programs, input, s, j) && OwnsCells(copy, s, j);
    }
  }

  lemma {:induction false} RunKeepsIsolation<S(!new), N(!new)>(
    programs: seq<Program<S, N>>, copy: Copy, input: Contents<S, N>, schedule: seq<nat>,
    trace: seq<State<S, N>>, n: nat)
    requires IsRun(programs, copy, input, schedule, trace) && n < |trace| && Harmless(copy, programs)
    ensures Isolated(programs, copy, input, trace[n])
  {
    if n > 0 {
      RunKeepsIsolation(programs, copy, input, schedule, trace, n - 1);
      var s, i := trace[n - 1], schedule[n - 1];
      assert Enabled(programs, s, i) && trace[n - 1 + 1] == Next(programs, copy, s, i);
      if s.taken[i] == 0 {
        TakeKeepsIsolation(programs, copy, input, s, i);
      } else {
        StepKeepsIsolation(programs, copy, input, s, i);
      }
    }
  }

  ghost predicate Finished<S, N>(programs: seq<Program<S, N>>, s: State<S, N>, i: nat) {
    && i < |programs| == |s.taken| && s.taken[i] == |programs[i]| + 1
    && i in s.roots && IsObject(s.heap, s.roots[i])
  }

  /** A branch can always go on until it is finished. */
  lemma OnlyFinishedBranchesStop<S(!new), N(!new)>(
    programs: seq<Program<S, N>>, copy: Copy, input: Contents<S, N>, schedule: seq<nat>,
    trace: seq<State<S, N>>, n: nat, i: nat)
    requires IsRun(programs, copy, input, schedule, trace) && n < |trace| && Harmless(copy, programs)
    requires i < |programs|
    ensures Enabled(programs, trace[n], i) <==> !Finished(programs, trace[n], i)
  {
    RunKeepsIsolation(programs, copy, input, schedule, trace, n);
    assert SeesOwn(programs, input, trace[n], i);
  }

  /** A branch alone owns everything that it can reach, whatever the copy. */
  ghost predicate Alone<S, N>(program: Program<S, N>, input: Contents<S, N>, s: State<S, N>) {
    && |s.taken| == 1 && s.taken[0] <= |program| + 1 && s.next >= 2
    && IsObject(s.heap, INPUT) && (s.taken[0] == 0 ==> Read(s.heap, INPUT) == input)
    && (s.taken[0] > 0 ==>
          && 0 in s.roots && IsObject(s.heap, s.roots[0])
          && Read(s.heap, s.roots[0]) == Apply(program[..s.taken[0] - 1], input))
    && forall r <- s.heap :: r < s.next
  }

  lemma {:induction false} LoneBranchIsSequential<S, N>(
    program: Program<S, N>, copy: Copy, input: Contents<S, N>, schedule: seq<nat>, trace: seq<State<S, N>>, n: nat)
    requires IsRun([program], copy, input, schedule, trace) && n < |trace|
    ensures Alone(program, input, trace[n])
  {
    if n > 0 {
      LoneBranchIsSequential(program, copy, input, schedule, trace, n - 1);
      var s := trace[n - 1];
      assert Enabled([program], s, schedule[n - 1]) && trace[n - 1 + 1] == Next([program], copy, s, schedule[n - 1]);
      assert program[..0] == [];
      if s.taken[0] > 0 {
        ApplyNext(program, s.taken[0] - 1, input);
      }
    }
  }

  /**
   In every interleaving a finished branch sees exactly what its program alone makes of the input, when
   the copy is deep, or there is one branch only, or no program mutates what the branches share.
   */
  lemma EveryInterleavingIsSequential<S(!new), N(!new)>(
    programs: seq<Program<S, N>>, copy: Copy, input: Contents<S, N>, schedule: seq<nat>, trace: seq<State<S, N>>,
    t: nat, i: nat)
    requires IsRun(programs, copy, input, schedule, trace) && t < |trace| && Finished(programs, trace[t], i)
    requires copy.Deep? || |programs| == 1 || Harmless(copy, programs)
    ensures Read(trace[t].heap, trace[t].roots[i]) == Apply(programs[i], input)
  {
    assert programs[i][..|programs[i]|] == programs[i];
    if |programs| == 1 {
      assert programs == [programs[0]];
      LoneBranchIsSequential(programs[0], copy, input, schedule, trace, t);
    } else {
      RunKeepsIsolation(programs, copy, input, schedule, trace, t);
      assert SeesOwn(programs, input, trace[t], i);
    }
  }

  // ---- Two branches and a shared part ----------------------------------------------------

  type Log = Contents<seq<nat>, seq<nat>>

  /** Append to the nested list. */
  function Append(i: nat, c: Log): Log {
    c.(nested := c.nested + [i])
  }

  function Appending(n: nat): (programs: seq<Program<seq<nat>, seq<nat>>>)
    ensures |programs| == n
  {
    seq(n, i requires 0 <= i < n => [(c: Log) => Append(i, c)])
  }

  /** The first branch finishes before the second one starts. */
  ghost predicate Mixes(copy: Copy, n: nat, schedule: seq<nat>, trace: seq<State<seq<nat>, seq<nat>>>) {
    && IsRun(Appending(n), copy, Contents([], []), schedule, trace)
    && Finished(Appending(n), trace[|schedule|], 1)
    && Read(trace[|schedule|].heap, trace[|schedule|].roots[1]) != Apply(Appending(n)[1], Contents([], []))
  }

  /** With a shallow copy or none, two branches that append to the nested list already see each other. */
  lemma SharedPartMixesBranches(copy: Copy, n: nat)
      returns (schedule: seq<nat>, trace: seq<State<seq<nat>, seq<nat>>>)
    requires n >= 2 && !copy.Deep?
    ensures Mixes(copy, n, schedule, trace)
  {
    var programs := Appending(n);
    schedule := [0, 0, 1, 1];
    var s0 := Initial(Contents([], []), n);
    var s1 := Next(programs, copy, s0, 0);
    var s2 := Next(programs, copy, s1, 0);
    var s3 := Next(programs, copy, s2, 1);
    var s4 := Next(programs, copy, s3, 1);
    trace := [s0, s1, s2, s3, s4];
    var empty: Log := Contents([], []);
    assert programs[1][..0] == [];
    assert Apply(programs[1][..0], empty) == empty;
    var append: Log -> Log := programs[1][0];
    assert Apply(programs[1], empty) == append(empty) == Append(1, empty);
    assert [] + [1] == [1];
    assert Read(s2.heap, s2.roots[0]).nested == [0];
    assert Read(s4.heap, s4.roots[1]).nested == [0, 1];
  }

  /** Strict mode does not prevent this: an object that only copies itself shallowly is accepted. */
  lemma StrictModeAcceptsShallowCopies(n: nat) returns (schedule: seq<nat>, trace: seq<State<seq<nat>, seq<nat>>>)
    requires n >= 2
    ensures CopyInput(false, true, true) == Some(Shallow) && Mixes(Shallow, n, schedule, trace)
  {
    schedule, trace := SharedPartMixesBranches(Shallow, n);
  }

  /** Branches of this number are sequential in all interleavings of all programs on lists. */
  ghost predicate AlwaysSequential(copy: Copy, n: nat) {
    forall programs: seq<Program<seq<nat>, seq<nat>>>, input: Log, schedule: seq<nat>,
           trace: seq<State<seq<nat>, seq<nat>>>, i: nat ::
      IsRun(programs, copy, input, schedule, trace) && |programs| == n && Finished(programs, trace[|schedule|], i) ==>
        Read(trace[|schedule|].heap, trace[|schedule|].roots[i]) == Apply(programs[i], input)
  }

  /** Isolation of arbitrary branches needs a deep copy as soon as there are two of them. */
  lemma IsolationIff(copy: Copy, n: nat)
    requires n > 0
    ensures AlwaysSequential(copy, n) <==> copy.Deep? || n == 1
  {
    if copy.Deep? || n == 1 {
      forall programs: seq<Program<seq<nat>, seq<nat>>>, input: Log, schedule: seq<nat>,
             trace: seq<State<seq<nat>, seq<nat>>>, i: nat
        | IsRun(programs, copy, input, schedule, trace) && |programs| == n && Finished(programs, trace[|schedule|], i)
        ensures Read(trace[|schedule|].heap, trace[|schedule|].roots[i]) == Apply(programs[i], input)
      {
        EveryInterleavingIsSequential(programs, copy, input, schedule, trace, |schedule|, i);
      }
    } else {
      var schedule, trace := SharedPartMixesBranches(copy, n);
      assert IsRun(Appending(n), copy, Contents([], []), schedule, trace);
    }
  }
}
