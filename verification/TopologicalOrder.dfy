/**
 The wave-by-wave topological sort of a stage, for any type of case name, and what its result is:
 the cases sorted by the length of their longest dependency chain, then by declaration.
 */
module TopologicalOrder {
  import opened Outcomes
  import opened Graphs

  ghost predicate Distinct<T(!new)>(s: seq<T>) {
    forall i, j | 0 <= i < j < |s| :: s[i] != s[j]
  }

  function Elements<T(==)>(s: seq<T>): set<T> {
    set x | x in s
  }

  /** The elements of `s` that are in `keep`, in the order of `s`. */
  function Members<T(==,!new)>(s: seq<T>, keep: set<T>): (r: seq<T>)
    ensures forall x :: x in r <==> x in s && x in keep
  {
    if s == [] then [] else (if s[0] in keep then [s[0]] else []) + Members(s[1..], keep)
  }

  /** The first position of `x` in `s`, or the length of `s`. */
  function IndexOf<T(==)>(s: seq<T>, x: T): (i: nat)
    ensures x in s ==> i < |s| && s[i] == x
  {
    if s == [] || s[0] == x then 0 else 1 + IndexOf(s[1..], x)
  }

  // ---- The dependency graph --------------------------------------------------------------

  type Dependencies<T> = map<T, seq<T>>

  /** Dependencies are declared for the cases only and name cases only. */
  predicate StaysInside<T(==,!new)>(cases: seq<T>, dependencies: Dependencies<T>) {
    forall c <- cases :: c in dependencies && forall d <- dependencies[c] :: d in cases
  }

  function GraphOf<T(==,!new)>(cases: seq<T>, dependencies: Dependencies<T>): (g: Graph<T>)
    requires StaysInside(cases, dependencies)
    ensures Closed(g) && g.Keys == Elements(cases)
  {
    map c | c in cases :: Elements(dependencies[c])
  }

  // Cases from which a chain of `k` dependencies starts, and those whose longest chain has length `k`.
  ghost function Deep<T(!new)>(g: Graph<T>, k: nat): set<T> {
    set c | c in g && HasChain(g, c, k)
  }

  ghost function Wave<T(!new)>(g: Graph<T>, k: nat): set<T> {
    Deep(g, k) - Deep(g, k + 1)
  }

  ghost function Waves<T(!new)>(g: Graph<T>, cases: seq<T>, k: nat): seq<T> {
    if k == 0 then [] else Waves(g, cases, k - 1) + Members(cases, Wave(g, k - 1))
  }

  ghost function Cyclic<T(!new)>(g: Graph<T>): set<T> {
    set c | c in g && ReachesCycle(g, c)
  }

  // ---- The order as a sorted permutation -------------------------------------------------

  ghost function RankOf<T(!new)>(g: Graph<T>, c: T): nat {
    if Closed(g) && c in g && !ReachesCycle(g, c) then Rank(g, c) else 0
  }

  /** Shorter longest dependency chain first, then earlier declaration. */
  ghost predicate ComesBefore<T(!new)>(g: Graph<T>, cases: seq<T>, a: T, b: T) {
    RankOf(g, a) < RankOf(g, b)
    || (RankOf(g, a) == RankOf(g, b) && IndexOf(cases, a) < IndexOf(cases, b))
  }

  ghost predicate IsSorted<T(!new)>(g: Graph<T>, cases: seq<T>, s: seq<T>) {
    forall i, j | 0 <= i < j < |s| :: ComesBefore(g, cases, s[i], s[j])
  }

  /** The cases, each once, sorted by longest dependency chain and then by declaration. */
  ghost predicate IsPlanOrder<T(!new)>(g: Graph<T>, cases: seq<T>, order: seq<T>) {
    Elements(order) == Elements(cases) && IsSorted(g, cases, order)
  }

  lemma SortedIsDistinct<T(!new)>(g: Graph<T>, cases: seq<T>, s: seq<T>)
    requires IsSorted(g, cases, s)
    ensures Distinct(s)
  {
    forall i, j | 0 <= i < j < |s| ensures s[i] != s[j] {
      assert ComesBefore(g, cases, s[i], s[j]);
    }
  }

  lemma SortedReflectsOrder<T(!new)>(g: Graph<T>, cases: seq<T>, s: seq<T>, i: nat, j: nat)
    requires IsSorted(g, cases, s) && i < |s| && j < |s| && ComesBefore(g, cases, s[i], s[j])
    ensures i < j
  {}

  lemma FirstIsLeast<T(!new)>(g: Graph<T>, cases: seq<T>, s: seq<T>, x: T)
    requires IsSorted(g, cases, s) && x in s
    ensures x == s[0] || ComesBefore(g, cases, s[0], x)
  {
    var i :| 0 <= i < |s| && s[i] == x;
    if i > 0 {
      assert ComesBefore(g, cases, s[0], s[i]);
    }
  }

  lemma ElementsAreEmptyIff<T>(s: seq<T>)
    ensures Elements(s) == {} <==> s == []
  {
    if s != [] {
      assert s[0] in Elements(s);
    }
  }

  /** A plan order lists every case exactly once, each after all its dependencies. */
  lemma PlanOrderRespectsDependencies<T(!new)>(g: Graph<T>, cases: seq<T>, order: seq<T>, i: nat, d: T)
    requires Closed(g) && g.Keys == Elements(cases) && Cyclic(g) == {} && Distinct(cases)
    requires IsPlanOrder(g, cases, order)
    requires i < |order| && order[i] in g && d in g[order[i]]
    ensures Distinct(order) && |order| == |cases|
    ensures exists j :: 0 <= j < i && order[j] == d
  {
    SortedIsDistinct(g, cases, order);
    DistinctLength(order);
    DistinctLength(cases);
    assert order[i] !in Cyclic(g);
    SuccessorsRankLower(g, order[i], d);
    assert d in Elements(order);
    var j :| 0 <= j < |order| && order[j] == d;
    assert ComesBefore(g, cases, d, order[i]);
    SortedReflectsOrder(g, cases, order, j, i);
  }

  lemma {:induction false} DistinctLength<T(!new)>(s: seq<T>)
    requires Distinct(s)
    ensures |s| == |Elements(s)|
  {
    if s != [] {
      DistinctLength(s[1..]);
      assert Elements(s) == {s[0]} + Elements(s[1..]);
    }
  }

  /** The graph alone determines the plan order: the order inside dependency tuples is irrelevant. */
  lemma {:induction false} PlanOrderIsUnique<T(!new)>(g: Graph<T>, cases: seq<T>, a: seq<T>, b: seq<T>)
    requires Elements(a) == Elements(b) && IsSorted(g, cases, a) && IsSorted(g, cases, b)
    ensures a == b
  {
    ElementsAreEmptyIff(a);
    ElementsAreEmptyIff(b);
    if a != [] {
      assert a[0] in Elements(a) && b[0] in Elements(b);
      FirstIsLeast(g, cases, a, b[0]);
      FirstIsLeast(g, cases, b, a[0]);
      SortedTail(g, cases, a);
      SortedTail(g, cases, b);
      PlanOrderIsUnique(g, cases, a[1..], b[1..]);
    }
  }

  lemma SortedTail<T(!new)>(g: Graph<T>, cases: seq<T>, s: seq<T>)
    requires s != [] && IsSorted(g, cases, s)
    ensures IsSorted(g, cases, s[1..]) && Elements(s[1..]) == Elements(s) - {s[0]}
  {
    SortedIsDistinct(g, cases, s);
    assert s == [s[0]] + s[1..];
    forall i, j | 0 <= i < j < |s[1..]| ensures ComesBefore(g, cases, s[1..][i], s[1..][j]) {
      assert ComesBefore(g, cases, s[i + 1], s[j + 1]);
    }
  }

  // ---- The waves are sorted --------------------------------------------------------------

  ghost predicate Increasing<T(!new)>(index: T -> nat, s: seq<T>) {
    forall i, j | 0 <= i < j < |s| :: index(s[i]) < index(s[j])
  }

  lemma {:induction false} MembersAreIncreasing<T(!new)>(index: T -> nat, s: seq<T>, keep: set<T>)
    requires Increasing(index, s)
    ensures Increasing(index, Members(s, keep))
  {
    if s != [] {
      MembersAreIncreasing(index, s[1..], keep);
      forall x <- Members(s[1..], keep) ensures index(s[0]) < index(x) {
        assert x in s[1..];
      }
    }
  }

  lemma {:induction false} IndexOfDistinct<T(!new)>(s: seq<T>, i: nat)
    requires Distinct(s) && i < |s|
    ensures IndexOf(s, s[i]) == i
  {
    if i > 0 {
      IndexOfDistinct(s[1..], i - 1);
    }
  }

  lemma DeclarationIsIncreasing<T(!new)>(s: seq<T>)
    requires Distinct(s)
    ensures Increasing(c => IndexOf(s, c), s)
  {
    forall i, j | 0 <= i < j < |s| ensures IndexOf(s, s[i]) < IndexOf(s, s[j]) {
      IndexOfDistinct(s, i);
      IndexOfDistinct(s, j);
    }
  }

  lemma {:induction false} WavesAreShallow<T(!new)>(g: Graph<T>, cases: seq<T>, k: nat)
    requires g.Keys == Elements(cases)
    ensures Elements(Waves(g, cases, k)) == Elements(cases) - Deep(g, k)
  {
    if k == 0 {
      assert Deep(g, 0) == Elements(cases);
    } else {
      WavesAreShallow(g, cases, k - 1);
      DeepShrinks(g, k - 1);
      ElementsJoin(Waves(g, cases, k - 1), Members(cases, Wave(g, k - 1)));
      WaveIsListed(g, cases, k - 1);
    }
  }

  lemma WaveIsListed<T(!new)>(g: Graph<T>, cases: seq<T>, k: nat)
    requires g.Keys == Elements(cases)
    ensures Elements(Members(cases, Wave(g, k))) == Wave(g, k)
  {}

  lemma ElementsJoin<T(!new)>(a: seq<T>, b: seq<T>)
    ensures Elements(a + b) == Elements(a) + Elements(b)
  {}

  /** `rank` gives each case the length of its longest dependency chain. */
  ghost predicate IsRank<T(!new)>(g: Graph<T>, rank: T -> nat) {
    forall c: T, n: nat :: c in g ==> (HasChain(g, c, n) <==> n <= rank(c))
  }

  ghost predicate SortedBy<T(!new)>(rank: T -> nat, index: T -> nat, s: seq<T>) {
    forall i, j | 0 <= i < j < |s| ::
      rank(s[i]) < rank(s[j]) || (rank(s[i]) == rank(s[j]) && index(s[i]) < index(s[j]))
  }

  lemma {:induction false} WavesAreSorted<T(!new)>(g: Graph<T>, cases: seq<T>, k: nat, rank: T -> nat, index: T -> nat)
    requires g.Keys == Elements(cases) && Increasing(index, cases) && IsRank(g, rank)
    ensures SortedBy(rank, index, Waves(g, cases, k))
  {
    if k > 0 {
      WavesAreSorted(g, cases, k - 1, rank, index);
      EarlierWavesRankLower(g, cases, k - 1, rank);
      NextWaveHasRank(g, cases, k - 1, rank);
      MembersAreIncreasing(index, cases, Wave(g, k - 1));
      AppendWave(rank, index, Waves(g, cases, k - 1), Members(cases, Wave(g, k - 1)), k - 1);
    }
  }

  lemma EarlierWavesRankLower<T(!new)>(g: Graph<T>, cases: seq<T>, k: nat, rank: T -> nat)
    requires g.Keys == Elements(cases) && IsRank(g, rank)
    ensures forall i | 0 <= i < |Waves(g, cases, k)| :: rank(Waves(g, cases, k)[i]) < k
  {
    WavesAreShallow(g, cases, k);
    forall i | 0 <= i < |Waves(g, cases, k)| ensures rank(Waves(g, cases, k)[i]) < k {
      var x := Waves(g, cases, k)[i];
      assert x in Elements(Waves(g, cases, k));
      assert x in g && !HasChain(g, x, k);
    }
  }

  lemma NextWaveHasRank<T(!new)>(g: Graph<T>, cases: seq<T>, k: nat, rank: T -> nat)
    requires IsRank(g, rank)
    ensures forall i | 0 <= i < |Members(cases, Wave(g, k))| :: rank(Members(cases, Wave(g, k))[i]) == k
  {
    forall i | 0 <= i < |Members(cases, Wave(g, k))| ensures rank(Members(cases, Wave(g, k))[i]) == k {
      var x := Members(cases, Wave(g, k))[i];
      assert x in Members(cases, Wave(g, k));
      assert HasChain(g, x, k) && !HasChain(g, x, k + 1);
    }
  }

  lemma AppendWave<T(!new)>(rank: T -> nat, index: T -> nat, before: seq<T>, wave: seq<T>, k: nat)
    requires SortedBy(rank, index, before) && Increasing(index, wave)
    requires forall i | 0 <= i < |before| :: rank(before[i]) < k
    requires forall i | 0 <= i < |wave| :: rank(wave[i]) == k
    ensures SortedBy(rank, index, before + wave)
  {
  }

  lemma RankOfIsRank<T(!new)>(g: Graph<T>)
    requires Closed(g) && Cyclic(g) == {}
    ensures IsRank(g, c => RankOf(g, c))
  {
    forall c: T, n: nat | c in g ensures HasChain(g, c, n) <==> n <= RankOf(g, c) {
      assert c !in Cyclic(g);
      assert HasChain(g, c, n) <==> n <= Rank(g, c);
    }
  }

  lemma DeepShrinks<T(!new)>(g: Graph<T>, k: nat)
    ensures Deep(g, k + 1) <= Deep(g, k)
  {
    forall c | c in Deep(g, k + 1) ensures c in Deep(g, k) {
      ChainsShorten(g, c, k + 1, k);
    }
  }

  /** Once a wave is empty the remaining cases are exactly those that reach a cycle. */
  lemma StuckIsCyclic<T(!new)>(g: Graph<T>, k: nat)
    requires Closed(g) && Wave(g, k) == {}
    ensures Deep(g, k) == Cyclic(g)
  {
    forall c | c in Deep(g, k) ensures c in Cyclic(g) {
      StuckChainsGrow(g, k, |g| + k, c);
      LongChainReachesCycle(g, c, |g| + k);
    }
    forall c | c in Cyclic(g) ensures c in Deep(g, k) {
      CycleHasEveryChain(g, c, k);
    }
  }

  lemma {:induction false} StuckChainsGrow<T(!new)>(g: Graph<T>, k: nat, n: nat, c: T)
    requires Closed(g) && Wave(g, k) == {} && c in Deep(g, k) && k <= n
    ensures HasChain(g, c, n)
    decreases n
  {
    if n > k {
      assert c in Wave(g, k) || c in Deep(g, k + 1);
      var d :| d in g[c] && HasChain(g, d, k);
      assert d in Deep(g, k);
      StuckChainsGrow(g, k, n - 1, d);
    }
  }

  lemma NoDeepCasesMeansAcyclic<T(!new)>(g: Graph<T>, k: nat)
    requires Closed(g) && Deep(g, k) == {}
    ensures Cyclic(g) == {}
  {
    forall c | c in Cyclic(g) ensures c in Deep(g, k) {
      CycleHasEveryChain(g, c, k);
    }
  }

  // ---- The algorithm ---------------------------------------------------------------------

  ghost predicate RemainingIs<T(!new)>(g: Graph<T>, remaining: Graph<T>, k: nat) {
    && remaining.Keys == Deep(g, k)
    && forall c <- remaining :: remaining[c] == g[c] * Deep(g, k)
  }

  function Free<T(==,!new)>(remaining: Graph<T>): set<T> {
    set c | c in remaining && remaining[c] == {}
  }

  lemma FreeIsWave<T(!new)>(g: Graph<T>, remaining: Graph<T>, k: nat)
    requires Closed(g) && RemainingIs(g, remaining, k)
    ensures Free(remaining) == Wave(g, k)
  {
    forall c | c in remaining
      ensures remaining[c] == {} <==> !HasChain(g, c, k + 1)
    {
      if HasChain(g, c, k + 1) {
        var d :| d in g[c] && HasChain(g, d, k);
        assert d in remaining[c];
      } else if remaining[c] != {} {
        var d :| d in remaining[c];
        assert HasChain(g, c, k + 1);
      }
    }
    DeepShrinks(g, k);
  }

  function WithoutWave<T(==,!new)>(remaining: Graph<T>, ready: set<T>): Graph<T> {
    map c | c in remaining && c !in ready :: remaining[c] - ready
  }

  lemma WithoutWaveRemains<T(!new)>(g: Graph<T>, remaining: Graph<T>, k: nat)
    requires Closed(g) && RemainingIs(g, remaining, k)
    ensures RemainingIs(g, WithoutWave(remaining, Wave(g, k)), k + 1)
  {
    DeepShrinks(g, k);
  }

  /** Move the ready cases to the order and drop them from everybody's open dependencies. */
  method TakeWave<T(==,!new)>(order: seq<T>, remaining: Graph<T>, ready: seq<T>)
    returns (longer: seq<T>, rest: Graph<T>)
    ensures longer == order + ready
    ensures rest == WithoutWave(remaining, Elements(ready))
  {
    longer, rest := order, remaining;
    for i := 0 to |ready|
      invariant longer == order + ready[..i]
      invariant rest == remaining - Elements(ready[..i])
    {
      longer := longer + [ready[i]];
      rest := rest - {ready[i]};
      assert ready[..i + 1] == ready[..i] + [ready[i]];
      assert Elements(ready[..i + 1]) == Elements(ready[..i]) + {ready[i]};
    }
    assert ready[..|ready|] == ready;
    rest := map c | c in rest :: rest[c] - Elements(ready);
  }

  lemma WithoutWaveShrinks<T(!new)>(remaining: Graph<T>, ready: seq<T>)
    requires ready != [] && forall c <- ready :: c in remaining
    ensures WithoutWave(remaining, Elements(ready)).Keys < remaining.Keys
  {
    assert ready[0] in ready;
  }

  /** Either the graph is acyclic and this is its plan order, or these are the cases that reach a cycle. */
  ghost predicate IsDecision<T(!new)>(g: Graph<T>, cases: seq<T>, r: Result<seq<T>, seq<T>>) {
    match r
    case Ok(order) => Cyclic(g) == {} && IsPlanOrder(g, cases, order)
    case Err(members) => Cyclic(g) != {} && members == Members(cases, Cyclic(g)) && members != []
  }

  /**
   The stable topological order.  On success it is the unique plan order of the dependency graph;
   it fails exactly when some case reaches a cycle, and then reports those cases in declaration order.
   */
  method StableTopologicalOrder<T(==,!new)>(cases: seq<T>, dependencies: Dependencies<T>)
    returns (r: Result<seq<T>, seq<T>>)
    requires Distinct(cases) && StaysInside(cases, dependencies)
    ensures IsDecision(GraphOf(cases, dependencies), cases, r)
  {
    ghost var g := GraphOf(cases, dependencies);
    var remaining := map c | c in cases :: Elements(dependencies[c]);
    var order: seq<T> := [];
    ghost var k := 0;
    assert Deep(g, 0) == g.Keys;
    while remaining.Keys != {}
      invariant RemainingIs(g, remaining, k)
      invariant order == Waves(g, cases, k)
      decreases remaining.Keys
    {
      var ready := Members(cases, Free(remaining));
      FreeIsWave(g, remaining, k);
      ReadyListsWave(g, cases, k);
      if ready == [] {
        ReportIsCyclic(g, cases, k);
        return Err(Members(cases, remaining.Keys));
      }
      WithoutWaveRemains(g, remaining, k);
      WithoutWaveShrinks(remaining, ready);
      order, remaining := TakeWave(order, remaining, ready);
      k := k + 1;
    }
    WavesArePlanOrder(g, cases, k);
    r := Ok(order);
  }

  lemma ReadyListsWave<T(!new)>(g: Graph<T>, cases: seq<T>, k: nat)
    requires g.Keys == Elements(cases)
    ensures Elements(Members(cases, Wave(g, k))) == Wave(g, k)
    ensures forall c <- Members(cases, Wave(g, k)) :: c in Deep(g, k) && c in Wave(g, k)
  {}

  lemma SortedByRank<T(!new)>(g: Graph<T>, cases: seq<T>, s: seq<T>)
    requires SortedBy(c => RankOf(g, c), c => IndexOf(cases, c), s)
    ensures IsSorted(g, cases, s)
  {}

  /** No case left: the graph is acyclic and the waves are the plan order. */
  lemma WavesArePlanOrder<T(!new)>(g: Graph<T>, cases: seq<T>, k: nat)
    requires Closed(g) && g.Keys == Elements(cases) && Distinct(cases) && Deep(g, k) == {}
    ensures IsDecision(g, cases, Ok(Waves(g, cases, k)))
  {
    NoDeepCasesMeansAcyclic(g, k);
    WavesAreShallow(g, cases, k);
    RankOfIsRank(g);
    DeclarationIsIncreasing(cases);
    WavesAreSorted(g, cases, k, c => RankOf(g, c), c => IndexOf(cases, c));
    SortedByRank(g, cases, Waves(g, cases, k));
  }

  /** No case ready although some remain: exactly the remaining ones reach a cycle. */
  lemma ReportIsCyclic<T(!new)>(g: Graph<T>, cases: seq<T>, k: nat)
    requires Closed(g) && g.Keys == Elements(cases)
    requires Members(cases, Wave(g, k)) == [] && Deep(g, k) != {}
    ensures IsDecision(g, cases, Err(Members(cases, Deep(g, k))))
  {
    ReadyListsWave(g, cases, k);
    StuckIsCyclic(g, k);
    var c :| c in Cyclic(g);
    var report := Members(cases, Cyclic(g));
    assert c in Elements(cases) && c in report;
    assert exists i :: 0 <= i < |report| && report[i] == c;
  }
}
