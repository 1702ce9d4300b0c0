/**
 Which rows of a proposed batch survive a decision: prefixes, restriction to a row range, and the
 composition of a later decision over the survivors.
 */
module BatchDispositions {
  import opened Outcomes

  datatype Disposition = Disposition(proposed: nat, accepted: seq<nat>, reason: string, reservation: string)

  datatype BatchError = NegativeProposal | NotIncreasing | OutOfRange | BadCount | BadChildRange | CardinalityMismatch

  predicate Increasing(xs: seq<int>) {
    forall i, k | 0 <= i < k < |xs| :: xs[i] < xs[k]
  }

  predicate Within(xs: seq<int>, n: int) {
    forall i | 0 <= i < |xs| :: 0 <= xs[i] < n
  }

  ghost predicate IsDisposition(d: Disposition) {
    Increasing(d.accepted) && Within(d.accepted, d.proposed) && d.reason != ""
  }

  /** The checks of the constructor, in its order. */
  function Construct(proposed: int, accepted: seq<int>, reason: string, reservation: string)
    : (r: Result<Disposition, BatchError>)
    ensures r.Ok? <==> proposed >= 0 && Increasing(accepted) && Within(accepted, proposed)
    ensures r.Ok? ==> IsDisposition(r.value) && r.value.proposed == proposed && r.value.accepted == accepted
    ensures r.Ok? ==> r.value.reservation == reservation && (reason != "" ==> r.value.reason == reason)
  {
    if proposed < 0 then Err(NegativeProposal)
    else if !Increasing(accepted) then Err(NotIncreasing)
    else if !Within(accepted, proposed) then Err(OutOfRange)
    else
      assert forall x <- accepted :: x >= 0;
      var rows: seq<nat> := accepted;
      Ok(Disposition(proposed, rows, if reason == "" then "unspecified" else reason, reservation))
  }

  function UpTo(n: nat): (xs: seq<nat>)
    ensures |xs| == n && forall i | 0 <= i < n :: xs[i] == i
  {
    seq(n, i => i)
  }

  function Prefix(proposed: int, accepted: int, reason: string, reservation: string): Result<Disposition, BatchError> {
    if proposed < 0 then Err(NegativeProposal)
    else if accepted < 0 || accepted > proposed then Err(BadCount)
    else Construct(proposed, UpTo(accepted), reason, reservation)
  }

  /** The rows below `n` that are not accepted, in order. */
  function Rejected(accepted: seq<nat>, n: nat): seq<nat> {
    if n == 0 then [] else Rejected(accepted, n - 1) + if n - 1 in accepted then [] else [n - 1]
  }

  /** The accepted rows of `start` to `end`, counted from `start`. */
  function Window(accepted: seq<nat>, start: nat, end: nat): seq<nat> {
    if accepted == [] then []
    else
      var last := accepted[|accepted| - 1];
      Window(accepted[..|accepted| - 1], start, end) + if start <= last < end then [last - start] else []
  }

  function ForRange(d: Disposition, start: int, end: int): Result<Disposition, BatchError> {
    if start < 0 || end < start || end > d.proposed then Err(BadChildRange)
    else Construct(end - start, Window(d.accepted, start, end), d.reason, d.reservation)
  }

  /** The elements of `xs` at the positions `at`. */
  function Pick(xs: seq<nat>, at: seq<nat>): (r: seq<nat>)
    requires Within(at, |xs|)
    ensures |r| == |at| && forall i | 0 <= i < |at| :: r[i] == xs[at[i]]
  {
    seq(|at|, i requires 0 <= i < |at| => xs[at[i]])
  }

  /** A later decision over the survivors of `d`, mapped back to the original rows. */
  function Compose(d: Disposition, later: Disposition, reason: Option<string>): Result<Disposition, BatchError>
    requires IsDisposition(later)
  {
    if later.proposed != |d.accepted| then Err(CardinalityMismatch)
    else
      var given := if reason.Some? && reason.value != "" then reason.value
                   else if later.reason != "" then later.reason else d.reason;
      Construct(d.proposed, Pick(d.accepted, later.accepted), given,
                if later.reservation != "" then later.reservation else d.reservation)
  }

  // ---- Rank and windows ------------------------------------------------------------------

  /** How many accepted rows lie below `row`. */
  function Rank(accepted: seq<nat>, row: nat): (r: nat)
    ensures r <= |accepted|
  {
    if accepted == [] then 0
    else Rank(accepted[..|accepted| - 1], row) + if accepted[|accepted| - 1] < row then 1 else 0
  }

  lemma {:induction false} RankSplits(accepted: seq<nat>, row: nat)
    requires Increasing(accepted)
    ensures forall i | 0 <= i < |accepted| :: accepted[i] < row <==> i < Rank(accepted, row)
  {
    if accepted != [] {
      var init := accepted[..|accepted| - 1];
      RankSplits(init, row);
      forall i | 0 <= i < |accepted| ensures accepted[i] < row <==> i < Rank(accepted, row) {
        if i < |init| {
          assert init[i] == accepted[i];
          if accepted[|init|] < row {
            assert forall k | 0 <= k < |init| :: init[k] == accepted[k] && init[k] < row;
            assert |init| > 0 ==> init[|init| - 1] < row;
          }
        } else if |init| > 0 && accepted[i] < row {
          assert init[|init| - 1] == accepted[|init| - 1] < row;
        }
      }
    }
  }

  lemma {:induction false} RankAtEnds(accepted: seq<nat>, n: nat)
    ensures Rank(accepted, 0) == 0
    ensures Within(accepted, n) ==> Rank(accepted, n) == |accepted|
  {
    if accepted != [] {
      RankAtEnds(accepted[..|accepted| - 1], n);
    }
  }

  /** In order, rows that reach `row` at the end were all below it before. */
  lemma RankOfInit(accepted: seq<nat>, row: nat)
    requires Increasing(accepted) && accepted != [] && accepted[|accepted| - 1] < row
    ensures Rank(accepted[..|accepted| - 1], row) == |accepted| - 1 && Rank(accepted, row) == |accepted|
  {
    RankAtEnds(accepted[..|accepted| - 1], row);
  }

  lemma {:induction false} WindowSize(accepted: seq<nat>, start: nat, end: nat)
    requires start <= end
    ensures Rank(accepted, start) <= Rank(accepted, end)
    ensures |Window(accepted, start, end)| == Rank(accepted, end) - Rank(accepted, start)
  {
    if accepted != [] {
      WindowSize(accepted[..|accepted| - 1], start, end);
    }
  }

  lemma {:induction false} WindowAt(accepted: seq<nat>, start: nat, end: nat, i: nat)
    requires Increasing(accepted) && start <= end && i < |Window(accepted, start, end)|
    ensures Rank(accepted, start) + i < |accepted|
    ensures Window(accepted, start, end)[i] == accepted[Rank(accepted, start) + i] - start
  {
    var n := |accepted| - 1;
    WindowSize(accepted[..n], start, end);
    if i < |Window(accepted[..n], start, end)| {
      WindowAt(accepted[..n], start, end, i);
      if accepted[n] < start {
        RankOfInit(accepted, start);
      }
    } else {
      RankOfInit(accepted, end);
    }
  }

  /** A window is the slice of the accepted rows between two ranks, counted from its start. */
  lemma WindowIsSlice(accepted: seq<nat>, start: nat, end: nat)
    requires Increasing(accepted) && start <= end
    ensures Rank(accepted, start) <= Rank(accepted, end)
    ensures |Window(accepted, start, end)| == Rank(accepted, end) - Rank(accepted, start)
    ensures forall i | 0 <= i < |Window(accepted, start, end)| ::
              Window(accepted, start, end)[i] == accepted[Rank(accepted, start) + i] - start
  {
    WindowSize(accepted, start, end);
    forall i | 0 <= i < |Window(accepted, start, end)|
      ensures Window(accepted, start, end)[i] == accepted[Rank(accepted, start) + i] - start
    {
      WindowAt(accepted, start, end, i);
    }
  }

  // ---- What each decision carries --------------------------------------------------------

  /** A prefix accepts the rows below its count and no others; its errors name what is wrong. */
  lemma PrefixAccepts(proposed: int, accepted: int, reason: string, reservation: string)
    ensures var r := Prefix(proposed, accepted, reason, reservation);
            && (r.Ok? <==> 0 <= accepted <= proposed)
            && (r == Err(NegativeProposal) <==> proposed < 0)
            && (r == Err(BadCount) <==> proposed >= 0 && !(0 <= accepted <= proposed))
            && (r.Ok? ==>
                  && r.value.proposed == proposed && |r.value.accepted| == accepted
                  && (forall row: nat :: row in r.value.accepted <==> row < accepted)
                  && r.value.reason == (if reason == "" then "unspecified" else reason)
                  && r.value.reservation == reservation)
  {
    var r := Prefix(proposed, accepted, reason, reservation);
    if r.Ok? {
      forall row: nat ensures row in r.value.accepted <==> row < accepted {
        if row < accepted {
          assert r.value.accepted[row] == row;
        }
      }
    }
  }

  /** A restriction keeps reason and reservation, has the size of its range, and its only error is the range. */
  lemma ForRangeCarries(d: Disposition, start: int, end: int)
    requires IsDisposition(d)
    ensures ForRange(d, start, end).Err? ==> ForRange(d, start, end) == Err(BadChildRange)
    ensures ForRange(d, start, end).Ok? ==>
              var r := ForRange(d, start, end).value;
              && r.proposed == end - start && r.reason == d.reason && r.reservation == d.reservation
              && forall row: nat :: row in r.accepted <==> row + start in d.accepted && row + start < end
  {
    ForRangeSucceedsIff(d, start, end);
    if 0 <= start <= end {
      forall row: nat
        ensures row in Window(d.accepted, start, end) <==> row + start in d.accepted && row + start < end
      {
        WindowHolds(d.accepted, start, end, row);
      }
    }
  }

  lemma {:induction false} WindowHolds(accepted: seq<nat>, start: nat, end: nat, row: nat)
    ensures row in Window(accepted, start, end) <==> row + start in accepted && row + start < end
  {
    if accepted != [] {
      WindowHolds(accepted[..|accepted| - 1], start, end, row);
      assert accepted == accepted[..|accepted| - 1] + [accepted[|accepted| - 1]];
    }
  }

  /** A composition accepts what both accept, with the given reason or else the later one. */
  lemma ComposeCarries(d: Disposition, later: Disposition, reason: Option<string>)
    requires IsDisposition(d) && IsDisposition(later)
    ensures Compose(d, later, reason).Err? ==> Compose(d, later, reason) == Err(CardinalityMismatch)
    ensures Compose(d, later, reason).Ok? ==>
              var r := Compose(d, later, reason).value;
              && r.proposed == d.proposed && |r.accepted| == |later.accepted|
              && (forall i | 0 <= i < |r.accepted| :: r.accepted[i] == d.accepted[later.accepted[i]])
              && r.reason == (if reason.Some? && reason.value != "" then reason.value else later.reason)
              && r.reservation == (if later.reservation != "" then later.reservation else d.reservation)
  {
  }

  // ---- Laws ------------------------------------------------------------------------------

  /** Restricting to any child range inside the proposal succeeds. */
  lemma ForRangeSucceedsIff(d: Disposition, start: int, end: int)
    requires IsDisposition(d)
    ensures ForRange(d, start, end).Ok? <==> 0 <= start <= end <= d.proposed
  {
    if 0 <= start <= end <= d.proposed {
      WindowIsSlice(d.accepted, start, end);
      RankSplits(d.accepted, start);
      RankSplits(d.accepted, end);
    }
  }

  /** Composing two dispositions whose sizes match never fails the checks of the constructor. */
  lemma ComposeSucceedsIff(d: Disposition, later: Disposition, reason: Option<string>)
    requires IsDisposition(d) && IsDisposition(later)
    ensures Compose(d, later, reason).Ok? <==> later.proposed == |d.accepted|
  {
  }

  /** Composition is associative in every field; either grouping is defined exactly when the other is. */
  lemma ComposeIsAssociative(a: Disposition, b: Disposition, c: Disposition)
    requires IsDisposition(a) && IsDisposition(b) && IsDisposition(c)
    ensures Compose(a, b, None).Ok? && Compose(Compose(a, b, None).value, c, None).Ok? <==>
            Compose(b, c, None).Ok? && Compose(a, Compose(b, c, None).value, None).Ok?
    ensures Compose(a, b, None).Ok? && Compose(b, c, None).Ok? ==>
              Compose(Compose(a, b, None).value, c, None) == Compose(a, Compose(b, c, None).value, None)
  {
    if Compose(a, b, None).Ok? && Compose(b, c, None).Ok? {
      var left, right := Compose(Compose(a, b, None).value, c, None), Compose(a, Compose(b, c, None).value, None);
      assert left.Ok? && right.Ok?;
      assert left.value.accepted == right.value.accepted;
    }
  }

  /** Accepting everything, before or after, leaves counts and rows as they are. */
  lemma FullPrefixIsUnit(d: Disposition, reason: string, reservation: string)
    requires IsDisposition(d)
    ensures var before := Prefix(d.proposed, d.proposed, reason, reservation);
            before.Ok? && Compose(before.value, d, None).Ok?
            && Compose(before.value, d, None).value.proposed == d.proposed
            && Compose(before.value, d, None).value.accepted == d.accepted
    ensures var after := Prefix(|d.accepted|, |d.accepted|, reason, reservation);
            after.Ok? && Compose(d, after.value, None).Ok?
            && Compose(d, after.value, None).value.proposed == d.proposed
            && Compose(d, after.value, None).value.accepted == d.accepted
  {
    var before := Prefix(d.proposed, d.proposed, reason, reservation);
    var after := Prefix(|d.accepted|, |d.accepted|, reason, reservation);
    assert Compose(before.value, d, None).value.accepted == d.accepted;
    assert Compose(d, after.value, None).value.accepted == d.accepted;
  }

  lemma RowsDiffer(accepted: seq<nat>, i: nat, k: nat)
    requires Increasing(accepted) && i < |accepted| && k < |accepted| && accepted[i] == accepted[k]
    ensures i == k
  {
  }

  lemma RankStep(accepted: seq<nat>, row: nat)
    requires Increasing(accepted)
    ensures Rank(accepted, row + 1) == Rank(accepted, row) + if row in accepted then 1 else 0
  {
    WindowIsSlice(accepted, row, row + 1);
    RankSplits(accepted, row);
    RankSplits(accepted, row + 1);
    var low, high := Rank(accepted, row), Rank(accepted, row + 1);
    assert forall i | low <= i < high :: accepted[i] == row;
    if low < high {
      RowsDiffer(accepted, low, high - 1);
    }
    if row in accepted {
      var i :| 0 <= i < |accepted| && accepted[i] == row;
      assert low <= i < high;
    }
  }

  /** Accepted and rejected rows are complementary, and the rejected ones are in order. */
  lemma {:induction false} RejectedIsComplement(accepted: seq<nat>, n: nat)
    ensures Increasing(Rejected(accepted, n)) && Within(Rejected(accepted, n), n)
    ensures forall row: nat | row < n :: row in Rejected(accepted, n) <==> row !in accepted
  {
    if n > 0 {
      RejectedIsComplement(accepted, n - 1);
    }
  }

  /** Together they have as many rows as were proposed. */
  lemma {:induction false} CountsAddUp(accepted: seq<nat>, n: nat)
    requires Increasing(accepted)
    ensures |Rejected(accepted, n)| + Rank(accepted, n) == n
    ensures Within(accepted, n) ==> |Rejected(accepted, n)| + |accepted| == n
  {
    RankAtEnds(accepted, n);
    if n > 0 {
      CountsAddUp(accepted, n - 1);
      RankStep(accepted, n - 1);
    }
  }

  lemma PickMembers(xs: seq<nat>, at: seq<nat>, row: nat)
    requires Within(at, |xs|)
    ensures row in Pick(xs, at) <==> exists i | 0 <= i < |xs| :: xs[i] == row && i in at
  {
    if row in Pick(xs, at) {
      var k :| 0 <= k < |at| && Pick(xs, at)[k] == row;
      assert xs[at[k]] == row;
    }
    if i: nat :| i < |xs| && xs[i] == row && i in at {
      var k :| 0 <= k < |at| && at[k] == i;
      assert Pick(xs, at)[k] == row;
    }
  }

  /** A composition rejects what the first decision rejected and what the later one rejected of the rest. */
  lemma RejectedByCompositionIff(a: Disposition, b: Disposition, row: nat)
    requires IsDisposition(a) && IsDisposition(b) && b.proposed == |a.accepted| && row < a.proposed
    ensures Compose(a, b, None).Ok?
    ensures row in Rejected(Compose(a, b, None).value.accepted, a.proposed) <==>
            row in Rejected(a.accepted, a.proposed)
            || exists i | 0 <= i < |a.accepted| :: a.accepted[i] == row && i in Rejected(b.accepted, b.proposed)
  {
    RejectedIsComplement(Compose(a, b, None).value.accepted, a.proposed);
    RejectedIsComplement(a.accepted, a.proposed);
    RejectedIsComplement(b.accepted, b.proposed);
    PickMembers(a.accepted, b.accepted, row);
    if row in a.accepted {
      var i :| 0 <= i < |a.accepted| && a.accepted[i] == row;
      assert forall k | 0 <= k < |a.accepted| && a.accepted[k] == row :: k == i;
    }
  }

  /** The accepted rows of one child range, moved back to the rows of the parent. */
  function ChildRows(d: Disposition, start: nat, end: nat): seq<nat>
    requires ForRange(d, start, end).Ok?
  {
    var child := ForRange(d, start, end).value.accepted;
    seq(|child|, i requires 0 <= i < |child| => child[i] + start)
  }

  lemma ChildRowsAreSlice(d: Disposition, start: nat, end: nat)
    requires IsDisposition(d) && ForRange(d, start, end).Ok?
    ensures Rank(d.accepted, start) <= Rank(d.accepted, end)
    ensures ChildRows(d, start, end) == d.accepted[Rank(d.accepted, start)..Rank(d.accepted, end)]
  {
    WindowIsSlice(d.accepted, start, end);
  }

  ghost predicate AreCuts(d: Disposition, cuts: seq<nat>) {
    cuts != [] && cuts[|cuts| - 1] <= d.proposed && forall i, k | 0 <= i < k < |cuts| :: cuts[i] <= cuts[k]
  }

  function Reassembled(d: Disposition, cuts: seq<nat>): seq<nat>
    requires IsDisposition(d) && AreCuts(d, cuts)
  {
    if |cuts| == 1 then []
    else
      var lo, hi := cuts[|cuts| - 2], cuts[|cuts| - 1];
      ForRangeSucceedsIff(d, lo, hi);
      Reassembled(d, cuts[..|cuts| - 1]) + ChildRows(d, lo, hi)
  }

  lemma {:induction false} ReassembledIsSlice(d: Disposition, cuts: seq<nat>)
    requires IsDisposition(d) && AreCuts(d, cuts)
    ensures Rank(d.accepted, cuts[0]) <= Rank(d.accepted, cuts[|cuts| - 1])
    ensures Reassembled(d, cuts) == d.accepted[Rank(d.accepted, cuts[0])..Rank(d.accepted, cuts[|cuts| - 1])]
  {
    if |cuts| > 1 {
      var lo, hi := cuts[|cuts| - 2], cuts[|cuts| - 1];
      ReassembledIsSlice(d, cuts[..|cuts| - 1]);
      ForRangeSucceedsIff(d, lo, hi);
      ChildRowsAreSlice(d, lo, hi);
      SlicesJoin(d.accepted, Rank(d.accepted, cuts[0]), Rank(d.accepted, lo), Rank(d.accepted, hi));
    }
  }

  lemma SlicesJoin(xs: seq<nat>, a: nat, b: nat, c: nat)
    requires a <= b <= c <= |xs|
    ensures xs[a..b] + xs[b..c] == xs[a..c]
  {
  }

  /** Cutting the proposal into child ranges anywhere and reassembling them gives all accepted rows back. */
  lemma RangesReassemble(d: Disposition, cuts: seq<nat>)
    requires IsDisposition(d) && AreCuts(d, cuts)
    requires cuts[0] == 0 && cuts[|cuts| - 1] == d.proposed
    ensures Reassembled(d, cuts) == d.accepted
  {
    ReassembledIsSlice(d, cuts);
    RankAtEnds(d.accepted, d.proposed);
  }

  lemma {:induction false} WindowOfPick(xs: seq<nat>, at: seq<nat>, start: nat, end: nat)
    requires Increasing(xs) && Within(at, |xs|) && start <= end
    ensures var low, high := Rank(xs, start), Rank(xs, end);
            && Within(Window(at, low, high), |Window(xs, start, end)|)
            && Window(Pick(xs, at), start, end) == Pick(Window(xs, start, end), Window(at, low, high))
  {
    WindowIsSlice(xs, start, end);
    RankSplits(xs, start);
    RankSplits(xs, end);
    if at != [] {
      var init, last := at[..|at| - 1], at[|at| - 1];
      assert Within(init, |xs|);
      WindowOfPick(xs, init, start, end);
      assert Pick(xs, at)[..|at| - 1] == Pick(xs, init);
    }
  }

  lemma ForRangeValue(d: Disposition, start: nat, end: nat)
    requires IsDisposition(d) && start <= end <= d.proposed
    ensures ForRange(d, start, end) ==
              Ok(Disposition(end - start, Window(d.accepted, start, end), d.reason, d.reservation))
    ensures IsDisposition(ForRange(d, start, end).value)
  {
    ForRangeSucceedsIff(d, start, end);
  }

  lemma ComposeValue(d: Disposition, later: Disposition)
    requires IsDisposition(d) && IsDisposition(later) && later.proposed == |d.accepted|
    ensures Compose(d, later, None) ==
              Ok(Disposition(d.proposed, Pick(d.accepted, later.accepted), later.reason,
                             if later.reservation != "" then later.reservation else d.reservation))
    ensures IsDisposition(Compose(d, later, None).value)
  {
  }

  /** What composing the two restrictions gives. */
  lemma RestrictionsCompose(a: Disposition, b: Disposition, start: nat, end: nat, low: nat, high: nat, p: Disposition,
                            q: Disposition)
    requires IsDisposition(a) && IsDisposition(b) && b.proposed == |a.accepted| && start <= end <= a.proposed
    requires IsDisposition(p) && IsDisposition(q)
    requires p == Disposition(end - start, Window(a.accepted, start, end), a.reason, a.reservation)
    requires low == Rank(a.accepted, start) && high == Rank(a.accepted, end) && low <= high
    requires q == Disposition(high - low, Window(b.accepted, low, high), b.reason, b.reservation)
    ensures Compose(p, q, None) ==
              Ok(Disposition(end - start, Window(Pick(a.accepted, b.accepted), start, end), b.reason,
                             if b.reservation != "" then b.reservation else a.reservation))
  {
    WindowSize(a.accepted, start, end);
    ComposeValue(p, q);
    WindowOfPick(a.accepted, b.accepted, start, end);
  }

  /**
   Restricting a composition to rows `start` to `end` is composing the restriction of the first
   decision with the restriction of the later one to the matching ranks.
   */
  lemma RestrictionDistributes(a: Disposition, b: Disposition, start: nat, end: nat)
    requires IsDisposition(a) && IsDisposition(b) && b.proposed == |a.accepted| && start <= end <= a.proposed
    ensures Compose(a, b, None).Ok? && ForRange(a, start, end).Ok?
    ensures ForRange(b, Rank(a.accepted, start), Rank(a.accepted, end)).Ok?
    ensures IsDisposition(ForRange(b, Rank(a.accepted, start), Rank(a.accepted, end)).value)
    ensures ForRange(Compose(a, b, None).value, start, end) ==
              Compose(ForRange(a, start, end).value,
                      ForRange(b, Rank(a.accepted, start), Rank(a.accepted, end)).value, None)
  {
    WindowSize(a.accepted, start, end);
    ForRangeValue(a, start, end);
    ForRangeValue(b, Rank(a.accepted, start), Rank(a.accepted, end));
    ComposeValue(a, b);
    ForRangeValue(Compose(a, b, None).value, start, end);
    RestrictionsCompose(a, b, start, end, Rank(a.accepted, start), Rank(a.accepted, end),
                        ForRange(a, start, end).value,
                        ForRange(b, Rank(a.accepted, start), Rank(a.accepted, end)).value);
  }
}
