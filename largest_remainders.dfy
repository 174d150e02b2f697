/** The Hamilton method with the Hare quota total / target: every state gets
    its whole number of quotas, raised to at least one seat, and the seats
    still missing from the target go one each to the states with the largest
    fractional remainders. A closing check fails the call when the seat total
    misses the target. All arithmetic is exact: a state's share of quotas
    p / (total / target) is p * target / total, and remainders are compared
    after scaling by the total. */
module LargestRemainders {
  import opened Tables

  // ---------------------------------------------------------------------
  // Quotas and initial seats
  // ---------------------------------------------------------------------

  /** Whole quotas held by a state of population `p`: floor(p * target / total). */
  function QuotaFloor(p: nat, target: int, total: nat): (q: int)
    requires total > 0
    ensures q * total <= p * target < q * total + total
  {
    p * target / total
  }

  /** A state's seats before the remainders are handed out. */
  function Initial(p: nat, target: int, total: nat): (s: int)
    requires total > 0
    ensures s >= 1
    ensures s == QuotaFloor(p, target, total) || (s == 1 && QuotaFloor(p, target, total) < 1)
  {
    var q := QuotaFloor(p, target, total);
    if q < 1 then 1 else q
  }

  function InitialSeats(pops: seq<nat>, target: int): (s: seq<int>)
    requires Sum(pops) > 0
    ensures |s| == |pops|
  {
    seq(|pops|, i requires 0 <= i < |pops| => Initial(pops[i], target, Sum(pops)))
  }

  /** Seats the initial allocation leaves to be handed out; negative when the
      raise to one seat over-allocates. */
  function Remaining(pops: seq<nat>, target: int): int
    requires Sum(pops) > 0
  {
    target - Sum(InitialSeats(pops, target))
  }

  /** Each state's remainder  p / quota - seats, multiplied by the total. */
  function ScaledRemainders(pops: seq<nat>, seats: seq<int>, target: int, total: nat): (r: seq<int>)
    requires |seats| == |pops|
    ensures |r| == |pops|
  {
    seq(|pops|, i requires 0 <= i < |pops| => pops[i] * target - seats[i] * total)
  }

  /** The remainder as the source computes it, with quota = total / target. */
  ghost function Remainder(p: nat, seats: int, target: int, total: nat): real
    requires total > 0 && target != 0
  {
    p as real / (total as real / target as real) - seats as real
  }

  /** Scaling by the total keeps the remainder exact, and so keeps its order. */
  lemma ScaledRemainderIsRemainder(p: nat, seats: int, target: int, total: nat)
    requires total > 0 && target != 0
    ensures (p * target - seats * total) as real == Remainder(p, seats, target, total) * total as real
  {
    var P, S, t, T := p as real, seats as real, target as real, total as real;
    assert P / (T / t) == P * t / T;
    assert (P * t / T - S) * T == P * t - S * T;
  }

  /** The quota count is the floor of the state's share of quotas. */
  lemma QuotaFloorIsFloor(p: nat, target: int, total: nat)
    requires total > 0 && target != 0
    ensures var q := QuotaFloor(p, target, total) as real;
            q <= p as real / (total as real / target as real) < q + 1.0
  {
    var P, t, T := p as real, target as real, total as real;
    assert P / (T / t) == P * t / T;
    assert (p * target) as real == P * t;
    FloorOfQuotient(QuotaFloor(p, target, total), p * target, total);
  }

  lemma FloorOfQuotient(q: int, a: int, d: int)
    requires d > 0 && q * d <= a < q * d + d
    ensures q as real <= a as real / d as real < q as real + 1.0
  {
    var x, D := a as real / d as real, d as real;
    assert x * D == a as real;
    assert (q * d) as real == q as real * D;
    assert (q * d + d) as real == (q as real + 1.0) * D;
    RealCancel(q as real, x, D);
    RealCancel(x, q as real + 1.0, D);
  }

  lemma RealCancel(a: real, b: real, c: real)
    requires c > 0.0
    ensures a * c <= b * c ==> a <= b
    ensures a * c < b * c ==> a < b
  {
  }

  // ---------------------------------------------------------------------
  // Ranking by remainder
  // ---------------------------------------------------------------------

  predicate Indices(order: seq<nat>, n: nat)
  {
    forall a :: 0 <= a < |order| ==> order[a] < n
  }

  predicate Distinct(order: seq<nat>)
  {
    forall a, b :: 0 <= a < b < |order| ==> order[a] != order[b]
  }

  /** `order` lists states by non-increasing remainder. */
  predicate Descending(rems: seq<int>, order: seq<nat>)
    requires Indices(order, |rems|)
  {
    forall a, b :: 0 <= a < b < |order| ==> rems[order[a]] >= rems[order[b]]
  }

  /** Place state `i` after every listed state with a remainder at least its own. */
  function Insert(rems: seq<int>, order: seq<nat>, i: nat): (r: seq<nat>)
    requires i < |rems| && Indices(order, |rems|)
    ensures |r| == |order| + 1 && Indices(r, |rems|)
    ensures forall x :: x in r <==> x in order || x == i
  {
    if order == [] then [i]
    else if rems[order[0]] >= rems[i] then [order[0]] + Insert(rems, order[1..], i)
    else [i] + order
  }

  lemma {:induction false} InsertKeepsDescending(rems: seq<int>, order: seq<nat>, i: nat)
    requires i < |rems| && Indices(order, |rems|) && Descending(rems, order)
    ensures Descending(rems, Insert(rems, order, i))
  {
    if order != [] && rems[order[0]] >= rems[i] {
      InsertKeepsDescending(rems, order[1..], i);
      var r := Insert(rems, order, i);
      var tail := Insert(rems, order[1..], i);
      assert r == [order[0]] + tail;
      forall b | 0 < b < |r|
        ensures rems[r[0]] >= rems[r[b]]
      {
        assert r[b] in tail;
        assert r[b] in order[1..] || r[b] == i;
      }
    }
  }

  lemma {:induction false} InsertKeepsDistinct(rems: seq<int>, order: seq<nat>, i: nat)
    requires i < |rems| && Indices(order, |rems|) && Distinct(order) && i !in order
    ensures Distinct(Insert(rems, order, i))
  {
    if order != [] && rems[order[0]] >= rems[i] {
      InsertKeepsDistinct(rems, order[1..], i);
      var r := Insert(rems, order, i);
      var tail := Insert(rems, order[1..], i);
      assert r == [order[0]] + tail;
      forall b | 0 < b < |r|
        ensures r[0] != r[b]
      {
        assert r[b] in tail;
        if r[b] in order[1..] {
          var c :| 0 <= c < |order[1..]| && order[1..][c] == r[b];
          assert order[c + 1] == r[b];
        }
      }
    }
  }

  /** The states 0 .. m-1 sorted by non-increasing remainder, ties in table order. */
  function Rank(rems: seq<int>, m: nat): (r: seq<nat>)
    requires m <= |rems|
    ensures |r| == m && Indices(r, |rems|)
    ensures forall x: nat :: x in r <==> x < m
  {
    if m == 0 then [] else Insert(rems, Rank(rems, m - 1), m - 1)
  }

  /** The ranking lists every state exactly once, by non-increasing remainder. */
  lemma {:induction false} RankIsRanking(rems: seq<int>, m: nat)
    requires m <= |rems|
    ensures Distinct(Rank(rems, m)) && Descending(rems, Rank(rems, m))
  {
    if m > 0 {
      RankIsRanking(rems, m - 1);
      InsertKeepsDistinct(rems, Rank(rems, m - 1), m - 1);
      InsertKeepsDescending(rems, Rank(rems, m - 1), m - 1);
    }
  }

  /** How many rows the slice  [:stop]  keeps from `n` rows: a negative stop
      drops that many rows from the end. */
  function SliceEnd(stop: int, n: nat): (k: nat)
    ensures k <= n
    ensures 0 <= stop <= n ==> k == stop
    ensures stop > n ==> k == n
    ensures stop < 0 ==> k + (if -stop < n then -stop else n) == n
  {
    if stop >= 0 then (if stop < n then stop else n)
    else if n + stop > 0 then n + stop else 0
  }

  // ---------------------------------------------------------------------
  // The extra seats
  // ---------------------------------------------------------------------

  /** One more seat for every state listed in `chosen`, in order. */
  function Bump(seats: seq<int>, chosen: seq<nat>): (r: seq<int>)
    requires Indices(chosen, |seats|)
    ensures |r| == |seats|
    ensures forall i :: 0 <= i < |seats| ==> r[i] >= seats[i]
  {
    if chosen == [] then seats
    else
      var s := Bump(seats, chosen[..|chosen| - 1]);
      var k := chosen[|chosen| - 1];
      s[k := s[k] + 1]
  }

  /** Each listed state adds one seat to the total. */
  lemma {:induction false} BumpSum(seats: seq<int>, chosen: seq<nat>)
    requires Indices(chosen, |seats|)
    ensures Sum(Bump(seats, chosen)) == Sum(seats) + |chosen|
  {
    if chosen != [] {
      BumpSum(seats, chosen[..|chosen| - 1]);
      SumOfIncrement(Bump(seats, chosen[..|chosen| - 1]), chosen[|chosen| - 1]);
    }
  }

  /** Listed once each, a listed state gains exactly one seat, any other none. */
  lemma {:induction false} BumpAt(seats: seq<int>, chosen: seq<nat>, i: nat)
    requires Indices(chosen, |seats|) && Distinct(chosen) && i < |seats|
    ensures Bump(seats, chosen)[i] == seats[i] + (if i in chosen then 1 else 0)
  {
    if chosen != [] {
      var front := chosen[..|chosen| - 1];
      assert Distinct(front);
      BumpAt(seats, front, i);
      var k := chosen[|chosen| - 1];
      assert i in chosen <==> i in front || i == k;
      assert forall c :: 0 <= c < |front| ==> front[c] == chosen[c] != k;
    }
  }

  /** The states given an extra seat: the first `Remaining` of the ranking. */
  function Chosen(pops: seq<nat>, target: int): (c: seq<nat>)
    requires Sum(pops) > 0
    ensures Indices(c, |pops|)
  {
    var rems := ScaledRemainders(pops, InitialSeats(pops, target), target, Sum(pops));
    Rank(rems, |pops|)[..SliceEnd(Remaining(pops, target), |pops|)]
  }

  /** The seat column the method computes. */
  function HamiltonSeats(pops: seq<nat>, target: int): (s: seq<nat>)
    requires Sum(pops) > 0
    ensures |s| == |pops|
  {
    Bump(InitialSeats(pops, target), Chosen(pops, target))
  }

  /** What the routine returns: the degenerate tables first, then the closing
      check on the computed seat column. */
  function Apportionment(pops: seq<nat>, target: int): Result<seq<Row>>
  {
    if |pops| == 0 then (if target == 0 then Success([]) else Failure(SumMismatch))
    else if Sum(pops) == 0 then Failure(if target == 0 then UndefinedQuota else SumMismatch)
    else
      SumOfNaturals(pops);
      if Sum(HamiltonSeats(pops, target)) != target then Failure(SumMismatch)
      else Success(Table(pops, HamiltonSeats(pops, target)))
  }

  // ---------------------------------------------------------------------
  // Properties
  // ---------------------------------------------------------------------

  lemma Distribute(x: int, y: int, c: int)
    ensures (x + y) * c == x * c + y * c
  {
  }

  lemma {:induction false} ScaledFloorsBelow(a: seq<int>, p: seq<nat>, t: int, total: nat)
    requires |a| == |p|
    requires forall i :: 0 <= i < |a| ==> a[i] * total + total >= p[i] * t + 1
    ensures Sum(a) * total + |a| * total >= Sum(p) * t + |a|
  {
    if a != [] {
      var k := |a| - 1;
      ScaledFloorsBelow(a[..k], p[..k], t, total);
      Distribute(Sum(a[..k]), a[k], total);
      Distribute(Sum(p[..k]), p[k], t);
      Distribute(k, 1, total);
    }
  }

  lemma {:induction false} ScaledFloorsAtMost(a: seq<int>, p: seq<nat>, t: int, total: nat)
    requires |a| == |p|
    requires forall i :: 0 <= i < |a| ==> a[i] * total <= p[i] * t
    ensures Sum(a) * total <= Sum(p) * t
  {
    if a != [] {
      var k := |a| - 1;
      ScaledFloorsAtMost(a[..k], p[..k], t, total);
      Distribute(Sum(a[..k]), a[k], total);
      Distribute(Sum(p[..k]), p[k], t);
    }
  }

  lemma {:induction false} ScaledSeatsAbove(a: seq<int>, p: seq<nat>, t: int, total: nat)
    requires |a| == |p| > 0
    requires forall i :: 0 <= i < |a| ==> a[i] * total > p[i] * t
    ensures Sum(a) * total > Sum(p) * t
  {
    var k := |a| - 1;
    if k > 0 {
      ScaledSeatsAbove(a[..k], p[..k], t, total);
    }
    Distribute(Sum(a[..k]), a[k], total);
    Distribute(Sum(p[..k]), p[k], t);
  }

  /** An allocation of at least q seats to a state scales to at least q quotas. */
  lemma ScaleMonotone(a: int, b: int, total: nat)
    requires a <= b
    ensures a * total <= b * total
  {
  }

  lemma CancelTotal(s: int, n: nat, target: int, total: nat)
    requires total > 0 && n > 0
    requires s * total + n * total >= total * target + n
    ensures s + n > target
  {
    if s + n <= target {
      ScaleMonotone(s + n, target, total);
    }
  }

  lemma CancelTotalAtMost(s: int, target: int, total: nat)
    requires total > 0
    requires s * total <= total * target
    ensures s <= target
  {
    if s > target {
      ScaleMonotone(target + 1, s, total);
    }
  }

  /** Fewer seats remain than there are states, so the slice never runs out
      of states to raise. */
  lemma RemainingBelowCount(pops: seq<nat>, target: int)
    requires Sum(pops) > 0
    ensures Remaining(pops, target) < |pops|
  {
    var total, init := Sum(pops), InitialSeats(pops, target);
    forall i | 0 <= i < |init|
      ensures init[i] * total + total >= pops[i] * target + 1
    {
      ScaleMonotone(QuotaFloor(pops[i], target, total), init[i], total);
    }
    ScaledFloorsBelow(init, pops, target, total);
    CancelTotal(Sum(init), |pops|, target, total);
  }

  /** When no state is raised to one seat, the whole quotas never exceed the
      target, and the closing check passes. */
  lemma NoRaiseLeavesSeats(pops: seq<nat>, target: int)
    requires Sum(pops) > 0
    requires forall i :: 0 <= i < |pops| ==> QuotaFloor(pops[i], target, Sum(pops)) >= 1
    ensures Remaining(pops, target) >= 0
  {
    var total, init := Sum(pops), InitialSeats(pops, target);
    forall i | 0 <= i < |init|
      ensures init[i] * total <= pops[i] * target
    {
      assert init[i] == QuotaFloor(pops[i], target, total);
    }
    ScaledFloorsAtMost(init, pops, target, total);
    CancelTotalAtMost(Sum(init), target, total);
  }

  /** Every state ends with its initial seats or one more, so at least one. */
  lemma HamiltonSeatsPerState(pops: seq<nat>, target: int, i: nat)
    requires Sum(pops) > 0 && i < |pops|
    ensures var s, init := HamiltonSeats(pops, target), InitialSeats(pops, target);
            s[i] == init[i] + (if i in Chosen(pops, target) then 1 else 0) && s[i] >= 1
  {
    var rems := ScaledRemainders(pops, InitialSeats(pops, target), target, Sum(pops));
    RankIsRanking(rems, |pops|);
    var c := Chosen(pops, target);
    assert Distinct(c);
    BumpAt(InitialSeats(pops, target), c, i);
  }

  /** The seat total is the initial total plus the states raised; it meets the
      target exactly when the initial allocation leaves seats over, and
      exceeds it otherwise. */
  lemma HamiltonSeatsTotal(pops: seq<nat>, target: int)
    requires Sum(pops) > 0
    ensures Remaining(pops, target) >= 0 ==> Sum(HamiltonSeats(pops, target)) == target
    ensures Remaining(pops, target) < 0 ==> Sum(HamiltonSeats(pops, target)) > target
    ensures Remaining(pops, target) >= 0 ==> |Chosen(pops, target)| == Remaining(pops, target)
  {
    RemainingBelowCount(pops, target);
    BumpSum(InitialSeats(pops, target), Chosen(pops, target));
  }

  /** A state given an extra seat has a remainder at least that of any state
      not given one. */
  lemma ChosenHaveLargestRemainders(pops: seq<nat>, target: int, i: nat, j: nat)
    requires Sum(pops) > 0 && i < |pops| && j < |pops|
    requires i in Chosen(pops, target) && j !in Chosen(pops, target)
    ensures var rems := ScaledRemainders(pops, InitialSeats(pops, target), target, Sum(pops));
            rems[i] >= rems[j]
  {
    var rems := ScaledRemainders(pops, InitialSeats(pops, target), target, Sum(pops));
    var ranking := Rank(rems, |pops|);
    var take := SliceEnd(Remaining(pops, target), |pops|);
    RankIsRanking(rems, |pops|);
    var a :| 0 <= a < take && ranking[..take][a] == i;
    assert j in ranking;
    var b :| 0 <= b < |ranking| && ranking[b] == j;
    assert b >= take;
  }

  /** A state raised to one seat has a negative remainder; any other state's
      remainder lies in [0, total). */
  lemma RemainderSign(pops: seq<nat>, target: int, i: nat)
    requires Sum(pops) > 0 && i < |pops|
    ensures var total := Sum(pops);
            var rems := ScaledRemainders(pops, InitialSeats(pops, target), target, total);
            (QuotaFloor(pops[i], target, total) < 1 ==> rems[i] < 0) &&
            (QuotaFloor(pops[i], target, total) >= 1 ==> 0 <= rems[i] < total)
  {
    var total := Sum(pops);
    var init := InitialSeats(pops, target);
    var rems := ScaledRemainders(pops, init, target, total);
    var q := QuotaFloor(pops[i], target, total);
    assert rems[i] == pops[i] * target - init[i] * total;
    if q < 1 {
      assert init[i] == 1;
      ScaleMonotone(q, 0, total);
    } else {
      assert init[i] == q;
    }
  }

  /** A state raised to one seat receives an extra seat only after every state
      that was not raised has received one. Its premise arises only on runs
      that fail the closing check: see `RaisedNotChosenOnSuccess`. */
  lemma RaisedStatesRankLast(pops: seq<nat>, target: int, i: nat, j: nat)
    requires Sum(pops) > 0 && i < |pops| && j < |pops|
    requires QuotaFloor(pops[i], target, Sum(pops)) < 1 && i in Chosen(pops, target)
    requires QuotaFloor(pops[j], target, Sum(pops)) >= 1
    ensures j in Chosen(pops, target)
  {
    RemainderSign(pops, target, i);
    RemainderSign(pops, target, j);
    if j !in Chosen(pops, target) {
      ChosenHaveLargestRemainders(pops, target, i, j);
    }
  }

  /** On a run that passes the closing check, no state raised to one seat
      receives an extra seat: were one chosen, every state not raised would be
      chosen too, every state would then hold more than its exact quota, and
      the seats would add up to more than the target. */
  lemma RaisedNotChosenOnSuccess(pops: seq<nat>, target: int, i: nat)
    requires Sum(pops) > 0 && i < |pops|
    requires Remaining(pops, target) >= 0
    requires QuotaFloor(pops[i], target, Sum(pops)) < 1
    ensures i !in Chosen(pops, target)
  {
    var total := Sum(pops);
    var seats := HamiltonSeats(pops, target);
    if i in Chosen(pops, target) {
      forall k | 0 <= k < |pops|
        ensures seats[k] * total > pops[k] * target
      {
        var q := QuotaFloor(pops[k], target, total);
        HamiltonSeatsPerState(pops, target, k);
        if q >= 1 {
          RaisedStatesRankLast(pops, target, i, k);
          assert seats[k] == q + 1;
          Distribute(q, 1, total);
        } else {
          ScaleMonotone(q, 0, total);
          ScaleMonotone(1, seats[k], total);
        }
      }
      ScaledSeatsAbove(seats, pops, target, total);
      HamiltonSeatsTotal(pops, target);
      assert false;
    }
  }

  // ---------------------------------------------------------------------
  // The routine
  // ---------------------------------------------------------------------

  /** Every state's whole number of quotas. */
  method SetQuotaFloors(pops: seq<nat>, target: int, total: nat, seats: array<int>)
    requires total > 0 && seats.Length == |pops|
    modifies seats
    ensures forall j :: 0 <= j < |pops| ==> seats[j] == QuotaFloor(pops[j], target, total)
  {
    for i := 0 to |pops|
      invariant forall j :: 0 <= j < i ==> seats[j] == QuotaFloor(pops[j], target, total)
    {
      seats[i] := pops[i] * target / total;
    }
  }

  /** Every state below one seat is raised to one; the others keep theirs. */
  method RaiseToOneSeat(seats: array<int>)
    modifies seats
    ensures forall j :: 0 <= j < seats.Length ==>
              seats[j] == if old(seats[j]) < 1 then 1 else old(seats[j])
  {
    for i := 0 to seats.Length
      invariant forall j :: 0 <= j < i ==> seats[j] == if old(seats[j]) < 1 then 1 else old(seats[j])
      invariant forall j :: i <= j < seats.Length ==> seats[j] == old(seats[j])
    {
      if seats[i] < 1 {
        seats[i] := 1;
      }
    }
  }

  /** One more seat for each of the first `take` states of the ranking. */
  method AddExtraSeats(seats: array<int>, ranking: seq<nat>, take: nat)
    requires take <= |ranking| && Indices(ranking, seats.Length)
    modifies seats
    ensures seats[..] == Bump(old(seats[..]), ranking[..take])
  {
    for j := 0 to take
      invariant seats[..] == Bump(old(seats[..]), ranking[..j])
    {
      assert ranking[..j + 1][..j] == ranking[..j];
      seats[ranking[j]] := seats[ranking[j]] + 1;
    }
  }

  /** With population to share, the routine succeeds exactly when the
      initial allocation leaves seats over; it then returns the populations
      beside a seat column that meets the target, and otherwise fails its
      closing check. */
  lemma ApportionmentOutcome(pops: seq<nat>, target: int)
    requires Sum(pops) > 0
    ensures Apportionment(pops, target).Success? <==> Remaining(pops, target) >= 0
    ensures Apportionment(pops, target).Failure? ==> Apportionment(pops, target).error == SumMismatch
    ensures Apportionment(pops, target).Success? ==>
              var rows := Apportionment(pops, target).value;
              && PopulationsOf(rows) == pops
              && SeatsOf(rows) == HamiltonSeats(pops, target)
              && Sum(SeatsOf(rows)) == target
  {
    HamiltonSeatsTotal(pops, target);
  }

  /** Largest remainders for a seat `target`. An empty table succeeds only
      for a zero target; a table without population has a zero quota (NaN for
      a zero target), so every whole-quota count is NaN, which fails the final
      integer conversion when the target is zero and the closing check
      otherwise. */
  method LargestRemainders(pops: seq<nat>, target: int) returns (r: Result<seq<Row>>)
    ensures r == Apportionment(pops, target)
  {
    var n := |pops|;
    SumOfNaturals(pops);
    var total: nat := Sum(pops);
    if n == 0 {
      return if target == 0 then Success([]) else Failure(SumMismatch);
    }
    if total == 0 {
      return Failure(if target == 0 then UndefinedQuota else SumMismatch);
    }
    var seats := new int[n];
    SetQuotaFloors(pops, target, total, seats);
    RaiseToOneSeat(seats);
    assert seats[..] == InitialSeats(pops, target);
    var remaining := target - Sum(seats[..]);
    var remainders := ScaledRemainders(pops, seats[..], target, total);
    var ranking := Rank(remainders, n);
    var take := SliceEnd(remaining, n);
    AddExtraSeats(seats, ranking, take);
    assert seats[..] == HamiltonSeats(pops, target);
    if Sum(seats[..]) != target {
      return Failure(SumMismatch);
    }
    r := Success(Table(pops, seats[..]));
  }
}
