/** The Huntington-Hill method of equal proportions: every state starts with
    one seat and seats are then handed out one at a time to the state whose
    priority  population / sqrt(s * (s + 1))  is highest, the first such
    state in table order winning a tie. Two stopping rules: a seat target,
    or every state reaching a floor (the "no losers" variant). */
module EqualProportions {
  import opened Tables

  // ---------------------------------------------------------------------
  // Priorities
  // ---------------------------------------------------------------------

  /** The square of a state's priority  population / sqrt(seats * (seats + 1)).
      Priorities are never negative, so squaring keeps their order. */
  function PrioritySquared(population: nat, seats: nat): real
    requires seats >= 1
  {
    (population * population) as real / (seats * (seats + 1)) as real
  }

  /** Exact integer test that (pa, sa) has a strictly higher priority than
      (pb, sb): pa^2 * sb(sb+1) > pb^2 * sa(sa+1). */
  predicate Outranks(pa: nat, sa: nat, pb: nat, sb: nat)
  {
    Times(Times(pa, pa), Times(sb, sb + 1)) > Times(Times(pb, pb), Times(sa, sa + 1))
  }

  /** a * b as repeated addition; `TimesIsProduct` ties it to `*`. Spelling the
      products out this way keeps every unfolding of the arg-max linear. */
  function Times(a: nat, b: nat): nat
  {
    if b == 0 then 0 else Times(a, b - 1) + a
  }

  lemma {:induction false} TimesIsProduct(a: nat, b: nat)
    ensures Times(a, b) == a * b
  {
    if b > 0 {
      TimesIsProduct(a, b - 1);
    }
  }

  lemma OutranksIsCrossProduct(pa: nat, sa: nat, pb: nat, sb: nat)
    ensures Outranks(pa, sa, pb, sb) <==> pa * pa * (sb * (sb + 1)) > pb * pb * (sa * (sa + 1))
  {
    TimesIsProduct(pa, pa);
    TimesIsProduct(pb, pb);
    TimesIsProduct(sa, sa + 1);
    TimesIsProduct(sb, sb + 1);
    TimesIsProduct(pa * pa, sb * (sb + 1));
    TimesIsProduct(pb * pb, sa * (sa + 1));
  }

  /** Cross-multiplying decides exactly the order of priorities. */
  lemma CrossProductIffHigherPriority(pa: nat, sa: nat, pb: nat, sb: nat)
    requires sa >= 1 && sb >= 1
    ensures pa * pa * (sb * (sb + 1)) > pb * pb * (sa * (sa + 1))
            <==> PrioritySquared(pb, sb) < PrioritySquared(pa, sa)
  {
    var a, b := (pa * pa) as real, (sa * (sa + 1)) as real;
    var c, d := (pb * pb) as real, (sb * (sb + 1)) as real;
    assert 0.0 < b && 0.0 < d;
    assert a / b * (b * d) == a * d;
    assert c / d * (b * d) == c * b;
    assert (pa * pa * (sb * (sb + 1))) as real == a * d;
    assert (pb * pb * (sa * (sa + 1))) as real == c * b;
  }

  /** The integer test decides exactly the order of priorities. */
  lemma OutranksIffHigherPriority(pa: nat, sa: nat, pb: nat, sb: nat)
    requires sa >= 1 && sb >= 1
    ensures Outranks(pa, sa, pb, sb) <==> PrioritySquared(pb, sb) < PrioritySquared(pa, sa)
  {
    OutranksIsCrossProduct(pa, sa, pb, sb);
    CrossProductIffHigherPriority(pa, sa, pb, sb);
  }

  /** A further seat never raises a state's priority. */
  lemma PriorityDecreasing(p: nat, s: nat)
    requires s >= 1
    ensures PrioritySquared(p, s + 1) <= PrioritySquared(p, s)
  {
    assert s * (s + 1) <= (s + 1) * (s + 1 + 1);
    MulLeftMonotone(p * p, s * (s + 1), (s + 1) * (s + 1 + 1));
    CrossProductIffHigherPriority(p, s + 1, p, s);
  }

  lemma MulLeftMonotone(c: nat, a: int, b: int)
    requires a <= b
    ensures c * a <= c * b
  {
  }

  /** A positive population has a positive priority, a zero one a zero priority. */
  lemma PrioritySign(p: nat, s: nat)
    requires s >= 1
    ensures p > 0 <==> PrioritySquared(p, s) > 0.0
    ensures p == 0 ==> PrioritySquared(p, s) == 0.0
  {
    var a, b := (p * p) as real, (s * (s + 1)) as real;
    assert 0.0 < b;
    assert a / b * b == a;
    assert p > 0 ==> p * p > 0;
  }

  // ---------------------------------------------------------------------
  // The state that receives the next seat
  // ---------------------------------------------------------------------

  predicate Seated(pops: seq<nat>, seats: seq<nat>)
  {
    |pops| == |seats| && AllSeated(seats)
  }

  /** k has the highest priority, and every state before it a strictly lower one. */
  ghost predicate IsFirstHighest(pops: seq<nat>, seats: seq<nat>, k: nat)
    requires Seated(pops, seats)
  {
    && k < |pops|
    && (forall j :: 0 <= j < k ==>
          PrioritySquared(pops[j], seats[j]) < PrioritySquared(pops[k], seats[k]))
    && (forall j :: k < j < |pops| ==>
          PrioritySquared(pops[j], seats[j]) <= PrioritySquared(pops[k], seats[k]))
  }

  /** The arg-max of the priority column among the first `m` states,
      scanning in table order and keeping the first maximum. */
  function FirstHighestAmong(pops: seq<nat>, seats: seq<nat>, m: nat): (k: nat)
    requires Seated(pops, seats) && 1 <= m <= |pops|
    ensures k < m
  {
    if m == 1 then 0 else
      var b := FirstHighestAmong(pops, seats, m - 1);
      if Outranks(pops[m - 1], seats[m - 1], pops[b], seats[b]) then m - 1 else b
  }

  /** The scan keeps the first state of highest priority among those it has seen. */
  lemma {:induction false} FirstHighestAmongIsFirstHighest(pops: seq<nat>, seats: seq<nat>, m: nat)
    requires Seated(pops, seats) && 1 <= m <= |pops|
    ensures var k := FirstHighestAmong(pops, seats, m);
      && (forall j :: 0 <= j < k ==>
            PrioritySquared(pops[j], seats[j]) < PrioritySquared(pops[k], seats[k]))
      && (forall j :: k < j < m ==>
            PrioritySquared(pops[j], seats[j]) <= PrioritySquared(pops[k], seats[k]))
  {
    if m > 1 {
      FirstHighestAmongIsFirstHighest(pops, seats, m - 1);
      var b := FirstHighestAmong(pops, seats, m - 1);
      OutranksIffHigherPriority(pops[m - 1], seats[m - 1], pops[b], seats[b]);
    }
  }

  /** The state awarded the next seat (the source's arg-max of the priority column). */
  function FirstHighest(pops: seq<nat>, seats: seq<nat>): (k: nat)
    requires Seated(pops, seats) && |pops| > 0
    ensures k < |pops|
  {
    FirstHighestAmong(pops, seats, |pops|)
  }

  /** The state awarded the next seat is the first one of highest priority. */
  lemma FirstHighestIsFirstHighest(pops: seq<nat>, seats: seq<nat>)
    requires Seated(pops, seats) && |pops| > 0
    ensures IsFirstHighest(pops, seats, FirstHighest(pops, seats))
  {
    FirstHighestAmongIsFirstHighest(pops, seats, |pops|);
  }

  /** Only one state is first of highest priority. */
  lemma FirstHighestUnique(pops: seq<nat>, seats: seq<nat>, k: nat)
    requires Seated(pops, seats) && |pops| > 0
    requires IsFirstHighest(pops, seats, k)
    ensures k == FirstHighest(pops, seats)
  {
    FirstHighestIsFirstHighest(pops, seats);
  }

  /** A state without population is never chosen while some other state has
      population or comes before it. */
  lemma ZeroPopulationNotChosen(pops: seq<nat>, seats: seq<nat>, i: nat, j: nat)
    requires Seated(pops, seats) && i < |pops| && j < |pops| && i != j
    requires pops[i] == 0 && (pops[j] > 0 || j < i)
    ensures FirstHighest(pops, seats) != i
  {
    FirstHighestIsFirstHighest(pops, seats);
    PrioritySign(pops[i], seats[i]);
    PrioritySign(pops[j], seats[j]);
  }

  // ---------------------------------------------------------------------
  // The sequence of awards
  // ---------------------------------------------------------------------

  /** One award: the first state of highest priority gains a seat. */
  function Award(pops: seq<nat>, seats: seq<nat>): (r: seq<nat>)
    requires Seated(pops, seats) && |pops| > 0
    ensures Seated(pops, r)
  {
    var k := FirstHighest(pops, seats);
    seats[k := seats[k] + 1]
  }

  /** The seat column after `k` awards, starting from one seat each. */
  function Awarded(pops: seq<nat>, k: nat): (s: seq<nat>)
    requires |pops| > 0 || k == 0
    ensures Seated(pops, s)
  {
    if k == 0 then Ones(|pops|) else Award(pops, Awarded(pops, k - 1))
  }

  /** Unfolds one award of the sequence. */
  lemma AwardedNext(pops: seq<nat>, k: nat)
    requires |pops| > 0
    ensures var s := Awarded(pops, k);
      Awarded(pops, k + 1) == s[FirstHighest(pops, s) := s[FirstHighest(pops, s)] + 1]
  {
  }

  /** Each award adds exactly one seat, so the total is the count of states plus the awards. */
  lemma {:induction false} AwardedTotal(pops: seq<nat>, k: nat)
    requires |pops| > 0 || k == 0
    ensures Sum(Awarded(pops, k)) == |pops| + k
  {
    if k > 0 {
      AwardedTotal(pops, k - 1);
      var s := Awarded(pops, k - 1);
      var w := FirstHighest(pops, s);
      assert Awarded(pops, k) == s[w := s[w] + 1];
      SumOfIncrement(s, w);
    }
  }

  /** An award gives one seat to the first state of highest priority and
      leaves every other state's seats as they were. */
  lemma AwardGoesToFirstHighest(pops: seq<nat>, k: nat, i: nat)
    requires |pops| > 0 && i < |pops|
    ensures var before, after := Awarded(pops, k), Awarded(pops, k + 1);
      && (IsFirstHighest(pops, before, i) ==> after[i] == before[i] + 1)
      && (!IsFirstHighest(pops, before, i) ==> after[i] == before[i])
  {
    var before := Awarded(pops, k);
    AwardedNext(pops, k);
    if IsFirstHighest(pops, before, i) {
      FirstHighestUnique(pops, before, i);
    } else {
      FirstHighestIsFirstHighest(pops, before);
    }
  }

  /** A state's seat count never goes down as further seats are awarded. */
  lemma {:induction false} SeatsNeverDecrease(pops: seq<nat>, k: nat, k': nat, i: nat)
    requires |pops| > 0 && k <= k' && i < |pops|
    ensures Awarded(pops, k)[i] <= Awarded(pops, k')[i]
  {
    if k < k' {
      SeatsNeverDecrease(pops, k, k' - 1, i);
    }
  }

  /** The defining property of a divisor method: no state's claim to its next
      seat is stronger than the claim with which any state won its last seat. */
  ghost predicate NoStrongerClaim(pops: seq<nat>, seats: seq<nat>)
    requires Seated(pops, seats)
  {
    forall i, j :: 0 <= i < |pops| && 0 <= j < |pops| && seats[j] > 1 ==>
      PrioritySquared(pops[i], seats[i]) <= PrioritySquared(pops[j], seats[j] - 1)
  }

  /** An award keeps the divisor-method property. */
  lemma AwardKeepsNoStrongerClaim(pops: seq<nat>, s: seq<nat>)
    requires Seated(pops, s) && |pops| > 0 && NoStrongerClaim(pops, s)
    ensures NoStrongerClaim(pops, Award(pops, s))
  {
    var w := FirstHighest(pops, s);
    var t := Award(pops, s);
    FirstHighestIsFirstHighest(pops, s);
    assert t == s[w := s[w] + 1];
    PriorityDecreasing(pops[w], s[w]);
    forall i, j | 0 <= i < |pops| && 0 <= j < |pops| && t[j] > 1
      ensures PrioritySquared(pops[i], t[i]) <= PrioritySquared(pops[j], t[j] - 1)
    {
      if j == w {
        assert t[j] - 1 == s[w];
      } else if i == w {
        assert s[j] > 1;
      }
    }
  }

  lemma {:induction false} AwardedHasNoStrongerClaim(pops: seq<nat>, k: nat)
    requires |pops| > 0 || k == 0
    ensures NoStrongerClaim(pops, Awarded(pops, k))
  {
    if k > 0 {
      AwardedHasNoStrongerClaim(pops, k - 1);
      AwardKeepsNoStrongerClaim(pops, Awarded(pops, k - 1));
    }
  }

  // ---------------------------------------------------------------------
  // The loop body shared by both routines
  // ---------------------------------------------------------------------

  /** Recomputes the priorities and gives one more seat to the first state
      of highest priority, in place. */
  method AwardNextSeat(pops: seq<nat>, seats: array<nat>, ghost steps: nat) returns (k: nat)
    requires |pops| == seats.Length > 0
    requires seats[..] == Awarded(pops, steps)
    modifies seats
    ensures k == FirstHighest(pops, old(seats[..]))
    ensures seats[..] == old(seats[..])[k := old(seats[k]) + 1]
    ensures seats[..] == Awarded(pops, steps + 1)
    ensures Sum(seats[..]) == |pops| + steps + 1
  {
    k := FirstHighest(pops, seats[..]);
    AwardedNext(pops, steps);
    AwardedTotal(pops, steps + 1);
    seats[k] := seats[k] + 1;
  }

  // ---------------------------------------------------------------------
  // equal_proportions: award seats until the target is reached
  // ---------------------------------------------------------------------

  /** Awards needed to reach `target` from one seat each (none when the
      states already hold at least `target` seats). */
  function AwardsFor(n: nat, target: int): nat
  {
    if target > n then target - n else 0
  }

  method EqualProportions(pops: seq<nat>, target: int) returns (r: Result<seq<Row>>)
    ensures r.Failure? <==> |pops| == 0 && target > 0
    ensures r.Failure? ==> r.error == EmptyTable
    ensures r.Success? ==>
      && PopulationsOf(r.value) == pops
      && SeatsOf(r.value) == Awarded(pops, AwardsFor(|pops|, target))
      && Sum(SeatsOf(r.value)) == if target > |pops| then target else |pops|
  {
    var n := |pops|;
    var seats := new nat[n](_ => 1);
    ghost var steps: nat := 0;
    assert seats[..] == Ones(n);
    while Sum(seats[..]) < target
      invariant n > 0 || steps == 0
      invariant seats[..] == Awarded(pops, steps)
      invariant Sum(seats[..]) == n + steps
      invariant steps == 0 || n + steps <= target
      decreases target - steps
    {
      if n == 0 {
        return Failure(EmptyTable);
      }
      var _ := AwardNextSeat(pops, seats, steps);
      steps := steps + 1;
    }
    assert steps == AwardsFor(n, target);
    return Success(Table(pops, seats[..]));
  }

  // ---------------------------------------------------------------------
  // equal_proportions_no_losers: award seats until every floor is met
  // ---------------------------------------------------------------------

  /** Some state holds fewer seats than its floor. */
  predicate BelowFloor(seats: seq<nat>, floors: seq<int>)
    requires |seats| == |floors|
  {
    exists i :: 0 <= i < |seats| && seats[i] < floors[i]
  }

  predicate AllZero(pops: seq<nat>)
  {
    forall i :: 0 <= i < |pops| ==> pops[i] == 0
  }

  /** Every state with a floor above one seat has population. */
  predicate FloorsReachable(pops: seq<nat>, floors: seq<int>)
    requires |pops| == |floors|
  {
    forall i :: 0 <= i < |pops| && floors[i] > 1 ==> pops[i] > 0
  }

  /** The inputs on which the no-losers loop ends: either every state with a
      floor above one has population, or no state has population and only
      the first state (which then wins every tie) has a floor above one. */
  predicate NoLosersTerminates(pops: seq<nat>, floors: seq<int>)
    requires |pops| == |floors|
  {
    || FloorsReachable(pops, floors)
    || (AllZero(pops) && forall i :: 1 <= i < |pops| ==> floors[i] <= 1)
  }

  /** Outside NoLosersTerminates some state stays at one seat forever below
      its floor, so the loop never ends. */
  lemma NoLosersDivergesOtherwise(pops: seq<nat>, floors: seq<int>, k: nat)
    requires |pops| == |floors| && |pops| > 0
    requires !NoLosersTerminates(pops, floors)
    ensures BelowFloor(Awarded(pops, k), floors)
  {
    var i :| 0 <= i < |pops| && floors[i] > 1 && pops[i] == 0;
    if AllZero(pops) {
      var i' :| 1 <= i' < |pops| && floors[i'] > 1;
      StaysAtOneSeat(pops, i', 0, k);
      assert Awarded(pops, k)[i'] < floors[i'];
    } else {
      var j :| 0 <= j < |pops| && pops[j] > 0;
      StaysAtOneSeat(pops, i, j, k);
      assert Awarded(pops, k)[i] < floors[i];
    }
  }

  lemma {:induction false} StaysAtOneSeat(pops: seq<nat>, i: nat, j: nat, k: nat)
    requires i < |pops| && j < |pops| && i != j
    requires pops[i] == 0 && (pops[j] > 0 || j < i)
    ensures Awarded(pops, k)[i] == 1
  {
    if k > 0 {
      StaysAtOneSeat(pops, i, j, k - 1);
      var s := Awarded(pops, k - 1);
      var w := FirstHighest(pops, s);
      ZeroPopulationNotChosen(pops, s, i, j);
      AwardedNext(pops, k - 1);
    }
  }

  /** Some floor was still unmet after each of the award counts 0, 1, ..., m - 1. */
  ghost predicate UnmetThroughout(pops: seq<nat>, floors: seq<int>, m: nat)
    requires |floors| == |pops| && (|pops| > 0 || m == 0)
  {
    m == 0 || (UnmetThroughout(pops, floors, m - 1) && BelowFloor(Awarded(pops, m - 1), floors))
  }

  lemma {:induction false} UnmetThroughoutAt(pops: seq<nat>, floors: seq<int>, m: nat, k: nat)
    requires |floors| == |pops| && (|pops| > 0 || m == 0)
    requires UnmetThroughout(pops, floors, m) && k < m
    ensures BelowFloor(Awarded(pops, k), floors)
  {
    if k < m - 1 {
      UnmetThroughoutAt(pops, floors, m - 1, k);
    }
  }

  /** When no floor exceeds the one seat every state starts with, no seat is awarded. */
  lemma NoAwardsBelowOneSeatFloors(pops: seq<nat>, floors: seq<int>, m: nat)
    requires |floors| == |pops| && (|pops| > 0 || m == 0)
    requires forall i :: 0 <= i < |pops| ==> floors[i] <= 1
    requires UnmetThroughout(pops, floors, m)
    ensures m == 0
  {
    if m > 0 {
      UnmetThroughoutAt(pops, floors, m, 0);
    }
  }

  /** The largest floor, and at least 1. */
  function MaxFloor(floors: seq<int>): (f: nat)
    ensures f >= 1 && forall i :: 0 <= i < |floors| ==> floors[i] <= f
  {
    if floors == [] then 1 else
      var f := MaxFloor(floors[..|floors| - 1]);
      var last := floors[|floors| - 1];
      if last > f then last else f
  }

  /** A bound on the seats any state can reach while some state with
      population is still below a floor of at most `f`. */
  function SeatCap(p: nat, f: nat): (c: nat)
    ensures c >= 1
  {
    p * p * (f * f) + 1
  }

  function SeatCaps(pops: seq<nat>, f: nat): (caps: seq<int>)
    ensures |caps| == |pops|
  {
    if pops == [] then [] else SeatCaps(pops[..|pops| - 1], f) + [SeatCap(pops[|pops| - 1], f)]
  }

  lemma {:induction false} SeatCapsAt(pops: seq<nat>, f: nat, k: nat)
    requires k < |pops|
    ensures SeatCaps(pops, f)[k] == SeatCap(pops[k], f)
  {
    if k < |pops| - 1 {
      SeatCapsAt(pops[..|pops| - 1], f, k);
    }
  }

  predicate WithinCaps(seats: seq<nat>, caps: seq<int>)
  {
    |seats| == |caps| && forall j :: 0 <= j < |seats| ==> seats[j] <= caps[j]
  }

  /** The state chosen while a populated state `i` is below a floor of at most
      `f` stays within its cap after the award. */
  lemma ChosenStaysCapped(pops: seq<nat>, seats: seq<nat>, i: nat, f: nat)
    requires Seated(pops, seats) && i < |pops|
    requires pops[i] > 0 && seats[i] < f
    ensures var k := FirstHighest(pops, seats); seats[k] + 1 <= SeatCap(pops[k], f)
  {
    var k := FirstHighest(pops, seats);
    var pi, si, pk, sk := pops[i], seats[i], pops[k], seats[k];
    FirstHighestIsFirstHighest(pops, seats);
    assert PrioritySquared(pi, si) <= PrioritySquared(pk, sk);
    CrossProductIffHigherPriority(pi, si, pk, sk);
    assert pi * pi * (sk * (sk + 1)) <= pk * pk * (si * (si + 1));
    assert pi * pi >= 1;
    assert sk <= sk * (sk + 1);
    MulLeftMonotone(sk * (sk + 1), 1, pi * pi);
    assert si * (si + 1) <= f * f by {
      MulLeftMonotone(si, si + 1, f);
      MulLeftMonotone(f, si, f);
    }
    MulLeftMonotone(pk * pk, si * (si + 1), f * f);
  }

  /** While the floors are reachable and unmet, an award keeps every state within its cap. */
  lemma AwardStaysCapped(pops: seq<nat>, floors: seq<int>, steps: nat)
    requires |floors| == |pops| > 0 && FloorsReachable(pops, floors)
    requires BelowFloor(Awarded(pops, steps), floors)
    requires WithinCaps(Awarded(pops, steps), SeatCaps(pops, MaxFloor(floors)))
    ensures WithinCaps(Awarded(pops, steps + 1), SeatCaps(pops, MaxFloor(floors)))
  {
    var s, f := Awarded(pops, steps), MaxFloor(floors);
    var i :| 0 <= i < |s| && s[i] < floors[i];
    var k := FirstHighest(pops, s);
    ChosenStaysCapped(pops, s, i, f);
    SeatCapsAt(pops, f, k);
    AwardedNext(pops, steps);
  }

  /** In a table without population the first state wins every award. */
  lemma FirstWinsWithoutPopulation(pops: seq<nat>, seats: seq<nat>)
    requires Seated(pops, seats) && |pops| > 0 && AllZero(pops)
    ensures FirstHighest(pops, seats) == 0
  {
    var k := FirstHighest(pops, seats);
    FirstHighestIsFirstHighest(pops, seats);
    if k > 0 {
      PrioritySign(pops[0], seats[0]);
      PrioritySign(pops[k], seats[k]);
      assert false;
    }
  }

  /** The starting column lies within every cap. */
  lemma OnesWithinCaps(pops: seq<nat>, f: nat)
    ensures WithinCaps(Ones(|pops|), SeatCaps(pops, f))
  {
    var ones, caps := Ones(|pops|), SeatCaps(pops, f);
    forall j | 0 <= j < |pops|
      ensures ones[j] <= caps[j]
    {
      SeatCapsAt(pops, f, j);
      assert ones[j] == 1 && caps[j] == SeatCap(pops[j], f);
    }
  }

  /** While the floors stay reachable and unmet, every state stays within its cap. */
  lemma {:induction false} UnmetStaysCapped(pops: seq<nat>, floors: seq<int>, m: nat)
    requires |floors| == |pops| > 0 && FloorsReachable(pops, floors)
    requires UnmetThroughout(pops, floors, m)
    ensures WithinCaps(Awarded(pops, m), SeatCaps(pops, MaxFloor(floors)))
  {
    if m == 0 {
      OnesWithinCaps(pops, MaxFloor(floors));
    } else {
      UnmetStaysCapped(pops, floors, m - 1);
      AwardStaysCapped(pops, floors, m - 1);
    }
  }

  /** Without population the first state holds every awarded seat. */
  lemma {:induction false} FirstHoldsAllAwards(pops: seq<nat>, m: nat)
    requires |pops| > 0 && AllZero(pops)
    ensures Awarded(pops, m)[0] == 1 + m
  {
    if m > 0 {
      FirstHoldsAllAwards(pops, m - 1);
      FirstWinsWithoutPopulation(pops, Awarded(pops, m - 1));
      AwardedNext(pops, m - 1);
    }
  }

  /** A bound on the number of awards the no-losers loop makes: the total of
      the caps, or, in a table without population, the first state's floor. */
  ghost function AwardBound(pops: seq<nat>, floors: seq<int>): int
    requires |floors| == |pops| > 0
  {
    if FloorsReachable(pops, floors) then Sum(SeatCaps(pops, MaxFloor(floors))) else floors[0]
  }

  /** On the inputs where the no-losers loop ends, the floors cannot stay
      unmet for more award counts than AwardBound. */
  lemma UnmetWithinBound(pops: seq<nat>, floors: seq<int>, m: nat)
    requires |floors| == |pops| > 0 && NoLosersTerminates(pops, floors)
    requires UnmetThroughout(pops, floors, m)
    ensures m <= AwardBound(pops, floors)
  {
    if FloorsReachable(pops, floors) {
      var caps := SeatCaps(pops, MaxFloor(floors));
      UnmetStaysCapped(pops, floors, m);
      SumMonotone(Awarded(pops, m), caps);
      AwardedTotal(pops, m);
    } else if m > 0 {
      UnmetThroughoutAt(pops, floors, m, m - 1);
      FirstHoldsAllAwards(pops, m - 1);
      var s := Awarded(pops, m - 1);
      var i :| 0 <= i < |s| && s[i] < floors[i];
      assert i == 0;
    }
  }

  /** A bound on the awards the no-losers loop can make while its floors stay unmet. */
  lemma NoLosersBound(pops: seq<nat>, floors: seq<int>) returns (bound: nat)
    requires |floors| == |pops| > 0 && NoLosersTerminates(pops, floors)
    ensures forall m: nat :: UnmetThroughout(pops, floors, m) ==> m <= bound
  {
    bound := if AwardBound(pops, floors) < 0 then 0 else AwardBound(pops, floors);
    forall m: nat | UnmetThroughout(pops, floors, m)
      ensures m <= bound
    {
      UnmetWithinBound(pops, floors, m);
    }
  }

  /** The no-losers loop: award seats one at a time while some state is below
      its floor; `bound` caps how long the floors can stay unmet. */
  method AwardUntilFloorsMet(pops: seq<nat>, floors: seq<int>, seats: array<nat>, ghost bound: nat)
      returns (ghost steps: nat)
    requires |floors| == |pops| == seats.Length > 0
    requires forall m: nat :: UnmetThroughout(pops, floors, m) ==> m <= bound
    requires seats[..] == Awarded(pops, 0)
    modifies seats
    ensures seats[..] == Awarded(pops, steps)
    ensures UnmetThroughout(pops, floors, steps)
    ensures !BelowFloor(seats[..], floors)
  {
    steps := 0;
    while BelowFloor(seats[..], floors)
      invariant seats[..] == Awarded(pops, steps)
      invariant UnmetThroughout(pops, floors, steps)
      decreases bound - steps
    {
      assert UnmetThroughout(pops, floors, steps + 1);
      var _ := AwardNextSeat(pops, seats, steps);
      steps := steps + 1;
    }
  }

  /** `target` is accepted and ignored, as `equal_proportions_no_losers` does. */
  method EqualProportionsNoLosers(pops: seq<nat>, floors: seq<int>, target: int)
      returns (rows: seq<Row>, ghost steps: nat)
    requires |floors| == |pops|
    requires NoLosersTerminates(pops, floors)
    ensures |pops| > 0 || steps == 0
    ensures PopulationsOf(rows) == pops
    ensures SeatsOf(rows) == Awarded(pops, steps)
    ensures Sum(SeatsOf(rows)) == |pops| + steps
    ensures forall i :: 0 <= i < |pops| ==> rows[i].seats >= floors[i]
    ensures UnmetThroughout(pops, floors, steps)
  {
    var seats := new nat[|pops|](_ => 1);
    assert seats[..] == Ones(|pops|);
    steps := 0;
    if |pops| > 0 {
      ghost var bound := NoLosersBound(pops, floors);
      steps := AwardUntilFloorsMet(pops, floors, seats, bound);
    }
    AwardedTotal(pops, steps);
    rows := Table(pops, seats[..]);
  }
}
