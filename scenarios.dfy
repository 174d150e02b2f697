/** Worked tables: three states of populations 100, 80 and 20 sharing five seats. */
module Scenarios {
  import opened Tables
  import EqualProportions
  import LargestRemainders

  /** Equal proportions: the state of 100 takes the fourth seat (priority
      100 / sqrt(2) against 80 / sqrt(2)), the state of 80 the fifth
      (80 / sqrt(2) against 100 / sqrt(6)). */
  lemma EqualProportionsThreeStates(pops: seq<nat>)
    requires pops == [100, 80, 20]
    ensures EqualProportions.Awarded(pops, EqualProportions.AwardsFor(|pops|, 5)) == [2, 2, 1]
  {
    Opening(pops);
    FirstAward(pops, [1, 1, 1]);
    AwardStep(pops, 0, [1, 1, 1], 0);
    assert [1, 1, 1][0 := 2] == [2, 1, 1];
    SecondAward(pops, [2, 1, 1]);
    AwardStep(pops, 1, [2, 1, 1], 1);
    assert [2, 1, 1][1 := 2] == [2, 2, 1];
  }

  lemma Opening(pops: seq<nat>)
    requires pops == [100, 80, 20]
    ensures EqualProportions.Awarded(pops, 0) == [1, 1, 1]
  {
  }

  lemma AwardStep(pops: seq<nat>, k: nat, before: seq<nat>, w: nat)
    requires |pops| > 0 && EqualProportions.Awarded(pops, k) == before
    requires EqualProportions.FirstHighest(pops, before) == w
    ensures EqualProportions.Awarded(pops, k + 1) == before[w := before[w] + 1]
  {
    EqualProportions.AwardedNext(pops, k);
  }

  /** Priorities 100 / sqrt(2) > 80 / sqrt(2) > 20 / sqrt(2). */
  lemma FirstAward(pops: seq<nat>, s: seq<nat>)
    requires pops == [100, 80, 20] && s == [1, 1, 1]
    ensures EqualProportions.FirstHighest(pops, s) == 0
  {
    assert EqualProportions.PrioritySquared(pops[0], s[0]) == 5000.0;
    assert EqualProportions.PrioritySquared(pops[1], s[1]) == 3200.0;
    assert EqualProportions.PrioritySquared(pops[2], s[2]) == 200.0;
    EqualProportions.FirstHighestUnique(pops, s, 0);
  }

  /** Priorities 100 / sqrt(6) < 80 / sqrt(2), and 20 / sqrt(2) below both. */
  lemma SecondAward(pops: seq<nat>, s: seq<nat>)
    requires pops == [100, 80, 20] && s == [2, 1, 1]
    ensures EqualProportions.FirstHighest(pops, s) == 1
  {
    assert EqualProportions.PrioritySquared(pops[0], s[0]) == 10000.0 / 6.0;
    assert EqualProportions.PrioritySquared(pops[1], s[1]) == 3200.0;
    assert EqualProportions.PrioritySquared(pops[2], s[2]) == 200.0;
    EqualProportions.FirstHighestUnique(pops, s, 1);
  }

  lemma SumOfThree(s: seq<int>)
    requires |s| == 3
    ensures Sum(s) == s[0] + s[1] + s[2]
  {
    assert s[..2][..1] == s[..1];
    assert Sum(s[..1]) == Sum(s[..1][..0]) + s[0];
    assert Sum(s[..2]) == Sum(s[..1]) + s[1];
    assert Sum(s) == Sum(s[..2]) + s[2];
  }

  /** Largest remainders: the quota is 200 / 5 = 40, the whole quotas are
      2, 2 and 0, the last raised to one seat; that already makes five, so no
      remainder is used. */
  lemma LargestRemaindersThreeStates(pops: seq<nat>)
    requires pops == [100, 80, 20]
    ensures LargestRemainders.Apportionment(pops, 5)
            == Success([Row(100, 2), Row(80, 2), Row(20, 1)])
  {
    SumOfThree(pops);
    var init := LargestRemainders.InitialSeats(pops, 5);
    assert init == [2, 2, 1];
    SumOfThree(init);
    assert LargestRemainders.Remaining(pops, 5) == 0;
    assert LargestRemainders.Chosen(pops, 5) == [];
    var seats := LargestRemainders.HamiltonSeats(pops, 5);
    assert seats == [2, 2, 1];
    SumOfThree(seats);
    var rows := Table(pops, seats);
    assert rows == [Row(100, 2), Row(80, 2), Row(20, 1)] by {
      assert rows[0] == Row(100, 2) && rows[1] == Row(80, 2) && rows[2] == Row(20, 1);
    }
  }

  /** Exact whole quotas: 10 over a quota of 10/3 is exactly three quotas, and
      the state without population is raised to one seat, so four seats are
      handed out against a target of three and the closing check fails. */
  lemma ExactQuotaOverAllocates(pops: seq<nat>)
    requires pops == [10, 0]
    ensures LargestRemainders.Apportionment(pops, 3) == Failure(SumMismatch)
  {
    assert Sum(pops) == 10 by {
      assert pops[..1] == [10];
      assert Sum(pops[..1]) == Sum(pops[..1][..0]) + 10;
    }
    var init := LargestRemainders.InitialSeats(pops, 3);
    assert init == [3, 1];
    assert LargestRemainders.Remaining(pops, 3) < 0 by {
      assert init[..1] == [3];
      assert Sum(init[..1]) == Sum(init[..1][..0]) + 3;
    }
    LargestRemainders.HamiltonSeatsTotal(pops, 3);
  }
}
