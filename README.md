# Apportionment by equal proportions, no-losers and largest remainders

`apportionment.py` shares a number of seats among states according to their
populations. It has three routines. Each one takes a table of states and returns
each state's population next to the seats it was given.

- **`equal_proportions`** uses the Huntington-Hill method, which is how the US
  House is apportioned.
  - Every state starts with one seat.
  - After that, seats go out one at a time. Each seat goes to the state with
    the highest priority `population / sqrt(s * (s + 1))`, where `s` is the
    number of seats the state already holds.
  - pandas' `idxmax` picks the winner, so when priorities tie, the first
    state in table order wins.
  - The routine stops when the seat total reaches the target.
- **`equal_proportions_no_losers`** runs the same awarding loop, but ignores
  the target. It keeps awarding seats while some state holds fewer seats than
  its floor, which is the state's previous apportionment.
- **`largest_remainders`** uses the Hamilton method with the Hare quota
  `total / target`.
  - Each state first gets its whole number of quotas, raised to at least one
    seat.
  - The seats still missing from the target then go one each to the states
    with the largest fractional remainders.
  - A closing check fails the call if the seat total differs from the target.

The model is in four Dafny modules:

- `Tables` (`tables.dfy`) holds the returned rows, the error outcomes and
  column sums.
- `EqualProportions` (`equal_proportions.dfy`) covers both Huntington-Hill
  routines.
- `LargestRemainders` (`largest_remainders.dfy`) covers the Hamilton method.
- `Scenarios` (`scenarios.dfy`) works through a three-state table of
  populations 100, 80 and 20 sharing five seats. Both methods give
  [2, 2, 1].

## How the model is built

- **The seat column is updated in place.** In both equal-proportions routines
  it is an `array<nat>`, and their `while` loops award one seat per
  iteration in `AwardNextSeat`. In largest remainders, each of the source's
  column statements becomes a small method with a `for` loop over the seat
  array:
  - the quota floors (`SetQuotaFloors`);
  - the raise to one seat (`RaiseToOneSeat`);
  - the extra seats (`AddExtraSeats`).
- **The methods are checked against specification functions.**
  - `Awarded(pops, k)` is the seat column after `k` awards.
  - `HamiltonSeats` is the largest-remainders seat column.
  - `Apportionment` is the whole largest-remainders outcome.
  - The promised properties are proved as lemmas about these functions.
- **Priorities are compared exactly.**
  - `PrioritySquared` is the square of the priority, as a real number.
  - The code compares priorities by cross-multiplying:
    `pa² · sb(sb+1) > pb² · sa(sa+1)` (`Outranks`).
  - `OutranksIffHigherPriority` proves that this comparison orders states
    exactly as the priorities do. Squaring keeps the order because
    priorities are never negative.
- **Quotas are exact integers.**
  - A state's whole number of quotas, `p / (total / target)`, is computed as
    `p * target div total`.
  - Remainders are compared after multiplying by the total. Both are tied
    back to the real-valued quantities by `QuotaFloorIsFloor` and
    `ScaledRemainderIsRemainder`.
- **Error paths become `Result` values.**
  - `equal_proportions` on an empty table with a positive target takes the
    arg-max of an empty column, which raises an error. This is
    `EmptyTable`.
  - A failed closing check in `largest_remainders` is `SumMismatch`.
  - A table whose populations are all zero has a zero quota (NaN when the
    target is also zero), so every state's whole-quota count `0 // quota`
    is NaN. The NaN seats fail the closing check unless the target is
    zero. With a zero target they fail the final integer conversion
    instead, which is `UndefinedQuota`.
  - An empty table under largest remainders passes only for a zero target.
- **The no-losers loop does not always end.**
  - A state with no population is never chosen while another state has
    population. So a populationless state whose floor is above one seat
    stays below that floor forever (`NoLosersDivergesOtherwise`).
  - The method therefore requires `NoLosersTerminates`, which is exactly
    the condition under which the loop ends.
  - Termination is proved from a bound on every state's seats.

## Model

| member | source | states |
|---|---|---|
| Tables.Ones | apportionment.py:37 | the starting column holds exactly one seat for every state, so its total is the number of states |
| Tables.Table | apportionment.py:45 | the returned rows carry the populations handed in, unchanged, next to the computed seats |
| Tables.SumOfIncrement | apportionment.py:43 | adding one seat to one state raises the seat total by exactly one |
| EqualProportions.OutranksIffHigherPriority | apportionment.py:40-41 | the integer cross-multiplied comparison holds exactly when the first state's priority is strictly higher |
| EqualProportions.CrossProductIffHigherPriority | apportionment.py:40 | comparing p²·s'(s'+1) with p'²·s(s+1) decides the order of the squared priorities p²/(s(s+1)) |
| EqualProportions.OutranksIsCrossProduct | apportionment.py:40 | the repeated-addition products in `Outranks` equal the ordinary products |
| EqualProportions.Outranks | apportionment.py:40-41 | definition of the priority comparison; its meaning is proved in `OutranksIffHigherPriority` |
| EqualProportions.PriorityDecreasing | apportionment.py:40 | one more seat never raises a state's priority |
| EqualProportions.PrioritySign | apportionment.py:40 | a state's priority is positive exactly when its population is, and zero otherwise |
| EqualProportions.FirstHighestAmongIsFirstHighest | apportionment.py:41 | the scan over the first m states returns one whose priority beats every earlier state's strictly and every later state's weakly |
| EqualProportions.FirstHighestIsFirstHighest | apportionment.py:41 | the state awarded the next seat has the highest priority, and it is the first such state in table order |
| EqualProportions.FirstHighestUnique | apportionment.py:41 | the first state of highest priority is unique, so any state with that property is the one chosen |
| EqualProportions.ZeroPopulationNotChosen | apportionment.py:40-41 | a state with no population is never chosen while another state has population or comes before it |
| EqualProportions.FirstWinsWithoutPopulation | apportionment.py:40-41 | when no state has population, all priorities tie at zero and the first state is chosen |
| EqualProportions.FirstHighestAmong | apportionment.py:41 | the scan over the first m states returns one of them; that it is the first of highest priority is proved in `FirstHighestAmongIsFirstHighest` |
| EqualProportions.FirstHighest | apportionment.py:41 | the state `idxmax` picks is a state of the table; that it is the first of highest priority is proved in `FirstHighestIsFirstHighest` |
| EqualProportions.Award | apportionment.py:40-43 | an award keeps every state at one seat or more |
| EqualProportions.Awarded | apportionment.py:37-43 | after any number of awards, every state still holds at least one seat |
| EqualProportions.AwardedTotal | apportionment.py:39-43 | after k awards the seat total is the number of states plus k |
| EqualProportions.AwardGoesToFirstHighest | apportionment.py:41-43 | an award gives a state one more seat exactly when it is the first of highest priority, and leaves every other state unchanged |
| EqualProportions.SeatsNeverDecrease | apportionment.py:43 | no state's seat count ever decreases as awards continue |
| EqualProportions.AwardKeepsNoStrongerClaim | apportionment.py:40-43 | if no state's claim to its next seat beats any state's claim to its last seat, one more award keeps it that way |
| EqualProportions.AwardedHasNoStrongerClaim | apportionment.py:39-43 | after any number of awards, no state's priority for its next seat exceeds the priority with which any state won its last seat |
| EqualProportions.AwardNextSeat | apportionment.py:40-43 | the in-place award increments exactly the first highest-priority state, moves the column one step along `Awarded`, and adds one to the total |
| EqualProportions.AwardsFor | apportionment.py:39 | definition of the number of awards the loop makes; that they bring the total to max(target, n) is proved in `EqualProportions.EqualProportions` |
| EqualProportions.EqualProportions | apportionment.py:33-45 | fails exactly on an empty table with a positive target; otherwise returns the populations with the column after max(0, target − n) awards, whose total is max(target, n) |
| EqualProportions.BelowFloor | apportionment.py:55 | definition of the loop test; its role is proved in `AwardUntilFloorsMet` and `NoLosersDivergesOtherwise` |
| EqualProportions.NoLosersTerminates | apportionment.py:55-60 | definition of the inputs on which the loop ends; proved exact by `NoLosersBound` (it ends) and `NoLosersDivergesOtherwise` (it never ends otherwise) |
| EqualProportions.NoLosersDivergesOtherwise | apportionment.py:55-60 | outside `NoLosersTerminates`, some floor stays unmet after every number of awards, so the loop never ends |
| EqualProportions.StaysAtOneSeat | apportionment.py:55-60 | a state with no population keeps its single seat forever while another state has population or comes before it |
| EqualProportions.NoAwardsBelowOneSeatFloors | apportionment.py:53-55 | when no floor exceeds one seat, the loop awards nothing |
| EqualProportions.ChosenStaysCapped | apportionment.py:40-43 | while a populated state is below a floor of at most f, the chosen state ends with at most p²f²+1 seats |
| EqualProportions.OnesWithinCaps | apportionment.py:53 | the starting column of one seat each lies within every state's cap |
| EqualProportions.AwardStaysCapped | apportionment.py:55-60 | while the floors are unmet and reachable, an award keeps every state within its cap |
| EqualProportions.UnmetStaysCapped | apportionment.py:55-60 | while the floors are reachable and stay unmet, every state stays within its cap |
| EqualProportions.FirstHoldsAllAwards | apportionment.py:55-60 | when no state has population, every award goes to the first state |
| EqualProportions.UnmetWithinBound | apportionment.py:55 | on terminating inputs, the floors can stay unmet only for a bounded number of awards |
| EqualProportions.NoLosersBound | apportionment.py:55 | on inputs where the loop ends, one bound caps the number of awards made while a floor is unmet |
| EqualProportions.AwardUntilFloorsMet | apportionment.py:55-60 | the loop ends with every floor met, the column equal to `Awarded` after its awards, and a floor unmet before each award it made |
| EqualProportions.EqualProportionsNoLosers | apportionment.py:48-62 | returns the populations with a column that meets every floor, reached by awards each made while some floor was unmet, and whose total is the number of states plus the awards |
| LargestRemainders.QuotaFloor | apportionment.py:69-73 | a state's whole quotas q satisfy q·total ≤ p·target < (q+1)·total |
| LargestRemainders.QuotaFloorIsFloor | apportionment.py:69-73 | that integer is the floor of p / (total / target) |
| LargestRemainders.Initial | apportionment.py:73-74 | a state's initial seats are its whole quotas, or one seat when it has fewer than one quota |
| LargestRemainders.InitialSeats | apportionment.py:73-74 | the initial column has one entry per state; each entry's meaning is proved in `Initial` and `QuotaFloorIsFloor` |
| LargestRemainders.Remaining | apportionment.py:76 | definition of `remaining_seats`; its bounds are proved in `RemainingBelowCount` and `NoRaiseLeavesSeats` |
| LargestRemainders.ScaledRemainderIsRemainder | apportionment.py:78 | the integer remainder equals the source's remainder p / quota − seats multiplied by the total |
| LargestRemainders.ScaledRemainders | apportionment.py:78 | the remainder column has one entry per state; each entry's meaning is proved in `ScaledRemainderIsRemainder` and `RemainderSign` |
| LargestRemainders.Insert | apportionment.py:79 | inserting a state into the ranking adds exactly that state |
| LargestRemainders.Rank | apportionment.py:79 | the ranking lists the states 0 .. n−1, each once |
| LargestRemainders.RankIsRanking | apportionment.py:79 | the ranking has no repeated state and lists states by non-increasing remainder |
| LargestRemainders.SliceEnd | apportionment.py:81 | slicing `[:stop]` keeps `stop` rows when 0 ≤ stop ≤ n, all n rows when stop > n, and drops −stop rows from the end when stop is negative |
| LargestRemainders.Bump | apportionment.py:84 | handing out extra seats never lowers a state's seats |
| LargestRemainders.BumpSum | apportionment.py:84 | each listed state adds one seat to the total |
| LargestRemainders.BumpAt | apportionment.py:84 | in a list without repeats, a listed state gains exactly one seat and any other state none |
| LargestRemainders.Chosen | apportionment.py:79-81 | every state given an extra seat is a position within the table; that they have the largest remainders is proved in `ChosenHaveLargestRemainders` |
| LargestRemainders.HamiltonSeats | apportionment.py:73-84 | the final column has one entry per state; its entries and total are proved in `HamiltonSeatsPerState` and `HamiltonSeatsTotal` |
| LargestRemainders.RemainingBelowCount | apportionment.py:73-81 | fewer seats remain to hand out than there are states |
| LargestRemainders.NoRaiseLeavesSeats | apportionment.py:74-76 | when no state is raised to one seat, the remaining count is never negative |
| LargestRemainders.HamiltonSeatsPerState | apportionment.py:73-84 | every state ends with its initial seats, plus one exactly when it is chosen, and so with at least one seat |
| LargestRemainders.HamiltonSeatsTotal | apportionment.py:76-87 | the seat total equals the target when the remaining count is not negative, and exceeds the target otherwise; in the first case exactly that many states are chosen |
| LargestRemainders.ChosenHaveLargestRemainders | apportionment.py:78-84 | any state given an extra seat has a remainder at least as large as any state not given one |
| LargestRemainders.RemainderSign | apportionment.py:74-78 | a state raised to one seat has a negative remainder; any other state's scaled remainder lies in [0, total) |
| LargestRemainders.RaisedStatesRankLast | apportionment.py:74-84 | a state raised to one seat gets an extra seat only if every state that was not raised also gets one; this premise arises only on runs that fail the closing check |
| LargestRemainders.RaisedNotChosenOnSuccess | apportionment.py:74-87 | when the remaining count is not negative, so the closing check passes, no state raised to one seat gets an extra seat |
| LargestRemainders.ApportionmentOutcome | apportionment.py:65-89 | when there is population, the routine succeeds exactly when the remaining count is not negative. On success it returns the populations beside `HamiltonSeats`, totalling the target. Otherwise the closing check fails |
| LargestRemainders.Apportionment | apportionment.py:65-89 | definition of the routine's result; its meaning is proved in `ApportionmentOutcome` |
| LargestRemainders.SetQuotaFloors | apportionment.py:73 | sets every state's seats to its whole quotas |
| LargestRemainders.RaiseToOneSeat | apportionment.py:74 | raises every state below one seat to one and leaves the others as they were |
| LargestRemainders.AddExtraSeats | apportionment.py:84 | adds one seat to each of the first `take` states of the ranking |
| LargestRemainders.LargestRemainders | apportionment.py:65-89 | returns exactly `Apportionment`: the empty and populationless tables, the closing check, and the computed seat column |
| Scenarios.EqualProportionsThreeStates | apportionment.py:33-45 | populations 100, 80 and 20 sharing five seats end with 2, 2 and 1 seats |
| Scenarios.FirstAward | apportionment.py:40-41 | with one seat each, the state of 100 is chosen |
| Scenarios.SecondAward | apportionment.py:40-41 | with 2, 1 and 1 seats, the state of 80 is chosen |
| Scenarios.LargestRemaindersThreeStates | apportionment.py:65-89 | the same table under largest remainders returns seats 2, 2 and 1 with no remainder used |
| Scenarios.ExactQuotaOverAllocates | apportionment.py:69-87 | with exact quotas, populations [10, 0] and a target of 3 fail the closing check, since the whole quota 3 and the raise to one seat over-allocate |

## Left out

- `main` (`apportionment.py:92-122`) is left out. It handles argument parsing, CSV reading and writing, and the `difference` column. The floor, which `main` derives as `APP2020 - APPCHANGE` at line 114, is an input sequence here.
- The cube-root target (`apportionment.py:116`) is left out. Every routine takes an integer target, so `int(...)` truncating a fractional target at line 76 is not modelled.
- Floating point is replaced by exact arithmetic. Rounding in `np.sqrt`, in the float quota and in the float remainders is not modelled. Near-ties that floats could misorder are decided exactly. Rounding can also change a whole-quota count at an exact multiple, and with it the closing check: for populations [10, 0] and target 3 the float quota 10/3 rounds up, `10 // quota` gives 2, and the source returns [2, 1], while the exact model gives 3 whole quotas, 4 initial seats and `SumMismatch` (`Scenarios.ExactQuotaOverAllocates`).
- The console traces (`apportionment.py:44`, `61`, `80`, `82`) are left out. So are the computations that feed only them: the unused `total_population` in the two equal-proportions routines, the `max()` priority, and `seatcount` in the no-losers loop.
- pandas side effects on the caller's frame are not modelled. The source leaves `SEATS` and `PRIORITY` columns behind; the model returns fresh rows and keeps its seat column local.
- Tie order in `sort_values` (`apportionment.py:79`) is fixed rather than left open. pandas' default sort is not stable. `Rank` keeps equal remainders in table order, and the contracts about the chosen states (`ChosenHaveLargestRemainders`, `RaisedStatesRankLast`, `HamiltonSeatsTotal`) hold whatever order equal remainders are placed in.
- States are identified by position. The source adds seats by index label (lines 43, 60 and 84), and the model assumes the labels are unique; with a repeated label every row sharing the winner's label would gain the seat.
- With a zero target, an empty table's quota under largest remainders is 0/0. The model assumes numpy's NaN there rather than a `ZeroDivisionError`, so the call returns an empty table. With any other target the quota is 0.0 and the closing check fails.
- EqualProportions.EqualProportionsNoLosers requires `NoLosersTerminates`, because the source loops forever on the other inputs. `NoLosersDivergesOtherwise` proves that those inputs never terminate, rather than modelling them as an error.
- The `target` argument of `equal_proportions_no_losers` is accepted and ignored, as in the source.
