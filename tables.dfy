/** Shared vocabulary of the three apportionment routines: the rows they
    return, their error outcomes and sums over seat columns. */
module Tables {

  /** One row of a returned table: a state's population and its seats. */
  datatype Row = Row(population: nat, seats: nat)

  /** The ways a routine ends without a table. */
  datatype Error =
    | EmptyTable      // the arg-max of an empty priority column is undefined
    | UndefinedQuota  // every population is zero, so the seat column is NaN
    | SumMismatch     // the closing sanity check on the seat total fails

  datatype Result<T> = Success(value: T) | Failure(error: Error)

  /** Sum of a column, peeling off the last entry (so prefixes extend naturally). */
  function Sum(s: seq<int>): int
  {
    if s == [] then 0 else Sum(s[..|s| - 1]) + s[|s| - 1]
  }

  predicate AllSeated(seats: seq<int>)
  {
    forall i :: 0 <= i < |seats| ==> seats[i] >= 1
  }

  /** The starting column: one seat for each of `n` states. */
  function Ones(n: nat): (s: seq<nat>)
    ensures |s| == n && forall i :: 0 <= i < n ==> s[i] == 1
    ensures Sum(s) == n
  {
    if n == 0 then [] else
      var s := Ones(n - 1) + [1];
      assert s[..n - 1] == Ones(n - 1);
      s
  }

  function SeatsOf(rows: seq<Row>): seq<nat>
  {
    seq(|rows|, i requires 0 <= i < |rows| => rows[i].seats)
  }

  function PopulationsOf(rows: seq<Row>): seq<nat>
  {
    seq(|rows|, i requires 0 <= i < |rows| => rows[i].population)
  }

  /** The returned table: the populations handed in, beside the seats computed. */
  function Table(pops: seq<nat>, seats: seq<nat>): (rows: seq<Row>)
    requires |pops| == |seats|
    ensures PopulationsOf(rows) == pops && SeatsOf(rows) == seats
  {
    seq(|pops|, i requires 0 <= i < |pops| => Row(pops[i], seats[i]))
  }

  /** A column of natural numbers has a natural total. */
  lemma {:induction false} SumOfNaturals(s: seq<nat>)
    ensures Sum(s) >= 0
  {
    if s != [] {
      SumOfNaturals(s[..|s| - 1]);
    }
  }

  /** Adding one seat to one state adds one to the total. */
  lemma {:induction false} SumOfIncrement(s: seq<int>, i: nat)
    requires i < |s|
    ensures Sum(s[i := s[i] + 1]) == Sum(s) + 1
  {
    var t := s[i := s[i] + 1];
    if i == |s| - 1 {
      assert t[..|t| - 1] == s[..|s| - 1];
    } else {
      SumOfIncrement(s[..|s| - 1], i);
      assert t[..|t| - 1] == s[..|s| - 1][i := s[i] + 1];
    }
  }

  /** A column bounded entry by entry by another has a bounded total. */
  lemma {:induction false} SumMonotone(s: seq<int>, t: seq<int>)
    requires |s| == |t|
    requires forall i :: 0 <= i < |s| ==> s[i] <= t[i]
    ensures Sum(s) <= Sum(t)
  {
    if s != [] {
      SumMonotone(s[..|s| - 1], t[..|t| - 1]);
    }
  }
}
