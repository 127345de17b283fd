/** Outside calls that may fail. Which of them do is an arbitrary function of their number. */
module Failures {

  /** One of the calls from number `from` up to number `to` fails. */
  ghost predicate AnyFails(fails: nat -> bool, from: nat, to: nat) {
    exists n :: from <= n < to && fails(n)
  }

  /** `err` tells exactly whether a call failed between the counts `from` and `to`. */
  ghost predicate Reports(err: bool, fails: nat -> bool, from: nat, to: nat) {
    from <= to && (err <==> AnyFails(fails, from, to))
  }

  lemma ReportsNothing(fails: nat -> bool, n: nat)
    ensures Reports(false, fails, n, n)
  {
  }

  lemma ReportsOne(fails: nat -> bool, n: nat)
    ensures Reports(fails(n), fails, n, n + 1)
  {
  }

  lemma ReportsThen(err: bool, fails: nat -> bool, from: nat, mid: nat, to: nat)
    requires Reports(false, fails, from, mid) && Reports(err, fails, mid, to)
    ensures Reports(err, fails, from, to)
  {
  }
}
