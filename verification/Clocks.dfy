/** The clock that diff_main looks at: when its deadline has passed, the search gives up. */
module Clocks {
  /** The clock: each test of the deadline says whether it has passed. */
  class Clock {
    const late: nat -> bool
    var tests: nat

    constructor (lateness: nat -> bool)
      ensures late == lateness && tests == 0
    {
      late, tests := lateness, 0;
    }

    method Test() returns (passed: bool)
      modifies this
      ensures passed == late(old(tests)) && tests == old(tests) + 1
    {
      passed := late(tests);
      tests := tests + 1;
    }
  }

  /** The deadline has not passed at any of n tests. */
  ghost predicate InTime(late: nat -> bool, from: nat, n: nat) {
    forall i: nat :: from <= i < from + n ==> !late(i)
  }
}
