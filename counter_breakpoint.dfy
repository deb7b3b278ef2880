/** A breakpoint used purely as a hit counter (src/CounterBreakpoint.py). */
module Counter {
  import opened Address

  /** The score of a counter after `hits` stops: a good counter counts up, a bad one down. */
  function Signed(isGood: bool, hits: nat): int
  {
    if isGood then hits as int else -(hits as int)
  }

  class CounterBreakpoint {
    /** The gdb location the breakpoint was registered at (always starting with '*'). */
    const location: string
    /** True for a good-to-hit breakpoint, false for a bad-to-hit one. */
    const isGood: bool
    var currentScore: int
    /** Number of `Stop` calls since construction or the last reset. */
    ghost var hits: nat

    ghost predicate Valid()
      reads this
    {
      |location| > 0 && location[0] == '*' && currentScore == Signed(isGood, hits)
    }

    constructor (addr: string, isGood: bool)
      requires addr != []
      ensures Valid()
      ensures location == Normalize(addr).value && this.isGood == isGood
      ensures hits == 0 && currentScore == 0
    {
      this.isGood := isGood;
      location := Normalize(addr).value;
      currentScore := 0;
      hits := 0;
    }

    /** The score accumulated since the last reset. */
    function GetScore(): (s: int)
      reads this
      requires Valid()
      ensures s == Signed(isGood, hits)
    {
      currentScore
    }

    method ResetScore()
      requires Valid()
      modifies this
      ensures Valid() && hits == 0 && currentScore == 0
    {
      currentScore := 0;
      hits := 0;
    }

    /** Returns the score and resets it to 0 afterwards. */
    method PopScore() returns (i: int)
      requires Valid()
      modifies this
      ensures Valid() && hits == 0 && currentScore == 0
      ensures i == Signed(isGood, old(hits)) && i == old(currentScore)
    {
      i := GetScore();
      ResetScore();
    }

    /** Called by the debugger on every hit; never halts the target. */
    method Stop() returns (halt: bool)
      requires Valid()
      modifies this
      ensures Valid() && hits == old(hits) + 1
      ensures currentScore == old(currentScore) + (if isGood then 1 else -1)
      ensures !halt
    {
      if isGood {
        currentScore := currentScore + 1;
      } else {
        currentScore := currentScore - 1;
      }
      hits := hits + 1;
      halt := false;
    }
  }
}
