/** The positive, negative and win counters behind one score (src/BreakpointManager.py). */
module Scoring {
  import opened Address
  import opened Counter

  /** The instrumented code locations a run of the target can hit. */
  datatype Site = Positive | Negative | Win

  /** Which of the three addresses the operator supplied. */
  datatype Config = Config(hasPos: bool, hasNeg: bool, hasWin: bool)

  /** Hits counted on the positive, negative and win breakpoints since the last reset. */
  datatype Hits = Hits(pos: nat, neg: nat, win: nat)

  const NoHits := Hits(0, 0, 0)

  /** The signed score: positive hits count up, negative hits count down. */
  function Score(h: Hits): int
  {
    h.pos - h.neg
  }

  /** The win breakpoint was reached at least once. */
  predicate Won(h: Hits)
  {
    h.win != 0
  }

  /** One hit at `site`, as the counters see it: only a site that has a breakpoint counts. */
  function Record(cfg: Config, h: Hits, site: Site): Hits
  {
    match site
    case Positive => if cfg.hasPos then h.(pos := h.pos + 1) else h
    case Negative => if cfg.hasNeg then h.(neg := h.neg + 1) else h
    case Win => if cfg.hasWin then h.(win := h.win + 1) else h
  }

  /** The counters after the hits in `trace`, delivered in order, starting from `h`. */
  function Replay(cfg: Config, h: Hits, trace: seq<Site>): Hits
  {
    if trace == [] then h
    else Record(cfg, Replay(cfg, h, trace[..|trace| - 1]), trace[|trace| - 1])
  }

  /** How often `site` occurs in `trace`. */
  function Occurrences(trace: seq<Site>, site: Site): nat
  {
    if trace == [] then 0
    else Occurrences(trace[..|trace| - 1], site) + (if trace[|trace| - 1] == site then 1 else 0)
  }

  /** Traces are joined without regard to grouping. */
  lemma Associative(a: seq<Site>, b: seq<Site>, c: seq<Site>)
    ensures (a + b) + c == a + (b + c)
  {
  }

  /** Counting over a hit followed by a trace. */
  lemma {:induction false} OccurrencesCons(x: Site, t: seq<Site>)
    ensures Occurrences([x] + t, Positive) == (if x == Positive then 1 else 0) + Occurrences(t, Positive)
    ensures Occurrences([x] + t, Win) == (if x == Win then 1 else 0) + Occurrences(t, Win)
    decreases |t|
  {
    if t != [] {
      OccurrencesCons(x, t[..|t| - 1]);
      assert ([x] + t)[..|t|] == [x] + t[..|t| - 1];
    } else {
      assert [x] + t == [x];
      assert [x][..0] == [];
    }
  }

  /** Counters reset before a run hold, per breakpoint that exists, how often the run hit it. */
  lemma {:induction false} ReplayCounts(cfg: Config, trace: seq<Site>)
    ensures Replay(cfg, NoHits, trace) == Hits(
      if cfg.hasPos then Occurrences(trace, Positive) else 0,
      if cfg.hasNeg then Occurrences(trace, Negative) else 0,
      if cfg.hasWin then Occurrences(trace, Win) else 0)
  {
    if trace != [] {
      ReplayCounts(cfg, trace[..|trace| - 1]);
    }
  }

  class BreakpointManager {
    const posB: CounterBreakpoint?
    const negB: CounterBreakpoint?
    const winB: CounterBreakpoint?
    /** The counters this manager owns. */
    ghost const Repr: set<object>

    ghost predicate Valid()
      reads this, Repr
    {
      && this !in Repr
      && (posB != null ==> posB in Repr && posB.isGood && posB.Valid())
      && (negB != null ==> negB in Repr && !negB.isGood && negB.Valid())
      && (winB != null ==> winB in Repr && winB.isGood && winB.Valid())
      && (posB != null && negB != null ==> posB != negB)
      && (posB != null && winB != null ==> posB != winB)
      && (negB != null && winB != null ==> negB != winB)
    }

    /** Which counters exist. */
    function Cfg(): Config
      reads this
    {
      Config(posB != null, negB != null, winB != null)
    }

    /** The hits of every counter since its last reset; an absent counter has none. */
    ghost function Tally(): Hits
      reads this, Repr
      requires Valid()
    {
      Hits(if posB != null then posB.hits else 0,
           if negB != null then negB.hits else 0,
           if winB != null then winB.hits else 0)
    }

    /** Only truthy (non-empty) addresses get a breakpoint; the win counter is a good one. */
    constructor (pAddr: string, nAddr: string, wAddr: string)
      ensures Valid() && fresh(Repr)
      ensures Cfg() == Config(pAddr != [], nAddr != [], wAddr != [])
      ensures Tally() == NoHits
      ensures posB != null ==> posB.location == Normalize(pAddr).value
      ensures negB != null ==> negB.location == Normalize(nAddr).value
      ensures winB != null ==> winB.location == Normalize(wAddr).value
    {
      var p: CounterBreakpoint? := null;
      var n: CounterBreakpoint? := null;
      var w: CounterBreakpoint? := null;
      if pAddr != [] {
        p := new CounterBreakpoint(pAddr, true);
      }
      if nAddr != [] {
        n := new CounterBreakpoint(nAddr, false);
      }
      if wAddr != [] {
        w := new CounterBreakpoint(wAddr, true);
      }
      posB, negB, winB := p, n, w;
      Repr := (if p != null then {p} else {}) + (if n != null then {n} else {})
        + (if w != null then {w} else {});
    }

    /** Sum of the positive and negative scores; the win counter plays no part. */
    function GetScore(): (score: int)
      reads this, Repr
      requires Valid()
      ensures score == Score(Tally())
    {
      (if posB != null then posB.GetScore() else 0)
        + (if negB != null then negB.GetScore() else 0)
    }

    /** Zeroes every counter that exists, the win counter included. */
    method ResetBreakpoints()
      requires Valid()
      modifies Repr
      ensures Valid() && Tally() == NoHits
    {
      if posB != null {
        posB.ResetScore();
      }
      if negB != null {
        negB.ResetScore();
      }
      if winB != null {
        winB.ResetScore();
      }
    }

    /** Returns the score and zeroes the positive and negative counters; the win counter keeps its hits. */
    method PopScore() returns (score: int)
      requires Valid()
      modifies Repr
      ensures Valid()
      ensures score == old(Tally().pos) - old(Tally().neg)
      ensures Tally() == Hits(0, 0, old(Tally()).win)
    {
      score := 0;
      if posB != null {
        var s := posB.PopScore();
        score := score + s;
      }
      if negB != null {
        var s := negB.PopScore();
        score := score + s;
      }
    }

    /** The win counter exists and was hit; without a win counter the source answers None, which is falsy. */
    function HitWin(): (won: bool)
      reads this, Repr
      requires Valid()
      ensures won <==> winB != null && Won(Tally())
    {
      winB != null && winB.GetScore() != 0
    }

    /** The debugger reporting one hit at `site`: the breakpoint registered there, if any, stops. */
    method Hit(site: Site)
      requires Valid()
      modifies Repr
      ensures Valid() && Tally() == Record(Cfg(), old(Tally()), site)
    {
      match site
      case Positive =>
        if posB != null {
          var halt := posB.Stop();
        }
      case Negative =>
        if negB != null {
          var halt := negB.Stop();
        }
      case Win =>
        if winB != null {
          var halt := winB.Stop();
        }
    }
  }

  /** Straight after a reset the score is 0 and the win flag is down. */
  lemma ResetLeavesNothing(bm: BreakpointManager)
    requires bm.Valid() && bm.Tally() == NoHits
    ensures bm.GetScore() == 0 && !bm.HitWin()
  {
  }
}
