/** The chunk-wise search of src/Bruteforce.py, against a traced program seen only through
    the hits it produces on the breakpoints. */
module Bruteforce {
  import opened Wrappers
  import opened Scoring
  import opened Chunks

  /** The traced program, as the debugger observes it: the breakpoint sites it hits, in order,
      while it processes one input string (the string handed to the `run` command). */
  type Target = string -> seq<Site>

  const Lowercase: string := "abcdefghijklmnopqrstuvwxyz"
  const Uppercase: string := "ABCDEFGHIJKLMNOPQRSTUVWXYZ"
  const DecimalDigits: string := "0123456789"
  const Punctuation: string := "{}_!?'#%+/ ;[`@-\".<,*|&$(]=)^>\\:~"

  /** The charset of src/Bruteforce.py, most likely character classes first: the one string
      literal of the source, written here as its four classes. */
  const Charset: string := Lowercase + Uppercase + DecimalDigits + Punctuation

  /** The "impossible" character used for calibration. */
  const Filler: char := '^'

  /** `c * n` in Python: empty for `n <= 0`. */
  function Repeat(c: char, n: int): (r: string)
    ensures |r| == if n > 0 then n else 0
    ensures forall i :: 0 <= i < |r| ==> r[i] == c
    decreases n
  {
    if n <= 0 then [] else [c] + Repeat(c, n - 1)
  }

  /** generateCharset: the candidates of one round for the given chunk size. */
  function GenerateCharset(chunksize: int): seq<string>
  {
    Candidates(Charset, chunksize)
  }

  /** Acceptance rule of a candidate: the packaged search also accepts a win hit, the
      single-file script of barf.py only a better score. */
  datatype Rule = ScoreOrWin | ScoreOnly

  /** What one round is run with: the breakpoints set, what a run of the target on an input
      leaves on the counters, the acceptance rule, the calibration chunk and the candidates in
      the order they are tried. */
  datatype Searcher = Searcher(cfg: Config, run: string -> Hits, rule: Rule, filler: string, cands: seq<string>)

  /** The counters after they were reset and `target` ran once on the input: the hits of the
      run, delivered in order to the breakpoints set for `cfg`. */
  function Runner(cfg: Config, target: Target): string -> Hits
  {
    inp => Replay(cfg, NoHits, target(inp))
  }

  /** The round of src/Bruteforce.py for a chunk size. */
  function Packaged(cfg: Config, target: Target, chunksize: int): Searcher
  {
    Searcher(cfg, Runner(cfg, target), ScoreOrWin, Repeat(Filler, chunksize), GenerateCharset(chunksize))
  }

  /** The counters after the counters were reset and `inp` was run once. */
  function Trial(s: Searcher, inp: string): Hits
  {
    s.run(inp)
  }

  /** The round runs `target`: every run it makes leaves the counters the hits of the target
      on that input leave. */
  ghost predicate RunsTarget(s: Searcher, target: Target)
  {
    forall inp {:trigger target(inp)} :: s.run(inp) == Replay(s.cfg, NoHits, target(inp))
  }

  /** A round built by Runner runs its target. */
  lemma RunnerRunsTarget(s: Searcher, target: Target)
    requires s.run == Runner(s.cfg, target)
    ensures RunsTarget(s, target)
  {
  }

  /** No run of the round counts a win unless the win breakpoint is set. */
  ghost predicate WinsNeedBreakpoint(s: Searcher)
  {
    forall inp :: Won(s.run(inp)) ==> s.cfg.hasWin
  }

  /** The calibration score: the known parts around the filler chunk. */
  function RefScore(s: Searcher, pre: string, suf: string): int
  {
    Score(Trial(s, pre + s.filler + suf))
  }

  /** Whether a round accepts candidate `c`. */
  predicate Accepted(s: Searcher, pre: string, suf: string, c: string)
  {
    var h := Trial(s, pre + c + suf);
    Score(h) > RefScore(s, pre, suf) || (s.rule == ScoreOrWin && Won(h))
  }

  /** Whether a round accepts its candidate number `j`. */
  predicate AcceptedAt(s: Searcher, pre: string, suf: string, j: nat)
    requires j < |s.cands|
  {
    Accepted(s, pre, suf, s.cands[j])
  }

  /** The first candidate at or after `i` that the round accepts, or |s.cands| when there is none. */
  function FirstAccepted(s: Searcher, pre: string, suf: string, i: nat): (k: nat)
    requires i <= |s.cands|
    decreases |s.cands| - i
  {
    if i == |s.cands| || AcceptedAt(s, pre, suf, i) then i else FirstAccepted(s, pre, suf, i + 1)
  }

  /** How many candidates a round runs before it stops: up to and including the first accepted one. */
  function TriedCount(s: Searcher, pre: string, suf: string): (n: nat)
    ensures n <= |s.cands|
  {
    FirstAcceptedFirst(s, pre, suf, 0);
    var k := FirstAccepted(s, pre, suf, 0);
    if k < |s.cands| then k + 1 else k
  }

  /** One round: the first candidate that is accepted, or None when none is. */
  function Scan(s: Searcher, pre: string, suf: string): Option<string>
  {
    ScanFrom(s, pre, suf, 0)
  }

  /** The candidates from number `i` on, tried in order. */
  function ScanFrom(s: Searcher, pre: string, suf: string, i: nat): Option<string>
    decreases |s.cands| - i
  {
    if i >= |s.cands| then None
    else if AcceptedAt(s, pre, suf, i) then Some(s.cands[i])
    else ScanFrom(s, pre, suf, i + 1)
  }

  /** The inputs a round runs, in order: the calibration input, then each candidate tried. */
  function TriedInputs(s: Searcher, pre: string, suf: string): seq<string>
  {
    [pre + s.filler + suf] + Attempts(s, pre, suf, TriedCount(s, pre, suf))
  }

  /** The inputs of the first `n` candidates, in order. */
  function Attempts(s: Searcher, pre: string, suf: string, n: nat): (r: seq<string>)
    requires n <= |s.cands|
    ensures |r| == n
    ensures forall j {:trigger r[j]} :: 0 <= j < n ==> r[j] == pre + s.cands[j] + suf
  {
    if n == 0 then [] else Attempts(s, pre, suf, n - 1) + [pre + s.cands[n - 1] + suf]
  }

  /** FirstAccepted stops at an accepted candidate and passes over rejected ones only. */
  lemma {:induction false} FirstAcceptedFirst(s: Searcher, pre: string, suf: string, i: nat)
    requires i <= |s.cands|
    ensures i <= FirstAccepted(s, pre, suf, i) <= |s.cands|
    ensures FirstAccepted(s, pre, suf, i) < |s.cands| ==> AcceptedAt(s, pre, suf, FirstAccepted(s, pre, suf, i))
    ensures forall j :: i <= j < FirstAccepted(s, pre, suf, i) ==> !AcceptedAt(s, pre, suf, j)
    decreases |s.cands| - i
  {
    if i < |s.cands| && !AcceptedAt(s, pre, suf, i) {
      FirstAcceptedFirst(s, pre, suf, i + 1);
    }
  }

  /** Conversely, a position before which every candidate from `i` on was rejected, and which is
      accepted or the end, is where FirstAccepted stops. */
  lemma {:induction false} FirstAcceptedIs(s: Searcher, pre: string, suf: string, i: nat, k: nat)
    requires i <= k <= |s.cands|
    requires k < |s.cands| ==> AcceptedAt(s, pre, suf, k)
    requires forall j :: i <= j < k ==> !AcceptedAt(s, pre, suf, j)
    ensures FirstAccepted(s, pre, suf, i) == k
    decreases k - i
  {
    if i < k {
      FirstAcceptedIs(s, pre, suf, i + 1, k);
    }
  }

  /** The scan from `i` returns the candidate at the first accepted position, if there is one. */
  lemma {:induction false} ScanAtFirstAccepted(s: Searcher, pre: string, suf: string, i: nat)
    requires i <= |s.cands|
    ensures ScanFrom(s, pre, suf, i)
      == if FirstAccepted(s, pre, suf, i) < |s.cands| then Some(s.cands[FirstAccepted(s, pre, suf, i)]) else None
    decreases |s.cands| - i
  {
    if i < |s.cands| && !AcceptedAt(s, pre, suf, i) {
      ScanAtFirstAccepted(s, pre, suf, i + 1);
    }
  }

  /** A round fails exactly when it accepts no candidate; otherwise it returns an accepted
      candidate, and every candidate before that one was rejected. */
  lemma ScanFirst(s: Searcher, pre: string, suf: string)
    ensures Scan(s, pre, suf).None? <==> forall j :: 0 <= j < |s.cands| ==> !AcceptedAt(s, pre, suf, j)
    ensures Scan(s, pre, suf).Some? ==> Accepted(s, pre, suf, Scan(s, pre, suf).value)
    ensures Scan(s, pre, suf).Some? ==> exists k :: 0 <= k < |s.cands| && s.cands[k] == Scan(s, pre, suf).value
                                          && (forall j :: 0 <= j < k ==> !AcceptedAt(s, pre, suf, j))
  {
    FirstAcceptedFirst(s, pre, suf, 0);
    ScanAtFirstAccepted(s, pre, suf, 0);
    var k := FirstAccepted(s, pre, suf, 0);
    if k < |s.cands| {
      assert AcceptedAt(s, pre, suf, k);
    }
  }

  /** A round that rejected every candidate before `i` and accepts candidate `i` returns it after `i + 1` trials. */
  lemma ScanStopsAt(s: Searcher, pre: string, suf: string, i: nat)
    requires i < |s.cands| && RejectedBefore(s, pre, suf, i) && Accepted(s, pre, suf, s.cands[i])
    ensures Scan(s, pre, suf) == Some(s.cands[i]) && TriedCount(s, pre, suf) == i + 1
  {
    assert AcceptedAt(s, pre, suf, i);
    FirstAcceptedIs(s, pre, suf, 0, i);
    assert FirstAccepted(s, pre, suf, 0) == i;
    ScanAtFirstAccepted(s, pre, suf, 0);
  }

  /** A round that rejected every candidate fails after trying them all. */
  lemma ScanExhausted(s: Searcher, pre: string, suf: string)
    requires RejectedBefore(s, pre, suf, |s.cands|)
    ensures Scan(s, pre, suf) == None && TriedCount(s, pre, suf) == |s.cands|
  {
    FirstAcceptedIs(s, pre, suf, 0, |s.cands|);
    ScanAtFirstAccepted(s, pre, suf, 0);
  }

  /** TryInput: the target runs `inp`, and the debugger reports each hit to the breakpoint set there. */
  method TryInput(bm: BreakpointManager, target: Target, inp: string)
    requires bm.Valid()
    modifies bm.Repr
    ensures bm.Valid()
    ensures bm.Tally() == Replay(bm.Cfg(), old(bm.Tally()), target(inp))
  {
    var trace := target(inp);
    for i := 0 to |trace|
      invariant bm.Valid()
      invariant bm.Tally() == Replay(bm.Cfg(), old(bm.Tally()), trace[..i])
    {
      assert trace[..i + 1][..i] == trace[..i];
      bm.Hit(trace[i]);
    }
    assert trace[..|trace|] == trace;
  }

  /** The reset, run and pop that every trial of a round performs: the score of one fresh run,
      with the win hits of that run left on the win counter. */
  method RunOnce(bm: BreakpointManager, target: Target, inp: string) returns (score: int)
    requires bm.Valid()
    modifies bm.Repr
    ensures bm.Valid()
    ensures score == Score(Replay(bm.Cfg(), NoHits, target(inp)))
    ensures bm.Tally() == Hits(0, 0, Replay(bm.Cfg(), NoHits, target(inp)).win)
  {
    bm.ResetBreakpoints();
    TryInput(bm, target, inp);
    ghost var h := bm.Tally();
    score := bm.PopScore();
  }

  /** Without a win breakpoint no run counts a win hit. */
  lemma {:induction false} NoWinWithoutBreakpoint(cfg: Config, h: Hits, trace: seq<Site>)
    requires !cfg.hasWin
    ensures Replay(cfg, h, trace).win == h.win
  {
    if trace != [] {
      NoWinWithoutBreakpoint(cfg, h, trace[..|trace| - 1]);
    }
  }

  /** Candidate `k` of round `s` counts as tried and rejected for all `j < i`. */
  ghost predicate RejectedBefore(s: Searcher, pre: string, suf: string, i: nat)
  {
    forall j :: 0 <= j < i && j < |s.cands| ==> !AcceptedAt(s, pre, suf, j)
  }

  /** The candidate loop of BruteforceChar, shared by src/Bruteforce.py and barf.py: try each
      candidate after a reset and stop at the first one the rule accepts. `keyFragment` is still
      empty here, so it only appears where the source concatenates it. The win counter is left
      holding the hits of the last input run. */
  method Sweep(bm: BreakpointManager, target: Target, ghost s: Searcher, knownPrefix: string, knownSuffix: string,
               candidates: seq<string>, rule: Rule, refScore: int, ghost calibration: string)
    returns (keyFragment: string, found: bool, ghost tried: seq<string>)
    requires bm.Valid()
    requires s.cfg == bm.Cfg() && RunsTarget(s, target) && s.rule == rule && s.cands == candidates
    requires refScore == RefScore(s, knownPrefix, knownSuffix)
    requires calibration == knownPrefix + s.filler + knownSuffix
    requires bm.Tally() == Hits(0, 0, Trial(s, calibration).win)
    modifies bm.Repr
    ensures bm.Valid()
    ensures (if found then Some(keyFragment) else None) == Scan(s, knownPrefix, knownSuffix)
    ensures tried == TriedInputs(s, knownPrefix, knownSuffix)
    ensures bm.Tally() == Hits(0, 0, Trial(s, tried[|tried| - 1]).win)
  {
    keyFragment := "";
    found := false;
    tried := [calibration];
    var i := 0;
    while i < |candidates|
      invariant 0 <= i <= |candidates|
      invariant bm.Valid()
      invariant RejectedBefore(s, knownPrefix, knownSuffix, i)
      invariant tried == [calibration] + Attempts(s, knownPrefix, knownSuffix, i)
      invariant bm.Tally() == Hits(0, 0, Trial(s, tried[|tried| - 1]).win)
      invariant !found && keyFragment == ""
    {
      var c := candidates[i];
      // generate full input string
      var inp := knownPrefix + keyFragment + c + knownSuffix;
      EmptyFragment(knownPrefix, c, knownSuffix);
      var accepted := TryCandidate(bm, target, s, knownPrefix, knownSuffix, c, inp, rule, refScore);
      tried := tried + [inp];
      if accepted {
        keyFragment := keyFragment + c;
        found := true;
        break;
      }
      RejectedNext(s, knownPrefix, knownSuffix, i);
      i := i + 1;
    }
    if found {
      assert keyFragment == candidates[i];
      ScanStopsAt(s, knownPrefix, knownSuffix, i);
    } else {
      ScanExhausted(s, knownPrefix, knownSuffix);
    }
  }

  /** BruteforceChar of src/Bruteforce.py: calibrate with the filler chunk, then try every
      candidate in order and stop at the first one that beats the calibration score or hits win.
      Afterwards the score is zero and the win flag is that of the accepted candidate's run. */
  method BruteforceChar(bm: BreakpointManager, target: Target, knownPrefix: string, knownSuffix: string, chunksize: int)
    returns (res: Option<string>, ghost tried: seq<string>)
    requires bm.Valid()
    modifies bm.Repr
    ensures bm.Valid()
    ensures res == Scan(Packaged(bm.Cfg(), target, chunksize), knownPrefix, knownSuffix)
    ensures tried == TriedInputs(Packaged(bm.Cfg(), target, chunksize), knownPrefix, knownSuffix)
    ensures bm.Tally() == Hits(0, 0, if res.Some? then Trial(Packaged(bm.Cfg(), target, chunksize), knownPrefix + res.value + knownSuffix).win else 0)
  {
    ghost var s := Packaged(bm.Cfg(), target, chunksize);
    var keyFragment := "";

    // the score of the known parts around an "impossible" chunk is the baseline
    var calibration := knownPrefix + keyFragment + Repeat(Filler, chunksize) + knownSuffix;
    EmptyFragment(knownPrefix, s.filler, knownSuffix);
    var refScore := RunOnce(bm, target, calibration);

    var found;
    RunnerRunsTarget(s, target);
    keyFragment, found, tried := Sweep(bm, target, s, knownPrefix, knownSuffix, GenerateCharset(chunksize), ScoreOrWin, refScore, calibration);
    res := if found then Some(keyFragment) else None;
    CandidatesNonEmpty(chunksize);
    LastTried(s, knownPrefix, knownSuffix);
  }

  /** The last input a round runs: the accepted candidate, or, when every candidate of a
      non-empty round was rejected, the last candidate. */
  lemma LastTried(s: Searcher, pre: string, suf: string)
    ensures |TriedInputs(s, pre, suf)| == TriedCount(s, pre, suf) + 1
    ensures Scan(s, pre, suf).Some? ==> Last(TriedInputs(s, pre, suf)) == pre + Scan(s, pre, suf).value + suf
    ensures (Scan(s, pre, suf).None? && |s.cands| > 0) ==>
      (Last(TriedInputs(s, pre, suf)) == pre + s.cands[|s.cands| - 1] + suf
       && !AcceptedAt(s, pre, suf, |s.cands| - 1))
  {
    FirstAcceptedFirst(s, pre, suf, 0);
    ScanAtFirstAccepted(s, pre, suf, 0);
    var k := FirstAccepted(s, pre, suf, 0);
    var n := TriedCount(s, pre, suf);
    var a := Attempts(s, pre, suf, n);
    assert TriedInputs(s, pre, suf) == [pre + s.filler + suf] + a;
    if n > 0 {
      assert Last(TriedInputs(s, pre, suf)) == a[n - 1];
      assert n - 1 == if k < |s.cands| then k else |s.cands| - 1;
    }
  }

  /** The last element of a non-empty sequence. */
  function Last(t: seq<string>): string
    requires |t| > 0
  {
    t[|t| - 1]
  }

  /** One pass of the candidate loop: run the input of candidate `c` after a reset, and test
      the score against the calibration score and, under the packaged rule, the win counter. */
  method TryCandidate(bm: BreakpointManager, target: Target, ghost s: Searcher, ghost pre: string, ghost suf: string,
                      ghost c: string, inp: string, rule: Rule, refScore: int)
    returns (accepted: bool)
    requires bm.Valid() && s.cfg == bm.Cfg() && RunsTarget(s, target) && s.rule == rule
    requires refScore == RefScore(s, pre, suf) && inp == pre + c + suf
    modifies bm.Repr
    ensures bm.Valid()
    ensures accepted == Accepted(s, pre, suf, c)
    ensures bm.Tally() == Hits(0, 0, Trial(s, inp).win)
  {
    var score := RunOnce(bm, target, inp);
    RunnerNeedsBreakpoint(s, target);
    Verdict(s, pre, suf, c, score, refScore, bm.HitWin());
    accepted := score > refScore || (rule == ScoreOrWin && bm.HitWin());
  }

  /** The test on one candidate is the acceptance rule of the round. */
  lemma Verdict(s: Searcher, pre: string, suf: string, c: string, score: int, refScore: int, won: bool)
    requires refScore == RefScore(s, pre, suf)
    requires score == Score(Trial(s, pre + c + suf))
    requires won <==> s.cfg.hasWin && Won(Trial(s, pre + c + suf))
    requires WinsNeedBreakpoint(s)
    ensures (score > refScore || (s.rule == ScoreOrWin && won)) == Accepted(s, pre, suf, c)
  {
  }

  /** A candidate rejected after the ones before it extends the rejected run by one. */
  lemma RejectedNext(s: Searcher, pre: string, suf: string, i: nat)
    requires i < |s.cands| && RejectedBefore(s, pre, suf, i) && !Accepted(s, pre, suf, s.cands[i])
    ensures RejectedBefore(s, pre, suf, i + 1)
  {
  }

  /** An empty key fragment leaves the input unchanged. */
  lemma EmptyFragment(pre: string, chunk: string, suf: string)
    ensures pre + "" + chunk + suf == pre + chunk + suf
  {
    assert pre + "" == pre;
  }

  /** Every round has candidates to try. */
  lemma CandidatesNonEmpty(chunksize: int)
    ensures |GenerateCharset(chunksize)| > 0
  {
    CandidatesCount(Charset, chunksize);
    PowPositive(|Charset|, Width(chunksize));
  }

  /** A counted win hit needs a win breakpoint. */
  lemma WonNeedsBreakpoint(cfg: Config, trace: seq<Site>)
    ensures Won(Replay(cfg, NoHits, trace)) ==> cfg.hasWin
  {
    if !cfg.hasWin {
      NoWinWithoutBreakpoint(cfg, NoHits, trace);
    }
  }

  /** Every round that runs a target through the breakpoints counts a win only with the win
      breakpoint set. */
  lemma RunnerNeedsBreakpoint(s: Searcher, target: Target)
    requires RunsTarget(s, target)
    ensures WinsNeedBreakpoint(s)
  {
    forall inp
      ensures Won(s.run(inp)) ==> s.cfg.hasWin
    {
      WonNeedsBreakpoint(s.cfg, target(inp));
    }
  }

  /** What Bruteforce returns when started at `pre` with at most `rounds` rounds: prefix and
      suffix once a round finds nothing, or once the accepted chunk's run hit the win
      breakpoint; None when the rounds run out first. */
  function Search(s: Searcher, pre: string, suf: string, rounds: nat): Option<string>
    decreases rounds
  {
    if rounds == 0 then None
    else match Scan(s, pre, suf)
      case None => Some(pre + suf)
      case Some(chunk) =>
        if Won(Trial(s, pre + chunk + suf)) then Some(pre + chunk + suf)
        else Search(s, pre + chunk, suf, rounds - 1)
  }

  /** Bruteforce of src/Bruteforce.py: grow the known prefix one accepted chunk per round.
      The source loops until it returns; `rounds` bounds the number of rounds. */
  method Bruteforce(bm: BreakpointManager, target: Target, knownPrefix: string, knownSuffix: string,
                    chunksize: int, rounds: nat)
    returns (result: Option<string>)
    requires bm.Valid()
    modifies bm.Repr
    ensures bm.Valid()
    ensures result == Search(Packaged(bm.Cfg(), target, chunksize), knownPrefix, knownSuffix, rounds)
  {
    ghost var s := Packaged(bm.Cfg(), target, chunksize);
    var prefix := knownPrefix;
    var left := rounds;
    while left > 0
      invariant bm.Valid() && bm.Cfg() == s.cfg
      invariant Search(s, prefix, knownSuffix, left) == Search(s, knownPrefix, knownSuffix, rounds)
      decreases left
    {
      var res, tried := BruteforceChar(bm, target, prefix, knownSuffix, chunksize);
      if res.None? {
        // no chunk of the charset matched
        return Some(prefix + knownSuffix);
      }
      ghost var before := prefix;
      // good input, we stepped further
      prefix := prefix + res.value;
      assert before + res.value + knownSuffix == prefix + knownSuffix;
      if bm.HitWin() {
        return Some(prefix + knownSuffix);
      }
      left := left - 1;
    }
    return None;
  }

  /** `r` starts with `pre` and ends with `suf`, the two not overlapping. */
  ghost predicate Framed(r: string, pre: string, suf: string)
  {
    |pre| + |suf| <= |r| && r[..|pre|] == pre && r[|r| - |suf|..] == suf
  }

  /** A search result keeps the known prefix in front and the known suffix at the end. */
  lemma {:induction false} SearchKeepsParts(s: Searcher, pre: string, suf: string, rounds: nat)
    requires Search(s, pre, suf, rounds).Some?
    ensures Framed(Search(s, pre, suf, rounds).value, pre, suf)
    decreases rounds
  {
    var r := Scan(s, pre, suf);
    if r.None? {
      FramedJoin(pre, [], suf);
    } else if Won(Trial(s, pre + r.value + suf)) {
      FramedJoin(pre, r.value, suf);
    } else {
      SearchKeepsParts(s, pre + r.value, suf, rounds - 1);
      FramedShorter(Search(s, pre + r.value, suf, rounds - 1).value, pre, r.value, suf);
    }
  }

  lemma FramedJoin(pre: string, m: string, suf: string)
    ensures Framed(pre + m + suf, pre, suf)
  {
    assert (pre + m + suf)[..|pre|] == pre;
    assert (pre + m + suf)[|pre + m|..] == suf;
  }

  lemma FramedShorter(r: string, pre: string, chunk: string, suf: string)
    requires Framed(r, pre + chunk, suf)
    ensures Framed(r, pre, suf)
  {
    assert r[..|pre|] == r[..|pre + chunk|][..|pre|];
  }

  /** A chunk the packaged search accepts has the chunk width and is spelt in the charset. */
  lemma ChunkShape(cfg: Config, target: Target, chunksize: int, pre: string, suf: string)
    ensures var r := Scan(Packaged(cfg, target, chunksize), pre, suf);
      r.Some? ==> |r.value| == Width(chunksize) && forall i :: 0 <= i < |r.value| ==> r.value[i] in Charset
  {
    var s := Packaged(cfg, target, chunksize);
    ScanFirst(s, pre, suf);
    if Scan(s, pre, suf).Some? {
      var k :| 0 <= k < |s.cands| && s.cands[k] == Scan(s, pre, suf).value;
      CandidatesShape(Charset, chunksize, k);
    }
  }

  /** The filler is in the charset, so for a chunk size of at least 1 the calibration chunk is
      itself a candidate of every round; running the same input twice scores the same, so it is
      accepted only on a win. */
  lemma FillerIsCandidate(cfg: Config, target: Target, chunksize: int, pre: string, suf: string)
    requires chunksize >= 1
    ensures Repeat(Filler, chunksize) in GenerateCharset(chunksize)
    ensures Accepted(Packaged(cfg, target, chunksize), pre, suf, Repeat(Filler, chunksize))
        <==> Won(Trial(Packaged(cfg, target, chunksize), pre + Repeat(Filler, chunksize) + suf))
  {
    var f := Repeat(Filler, chunksize);
    FillerInCharset();
    assert |f| == Width(chunksize);
    CandidatesComplete(Charset, chunksize, f);
  }

  lemma FillerInCharset()
    ensures Filler in Charset
  {
  }

  /** Every character of the charset is printable ASCII. */
  lemma CharsetPrintable()
    ensures forall c :: c in Charset ==> ' ' <= c <= '~'
  {
    LettersPrintable();
    OthersPrintable();
    forall c | c in Charset
      ensures ' ' <= c <= '~'
    {
      assert c in Lowercase || c in Uppercase || c in DecimalDigits || c in Punctuation;
    }
  }

  lemma LettersPrintable()
    ensures forall c :: c in Lowercase ==> 'a' <= c <= 'z'
    ensures forall c :: c in Uppercase ==> 'A' <= c <= 'Z'
  {
    assert forall i :: 0 <= i < |Lowercase| ==> 'a' <= Lowercase[i] <= 'z';
    assert forall i :: 0 <= i < |Uppercase| ==> 'A' <= Uppercase[i] <= 'Z';
  }

  lemma OthersPrintable()
    ensures forall c :: c in DecimalDigits ==> '0' <= c <= '9'
    ensures forall c :: c in Punctuation ==> ' ' <= c <= '~'
  {
    assert forall i :: 0 <= i < |DecimalDigits| ==> '0' <= DecimalDigits[i] <= '9';
    assert forall i :: 0 <= i < |Punctuation| ==> ' ' <= Punctuation[i] <= '~';
  }

  /** Letters, digits and the punctuation of the charset are in the charset. */
  lemma ClassInCharset(c: char)
    requires 'a' <= c <= 'z' || 'A' <= c <= 'Z' || '0' <= c <= '9' || c in Punctuation
    ensures c in Charset
  {
    if 'a' <= c <= 'z' {
      LowercaseAt(c);
    } else if 'A' <= c <= 'Z' {
      UppercaseAt(c);
    } else if '0' <= c <= '9' {
      DigitAt(c);
    }
  }

  lemma LowercaseAt(c: char)
    requires 'a' <= c <= 'z'
    ensures Lowercase[c as int - 'a' as int] == c
  {
  }

  lemma UppercaseAt(c: char)
    requires 'A' <= c <= 'Z'
    ensures Uppercase[c as int - 'A' as int] == c
  {
  }

  lemma DigitAt(c: char)
    requires '0' <= c <= '9'
    ensures DecimalDigits[c as int - '0' as int] == c
  {
  }

  /** Round `s` from `pre` accepts `c` and nothing else, and `c` is one of its candidates. */
  ghost predicate OnlyAccepts(s: Searcher, pre: string, suf: string, c: string)
  {
    c in s.cands && forall j :: 0 <= j < |s.cands| ==> (AcceptedAt(s, pre, suf, j) <==> s.cands[j] == c)
  }

  /** A round that accepts only `c` returns `c`. */
  lemma ScanOnly(s: Searcher, pre: string, suf: string, c: string)
    requires OnlyAccepts(s, pre, suf, c)
    ensures Scan(s, pre, suf) == Some(c)
  {
    ScanFirst(s, pre, suf);
    var i :| 0 <= i < |s.cands| && s.cands[i] == c;
    assert AcceptedAt(s, pre, suf, i);
    var k :| 0 <= k < |s.cands| && s.cands[k] == Scan(s, pre, suf).value;
    assert AcceptedAt(s, pre, suf, k);
  }

  /** The chunks, joined. */
  function Concat(chunks: seq<string>): string
  {
    if chunks == [] then "" else Concat(chunks[..|chunks| - 1]) + chunks[|chunks| - 1]
  }

  /** A prefix one longer is the prefix and the next element. */
  lemma PrefixSnoc(t: string, m: nat)
    requires m < |t|
    ensures t[..m + 1] == t[..m] + [t[m]]
  {
  }

  /** The characters of `t` as chunks of one character join to its prefixes. */
  lemma {:induction false} ConcatSingles(t: string, m: nat)
    requires m <= |t|
    ensures Concat(Singles(t)[..m]) == t[..m]
  {
    if m > 0 {
      ConcatSingles(t, m - 1);
      assert Singles(t)[..m][..m - 1] == Singles(t)[..m - 1];
      PrefixSnoc(t, m - 1);
    }
  }

  /** Every character of `key` is in the packaged charset and none is the filler. */
  ghost predicate Searchable(key: string)
  {
    forall k :: 0 <= k < |key| ==> key[k] in Charset && key[k] != Filler
  }

  /** From the first `m` chunks the target leads to chunk `m` alone, and the win breakpoint is
      hit exactly when that chunk is the last one. */
  ghost predicate GuidesAt(s: Searcher, chunks: seq<string>, suf: string, m: nat)
    requires m < |chunks|
  {
    && OnlyAccepts(s, Concat(chunks[..m]), suf, chunks[m])
    && (Won(Trial(s, Concat(chunks[..m + 1]) + suf)) <==> m + 1 == |chunks|)
  }

  ghost predicate Guides(s: Searcher, chunks: seq<string>, suf: string)
  {
    forall m: nat :: m < |chunks| ==> GuidesAt(s, chunks, suf, m)
  }

  /** A target that leads the search chunk by chunk is solved: from any chunk boundary, enough
      rounds return all chunks followed by the known suffix. */
  lemma {:induction false} SearchFollows(s: Searcher, chunks: seq<string>, suf: string, m: nat, rounds: nat)
    requires Guides(s, chunks, suf) && m < |chunks| && rounds >= |chunks| - m
    ensures Search(s, Concat(chunks[..m]), suf, rounds) == Some(Concat(chunks) + suf)
    decreases |chunks| - m
  {
    var pre := Concat(chunks[..m]);
    assert GuidesAt(s, chunks, suf, m);
    ScanOnly(s, pre, suf, chunks[m]);
    assert chunks[..m + 1][..m] == chunks[..m];
    assert pre + chunks[m] == Concat(chunks[..m + 1]);
    if m + 1 == |chunks| {
      assert chunks[..m + 1] == chunks;
    } else {
      SearchFollows(s, chunks, suf, m + 1, rounds - 1);
    }
  }

  /** Without a win breakpoint the search ends only on a round that finds nothing: the result
      is the known prefix, the accepted chunks and the known suffix, and no chunk extends it. */
  lemma {:induction false} NoWinEndsOnFailedRound(s: Searcher, pre: string, suf: string, rounds: nat)
    requires WinsNeedBreakpoint(s) && !s.cfg.hasWin && Search(s, pre, suf, rounds).Some?
    ensures exists m :: Search(s, pre, suf, rounds) == Some(pre + m + suf) && Scan(s, pre + m, suf).None?
    decreases rounds
  {
    var r := Scan(s, pre, suf);
    if r.None? {
      assert pre + "" == pre;
      assert Search(s, pre, suf, rounds) == Some(pre + "" + suf);
    } else {
      var c := r.value;
      assert !Won(s.run(pre + c + suf));
      NoWinEndsOnFailedRound(s, pre + c, suf, rounds - 1);
      var m :| Search(s, pre + c, suf, rounds - 1) == Some(pre + c + m + suf) && Scan(s, pre + c + m, suf).None?;
      assert pre + c + m == pre + (c + m);
      assert Search(s, pre, suf, rounds) == Some(pre + (c + m) + suf);
    }
  }
}
