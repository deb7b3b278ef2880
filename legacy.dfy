/** The single-file script barf.py: the same search with one-character chunks, a smaller
    charset, a score-only acceptance rule and a win check that needs a win breakpoint.
    Its CounterBreakpoint, GetScore, ResetBreakpoints and PopScore are the code of
    src/CounterBreakpoint.py and src/BreakpointManager.py line for line, so the classes of
    Counter and Scoring serve for both. */
module Legacy {
  import opened Wrappers
  import opened Scoring
  import opened Chunks
  import opened BF = Bruteforce

  /** The charset of barf.py, written in its four character classes (the first three are
      those of the packaged charset). */
  const LegacyCharset: string := Lowercase + Uppercase + DecimalDigits + "{}_!?"

  /** A round of barf.py: one character at a time, accepted on a better score only. */
  function LegacySearcher(cfg: Config, target: Target): Searcher
  {
    Searcher(cfg, Runner(cfg, target), ScoreOnly, [Filler], Singles(LegacyCharset))
  }

  /** `self.winB.GetScore() != 0` with no test that winB exists: without a win breakpoint the
      attribute lookup on None raises, shown here as None. */
  function HitWin(bm: BreakpointManager): (r: Option<bool>)
    reads bm, bm.Repr
    requires bm.Valid()
    ensures r.None? <==> bm.winB == null
    ensures r.Some? ==> (r.value <==> Won(bm.Tally()))
  {
    if bm.winB == null then None else Some(bm.winB.GetScore() != 0)
  }

  /** BruteforceChar of barf.py: calibrate with a single "^", then try the characters of the
      charset in order and stop at the first one with a better score than the calibration. */
  method BruteforceChar(bm: BreakpointManager, target: Target, knownPrefix: string, knownSuffix: string)
    returns (res: Option<string>, ghost tried: seq<string>)
    requires bm.Valid()
    modifies bm.Repr
    ensures bm.Valid()
    ensures res == Scan(LegacySearcher(bm.Cfg(), target), knownPrefix, knownSuffix)
    ensures tried == TriedInputs(LegacySearcher(bm.Cfg(), target), knownPrefix, knownSuffix)
    ensures bm.Tally() == Hits(0, 0, Trial(LegacySearcher(bm.Cfg(), target), Last(tried)).win)
    ensures res.Some? ==> Last(tried) == knownPrefix + res.value + knownSuffix
  {
    ghost var s := LegacySearcher(bm.Cfg(), target);
    var keyFragment := "";

    // the score of the known parts around an "impossible" character is the baseline
    var calibration := knownPrefix + keyFragment + "^" + knownSuffix;
    EmptyFragment(knownPrefix, s.filler, knownSuffix);
    var refScore := RunOnce(bm, target, calibration);

    var found;
    RunnerRunsTarget(s, target);
    keyFragment, found, tried := Sweep(bm, target, s, knownPrefix, knownSuffix, Singles(LegacyCharset), ScoreOnly, refScore, calibration);
    res := if found then Some(keyFragment) else None;
    LastTried(s, knownPrefix, knownSuffix);
  }

  /** How the loop of barf.py ends. */
  datatype Ending =
    | Done(key: string)   // returned prefix and suffix
    | Crashed             // HitWin looked at a missing win breakpoint
    | RoundsOut           // the allowed rounds were used up first

  /** What Bruteforce of barf.py does when started at `pre` with at most `rounds` rounds. */
  function LegacySearch(s: Searcher, pre: string, suf: string, rounds: nat): Ending
    decreases rounds
  {
    if rounds == 0 then RoundsOut
    else match Scan(s, pre, suf)
      case None => Done(pre + suf)
      case Some(c) =>
        if !s.cfg.hasWin then Crashed
        else if Won(Trial(s, pre + c + suf)) then Done(pre + c + suf)
        else LegacySearch(s, pre + c, suf, rounds - 1)
  }

  /** Bruteforce of barf.py: grow the known prefix by one character per round. The source
      loops until it returns; `rounds` bounds the number of rounds. */
  method Bruteforce(bm: BreakpointManager, target: Target, knownPrefix: string, knownSuffix: string, rounds: nat)
    returns (result: Ending)
    requires bm.Valid()
    modifies bm.Repr
    ensures bm.Valid()
    ensures result == LegacySearch(LegacySearcher(bm.Cfg(), target), knownPrefix, knownSuffix, rounds)
  {
    ghost var s := LegacySearcher(bm.Cfg(), target);
    var prefix := knownPrefix;
    var left := rounds;
    while left > 0
      invariant bm.Valid() && bm.Cfg() == s.cfg
      invariant LegacySearch(s, prefix, knownSuffix, left) == LegacySearch(s, knownPrefix, knownSuffix, rounds)
      decreases left
    {
      var res, tried := BruteforceChar(bm, target, prefix, knownSuffix);
      if res.None? {
        // no character from the given charset matched
        return Done(prefix + knownSuffix);
      }
      ghost var before := prefix;
      // good input, we stepped further
      prefix := prefix + res.value;
      assert before + res.value + knownSuffix == prefix + knownSuffix;
      var won := HitWin(bm);
      if won.None? {
        return Crashed;
      }
      if won.value {
        return Done(prefix + knownSuffix);
      }
      left := left - 1;
    }
    return RoundsOut;
  }

  /** A round of barf.py returns exactly one character of its charset, or nothing. */
  lemma OneCharacter(cfg: Config, target: Target, pre: string, suf: string)
    ensures var r := Scan(LegacySearcher(cfg, target), pre, suf);
      r.Some? ==> |r.value| == 1 && r.value[0] in LegacyCharset
  {
    var s := LegacySearcher(cfg, target);
    ScanFirst(s, pre, suf);
    if Scan(s, pre, suf).Some? {
      var k :| 0 <= k < |s.cands| && s.cands[k] == Scan(s, pre, suf).value;
      assert s.cands[k] == [LegacyCharset[k]];
    }
  }

  /** Unlike the packaged charset, this one does not contain the calibration character, so
      the calibration input is never one of the candidates. */
  lemma FillerNotACandidate(cfg: Config, target: Target)
    ensures [Filler] !in LegacySearcher(cfg, target).cands
  {
    FillerNotInLegacyCharset();
    var cands := LegacySearcher(cfg, target).cands;
    forall k | 0 <= k < |cands|
      ensures cands[k] != [Filler]
    {
      assert cands[k][0] == LegacyCharset[k];
    }
  }

  lemma FillerNotInLegacyCharset()
    ensures Filler !in LegacyCharset
  {
    LettersPrintable();
    OthersPrintable();
    assert '^' !in "{}_!?";
  }

  /** With a win breakpoint, Bruteforce of barf.py ends as the packaged Bruteforce would on
      the same round: a returned key is the same key and running out of rounds is the same. */
  lemma {:induction false} SameAsSearchWithWin(s: Searcher, pre: string, suf: string, rounds: nat)
    requires s.cfg.hasWin
    ensures LegacySearch(s, pre, suf, rounds)
      == match Search(s, pre, suf, rounds) case None => RoundsOut case Some(k) => Done(k)
    decreases rounds
  {
    if rounds > 0 {
      var r := Scan(s, pre, suf);
      if r.Some? && !Won(Trial(s, pre + r.value + suf)) {
        SameAsSearchWithWin(s, pre + r.value, suf, rounds - 1);
      }
    }
  }

  /** Without a win breakpoint, Bruteforce of barf.py crashes on the win check after its
      first successful round, where the packaged Bruteforce goes on with the next round. */
  lemma {:induction false} CrashesWithoutWin(s: Searcher, pre: string, suf: string, rounds: nat)
    requires WinsNeedBreakpoint(s) && !s.cfg.hasWin && rounds > 0 && Scan(s, pre, suf).Some?
    ensures LegacySearch(s, pre, suf, rounds) == Crashed
    ensures Search(s, pre, suf, rounds) == Search(s, pre + Scan(s, pre, suf).value, suf, rounds - 1)
  {
    var c := Scan(s, pre, suf).value;
    assert !Won(s.run(pre + c + suf));
  }
}
