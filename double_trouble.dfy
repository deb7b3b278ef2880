/** The example program double-trouble.c: the input is compared with a hard-coded flag two characters at
    a time, a positive breakpoint sits where a matching pair is counted and the win breakpoint
    on the success message, which needs as many matched characters as the flag is long. */
module DoubleTrouble {
  import opened Wrappers
  import opened Scoring
  import opened Chunks
  import opened Stdin
  import opened BF = Bruteforce

  /** The key to recover, which is also the text of the flag array. */
  const Key: string := "CTF{w3_h4ck_1n_du4l1ty!}"

  /** `char flag[BUFSIZE] = ...`: the text, then NUL to the end of the array. */
  const Flag: Buffer := Bytes(Key) + Zeros(8)

  /** The breakpoints of the example's call: --positive-addr and --win-addr. */
  const Setup: Config := Config(true, false, true)

  /** `strlen`: the bytes before the first NUL (every buffer of the example holds one). */
  function StrLen(s: seq<bv8>): (n: nat)
    ensures n <= |s| && (n < |s| ==> s[n] == 0)
    ensures forall k :: 0 <= k < n ==> s[k] != 0
  {
    if s == [] || s[0] == 0 then 0 else 1 + StrLen(s[1..])
  }

  /** The walk from position `i` against `flag`: a positive hit for every pair of bytes that
      agrees with the flag, until the buffer or the flag reaches a NUL. The walk of the program
      starts at 0 and steps by two, so its `i` is even and `i + 1 < BUFSIZE` is `i < BUFSIZE`. */
  function Walk(buf: Buffer, flag: Buffer, i: nat): seq<Site>
    decreases BufSize - i
  {
    if i + 1 >= BufSize || buf[i] == 0 || flag[i] == 0 then []
    else (if buf[i] == flag[i] && buf[i + 1] == flag[i + 1] then [Positive] else []) + Walk(buf, flag, i + 2)
  }

  /** A whole run: the walk, then the success message when the matched characters, two per
      positive hit, are as many as the flag is long. */
  function Trace(buf: Buffer, flag: Buffer): seq<Site>
  {
    var w := Walk(buf, flag, 0);
    if StrLen(flag) == 2 * Occurrences(w, Positive) then w + [Win] else w
  }

  /** The program with flag array `flag` on stdin, over a stack whose bytes fgets does not
      overwrite. */
  function Program(flag: Buffer, stack: Buffer): Target
  {
    inp => Trace(Fgets(StdinOf(inp), stack), flag)
  }

  /** A round of the example's call, with chunks of two characters. */
  function Round(flag: Buffer, stack: Buffer): Searcher
  {
    Packaged(Setup, Program(flag, stack), 2)
  }

  /** main after fgets: walk the buffer against the flag array, two bytes at a time, then
      print the verdict. The C loop reads `buf[i]` before it tests `i < BUFSIZE`; the flag of
      the example ends in NULs, so the walk never gets that far, and the test comes first here. */
  method Execute(buf: array<bv8>, flag: Buffer) returns (trace: seq<Site>)
    requires buf.Length == BufSize
    ensures trace == Trace(buf[..], flag)
  {
    ghost var b: Buffer := buf[..];
    var correctChars := 0;
    var i := 0;
    ghost var pairs := 0;
    trace := [];
    while i < BufSize && buf[i] != 0 && flag[i] != 0
      invariant 0 <= pairs <= BufSize / 2 && i == 2 * pairs
      invariant trace + Walk(b, flag, i) == Walk(b, flag, 0)
      invariant correctChars == 2 * Occurrences(trace, Positive)
      decreases BufSize - i
    {
      assert buf[i] == b[i] && buf[i + 1] == b[i + 1];
      WalkStep(b, flag, i, trace);
      if buf[i] == flag[i] && buf[i + 1] == flag[i + 1] {
        correctChars := correctChars + 2;
        trace := trace + [Positive];
      }
      i, pairs := i + 2, pairs + 1;
    }
    assert Walk(b, flag, i) == [];
    assert trace + [] == trace;
    assert buf[..] == b;
    if StrLen(flag) == correctChars {
      trace := trace + [Win];
    }
  }

  /** One pass of the loop: the pair at `i` adds its hit to the trace so far. */
  lemma WalkStep(b: Buffer, flag: Buffer, i: nat, trace: seq<Site>)
    requires i + 1 < BufSize && b[i] != 0 && flag[i] != 0
    requires trace + Walk(b, flag, i) == Walk(b, flag, 0)
    ensures b[i] == flag[i] && b[i + 1] == flag[i + 1] ==>
      && (trace + [Positive]) + Walk(b, flag, i + 2) == Walk(b, flag, 0)
      && Occurrences(trace + [Positive], Positive) == Occurrences(trace, Positive) + 1
    ensures !(b[i] == flag[i] && b[i + 1] == flag[i + 1]) ==> trace + Walk(b, flag, i + 2) == Walk(b, flag, 0)
  {
    var rest := Walk(b, flag, i + 2);
    if b[i] == flag[i] && b[i + 1] == flag[i + 1] {
      assert Walk(b, flag, i) == [Positive] + rest;
      Associative(trace, [Positive], rest);
      assert (trace + [Positive])[..|trace|] == trace;
    } else {
      assert Walk(b, flag, i) == [] + rest;
      assert [] + rest == rest;
    }
  }

  /** The walk hits the positive breakpoint only: each hit counts as positive, none as a win. */
  lemma {:induction false} WalkPositives(buf: Buffer, flag: Buffer, i: nat)
    ensures var w := Walk(buf, flag, i);
      Occurrences(w, Positive) == |w| && Occurrences(w, Win) == 0
    decreases BufSize - i
  {
    if i + 1 < BufSize && buf[i] != 0 && flag[i] != 0 {
      WalkPositives(buf, flag, i + 2);
      var rest := Walk(buf, flag, i + 2);
      if buf[i] == flag[i] && buf[i + 1] == flag[i + 1] {
        OccurrencesCons(Positive, rest);
      } else {
        assert Walk(buf, flag, i) == rest;
      }
    }
  }

  /** Over `n` pairs where the buffer agrees with a flag that has no NUL in them, every pair
      is a positive hit. */
  lemma {:induction false} WalkMatched(buf: Buffer, flag: Buffer, i: nat, n: nat)
    requires i + 2 * n < BufSize
    requires forall k :: i <= k < i + 2 * n ==> buf[k] == flag[k] && flag[k] != 0
    ensures |Walk(buf, flag, i)| == n + |Walk(buf, flag, i + 2 * n)|
    decreases n
  {
    if n > 0 {
      WalkMatched(buf, flag, i + 2, n - 1);
    }
  }

  /** The walk from `i` looks at nothing before `i`. */
  lemma {:induction false} WalkAgrees(b1: Buffer, b2: Buffer, flag: Buffer, i: nat)
    requires forall k :: i <= k < BufSize ==> b1[k] == b2[k]
    ensures Walk(b1, flag, i) == Walk(b2, flag, i)
    decreases BufSize - i
  {
    if i + 1 < BufSize && b1[i] != 0 && flag[i] != 0 {
      WalkAgrees(b1, b2, flag, i + 2);
    }
  }

  /** The walk ends at a NUL of the flag `n` pairs on: at most one hit per pair before it. */
  lemma {:induction false} WalkBound(buf: Buffer, flag: Buffer, i: nat, n: nat)
    requires i + 2 * n < BufSize && flag[i + 2 * n] == 0
    ensures |Walk(buf, flag, i)| <= n
    decreases n
  {
    if n > 0 {
      WalkBound(buf, flag, i + 2, n - 1);
    }
  }

  /** `flag` is the flag array of `key`: a printable key made of whole pairs that leaves room
      for the newline, then NULs. */
  ghost predicate FlagOf(key: string, flag: Buffer)
  {
    && |key| < BufSize - 1 && |key| % 2 == 0 && Printable(key)
    && (forall k :: 0 <= k < |key| ==> flag[k] == Byte(key[k]))
    && (forall k :: |key| <= k < BufSize ==> flag[k] == 0)
  }

  /** The flag array holds no NUL and no newline before the end of the key. */
  lemma FlagNonZero(key: string, flag: Buffer, k: nat)
    requires FlagOf(key, flag) && k < |key|
    ensures flag[k] == Byte(key[k]) && flag[k] != 0 && flag[k] != Newline
  {
    PrintableByte(key[k]);
  }

  /** `strlen(flag)` is the length of the key. */
  lemma FlagLength(key: string, flag: Buffer)
    requires FlagOf(key, flag)
    ensures StrLen(flag) == |key|
  {
    assert flag[|key|] == 0;
    if StrLen(flag) < |key| {
      FlagNonZero(key, flag, StrLen(flag));
    }
  }

  /** Pair number `m` of the key: the chunk of round `m`. */
  function Pair(key: string, m: nat): string
    requires 2 * m + 2 <= |key|
  {
    key[2 * m..2 * m + 2]
  }

  /** The hits that the bytes of the stack behind a line of the round after `m` pairs add:
      the walk reaches them only when the line leaves a pair of the flag unread. */
  function Junk(key: string, flag: Buffer, stack: Buffer, m: nat): nat
    requires 2 * m + 2 <= |key|
  {
    if 2 * m + 2 == |key| || 2 * m + 4 > BufSize then 0 else |Walk(stack, flag, 2 * m + 4)|
  }

  /** The stack behind the line can never make up for the pairs still missing. */
  lemma JunkBound(key: string, flag: Buffer, stack: Buffer, m: nat)
    requires FlagOf(key, flag) && 2 * m + 2 < |key|
    ensures 2 * (m + 1 + Junk(key, flag, stack, m)) < |key|
  {
    var r := (|key| - 2 * m - 4) / 2;
    assert 2 * m + 4 + 2 * r == |key|;
    WalkBound(stack, flag, 2 * m + 4, r);
  }

  /** The walk over the known part of a line and its last pair. */
  lemma LineHead(key: string, flag: Buffer, buf: Buffer, m: nat, c: string)
    requires FlagOf(key, flag) && 2 * m + 2 <= |key| && |c| == 2 && Printable(c)
    requires forall k :: 0 <= k < 2 * m ==> buf[k] == Byte(key[k])
    requires buf[2 * m] == Byte(c[0]) && buf[2 * m + 1] == Byte(c[1])
    ensures |Walk(buf, flag, 0)| == m + (if c == Pair(key, m) then 1 else 0) + |Walk(buf, flag, 2 * m + 2)|
  {
    LinePrefix(key, flag, buf, m);
    LinePair(key, flag, buf, m, c);
  }

  /** The known pairs of a line are all positive hits. */
  lemma LinePrefix(key: string, flag: Buffer, buf: Buffer, m: nat)
    requires FlagOf(key, flag) && 2 * m < |key|
    requires forall k :: 0 <= k < 2 * m ==> buf[k] == Byte(key[k])
    ensures |Walk(buf, flag, 0)| == m + |Walk(buf, flag, 2 * m)|
  {
    forall k | 0 <= k < 2 * m
      ensures buf[k] == flag[k] && flag[k] != 0
    {
      FlagNonZero(key, flag, k);
    }
    WalkMatched(buf, flag, 0, m);
  }

  /** The pair tried: a positive hit exactly when it is the next pair of the key. */
  lemma LinePair(key: string, flag: Buffer, buf: Buffer, m: nat, c: string)
    requires FlagOf(key, flag) && 2 * m + 2 <= |key| && |c| == 2 && Printable(c)
    requires buf[2 * m] == Byte(c[0]) && buf[2 * m + 1] == Byte(c[1])
    ensures |Walk(buf, flag, 2 * m)| == (if c == Pair(key, m) then 1 else 0) + |Walk(buf, flag, 2 * m + 2)|
  {
    FlagNonZero(key, flag, 2 * m);
    FlagNonZero(key, flag, 2 * m + 1);
    PrintableByte(c[0]);
    ByteInjective(c[0], key[2 * m]);
    ByteInjective(c[1], key[2 * m + 1]);
    SliceOfTwo(c, key, 2 * m);
  }

  /** Two characters equal a slice of two exactly when they agree one by one. */
  lemma SliceOfTwo(c: string, t: string, i: nat)
    requires |c| == 2 && i + 2 <= |t|
    ensures c == t[i..i + 2] <==> c[0] == t[i] && c[1] == t[i + 1]
  {
    if c[0] == t[i] && c[1] == t[i + 1] {
      assert c == t[i..i + 2];
    }
  }

  /** Behind the last pair of a line: the newline never matches the flag, and past it the walk
      reads the old stack until the flag ends. */
  lemma LineTail(key: string, flag: Buffer, buf: Buffer, stack: Buffer, m: nat)
    requires FlagOf(key, flag) && 2 * m + 2 <= |key|
    requires buf[2 * m + 2] == Newline
    requires forall k :: 2 * m + 4 <= k < BufSize ==> buf[k] == stack[k]
    ensures |Walk(buf, flag, 2 * m + 2)| == Junk(key, flag, stack, m)
  {
    if 2 * m + 2 < |key| {
      FlagNonZero(key, flag, 2 * m + 2);
      assert Walk(buf, flag, 2 * m + 2) == [] + Walk(buf, flag, 2 * m + 4);
      WalkAgrees(buf, stack, flag, 2 * m + 4);
    }
  }

  /** The walk over the line of the round after `m` pairs, trying chunk `c`. */
  lemma LineWalk(key: string, flag: Buffer, stack: Buffer, m: nat, c: string)
    requires FlagOf(key, flag) && 2 * m + 2 <= |key| && |c| == 2 && Printable(c)
    ensures |Walk(Fgets(StdinOf(key[..2 * m] + c), stack), flag, 0)|
      == m + (if c == Pair(key, m) then 1 else 0) + Junk(key, flag, stack, m)
  {
    var w := key[..2 * m] + c;
    assert Printable(w);
    FgetsPrintable(w, stack);
    var buf := Fgets(StdinOf(w), stack);
    assert buf[2 * m] == Byte(w[2 * m]) && buf[2 * m + 1] == Byte(w[2 * m + 1]);
    LineHead(key, flag, buf, m, c);
    assert buf[2 * m + 2] == Newline;
    LineTail(key, flag, buf, stack, m);
  }

  /** Searcher `s` runs the program with flag array `flag` over `stack` and counts its hits
      with the breakpoints of the example's call. */
  ghost predicate Runs(s: Searcher, flag: Buffer, stack: Buffer)
  {
    s.cfg == Setup && s.run == Runner(Setup, Program(flag, stack))
  }

  /** What the rounds of the example need of their searcher: it runs the program, accepts a
      better score or a win, calibrates with a printable pair, tries printable pairs only, and
      every pair of the key is one of them and differs from the calibration pair. */
  ghost predicate Plays(s: Searcher, key: string, flag: Buffer, stack: Buffer)
  {
    && Runs(s, flag, stack) && s.rule == ScoreOrWin && |s.filler| == 2 && Printable(s.filler)
    && (forall j :: 0 <= j < |s.cands| ==> |s.cands[j]| == 2 && Printable(s.cands[j]))
    && (forall m: nat :: 2 * m + 2 <= |key| ==> Pair(key, m) in s.cands && Pair(key, m) != s.filler)
  }

  /** The round of the example's call plays every searchable key. */
  lemma RoundPlays(key: string, flag: Buffer, stack: Buffer)
    requires Searchable(key)
    ensures Plays(Round(flag, stack), key, flag, stack)
  {
    var s := Round(flag, stack);
    assert s.cands == Candidates(Charset, 2);
    assert s.filler == "^^";
    forall j | 0 <= j < |s.cands|
      ensures |s.cands[j]| == 2 && Printable(s.cands[j])
    {
      CandidateShape(j);
    }
    forall m: nat | 2 * m + 2 <= |key|
      ensures Pair(key, m) in s.cands && Pair(key, m) != s.filler
    {
      PairIsCandidate(key, m);
    }
  }

  lemma CandidateShape(j: nat)
    requires j < |Candidates(Charset, 2)|
    ensures |Candidates(Charset, 2)[j]| == 2 && Printable(Candidates(Charset, 2)[j])
  {
    CandidatesShape(Charset, 2, j);
    CharsetPrintable();
  }

  lemma PairIsCandidate(key: string, m: nat)
    requires Searchable(key) && 2 * m + 2 <= |key|
    ensures Pair(key, m) in Candidates(Charset, 2) && Pair(key, m) != "^^"
  {
    assert key[2 * m] in Charset && key[2 * m + 1] in Charset;
    assert Pair(key, m)[0] == key[2 * m];
    CandidatesComplete(Charset, 2, Pair(key, m));
  }

  lemma TrialOf(s: Searcher, flag: Buffer, stack: Buffer, inp: string)
    requires Runs(s, flag, stack)
    ensures Trial(s, inp) == Replay(Setup, NoHits, Trace(Fgets(StdinOf(inp), stack), flag))
  {
  }

  /** The counters after a run: a positive hit per matching pair, and the win exactly when the
      matched characters are as many as the key is long. */
  lemma TraceHits(key: string, flag: Buffer, buf: Buffer)
    requires FlagOf(key, flag)
    ensures var n := |Walk(buf, flag, 0)|;
      Replay(Setup, NoHits, Trace(buf, flag)) == Hits(n, 0, if 2 * n == |key| then 1 else 0)
  {
    var w := Walk(buf, flag, 0);
    WalkPositives(buf, flag, 0);
    FlagLength(key, flag);
    var t := Trace(buf, flag);
    if 2 * |w| == |key| {
      assert t == w + [Win];
      assert t[..|w|] == w;
    }
    ReplayCounts(Setup, t);
  }

  /** The counters after the round after `m` pairs has tried `c`: a positive hit per known
      pair, one for `c` if it is the next pair, the hits of the stack, and the win exactly
      when the matched characters are as many as the key is long. */
  lemma TrialHits(s: Searcher, key: string, flag: Buffer, stack: Buffer, m: nat, c: string)
    requires Runs(s, flag, stack) && FlagOf(key, flag)
    requires 2 * m + 2 <= |key| && |c| == 2 && Printable(c)
    ensures var n := m + (if c == Pair(key, m) then 1 else 0) + Junk(key, flag, stack, m);
      Trial(s, key[..2 * m] + c + "") == Hits(n, 0, if 2 * n == |key| then 1 else 0)
  {
    var inp := key[..2 * m] + c;
    assert inp + "" == inp;
    TrialOf(s, flag, stack, inp);
    LineWalk(key, flag, stack, m, c);
    TraceHits(key, flag, Fgets(StdinOf(inp), stack));
  }

  /** The calibration run after `m` pairs: the known pairs and the stack score, the
      calibration pair never does. */
  lemma FillerScore(s: Searcher, key: string, flag: Buffer, stack: Buffer, m: nat)
    requires Plays(s, key, flag, stack) && FlagOf(key, flag) && 2 * m + 2 <= |key|
    ensures RefScore(s, key[..2 * m], "") == m + Junk(key, flag, stack, m)
  {
    assert Pair(key, m) != s.filler;
    TrialHits(s, key, flag, stack, m, s.filler);
  }

  /** After `m` pairs, a round accepts a printable pair exactly when it is the next pair of
      the key. */
  lemma CandidateVerdict(s: Searcher, key: string, flag: Buffer, stack: Buffer, m: nat, c: string)
    requires Plays(s, key, flag, stack) && FlagOf(key, flag)
    requires 2 * m + 2 <= |key| && |c| == 2 && Printable(c)
    ensures Accepted(s, key[..2 * m], "", c) <==> c == Pair(key, m)
  {
    FillerScore(s, key, flag, stack, m);
    TrialHits(s, key, flag, stack, m, c);
    if 2 * m + 2 < |key| {
      JunkBound(key, flag, stack, m);
    }
  }

  /** After the first `m` pairs of the key, a round accepts the next pair and nothing else. */
  lemma RoundAccepts(s: Searcher, key: string, flag: Buffer, stack: Buffer, m: nat)
    requires Plays(s, key, flag, stack) && FlagOf(key, flag) && 2 * m + 2 <= |key|
    ensures OnlyAccepts(s, key[..2 * m], "", Pair(key, m))
  {
    assert Pair(key, m) in s.cands;
    forall j | 0 <= j < |s.cands|
      ensures AcceptedAt(s, key[..2 * m], "", j) <==> s.cands[j] == Pair(key, m)
    {
      CandidateVerdict(s, key, flag, stack, m, s.cands[j]);
    }
  }

  /** The win breakpoint is hit by the first `m + 1` pairs only when they are the whole key. */
  lemma RoundWins(s: Searcher, key: string, flag: Buffer, stack: Buffer, m: nat)
    requires Runs(s, flag, stack) && FlagOf(key, flag) && 2 * m + 2 <= |key|
    ensures Won(Trial(s, key[..2 * m + 2])) <==> 2 * m + 2 == |key|
  {
    assert Printable(Pair(key, m));
    TrialHits(s, key, flag, stack, m, Pair(key, m));
    PrefixJoin(key, 2 * m, 2 * m + 2);
    assert key[..2 * m + 2] + "" == key[..2 * m + 2];
    if 2 * m + 2 < |key| {
      JunkBound(key, flag, stack, m);
    }
  }

  /** A prefix is a shorter prefix followed by the slice between them. */
  lemma PrefixJoin(t: string, a: nat, b: nat)
    requires a <= b <= |t|
    ensures t[..b] == t[..a] + t[a..b]
  {
  }

  /** A key of whole pairs as chunks of two characters. */
  function Pairs(key: string): (r: seq<string>)
    requires |key| % 2 == 0
    ensures |r| == |key| / 2
  {
    seq(|key| / 2, i requires 0 <= i < |key| / 2 => Pair(key, i))
  }

  lemma {:induction false} ConcatPairs(key: string, m: nat)
    requires |key| % 2 == 0 && m <= |key| / 2
    ensures Concat(Pairs(key)[..m]) == key[..2 * m]
  {
    if m > 0 {
      ConcatPairs(key, m - 1);
      assert Pairs(key)[..m][..m - 1] == Pairs(key)[..m - 1];
      PrefixJoin(key, 2 * m - 2, 2 * m);
    }
  }

  lemma PairsGuideAt(s: Searcher, key: string, flag: Buffer, stack: Buffer, m: nat)
    requires Plays(s, key, flag, stack) && FlagOf(key, flag) && m < |key| / 2
    ensures GuidesAt(s, Pairs(key), "", m)
  {
    PairsAccepted(s, key, flag, stack, m);
    PairsWin(s, key, flag, stack, m);
  }

  lemma PairsAccepted(s: Searcher, key: string, flag: Buffer, stack: Buffer, m: nat)
    requires Plays(s, key, flag, stack) && FlagOf(key, flag) && m < |key| / 2
    ensures OnlyAccepts(s, Concat(Pairs(key)[..m]), "", Pairs(key)[m])
  {
    RoundAccepts(s, key, flag, stack, m);
    ConcatPairs(key, m);
  }

  lemma PairsWin(s: Searcher, key: string, flag: Buffer, stack: Buffer, m: nat)
    requires Runs(s, flag, stack) && FlagOf(key, flag) && m < |key| / 2
    ensures Won(Trial(s, Concat(Pairs(key)[..m + 1]) + "")) <==> m + 1 == |Pairs(key)|
  {
    assert |key| % 2 == 0;
    Halves(|key|, m);
    PairsTrial(s, key, m);
    RoundWins(s, key, flag, stack, m);
  }

  /** The trial after the first `m + 1` pairs of `key` is that of its first `2 * m + 2`
      characters. */
  lemma PairsTrial(s: Searcher, key: string, m: nat)
    requires |key| % 2 == 0 && m < |key| / 2
    ensures Trial(s, Concat(Pairs(key)[..m + 1]) + "") == Trial(s, key[..2 * m + 2])
  {
    ConcatPairs(key, m + 1);
    assert Concat(Pairs(key)[..m + 1]) + "" == key[..2 * m + 2];
  }

  /** Round `m` of an even-length key reads its pair `m`, and it is the last round exactly
      when that pair ends the key. */
  lemma Halves(n: nat, m: nat)
    requires n % 2 == 0 && m < n / 2
    ensures 2 * m + 2 <= n && (2 * m + 2 == n <==> m + 1 == n / 2)
  {
  }

  /** The target leads the search through the key one pair at a time. */
  lemma PairsGuide(s: Searcher, key: string, flag: Buffer, stack: Buffer)
    requires Plays(s, key, flag, stack) && FlagOf(key, flag)
    ensures Guides(s, Pairs(key), "")
  {
    forall m: nat | m < |Pairs(key)|
      ensures GuidesAt(s, Pairs(key), "", m)
    {
      PairsGuideAt(s, key, flag, stack, m);
    }
  }

  lemma PairsSearch(s: Searcher, key: string, flag: Buffer, stack: Buffer, rounds: nat)
    requires Plays(s, key, flag, stack) && FlagOf(key, flag) && key != [] && rounds >= |key| / 2
    ensures Search(s, Concat(Pairs(key)[..0]), "", rounds) == Some(Concat(Pairs(key)) + "")
  {
    PairsGuide(s, key, flag, stack);
    SearchFollows(s, Pairs(key), "", 0, rounds);
  }

  /** A searcher that plays the key returns it, started with nothing known, after at most
      one round per pair. */
  lemma PlaysRecovers(s: Searcher, key: string, flag: Buffer, stack: Buffer, rounds: nat)
    requires Plays(s, key, flag, stack) && FlagOf(key, flag) && key != [] && rounds >= |key| / 2
    ensures Search(s, "", "", rounds) == Some(key)
  {
    PairsSearch(s, key, flag, stack, rounds);
    PairsWhole(key);
  }

  /** No pairs join to nothing and all of them, with nothing after them, to the key. */
  lemma PairsWhole(key: string)
    requires |key| % 2 == 0
    ensures Concat(Pairs(key)[..0]) == "" && Concat(Pairs(key)) + "" == key
  {
    ConcatPairs(key, 0);
    ConcatPairs(key, |key| / 2);
    assert Pairs(key)[..|key| / 2] == Pairs(key);
    assert key[..|key|] == key;
    assert key + "" == key;
  }

  /** For any flag made of pairs of charset characters, the packaged search with chunks of two
      characters, started with nothing known, returns the flag after at most one round per
      pair, whatever the stack held. */
  lemma RecoversAny(key: string, flag: Buffer, stack: Buffer, rounds: nat)
    requires FlagOf(key, flag) && Searchable(key) && key != [] && rounds >= |key| / 2
    ensures Search(Round(flag, stack), "", "", rounds) == Some(key)
  {
    RoundPlays(key, flag, stack);
    PlaysRecovers(Round(flag, stack), key, flag, stack, rounds);
  }

  /** The key of the example meets both conditions. */
  lemma KeyFlag()
    ensures FlagOf(Key, Flag) && Searchable(Key)
  {
    assert |Key| == 24 && Printable(Key);
    forall k | 0 <= k < |Key|
      ensures Key[k] in Charset && Key[k] != Filler
    {
      KeyInCharset(k);
    }
  }

  lemma KeyInCharset(k: nat)
    requires k < |Key|
    ensures Key[k] in Charset && Key[k] != Filler
  {
    ClassInCharset(Key[k]);
  }

  /** The call in the example's header: the key comes out after at most twelve rounds,
      whatever the stack held. */
  lemma Recovers(stack: Buffer, rounds: nat)
    requires rounds >= |Key| / 2
    ensures Search(Round(Flag, stack), "", "", rounds) == Some(Key)
  {
    KeyFlag();
    RecoversAny(Key, Flag, stack, rounds);
  }
}
