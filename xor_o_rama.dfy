/** The example program xor-o-rama.c: the line read is encrypted in place with a repeating eight-byte XOR
    key and compared with a hard-coded encrypted flag byte by byte; a positive breakpoint sits
    on the step to the next byte, and the win breakpoint on the return of 0 that only a complete
    match reaches. */
module XorORama {
  import opened Wrappers
  import opened Scoring
  import opened Chunks
  import opened Stdin
  import opened BF = Bruteforce
  import opened XorFlag

  /** The breakpoints of the example's call: --positive-addr and --win-addr. */
  const Setup: Config := Config(true, false, true)

  /** The buffer after crypt: every one of its 32 bytes, the NUL and what lies behind it
      included, XORed with the key byte of its position. In C the XOR is taken of two ints, a
      signed char in -128..127 and a key byte below 0x80; the result stays in -128..127, so
      `% 256` (which truncates toward zero) leaves it as it is, and the byte stored back is the
      XOR of the two bytes. */
  function Crypted(s: Buffer): (r: Buffer)
    ensures forall i :: 0 <= i < BufSize ==> r[i] == s[i] ^ MagicAt(i)
  {
    seq(BufSize, i requires 0 <= i < BufSize => s[i] ^ MagicAt(i))
  }

  /** Encrypting twice gives back the buffer: crypt is its own inverse. */
  lemma CryptedTwice(s: Buffer)
    ensures Crypted(Crypted(s)) == s
  {
    forall i | 0 <= i < BufSize
      ensures Crypted(Crypted(s))[i] == s[i]
    {
      XorTwice(s[i], MagicAt(i));
    }
  }

  lemma XorTwice(a: bv8, m: bv8)
    ensures (a ^ m) ^ m == a
  {
  }

  /** Two bytes XORed with the same key byte agree exactly when they agreed before. */
  lemma XorCancel(a: bv8, b: bv8, m: bv8)
    ensures a ^ m == b ^ m <==> a == b
  {
    XorTwice(a, m);
    XorTwice(b, m);
  }

  /** Two bytes compare equal as signed chars exactly when they are equal. */
  lemma SignedInjective(a: bv8, b: bv8)
    ensures Signed(a) == Signed(b) <==> a == b
  {
  }

  /** crypt: encrypt the buffer in place. */
  method Crypt(b: array<bv8>)
    requires b.Length == BufSize
    modifies b
    ensures b[..] == Crypted(old(b[..]))
  {
    ghost var s: Buffer := b[..];
    var i := 0;
    while i < BufSize
      invariant 0 <= i <= BufSize
      invariant forall k :: 0 <= k < i ==> b[k] == s[k] ^ MagicAt(k)
      invariant forall k :: i <= k < BufSize ==> b[k] == s[k]
    {
      b[i] := b[i] ^ MagicAt(i);
      i := i + 1;
    }
  }

  /** The comparison loop from position `i`: a positive hit for every byte that agrees with
      the flag, a return of 1 at the first one that does not, and the return of 0 at the end of
      the flag. The C loop reads `flag[i]` before it tests `i < BUFSIZE`; the flag of the
      example ends in zeros, so the walk never gets that far, and the test comes first here. */
  function Walk(buf: Buffer, flag: seq<int>, i: nat): seq<Site>
    requires |flag| == BufSize
    decreases BufSize - i
  {
    if i >= BufSize || flag[i] == 0 then [Win]
    else if Signed(buf[i]) != flag[i] then []
    else [Positive] + Walk(buf, flag, i + 1)
  }

  /** The program with flag array `flag` on stdin, over a stack whose bytes fgets does not
      overwrite: the line is read, encrypted and compared. */
  function Program(flag: seq<int>, stack: Buffer): Target
    requires |flag| == BufSize
  {
    inp => Walk(Crypted(Fgets(StdinOf(inp), stack)), flag, 0)
  }

  /** A round of the example's call, with chunks of one character. */
  function Round(flag: seq<int>, stack: Buffer): Searcher
    requires |flag| == BufSize
  {
    Packaged(Setup, Program(flag, stack), 1)
  }

  /** main after fgets: encrypt the buffer, then compare it with the flag. */
  method Execute(buf: array<bv8>, flag: seq<int>) returns (trace: seq<Site>)
    requires buf.Length == BufSize && |flag| == BufSize
    modifies buf
    ensures buf[..] == Crypted(old(buf[..]))
    ensures trace == Walk(Crypted(old(buf[..])), flag, 0)
  {
    Crypt(buf);
    trace := Compare(buf, flag);
  }

  /** The comparison loop of main and the return after it. */
  method Compare(buf: array<bv8>, flag: seq<int>) returns (trace: seq<Site>)
    requires buf.Length == BufSize && |flag| == BufSize
    ensures trace == Walk(buf[..], flag, 0)
  {
    ghost var b: Buffer := buf[..];
    var i := 0;
    trace := [];
    while i < BufSize && flag[i] != 0
      invariant 0 <= i <= BufSize
      invariant trace + Walk(b, flag, i) == Walk(b, flag, 0)
      decreases BufSize - i
    {
      assert buf[i] == b[i];
      if Signed(buf[i]) != flag[i] {
        // return 1
        assert Walk(b, flag, i) == [];
        assert trace + [] == trace;
        assert buf[..] == b;
        return;
      }
      ghost var rest := Walk(b, flag, i + 1);
      assert Walk(b, flag, i) == [Positive] + rest;
      Associative(trace, [Positive], rest);
      trace := trace + [Positive];
      i := i + 1;
    }
    // return 0
    assert Walk(b, flag, i) == [Win];
    assert buf[..] == b;
    trace := trace + [Win];
  }

  /** Over `n` bytes where the buffer agrees with a flag that has no zero in them, every
      byte is a positive hit. */
  lemma {:induction false} WalkMatched(buf: Buffer, flag: seq<int>, i: nat, n: nat)
    requires |flag| == BufSize && i + n < BufSize
    requires forall k :: i <= k < i + n ==> Signed(buf[k]) == flag[k] && flag[k] != 0
    ensures Occurrences(Walk(buf, flag, i), Positive) == n + Occurrences(Walk(buf, flag, i + n), Positive)
    ensures Occurrences(Walk(buf, flag, i), Win) == Occurrences(Walk(buf, flag, i + n), Win)
    decreases n
  {
    if n > 0 {
      WalkMatched(buf, flag, i + 1, n - 1);
      OccurrencesCons(Positive, Walk(buf, flag, i + 1));
    }
  }

  /** `flag` is the flag array of `key`: a printable key that leaves room for the newline and
      the terminator, encrypted and followed by the encrypted newline, with no zero among
      them and a zero behind them. */
  ghost predicate FlagOf(key: string, flag: seq<int>)
  {
    && |flag| == BufSize && |key| + 2 < BufSize && Printable(key)
    && (forall k :: 0 <= k < |key| ==> flag[k] == Signed(Byte(key[k]) ^ MagicAt(k)))
    && flag[|key|] == Signed(Newline ^ MagicAt(|key|))
    && (forall k :: 0 <= k <= |key| ==> flag[k] != 0)
    && flag[|key| + 1] == 0
  }

  /** The encrypted line of the round after `m` characters, trying `c`. */
  function Line(key: string, stack: Buffer, m: nat, c: string): Buffer
    requires m < |key| && |key| + 2 < BufSize && |c| == 1
  {
    Crypted(Fgets(StdinOf(key[..m] + c), stack))
  }

  /** The bytes of that line: the known characters, the one tried and the newline, each
      encrypted. */
  lemma LineBytes(key: string, stack: Buffer, m: nat, c: string)
    requires m < |key| && |key| + 2 < BufSize && |c| == 1 && Printable(key) && Printable(c)
    ensures forall k :: 0 <= k < m ==> Line(key, stack, m, c)[k] == Byte(key[k]) ^ MagicAt(k)
    ensures Line(key, stack, m, c)[m] == Byte(c[0]) ^ MagicAt(m)
    ensures Line(key, stack, m, c)[m + 1] == Newline ^ MagicAt(m + 1)
  {
    var w := key[..m] + c;
    assert Printable(w);
    FgetsPrintable(w, stack);
    assert w[m] == c[0];
  }

  /** The known characters of a line are all positive hits. */
  lemma LinePrefix(key: string, flag: seq<int>, stack: Buffer, m: nat, c: string)
    requires FlagOf(key, flag) && m < |key| && |c| == 1 && Printable(c)
    ensures var w := Walk(Line(key, stack, m, c), flag, 0);
      && Occurrences(w, Positive) == m + Occurrences(Walk(Line(key, stack, m, c), flag, m), Positive)
      && Occurrences(w, Win) == Occurrences(Walk(Line(key, stack, m, c), flag, m), Win)
  {
    var buf := Line(key, stack, m, c);
    LineBytes(key, stack, m, c);
    forall k | 0 <= k < m
      ensures Signed(buf[k]) == flag[k] && flag[k] != 0
    {
    }
    WalkMatched(buf, flag, 0, m);
  }

  /** The character tried: a positive hit exactly when it is the next character of the key;
      behind it the newline, which agrees with the flag only at the end of the key, and after
      that the end of the flag. */
  lemma LineEnd(key: string, flag: seq<int>, buf: Buffer, m: nat, x: char)
    requires FlagOf(key, flag) && m < |key| && ' ' <= x <= '~'
    requires buf[m] == Byte(x) ^ MagicAt(m) && buf[m + 1] == Newline ^ MagicAt(m + 1)
    ensures Walk(buf, flag, m) ==
      if x != key[m] then []
      else if m + 1 < |key| then [Positive]
      else [Positive, Positive, Win]
  {
    TriedByte(key, flag, buf, m, x);
    NewlineByte(key, flag, buf, m);
    if x == key[m] {
      assert Walk(buf, flag, m) == [Positive] + Walk(buf, flag, m + 1);
      if m + 1 == |key| {
        assert Walk(buf, flag, m + 1) == [Positive] + Walk(buf, flag, m + 2);
        assert Walk(buf, flag, m + 2) == [Win];
      }
    }
  }

  /** The encrypted character tried agrees with the flag exactly when it is the next character
      of the key. */
  lemma TriedByte(key: string, flag: seq<int>, buf: Buffer, m: nat, x: char)
    requires FlagOf(key, flag) && m < |key| && ' ' <= x <= '~'
    requires buf[m] == Byte(x) ^ MagicAt(m)
    ensures flag[m] != 0 && (Signed(buf[m]) == flag[m] <==> x == key[m])
  {
    var want := Byte(key[m]) ^ MagicAt(m);
    assert flag[m] == Signed(want);
    SignedInjective(buf[m], want);
    XorCancel(Byte(x), Byte(key[m]), MagicAt(m));
    ByteInjective(x, key[m]);
  }

  /** The encrypted newline agrees with the flag exactly at the end of the key. */
  lemma NewlineByte(key: string, flag: seq<int>, buf: Buffer, m: nat)
    requires FlagOf(key, flag) && m < |key|
    requires buf[m + 1] == Newline ^ MagicAt(m + 1)
    ensures flag[m + 1] != 0
    ensures Signed(buf[m + 1]) == flag[m + 1] <==> m + 1 == |key|
  {
    if m + 1 < |key| {
      PrintableByte(key[m + 1]);
      XorCancel(Newline, Byte(key[m + 1]), MagicAt(m + 1));
      SignedInjective(buf[m + 1], Byte(key[m + 1]) ^ MagicAt(m + 1));
    }
  }

  /** The hits of the walk from the character tried on. */
  lemma EndCounts(e: seq<Site>)
    requires e == [] || e == [Positive] || e == [Positive, Positive, Win]
    ensures Occurrences(e, Positive) == if e == [Positive, Positive, Win] then 2 else |e|
    ensures Occurrences(e, Win) == if e == [Positive, Positive, Win] then 1 else 0
  {
    if e == [Positive, Positive, Win] {
      assert e[..2] == [Positive, Positive];
      assert e[..2][..1] == [Positive];
    } else if e == [Positive] {
      assert e[..0] == [];
    }
  }

  /** Searcher `s` runs the program with flag array `flag` over `stack` and counts its hits
      with the breakpoints of the example's call. */
  ghost predicate Runs(s: Searcher, flag: seq<int>, stack: Buffer)
  {
    |flag| == BufSize && s.cfg == Setup && s.run == Runner(Setup, Program(flag, stack))
  }

  /** The counters after the round after `m` characters has tried `c`: a positive hit per
      known character; if `c` is the next one, a hit for it, and at the end of the key one for
      the newline and the win. */
  lemma TrialHits(s: Searcher, key: string, flag: seq<int>, stack: Buffer, m: nat, c: string)
    requires Runs(s, flag, stack) && FlagOf(key, flag)
    requires m < |key| && |c| == 1 && Printable(c)
    ensures var right := c[0] == key[m];
      var last := right && m + 1 == |key|;
      Trial(s, key[..m] + c + "") == Hits(m + (if last then 2 else if right then 1 else 0), 0, if last then 1 else 0)
  {
    var inp := key[..m] + c;
    assert inp + "" == inp;
    var t := Walk(Line(key, stack, m, c), flag, 0);
    assert Trial(s, inp) == Replay(Setup, NoHits, t);
    LinePrefix(key, flag, stack, m, c);
    LineBytes(key, stack, m, c);
    LineEnd(key, flag, Line(key, stack, m, c), m, c[0]);
    var e := Walk(Line(key, stack, m, c), flag, m);
    EndCounts(e);
    ReplayCounts(Setup, t);
  }

  /** What the rounds of the example need of their searcher: it runs the program, accepts a
      better score or a win, calibrates with a printable character, tries printable single
      characters only, and every character of the key is one of them and differs from the
      calibration character. */
  ghost predicate Plays(s: Searcher, key: string, flag: seq<int>, stack: Buffer)
  {
    && Runs(s, flag, stack) && s.rule == ScoreOrWin && |s.filler| == 1 && Printable(s.filler)
    && (forall j :: 0 <= j < |s.cands| ==> |s.cands[j]| == 1 && Printable(s.cands[j]))
    && (forall m :: 0 <= m < |key| ==> [key[m]] in s.cands && [key[m]] != s.filler)
  }

  /** The round of the example's call plays every searchable key. */
  lemma RoundPlays(key: string, flag: seq<int>, stack: Buffer)
    requires |flag| == BufSize && Searchable(key)
    ensures Plays(Round(flag, stack), key, flag, stack)
  {
    var s := Round(flag, stack);
    assert s.cands == Singles(Charset) && s.filler == [Filler];
    CharsetPrintable();
    SinglesPlay(s, Charset, key, flag, stack);
  }

  /** A round over the single characters of a printable charset that holds every character of
      the key, calibrated with a character outside the key, plays the key. */
  lemma SinglesPlay(s: Searcher, cs: string, key: string, flag: seq<int>, stack: Buffer)
    requires Runs(s, flag, stack) && s.rule == ScoreOrWin && s.cands == Singles(cs)
    requires |s.filler| == 1 && ' ' <= s.filler[0] <= '~'
    requires forall c :: c in cs ==> ' ' <= c <= '~'
    requires forall m :: 0 <= m < |key| ==> key[m] in cs && key[m] != s.filler[0]
    ensures Plays(s, key, flag, stack)
  {
    SinglesPrintable(cs);
    forall m | 0 <= m < |key|
      ensures [key[m]] in s.cands && [key[m]] != s.filler
    {
      SingleIn(cs, key[m]);
    }
  }

  lemma SinglesPrintable(cs: string)
    requires forall c :: c in cs ==> ' ' <= c <= '~'
    ensures forall j :: 0 <= j < |Singles(cs)| ==> |Singles(cs)[j]| == 1 && Printable(Singles(cs)[j])
  {
    forall j | 0 <= j < |Singles(cs)|
      ensures |Singles(cs)[j]| == 1 && Printable(Singles(cs)[j])
    {
      var w := Singles(cs)[j];
      assert w == [cs[j]] && cs[j] in cs;
      assert forall k :: 0 <= k < |w| ==> w[k] == cs[j];
    }
  }

  lemma SingleIn(cs: string, c: char)
    requires c in cs
    ensures [c] in Singles(cs)
  {
    var j :| 0 <= j < |cs| && cs[j] == c;
    assert Singles(cs)[j] == [c];
  }

  /** The calibration run after `m` characters: the known characters score, the
      calibration character never does. */
  lemma FillerScore(s: Searcher, key: string, flag: seq<int>, stack: Buffer, m: nat)
    requires Plays(s, key, flag, stack) && FlagOf(key, flag) && m < |key|
    ensures RefScore(s, key[..m], "") == m
  {
    assert [key[m]] != s.filler;
    assert s.filler == [s.filler[0]];
    TrialHits(s, key, flag, stack, m, s.filler);
  }

  /** After `m` characters, a round accepts a printable character exactly when it is the
      next character of the key. */
  lemma CandidateVerdict(s: Searcher, key: string, flag: seq<int>, stack: Buffer, m: nat, c: string)
    requires Plays(s, key, flag, stack) && FlagOf(key, flag)
    requires m < |key| && |c| == 1 && Printable(c)
    ensures Accepted(s, key[..m], "", c) <==> c == [key[m]]
  {
    FillerScore(s, key, flag, stack, m);
    TrialHits(s, key, flag, stack, m, c);
    assert c == [c[0]];
  }

  /** After the first `m` characters of the key, a round accepts the next one and nothing
      else. */
  lemma RoundAccepts(s: Searcher, key: string, flag: seq<int>, stack: Buffer, m: nat)
    requires Plays(s, key, flag, stack) && FlagOf(key, flag) && m < |key|
    ensures OnlyAccepts(s, key[..m], "", [key[m]])
  {
    assert [key[m]] in s.cands;
    forall j | 0 <= j < |s.cands|
      ensures AcceptedAt(s, key[..m], "", j) <==> s.cands[j] == [key[m]]
    {
      CandidateVerdict(s, key, flag, stack, m, s.cands[j]);
    }
  }

  /** The win breakpoint is hit by the first `m + 1` characters only when they are the whole
      key. */
  lemma RoundWins(s: Searcher, key: string, flag: seq<int>, stack: Buffer, m: nat)
    requires Runs(s, flag, stack) && FlagOf(key, flag) && m < |key|
    ensures Won(Trial(s, key[..m + 1])) <==> m + 1 == |key|
  {
    assert Printable([key[m]]);
    TrialHits(s, key, flag, stack, m, [key[m]]);
    PrefixSnoc(key, m);
    assert key[..m + 1] + "" == key[..m + 1];
  }

  lemma CharsGuideAt(s: Searcher, key: string, flag: seq<int>, stack: Buffer, m: nat)
    requires Plays(s, key, flag, stack) && FlagOf(key, flag) && m < |key|
    ensures GuidesAt(s, Singles(key), "", m)
  {
    CharsAccepted(s, key, flag, stack, m);
    CharsWin(s, key, flag, stack, m);
  }

  lemma CharsAccepted(s: Searcher, key: string, flag: seq<int>, stack: Buffer, m: nat)
    requires Plays(s, key, flag, stack) && FlagOf(key, flag) && m < |key|
    ensures OnlyAccepts(s, Concat(Singles(key)[..m]), "", Singles(key)[m])
  {
    RoundAccepts(s, key, flag, stack, m);
    ConcatSingles(key, m);
  }

  lemma CharsWin(s: Searcher, key: string, flag: seq<int>, stack: Buffer, m: nat)
    requires Runs(s, flag, stack) && FlagOf(key, flag) && m < |key|
    ensures Won(Trial(s, Concat(Singles(key)[..m + 1]) + "")) <==> m + 1 == |Singles(key)|
  {
    RoundWins(s, key, flag, stack, m);
    ConcatSingles(key, m + 1);
    assert Concat(Singles(key)[..m + 1]) + "" == key[..m + 1];
  }

  /** The target leads the search through the key one character at a time. */
  lemma CharsGuide(s: Searcher, key: string, flag: seq<int>, stack: Buffer)
    requires Plays(s, key, flag, stack) && FlagOf(key, flag)
    ensures Guides(s, Singles(key), "")
  {
    forall m: nat | m < |Singles(key)|
      ensures GuidesAt(s, Singles(key), "", m)
    {
      CharsGuideAt(s, key, flag, stack, m);
    }
  }

  lemma CharsSearch(s: Searcher, key: string, flag: seq<int>, stack: Buffer, rounds: nat)
    requires Plays(s, key, flag, stack) && FlagOf(key, flag) && key != [] && rounds >= |key|
    ensures Search(s, Concat(Singles(key)[..0]), "", rounds) == Some(Concat(Singles(key)) + "")
  {
    CharsGuide(s, key, flag, stack);
    SearchFollows(s, Singles(key), "", 0, rounds);
  }

  /** A searcher that plays the key returns it, started with nothing known, after at most
      one round per character. */
  lemma PlaysRecovers(s: Searcher, key: string, flag: seq<int>, stack: Buffer, rounds: nat)
    requires Plays(s, key, flag, stack) && FlagOf(key, flag) && key != [] && rounds >= |key|
    ensures Search(s, "", "", rounds) == Some(key)
  {
    CharsSearch(s, key, flag, stack, rounds);
    CharsWhole(key);
  }

  /** No characters join to nothing and all of them, with nothing after them, to the key. */
  lemma CharsWhole(key: string)
    ensures Concat(Singles(key)[..0]) == "" && Concat(Singles(key)) + "" == key
  {
    ConcatSingles(key, 0);
    ConcatSingles(key, |key|);
    assert Singles(key)[..|key|] == Singles(key);
    assert key[..|key|] == key;
    assert key + "" == key;
  }

  /** For any flag array holding an encrypted key of charset characters and the encrypted
      newline, the packaged search with chunks of one character, started with nothing known,
      returns the key after at most one round per character, whatever the stack held. */
  lemma RecoversAny(key: string, flag: seq<int>, stack: Buffer, rounds: nat)
    requires FlagOf(key, flag) && Searchable(key) && key != [] && rounds >= |key|
    ensures Search(Round(flag, stack), "", "", rounds) == Some(key)
  {
    RoundPlays(key, flag, stack);
    PlaysRecovers(Round(flag, stack), key, flag, stack, rounds);
  }

  /** A key whose characters are in the packaged charset, encrypted into `flag` with the
      encrypted newline and a zero behind it, is the key of that flag array. */
  lemma FlagOfEncrypted(key: string, flag: seq<int>)
    requires |flag| == BufSize && |key| + 2 < BufSize
    requires forall k :: 0 <= k < |key| ==> Encrypted(key, flag, k) && key[k] in Charset && key[k] != Filler
    requires flag[|key|] == Signed(Newline ^ MagicAt(|key|)) && flag[|key|] != 0 && flag[|key| + 1] == 0
    ensures FlagOf(key, flag) && Searchable(key)
  {
    CharsetPrintable();
  }

  /** The flag array of the example is the encrypted key and newline. */
  lemma KeyFlag()
    ensures FlagOf(Key, Flag) && Searchable(Key)
  {
    EncryptedNewline();
    forall k | 0 <= k < |Key|
      ensures Encrypted(Key, Flag, k) && Key[k] in Charset && Key[k] != Filler
    {
      FlagByte(k);
      KeyInCharset(k);
      assert Key[k] == KeyAt(k);
    }
    FlagOfEncrypted(Key, Flag);
  }

  /** Every character of the key is in the packaged charset and is not the calibration
      character. */
  lemma KeyInCharset(k: nat)
    requires k < 27
    ensures KeyAt(k) in Charset && KeyAt(k) != Filler
  {
    ClassInCharset(KeyAt(k));
  }

  /** The call in the example's header: the key comes out after at most 27 rounds, whatever
      the stack held. */
  lemma Recovers(stack: Buffer, rounds: nat)
    requires rounds >= |Key|
    ensures Search(Round(Flag, stack), "", "", rounds) == Some(Key)
  {
    KeyFlag();
    RecoversAny(Key, Flag, stack, rounds);
  }
}
