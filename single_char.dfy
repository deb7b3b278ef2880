/** The example program single-char.c: the input is compared with a hard-coded flag character by
    character, a negative breakpoint sits where a difference is recorded and the win
    breakpoint on the success message. */
module SingleChar {
  import opened Wrappers
  import opened Scoring
  import opened Chunks
  import opened Stdin
  import opened BF = Bruteforce

  /** The flag text, with the newline that fgets keeps. */
  const FlagText: string := "CTF{F00_b4R_B4z_fL4g!}\n"

  /** The key to recover: the flag without its newline. */
  const Key: string := "CTF{F00_b4R_B4z_fL4g!}"

  /** `char flag[BUFSIZE] = ...`: the text, then NUL to the end of the array. */
  const Flag: Buffer := Bytes(FlagText) + Zeros(9)

  /** The breakpoints of the example's call: --negative-addr and --win-addr. */
  const Setup: Config := Config(false, true, true)

  /** The walk from position `i` against `flag`: a negative hit for every byte that differs,
      up to the terminator. */
  function Walk(buf: Buffer, flag: Buffer, i: nat): seq<Site>
    decreases BufSize - i
  {
    if i >= BufSize || buf[i] == 0 then []
    else (if buf[i] != flag[i] then [Negative] else []) + Walk(buf, flag, i + 1)
  }

  /** A whole run: the walk, then the success message if nothing differed. */
  function Trace(buf: Buffer, flag: Buffer): seq<Site>
  {
    var w := Walk(buf, flag, 0);
    if Negative in w then w else w + [Win]
  }

  /** The program on stdin, over a stack whose bytes fgets does not overwrite. */
  function Program(stack: Buffer): Target
  {
    inp => Trace(Fgets(StdinOf(inp), stack), Flag)
  }

  /** main after fgets: walk the buffer against the flag array, then print the verdict. */
  method Execute(buf: array<bv8>, flag: Buffer) returns (trace: seq<Site>)
    requires buf.Length == BufSize && 0 in buf[..]
    ensures trace == Trace(buf[..], flag)
  {
    ghost var b: Buffer := buf[..];
    ghost var nul :| 0 <= nul < BufSize && b[nul] == 0;
    var foundFlag := 1;
    var i := 0;
    trace := [];
    while buf[i] != 0 && i < BufSize
      invariant 0 <= i <= nul
      invariant trace + Walk(b, flag, i) == Walk(b, flag, 0)
      invariant foundFlag == if Negative in trace then 0 else 1
      decreases BufSize - i
    {
      assert buf[i] == b[i];
      WalkStep(b, flag, i, trace);
      if buf[i] != flag[i] {
        foundFlag := 0;
        trace := trace + [Negative];
      }
      i := i + 1;
    }
    assert Walk(b, flag, i) == [];
    assert trace + [] == trace;
    assert buf[..] == b;
    if foundFlag != 0 {
      trace := trace + [Win];
    }
  }

  /** One pass of the loop: the byte at `i` adds its hit, if any, to the trace so far. */
  lemma WalkStep(b: Buffer, flag: Buffer, i: nat, trace: seq<Site>)
    requires i < BufSize && b[i] != 0
    requires trace + Walk(b, flag, i) == Walk(b, flag, 0)
    ensures b[i] != flag[i] ==> (trace + [Negative]) + Walk(b, flag, i + 1) == Walk(b, flag, 0)
    ensures b[i] == flag[i] ==> trace + Walk(b, flag, i + 1) == Walk(b, flag, 0)
  {
    var rest := Walk(b, flag, i + 1);
    if b[i] != flag[i] {
      assert Walk(b, flag, i) == [Negative] + rest;
      Associative(trace, [Negative], rest);
    } else {
      assert Walk(b, flag, i) == [] + rest;
      assert [] + rest == rest;
    }
  }

  /** The walk over an agreeing stretch of the buffer records nothing. */
  lemma {:induction false} WalkMatched(buf: Buffer, i: nat, j: nat)
    requires i <= j <= BufSize
    requires forall k :: i <= k < j ==> buf[k] == Flag[k] && buf[k] != 0
    ensures Walk(buf, Flag, i) == Walk(buf, Flag, j)
    decreases j - i
  {
    if i < j {
      WalkMatched(buf, i + 1, j);
    }
  }

  lemma KeyText()
    ensures FlagText == Key + "\n"
    ensures forall k :: 0 <= k < |Key| ==> ' ' <= Key[k] <= '~' && Key[k] != '^'
  {
  }

  /** Every character of the key is in the packaged charset. */
  lemma KeyInCharset(m: nat)
    requires m < |Key|
    ensures Key[m] in Charset
  {
    ClassInCharset(Key[m]);
  }

  /** The flag array holds the key and then the newline. */
  lemma FlagBytes(k: nat)
    requires k <= |Key|
    ensures Flag[k] == if k < |Key| then Byte(Key[k]) else Newline
  {
    KeyText();
    assert Flag[k] == Byte(FlagText[k]);
  }

  /** A negative hit when `differs`. */
  function Miss(differs: bool): seq<Site>
  {
    if differs then [Negative] else []
  }

  /** The walk over the last two bytes of a line, the NUL behind them ending it. */
  lemma WalkEnd(buf: Buffer, m: nat)
    requires m + 2 < BufSize && buf[m] != 0 && buf[m + 1] != 0 && buf[m + 2] == 0
    ensures Walk(buf, Flag, m) == Miss(buf[m] != Flag[m]) + Miss(buf[m + 1] != Flag[m + 1])
  {
    assert Walk(buf, Flag, m + 2) == [];
    assert Walk(buf, Flag, m + 1) == Miss(buf[m + 1] != Flag[m + 1]) + [];
  }

  /** The counters after a run whose walk recorded up to two differences. */
  lemma TallyEnd(p: bool, q: bool)
    ensures var w := Miss(p) + Miss(q);
      var n := (if p then 1 else 0) + (if q then 1 else 0);
      Replay(Setup, NoHits, if Negative in w then w else w + [Win]) == Hits(0, n, if n == 0 then 1 else 0)
  {
    var w := Miss(p) + Miss(q);
    if p && q {
      assert w == [Negative, Negative];
      assert w[..1] == [Negative];
    } else if p || q {
      assert w == [Negative];
    } else {
      assert w + [Win] == [Win];
    }
  }

  /** The walk over the line of a round after `m` correct characters, trying `x`: a
      difference at `x` if it is wrong, and one at the newline unless the key is complete. */
  lemma LineWalk(stack: Buffer, m: nat, x: char)
    requires m < |Key| && ' ' <= x <= '~'
    ensures Walk(Fgets(StdinOf(Key[..m] + [x]), stack), Flag, 0) == Miss(x != Key[m]) + Miss(m + 1 != |Key|)
  {
    KeyText();
    var w := Key[..m] + [x];
    assert Printable(w);
    FgetsPrintable(w, stack);
    var buf := Fgets(StdinOf(w), stack);
    forall k | 0 <= k < m
      ensures buf[k] == Flag[k] && buf[k] != 0
    {
      FlagBytes(k);
      PrintableByte(Key[k]);
    }
    WalkMatched(buf, 0, m);
    PrintableByte(x);
    WalkEnd(buf, m);
    FlagBytes(m);
    FlagBytes(m + 1);
    ByteInjective(x, Key[m]);
    if m + 1 < |Key| {
      PrintableByte(Key[m + 1]);
    }
  }

  /** One round after `m` correct characters, trying `x`: one negative hit if `x` is wrong,
      one more for the newline as long as the key is not complete, and a win otherwise. */
  lemma RoundHits(stack: Buffer, m: nat, x: char)
    requires m < |Key| && ' ' <= x <= '~'
    ensures var a := if x == Key[m] then 0 else 1;
      var b := if m + 1 == |Key| then 0 else 1;
      Replay(Setup, NoHits, Program(stack)(Key[..m] + [x])) == Hits(0, a + b, if a + b == 0 then 1 else 0)
  {
    var buf := Fgets(StdinOf(Key[..m] + [x]), stack);
    LineWalk(stack, m, x);
    assert Program(stack)(Key[..m] + [x]) == Trace(buf, Flag);
    TallyEnd(x != Key[m], m + 1 != |Key|);
  }

  /** The round of the example's call. */
  function Round(stack: Buffer): Searcher
  {
    Packaged(Setup, Program(stack), 1)
  }

  /** After `m` correct characters a round accepts a printable `x` exactly when it is the
      next character of the key. */
  lemma CandidateVerdict(stack: Buffer, m: nat, x: char)
    requires m < |Key| && ' ' <= x <= '~'
    ensures Accepted(Round(stack), Key[..m], "", [x]) <==> x == Key[m]
  {
    var s := Round(stack);
    KeyText();
    assert s.filler == "^";
    RoundHits(stack, m, x);
    RoundHits(stack, m, '^');
    assert Key[..m] + "^" + "" == Key[..m] + ['^'];
    assert Key[..m] + [x] + "" == Key[..m] + [x];
  }

  /** After the first `m` characters of the key, a round accepts the next character of the
      key and nothing else, and the win breakpoint is hit only by the complete key. */
  lemma RoundGuided(stack: Buffer, m: nat)
    requires m < |Key|
    ensures OnlyAccepts(Round(stack), Key[..m], "", [Key[m]])
    ensures Won(Trial(Round(stack), Key[..m + 1])) <==> m + 1 == |Key|
  {
    var s := Round(stack);
    assert s.cands == Singles(Charset);
    CharsetPrintable();
    KeyInCharset(m);
    var j0 :| 0 <= j0 < |Charset| && Charset[j0] == Key[m];
    assert s.cands[j0] == [Key[m]];
    forall j | 0 <= j < |s.cands|
      ensures AcceptedAt(s, Key[..m], "", j) <==> s.cands[j] == [Key[m]]
    {
      var x := Charset[j];
      assert s.cands[j] == [x];
      assert x in Charset;
      CandidateVerdict(stack, m, x);
    }
    KeyText();
    RoundHits(stack, m, Key[m]);
    PrefixSnoc(Key, m);
  }

  lemma ConcatKey()
    ensures Concat(Singles(Key)) == Key
  {
    ConcatSingles(Key, |Key|);
    assert Singles(Key)[..|Key|] == Singles(Key);
  }

  lemma KeyGuidesAt(stack: Buffer, m: nat)
    requires m < |Key|
    ensures GuidesAt(Round(stack), Singles(Key), "", m)
  {
    KeyAccepted(stack, m);
    KeyWins(stack, m);
  }

  lemma KeyAccepted(stack: Buffer, m: nat)
    requires m < |Key|
    ensures OnlyAccepts(Round(stack), Concat(Singles(Key)[..m]), "", Singles(Key)[m])
  {
    RoundGuided(stack, m);
    ConcatSingles(Key, m);
  }

  lemma KeyWins(stack: Buffer, m: nat)
    requires m < |Key|
    ensures Won(Trial(Round(stack), Concat(Singles(Key)[..m + 1]) + "")) <==> m + 1 == |Singles(Key)|
  {
    RoundGuided(stack, m);
    SinglesWin(Round(stack), Key, m);
  }

  /** The trial after the first `m + 1` one-character chunks of `key` is that of its first
      `m + 1` characters. */
  lemma SinglesWin(s: Searcher, key: string, m: nat)
    requires m < |key|
    ensures Trial(s, Concat(Singles(key)[..m + 1]) + "") == Trial(s, key[..m + 1])
    ensures |Singles(key)| == |key|
  {
    ConcatSingles(key, m + 1);
    assert Concat(Singles(key)[..m + 1]) + "" == key[..m + 1];
  }

  /** The target leads the search through the key one character at a time. */
  lemma KeyGuides(stack: Buffer)
    ensures Guides(Round(stack), Singles(Key), "")
  {
    forall m: nat | m < |Singles(Key)|
      ensures GuidesAt(Round(stack), Singles(Key), "", m)
    {
      KeyGuidesAt(stack, m);
    }
  }

  /** The call in the example's header: the packaged search with chunks of one character,
      started with nothing known, returns the key after at most one round per character,
      whatever the stack held. */
  lemma Recovers(stack: Buffer, rounds: nat)
    requires rounds >= |Key|
    ensures Search(Round(stack), "", "", rounds) == Some(Key)
  {
    KeyGuides(stack);
    SearchFollows(Round(stack), Singles(Key), "", 0, rounds);
    assert Singles(Key)[..0] == [];
    ConcatKey();
    assert Key + "" == Key;
  }
}
