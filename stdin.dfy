/** How the example programs receive an input: the packaged search runs the target with the
    input on stdin through a here-string, which ends it with a newline, and every example reads
    it with `fgets(buf, BUFSIZE, stdin)` into a 32-byte stack buffer. */
module Stdin {

  /** BUFSIZE of every example program. */
  const BufSize: nat := 32

  /** The contents of a 32-byte buffer. */
  type Buffer = s: seq<bv8> | |s| == 32 witness seq(32, _ => 0)

  /** A character as the byte the target reads. */
  function Byte(c: char): bv8
  {
    (c as int % 256) as bv8
  }

  function Bytes(s: string): (r: seq<bv8>)
    ensures |r| == |s| && forall i :: 0 <= i < |s| ==> r[i] == Byte(s[i])
  {
    seq(|s|, i requires 0 <= i < |s| => Byte(s[i]))
  }

  /** Characters below 256 are told apart by their bytes. */
  lemma ByteInjective(c: char, d: char)
    requires (c as int) < 256 && (d as int) < 256
    ensures Byte(c) == Byte(d) <==> c == d
  {
    ByteValue(c);
    ByteValue(d);
  }

  lemma ByteValue(c: char)
    requires (c as int) < 256
    ensures Byte(c) as int == c as int
  {
    var k := c as int;
    assert k % 256 == k;
    var b := k as bv8;
    assert b as int == k;
  }

  /** `n` NUL bytes. */
  function Zeros(n: nat): (r: seq<bv8>)
    ensures |r| == n && forall i :: 0 <= i < n ==> r[i] == 0
  {
    seq(n, _ => 0)
  }

  const Newline: bv8 := 10

  /** What the program reads on stdin for input `inp`. */
  function StdinOf(inp: string): seq<bv8>
  {
    Bytes(inp) + [Newline]
  }

  /** The number of bytes fgets stores when it has stored `i` already: it stops after a
      newline, at the end of the input, or when only the terminator still fits. */
  function LineLength(data: seq<bv8>, i: nat): (n: nat)
    requires i <= BufSize - 1
    ensures i <= n <= BufSize - 1 && (i <= |data| ==> n <= |data|)
    decreases BufSize - i
  {
    if i >= |data| || i == BufSize - 1 then i
    else if data[i] == Newline then i + 1
    else LineLength(data, i + 1)
  }

  /** The buffer after `fgets(buf, BUFSIZE, stdin)` on a buffer that held `stack`: the bytes
      read and a NUL; what lies behind the NUL is left as it was. At the end of the input
      fgets stores nothing. */
  function Fgets(data: seq<bv8>, stack: Buffer): Buffer
  {
    var n := LineLength(data, 0);
    if n == 0 then stack else data[..n] + [0] + stack[n + 1..]
  }

  lemma {:induction false} LineLengthOfLine(w: seq<bv8>, i: nat)
    requires Newline !in w && |w| < BufSize - 1 && i <= |w|
    ensures LineLength(w + [Newline], i) == |w| + 1
    decreases BufSize - i
  {
    if i < |w| {
      assert (w + [Newline])[i] == w[i];
      LineLengthOfLine(w, i + 1);
    }
  }

  /** A line shorter than the buffer is stored whole, with its newline and a NUL. */
  lemma FgetsLine(w: seq<bv8>, stack: Buffer)
    requires Newline !in w && |w| < BufSize - 1
    ensures Fgets(w + [Newline], stack) == w + [Newline, 0] + stack[|w| + 2..]
  {
    LineLengthOfLine(w, 0);
    assert (w + [Newline])[..|w| + 1] == w + [Newline];
  }

  predicate Printable(w: string)
  {
    forall k :: 0 <= k < |w| ==> ' ' <= w[k] <= '~'
  }

  /** A printable character is neither a NUL nor a newline byte. */
  lemma PrintableByte(c: char)
    requires ' ' <= c <= '~'
    ensures Byte(c) != 0 && Byte(c) != Newline
  {
    ByteValue(c);
  }

  /** The buffer after a printable input shorter than the buffer: its bytes, the newline, a
      NUL, and the old stack behind them. */
  lemma FgetsPrintable(w: string, stack: Buffer)
    requires Printable(w) && |w| < BufSize - 1
    ensures Fgets(StdinOf(w), stack) == Bytes(w) + [Newline, 0] + stack[|w| + 2..]
    ensures forall k :: 0 <= k < |w| ==> Fgets(StdinOf(w), stack)[k] == Byte(w[k])
  {
    var bs := Bytes(w);
    forall k | 0 <= k < |bs|
      ensures bs[k] != Newline
    {
      PrintableByte(w[k]);
    }
    assert StdinOf(w) == bs + [Newline];
    FgetsLine(bs, stack);
    var f := bs + [Newline, 0] + stack[|w| + 2..];
    forall k | 0 <= k < |w|
      ensures f[k] == Byte(w[k])
    {
      assert f[k] == bs[k];
    }
  }

  /** Whatever stdin holds, a buffer filled by fgets holds a NUL: the loops of the examples
      that run to the terminator stop inside the buffer. */
  lemma FgetsTerminates(data: seq<bv8>, stack: Buffer)
    requires data != []
    ensures 0 in Fgets(data, stack)
  {
    var n := LineLength(data, 0);
    assert data[0] == Newline ==> n == 1;
    assert Fgets(data, stack)[n] == 0;
  }
}
