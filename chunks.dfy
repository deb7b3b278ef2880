/** The chunk candidates of one search round: all strings of a given length over a charset,
    in the order of the iterated list comprehension in src/Bruteforce.py (generateCharset). */
module Chunks {

  /** The charset `s` as one-character strings, in order (iterating a Python string). */
  function Singles(cs: string): seq<string>
  {
    seq(|cs|, i requires 0 <= i < |cs| => [cs[i]])
  }

  /** `[a + b for a in prev for b in cs]`: `a` varies slowest. */
  function Extend(prev: seq<string>, cs: string): seq<string>
  {
    if prev == [] then []
    else seq(|cs|, j requires 0 <= j < |cs| => prev[0] + [cs[j]]) + Extend(prev[1..], cs)
  }

  /** Start from the charset itself and extend `chunksize - 1` times; `chunksize <= 1` yields the charset. */
  function Candidates(cs: string, chunksize: int): seq<string>
    decreases chunksize
  {
    if chunksize <= 1 then Singles(cs) else Extend(Candidates(cs, chunksize - 1), cs)
  }

  /** The length of every candidate: a chunk size below 1 still yields single characters. */
  function Width(chunksize: int): nat
  {
    if chunksize <= 1 then 1 else chunksize
  }

  function Pow(b: nat, e: nat): nat
  {
    if e == 0 then 1 else b * Pow(b, e - 1)
  }

  lemma {:induction false} PowPositive(b: nat, e: nat)
    requires b > 0
    ensures Pow(b, e) > 0
  {
    if e > 0 {
      PowPositive(b, e - 1);
    }
  }

  /** The base-|cs| numeral of `k` with `w` digits, most significant first, spelt in `cs`. */
  function Digits(cs: string, w: nat, k: nat): string
    requires |cs| > 0 && w >= 1 && k < Pow(|cs|, w)
    decreases w
  {
    if w == 1 then
      assert Pow(|cs|, 1) == |cs| * Pow(|cs|, 0);
      [cs[k]]
    else
      DivBound(|cs|, Pow(|cs|, w - 1), k);
      Digits(cs, w - 1, k / |cs|) + [cs[k % |cs|]]
  }

  lemma DivBound(b: nat, m: nat, k: nat)
    requires b > 0 && k < b * m
    ensures k / b < m
  {
  }

  /** Element `i * |cs| + j` of `Extend(prev, cs)` is `prev[i]` followed by `cs[j]`. */
  lemma {:induction false} ExtendAt(prev: seq<string>, cs: string, i: nat, j: nat)
    requires i < |prev| && j < |cs|
    ensures |Extend(prev, cs)| == |prev| * |cs|
    ensures i * |cs| + j < |Extend(prev, cs)|
    ensures Extend(prev, cs)[i * |cs| + j] == prev[i] + [cs[j]]
  {
    ExtendLength(prev, cs);
    if i > 0 {
      ExtendAt(prev[1..], cs, i - 1, j);
      assert i * |cs| + j == |cs| + ((i - 1) * |cs| + j);
    }
  }

  lemma {:induction false} ExtendLength(prev: seq<string>, cs: string)
    ensures |Extend(prev, cs)| == |prev| * |cs|
  {
    if prev != [] {
      ExtendLength(prev[1..], cs);
    }
  }

  /** Every element of `Extend(prev, cs)` is some `prev[i] + [cs[j]]`. */
  lemma {:induction false} ExtendElement(prev: seq<string>, cs: string, k: nat)
    requires k < |Extend(prev, cs)|
    ensures |cs| > 0 && k / |cs| < |prev|
    ensures Extend(prev, cs)[k] == prev[k / |cs|] + [cs[k % |cs|]]
  {
    ExtendLength(prev, cs);
    var b := |cs|;
    assert b > 0;
    DivBound(b, |prev|, k);
    var i, j := k / b, k % b;
    assert k == i * b + j;
    ExtendAt(prev, cs, i, j);
  }

  /** There are |cs|^w candidates of width w. */
  lemma {:induction false} CandidatesCount(cs: string, chunksize: int)
    ensures |Candidates(cs, chunksize)| == Pow(|cs|, Width(chunksize))
    decreases chunksize
  {
    if chunksize > 1 {
      CandidatesCount(cs, chunksize - 1);
      ExtendLength(Candidates(cs, chunksize - 1), cs);
    }
  }

  /** Candidate `k` of a width above one extends candidate `k / |cs|` of the width below. */
  lemma CandidatesStep(cs: string, chunksize: int, k: nat)
    requires chunksize > 1 && k < |Candidates(cs, chunksize)|
    ensures |cs| > 0 && k / |cs| < |Candidates(cs, chunksize - 1)|
    ensures Candidates(cs, chunksize)[k] == Candidates(cs, chunksize - 1)[k / |cs|] + [cs[k % |cs|]]
  {
    ExtendElement(Candidates(cs, chunksize - 1), cs, k);
  }

  /** The numeral of `k` with `w > 1` digits is that of `k / |cs|` and one more digit. */
  lemma DigitsStep(cs: string, w: nat, k: nat)
    requires |cs| > 0 && w > 1 && k < Pow(|cs|, w)
    ensures k / |cs| < Pow(|cs|, w - 1)
    ensures Digits(cs, w, k) == Digits(cs, w - 1, k / |cs|) + [cs[k % |cs|]]
  {
    DivBound(|cs|, Pow(|cs|, w - 1), k);
  }

  /** Candidate `k` is the numeral of `k`: the first character varies slowest, the last fastest. */
  lemma {:induction false} CandidatesAt(cs: string, chunksize: int, k: nat)
    requires |cs| > 0 && k < Pow(|cs|, Width(chunksize))
    ensures |Candidates(cs, chunksize)| == Pow(|cs|, Width(chunksize))
    ensures Candidates(cs, chunksize)[k] == Digits(cs, Width(chunksize), k)
    decreases chunksize
  {
    CandidatesCount(cs, chunksize);
    if chunksize > 1 {
      CandidatesStep(cs, chunksize, k);
      DigitsStep(cs, Width(chunksize), k);
      CandidatesAt(cs, chunksize - 1, k / |cs|);
    }
  }

  /** Every candidate has the chunk's width and is spelt in the charset. */
  lemma {:induction false} CandidatesShape(cs: string, chunksize: int, k: nat)
    requires k < |Candidates(cs, chunksize)|
    ensures |Candidates(cs, chunksize)[k]| == Width(chunksize)
    ensures forall i :: 0 <= i < Width(chunksize) ==> Candidates(cs, chunksize)[k][i] in cs
    decreases chunksize
  {
    if chunksize > 1 {
      var prev := Candidates(cs, chunksize - 1);
      ExtendElement(prev, cs, k);
      CandidatesShape(cs, chunksize - 1, k / |cs|);
    }
  }

  /** Every string of the chunk's width spelt in the charset is a candidate. */
  lemma {:induction false} CandidatesComplete(cs: string, chunksize: int, s: string)
    requires |s| == Width(chunksize)
    requires forall i :: 0 <= i < |s| ==> s[i] in cs
    ensures s in Candidates(cs, chunksize)
    decreases chunksize
  {
    if chunksize <= 1 {
      var j :| 0 <= j < |cs| && cs[j] == s[0];
      assert Singles(cs)[j] == s;
    } else {
      var prev := Candidates(cs, chunksize - 1);
      var init := s[..|s| - 1];
      CandidatesComplete(cs, chunksize - 1, init);
      var i :| 0 <= i < |prev| && prev[i] == init;
      var j :| 0 <= j < |cs| && cs[j] == s[|s| - 1];
      ExtendAt(prev, cs, i, j);
      assert prev[i] + [cs[j]] == s;
    }
  }

  /** Chunks of two over "ab" come in the order aa, ab, ba, bb. */
  lemma PairsOfAb()
    ensures Candidates("ab", 2) == ["aa", "ab", "ba", "bb"]
  {
    var singles := Candidates("ab", 1);
    assert singles == ["a", "b"];
    ExtendAt(singles, "ab", 0, 0);
    ExtendAt(singles, "ab", 0, 1);
    ExtendAt(singles, "ab", 1, 0);
    ExtendAt(singles, "ab", 1, 1);
    var c := Candidates("ab", 2);
    assert c[0] == "aa" && c[1] == "ab" && c[2] == "ba" && c[3] == "bb";
  }
}
