/** `int(s, 16)` as src/TargetManager.py applies it to the buffer address: an optional "0x"
    or "0X" prefix followed by at least one hexadecimal digit of either case. */
module Hex {
  import opened Wrappers

  predicate IsHexDigit(c: char)
  {
    '0' <= c <= '9' || 'a' <= c <= 'f' || 'A' <= c <= 'F'
  }

  function DigitValue(c: char): (v: nat)
    requires IsHexDigit(c)
    ensures v < 16
  {
    if '0' <= c <= '9' then c as int - '0' as int
    else if 'a' <= c <= 'f' then c as int - 'a' as int + 10
    else c as int - 'A' as int + 10
  }

  predicate AllHexDigits(s: string)
  {
    forall i :: 0 <= i < |s| ==> IsHexDigit(s[i])
  }

  /** The value of a digit string, most significant digit first. */
  function ValueOf(ds: string): nat
    requires AllHexDigits(ds)
  {
    if ds == [] then 0 else ValueOf(ds[..|ds| - 1]) * 16 + DigitValue(ds[|ds| - 1])
  }

  /** The digits after an optional base prefix. */
  function Body(s: string): string
  {
    if |s| >= 2 && s[0] == '0' && (s[1] == 'x' || s[1] == 'X') then s[2..] else s
  }

  /** int(s, 16), or None where Python raises ValueError. */
  function ParseHex(s: string): Option<nat>
  {
    var ds := Body(s);
    if ds != [] && AllHexDigits(ds) then Some(ValueOf(ds)) else None
  }

  /** The lower-case digit of a value below 16. */
  function HexChar(d: nat): (c: char)
    requires d < 16
    ensures IsHexDigit(c) && DigitValue(c) == d
  {
    if d < 10 then ('0' as int + d) as char else ('a' as int + d - 10) as char
  }

  /** `format(n, "x")`: the shortest lower-case digit string of `n`. */
  function ToHex(n: nat): (r: string)
    ensures |r| > 0 && AllHexDigits(r)
  {
    if n < 16 then [HexChar(n)] else ToHex(n / 16) + [HexChar(n % 16)]
  }

  /** Reading back the digits of `n` gives `n`. */
  lemma {:induction false} ValueOfToHex(n: nat)
    ensures ValueOf(ToHex(n)) == n
  {
    if n >= 16 {
      ValueOfToHex(n / 16);
      var r := ToHex(n);
      assert r[..|r| - 1] == ToHex(n / 16);
    }
  }

  /** An address written in hexadecimal, with or without the "0x" prefix, parses to itself. */
  lemma ParseToHex(n: nat)
    ensures ParseHex(ToHex(n)) == Some(n)
    ensures ParseHex("0x" + ToHex(n)) == Some(n)
  {
    ValueOfToHex(n);
    var r := ToHex(n);
    assert ("0x" + r)[2..] == r;
    if |r| >= 2 && r[0] == '0' {
      // a digit string of two or more digits never starts with a zero
      LeadingDigit(n);
    }
  }

  /** ToHex has no leading zero. */
  lemma {:induction false} LeadingDigit(n: nat)
    ensures |ToHex(n)| >= 2 ==> ToHex(n)[0] != '0'
  {
    if n >= 16 {
      LeadingDigit(n / 16);
      if n / 16 < 16 {
        assert ToHex(n)[0] == HexChar(n / 16);
      } else {
        assert ToHex(n)[0] == ToHex(n / 16)[0];
      }
    }
  }
}
