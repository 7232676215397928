/** Lowercase hexadecimal text of bytes (encoding/hex), and the parsing of such text. */
module Hex {
  import opened Common

  const DIGITS := "0123456789abcdef"

  predicate IsHexDigit(c: char) {
    '0' <= c <= '9' || 'a' <= c <= 'f' || 'A' <= c <= 'F'
  }

  function Value(c: char): (v: nat)
    requires IsHexDigit(c)
    ensures v < 16
  {
    if c <= '9' then c as int - '0' as int
    else if c <= 'F' then c as int - 'A' as int + 10
    else c as int - 'a' as int + 10
  }

  /** The two digits of one byte. */
  function Digits(b: byte): (s: string)
    ensures |s| == 2 && LowerHex(s[0]) && LowerHex(s[1]) && IsHexDigit(s[0]) && IsHexDigit(s[1])
    ensures 16 * Value(s[0]) + Value(s[1]) == b
  {
    var hi, lo := b as int / 16, b as int % 16;
    DigitValue(hi);
    DigitValue(lo);
    [DIGITS[hi], DIGITS[lo]]
  }

  predicate LowerHex(c: char) {
    '0' <= c <= '9' || 'a' <= c <= 'f'
  }

  /** Two lowercase digits for each byte. */
  function Encode(b: bytes): (s: string)
    ensures |s| == 2 * |b|
  {
    if b == [] then "" else Digits(b[0]) + Encode(b[1..])
  }

  lemma {:induction false} EncodeIsLower(b: bytes)
    ensures forall i | 0 <= i < |Encode(b)| :: LowerHex(Encode(b)[i])
  {
    if b != [] {
      EncodeIsLower(b[1..]);
    }
  }

  function Decode(s: string): Option<bytes> {
    if s == "" then Some([])
    else if |s| == 1 || !IsHexDigit(s[0]) || !IsHexDigit(s[1]) then None
    else match Decode(s[2..])
      case None => None
      case Some(rest) => Some([16 * Value(s[0]) + Value(s[1])] + rest)
  }

  lemma DigitValue(n: nat)
    requires n < 16
    ensures LowerHex(DIGITS[n]) && IsHexDigit(DIGITS[n]) && Value(DIGITS[n]) == n
  {
  }

  /** The hexadecimal digits, in either case, and what they are worth. */
  lemma DigitsExact(n: nat)
    requires n < 16
    ensures forall c: char :: IsHexDigit(c) <==> c in "0123456789abcdefABCDEF"
    ensures Value("0123456789abcdef"[n]) == n && Value("0123456789ABCDEF"[n]) == n
    ensures DIGITS[n] == "0123456789abcdef"[n]
  {
    var all := "0123456789abcdefABCDEF";
    forall c: char
      ensures IsHexDigit(c) <==> c in all
    {
      if '0' <= c <= '9' {
        assert all[c as int - '0' as int] == c;
      } else if 'a' <= c <= 'f' {
        assert all[c as int - 'a' as int + 10] == c;
      } else if 'A' <= c <= 'F' {
        assert all[c as int - 'A' as int + 16] == c;
      }
    }
  }

  lemma TwoDigits(s: string, d: string, rest: string)
    requires |d| == 2 && s == d + rest
    ensures |s| >= 2 && s[0] == d[0] && s[1] == d[1] && s[2..] == rest
  {
  }

  lemma {:induction false} DecodeEncode(b: bytes)
    ensures Decode(Encode(b)) == Some(b)
  {
    if b != [] {
      DecodeEncode(b[1..]);
      TwoDigits(Encode(b), Digits(b[0]), Encode(b[1..]));
      assert [b[0]] + b[1..] == b;
    }
  }

  lemma EncodeInjective(b: bytes, b': bytes)
    ensures Encode(b) == Encode(b') <==> b == b'
  {
    DecodeEncode(b);
    DecodeEncode(b');
  }

  /** Text decodes exactly when it is an even number of hexadecimal digits. */
  lemma {:induction false} DecodesIff(s: string)
    ensures Decode(s).Some? <==> |s| % 2 == 0 && forall c | c in s :: IsHexDigit(c)
    ensures Decode(s).Some? ==> 2 * |Decode(s).value| == |s|
    decreases |s|
  {
    if |s| >= 2 {
      DecodesIff(s[2..]);
      assert s == [s[0], s[1]] + s[2..];
      assert forall c | c in s :: c == s[0] || c == s[1] || c in s[2..];
    }
  }
}
