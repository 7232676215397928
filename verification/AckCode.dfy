/**
 The text form of 32-bit acknowledgement codes. Acks are written by `hex32` (events.go),
 receipts by a "%08x" format (messages.go); matching an ack to a message compares the
 two texts.
 */
module AckCode {
  import opened Hex

  type uint32 = x: int | 0 <= x < 0x1_0000_0000

  /** The lowest `n` hexadecimal digits of `v`, most significant first. */
  function LowDigits(v: nat, n: nat): (r: string)
    ensures |r| == n
  {
    if n == 0 then "" else LowDigits(v / 16, n - 1) + [DIGITS[v % 16]]
  }

  method Hex32(v: uint32) returns (s: string)
    ensures s == LowDigits(v, 8)
  {
    var b := new char[8](_ => '0');
    var w: nat := v;
    var i := 7;
    while i >= 0
      invariant -1 <= i <= 7
      invariant LowDigits(v, 8) == LowDigits(w, (i + 1) as nat) + b[i + 1..]
    {
      b[i] := DIGITS[w % 16];
      w := w / 16;
      i := i - 1;
      assert b[i + 1..] == [b[i + 1]] + b[i + 2..];
    }
    s := b[..];
  }

  /** "%x": as many digits as needed, at least one. */
  function Minimal(v: nat): string {
    if v < 16 then [DIGITS[v]] else Minimal(v / 16) + [DIGITS[v % 16]]
  }

  function Zeros(n: nat): (r: string)
    ensures |r| == n
  {
    if n == 0 then "" else Zeros(n - 1) + "0"
  }

  function PadTo(m: string, n: nat): string {
    if |m| < n then Zeros(n - |m|) + m else m
  }

  /** "%08x": padded on the left with zeros to eight digits. */
  function ReceiptID(v: uint32): string {
    PadTo(Minimal(v), 8)
  }

  function Pow16(n: nat): nat {
    if n == 0 then 1 else 16 * Pow16(n - 1)
  }

  lemma Pow16Of8()
    ensures Pow16(8) == 0x1_0000_0000
  {
    assert Pow16(1) == 16 && Pow16(2) == 256 && Pow16(3) == 4096 && Pow16(4) == 0x1_0000;
    assert Pow16(5) == 0x10_0000 && Pow16(6) == 0x100_0000 && Pow16(7) == 0x1000_0000;
  }

  lemma {:induction false} PadIsLow(v: nat, n: nat)
    requires n > 0 && v < Pow16(n)
    ensures |Minimal(v)| <= n && LowDigits(v, n) == Zeros(n - |Minimal(v)|) + Minimal(v) == PadTo(Minimal(v), n)
    decreases n
  {
    if v < 16 {
      ZerosAreLow(n - 1);
      assert v / 16 == 0;
    } else {
      assert n > 1;
      PadIsLow(v / 16, n - 1);
      var m := Minimal(v / 16);
      assert Zeros(n - 1 - |m|) + (m + [DIGITS[v % 16]]) == Zeros(n - 1 - |m|) + m + [DIGITS[v % 16]];
    }
  }

  lemma {:induction false} ZerosAreLow(n: nat)
    ensures LowDigits(0, n) == Zeros(n)
  {
    if n > 0 {
      ZerosAreLow(n - 1);
    }
  }

  /** The two formats agree on every code. */
  lemma FormatsAgree(v: uint32)
    ensures LowDigits(v, 8) == ReceiptID(v)
  {
    Pow16Of8();
    PadIsLow(v, 8);
  }

  lemma {:induction false} LowDigitsInjective(v: nat, w: nat, n: nat)
    requires LowDigits(v, n) == LowDigits(w, n) && v < Pow16(n) && w < Pow16(n)
    ensures v == w
    decreases n
  {
    if n > 0 {
      var a, b := LowDigits(v / 16, n - 1), LowDigits(w / 16, n - 1);
      assert a == LowDigits(v, n)[..n - 1] && b == LowDigits(w, n)[..n - 1];
      assert DIGITS[v % 16] == LowDigits(v, n)[n - 1] == LowDigits(w, n)[n - 1] == DIGITS[w % 16];
      LowDigitsInjective(v / 16, w / 16, n - 1);
      DigitsDistinct(v % 16, w % 16);
    }
  }

  lemma DigitsDistinct(i: nat, j: nat)
    requires i < 16 && j < 16 && DIGITS[i] == DIGITS[j]
    ensures i == j
  {
    var value := (c: char) => if c <= '9' then c as int - '0' as int else c as int - 'a' as int + 10;
    assert forall k | 0 <= k < 16 :: value(DIGITS[k]) == k;
  }

  /** The ack text and the receipt text are equal exactly when the codes are. */
  lemma TextsMatchIffCodesDo(ack: uint32, receipt: uint32)
    ensures LowDigits(ack, 8) == ReceiptID(receipt) <==> ack == receipt
  {
    FormatsAgree(receipt);
    if LowDigits(ack, 8) == ReceiptID(receipt) {
      Pow16Of8();
      LowDigitsInjective(ack, receipt, 8);
    }
  }
}
