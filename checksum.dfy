/** The NMEA checksum: the exclusive-or of the character codes of a
    sentence body, rendered as upper-case hexadecimal, zero-padded to two
    digits (`checkSum` in main.py). */
module Checksum {

  /** The character code, Python's `ord`. */
  function Ord(c: char): nat { c as int }

  /** Every character is 7-bit ASCII, as the ASCII decoding of the serial
      input guarantees. */
  predicate IsAscii(s: string) {
    forall i :: 0 <= i < |s| ==> Ord(s[i]) < 128
  }

  function Pow2(k: nat): nat {
    if k == 0 then 1 else 2 * Pow2(k - 1)
  }

  /** Bitwise exclusive-or of two non-negative integers, Python's `^`,
      defined one binary digit at a time. */
  function Xor(a: nat, b: nat): (r: nat)
    ensures r % 2 == (if a % 2 == b % 2 then 0 else 1)
    ensures r <= a + b
    decreases a + b
  {
    if a == 0 then b
    else if b == 0 then a
    else
      var x := Xor(a / 2, b / 2);
      var d := if a % 2 == b % 2 then 0 else 1;
      assert (2 * x + d) % 2 == d;
      assert 2 * (a / 2) + a % 2 == a && 2 * (b / 2) + b % 2 == b;
      2 * x + d
  }

  /** The binary digits of `a ^ b` above the lowest are those of
      `(a / 2) ^ (b / 2)`. */
  lemma XorDigits(a: nat, b: nat)
    ensures Xor(a, b) / 2 == Xor(a / 2, b / 2)
  {
    if a == 0 {
      assert Xor(0, b / 2) == b / 2;
    } else if b == 0 {
      assert Xor(a / 2, 0) == a / 2;
    } else {
      var d := if a % 2 == b % 2 then 0 else 1;
      var x := Xor(a / 2, b / 2);
      assert Xor(a, b) == 2 * x + d;
      assert (2 * x + d) / 2 == x;
    }
  }

  /** `a ^ b == a ^ c` only when `b == c`. */
  lemma {:induction false} XorCancelRight(a: nat, b: nat, c: nat)
    requires Xor(a, b) == Xor(a, c)
    ensures b == c
    decreases b + c
  {
    XorDigits(a, b);
    XorDigits(a, c);
    if b != 0 || c != 0 {
      XorCancelRight(a / 2, b / 2, c / 2);
    }
  }

  /** `a ^ c == b ^ c` only when `a == b`. */
  lemma {:induction false} XorCancelLeft(a: nat, b: nat, c: nat)
    requires Xor(a, c) == Xor(b, c)
    ensures a == b
    decreases a + b
  {
    XorDigits(a, c);
    XorDigits(b, c);
    if a != 0 || b != 0 {
      XorCancelLeft(a / 2, b / 2, c / 2);
    }
  }

  /** Exclusive-or never produces a bit above the highest bit of its
      operands. */
  lemma {:induction false} XorBound(a: nat, b: nat, k: nat)
    requires a < Pow2(k) && b < Pow2(k)
    ensures Xor(a, b) < Pow2(k)
  {
    if k > 0 && a != 0 && b != 0 {
      XorBound(a / 2, b / 2, k - 1);
    }
  }

  /** The accumulator of the `checkSum` loop after all of `s`: the codes of
      `s` folded left to right with exclusive-or, starting from 0.
      For ASCII text it fits in seven bits. */
  function XorAll(s: string): (r: nat)
    ensures IsAscii(s) ==> r < 128
  {
    if s == [] then 0
    else
      var front, last := s[..|s| - 1], Ord(s[|s| - 1]);
      var r := Xor(XorAll(front), last);
      assert IsAscii(s) ==> r < 128 by {
        if IsAscii(s) {
          assert forall i :: 0 <= i < |front| ==> front[i] == s[i];
          assert Pow2(7) == 128;
          XorBound(XorAll(front), last, 7);
        }
      }
      r
  }

  /** Replacing any one character by a different one changes the
      exclusive-or of the codes: every single-character corruption, in
      particular every single-bit corruption, is detected. */
  lemma {:induction false} XorAllDetectsChange(s: string, i: nat, c: char)
    requires i < |s| && c != s[i]
    ensures XorAll(s[i := c]) != XorAll(s)
  {
    var n := |s|;
    var t := s[i := c];
    assert t[..n - 1] == if i == n - 1 then s[..n - 1] else s[..n - 1][i := c];
    if i == n - 1 {
      if XorAll(t) == XorAll(s) {
        XorCancelRight(XorAll(s[..n - 1]), Ord(c), Ord(s[i]));
        assert false;
      }
    } else {
      XorAllDetectsChange(s[..n - 1], i, c);
      if XorAll(t) == XorAll(s) {
        XorCancelLeft(XorAll(t[..n - 1]), XorAll(s[..n - 1]), Ord(s[n - 1]));
        assert false;
      }
    }
  }

  predicate IsHexDigit(c: char) {
    '0' <= c <= '9' || 'A' <= c <= 'F'
  }

  /** The upper-case hexadecimal digit for a value below 16. */
  function Digit(d: nat): (c: char)
    requires d < 16
    ensures IsHexDigit(c)
  {
    if d < 10 then ('0' as int + d) as char else ('A' as int + d - 10) as char
  }

  /** The value of one upper-case hexadecimal digit. */
  function DigitValue(c: char): (v: nat)
    requires IsHexDigit(c)
    ensures v < 16 && Digit(v) == c
  {
    if c <= '9' then c as int - '0' as int else c as int - 'A' as int + 10
  }

  /** The value of a string of upper-case hexadecimal digits. */
  function HexValue(s: string): nat
    requires forall i :: 0 <= i < |s| ==> IsHexDigit(s[i])
  {
    if s == [] then 0 else 16 * HexValue(s[..|s| - 1]) + DigitValue(s[|s| - 1])
  }

  /** Upper-case hexadecimal without padding, the digits Python's `X`
      format gives: one digit below 16, two from 16 to 255. */
  function Hex(n: nat): (r: string)
    ensures |r| >= 1
    ensures forall i :: 0 <= i < |r| ==> IsHexDigit(r[i])
    ensures n < 16 <==> |r| == 1
    ensures 16 <= n < 256 ==> |r| == 2
  {
    if n < 16 then [Digit(n)] else Hex(n / 16) + [Digit(n % 16)]
  }

  /** Reading the printed digits back gives the number printed. */
  lemma {:induction false} HexValueOfHex(n: nat)
    ensures HexValue(Hex(n)) == n
  {
    var r := Hex(n);
    if n < 16 {
      assert r[..0] == [];
      assert DigitValue(r[0]) == n;
    } else {
      assert r[..|r| - 1] == Hex(n / 16);
      assert DigitValue(r[|r| - 1]) == n % 16;
      HexValueOfHex(n / 16);
      assert n == 16 * (n / 16) + n % 16;
    }
  }

  /** Python's `"{:02X}".format(n)`: upper-case hexadecimal, zero-padded to
      at least two digits. The digits read back as `n`, and every value
      below 256 takes exactly two. */
  function Hex02(n: nat): (r: string)
    ensures |r| >= 2
    ensures forall i :: 0 <= i < |r| ==> IsHexDigit(r[i])
    ensures HexValue(r) == n
    ensures n < 256 <==> |r| == 2
  {
    var h := Hex(n);
    HexValueOfHex(n);
    if |h| < 2 then
      var r := "0" + h;
      assert r[..1] == "0";
      r
    else h
  }

  /** Two values print the same only if they are equal. */
  lemma Hex02Injective(a: nat, b: nat)
    requires Hex02(a) == Hex02(b)
    ensures a == b
  {
    assert HexValue(Hex02(a)) == a;
  }

  /** The checksum of a sentence body, as `checkSum` returns it: upper-case
      hexadecimal digits whose value is the exclusive-or of all character
      codes, exactly two of them for ASCII text. */
  function CheckSum(sentence: string): (r: string)
    ensures |r| >= 2 && forall i :: 0 <= i < |r| ==> IsHexDigit(r[i])
    ensures HexValue(r) == XorAll(sentence)
    ensures IsAscii(sentence) ==> |r| == 2
  {
    Hex02(XorAll(sentence))
  }

  /** The loop of `checkSum`: `check` accumulates `check ^ ord(element)`
      over the sentence, then is formatted with `{:02X}`. */
  method ComputeCheckSum(sentence: string) returns (retval: string)
    ensures retval == CheckSum(sentence)
    ensures HexValue(retval) == XorAll(sentence)
  {
    var check := 0;
    for i := 0 to |sentence|
      invariant check == XorAll(sentence[..i])
    {
      assert sentence[..i + 1][..i] == sentence[..i];
      check := Xor(check, Ord(sentence[i]));
    }
    assert sentence[..|sentence|] == sentence;
    retval := Hex02(check);
  }
}
