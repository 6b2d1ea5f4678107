/** Printing of unsigned numbers over the serial line. */
module Uart {
  import opened Common

  const BUFFER: nat := 10

  /** The digit that a character stands for. */
  function DigitOf(c: char): int { c as int - 48 }

  function CharOf(d: nat): char
    requires d < 10
  {
    (d + 48) as char
  }

  /** Decimal digits, the most significant first. */
  function Digits(n: nat): (s: string)
    ensures s != []
  {
    if n < 10 then [CharOf(n)] else Digits(n / 10) + [CharOf(n % 10)]
  }

  /** The number that a string of digits stands for. */
  function Parse(s: string): int {
    if s == [] then 0 else Parse(s[..|s| - 1]) * 10 + DigitOf(s[|s| - 1])
  }

  /** The digits parse back to the number, are all decimal, and have no leading
      zero unless the number is zero. */
  lemma {:induction false} DigitsParse(n: nat)
    ensures Parse(Digits(n)) == n
    ensures forall i :: 0 <= i < |Digits(n)| ==> '0' <= Digits(n)[i] <= '9'
    ensures Digits(n)[0] == '0' <==> n == 0
    ensures n < 10 ==> Digits(n) == ["0123456789"[n]]
  {
    if n < 10 {
      assert [CharOf(n)][..0] == [];
    } else {
      DigitsParse(n / 10);
      assert Digits(n)[..|Digits(n)| - 1] == Digits(n / 10);
    }
  }

  function Pow10(k: nat): nat { if k == 0 then 1 else 10 * Pow10(k - 1) }

  lemma {:induction false} DigitsFit(n: nat, k: nat)
    requires 1 <= k && n < Pow10(k)
    ensures |Digits(n)| <= k
    decreases k
  {
    if n >= 10 { DigitsFit(n / 10, k - 1); }
  }

  lemma WordFits(n: u32)
    ensures |Digits(n)| <= BUFFER
  {
    assert Pow10(3) == 1000;
    assert Pow10(6) == 1000 * Pow10(3) && Pow10(9) == 1000 * Pow10(6) && Pow10(10) == 10 * Pow10(9);
    DigitsFit(n, 10);
  }

  function Reversed(s: string): string { if s == [] then [] else Reversed(s[1..]) + [s[0]] }

  lemma {:induction false} ReversedAppend(s: string, c: char)
    ensures Reversed(s + [c]) == [c] + Reversed(s)
  {
    if s != [] {
      assert (s + [c])[1..] == s[1..] + [c];
      ReversedAppend(s[1..], c);
    }
  }

  /** Moving one digit of `rest` to the end of the reversed digits. */
  lemma DigitsStep(rest: nat, stored: string)
    ensures rest >= 10 ==>
      Digits(rest) + Reversed(stored) == Digits(rest / 10) + Reversed(stored + [CharOf(rest % 10)])
    ensures rest < 10 ==> rest / 10 == 0 && Digits(rest) + Reversed(stored) == Reversed(stored + [CharOf(rest % 10)])
  {
    var c := CharOf(rest % 10);
    ReversedAppend(stored, c);
    if rest >= 10 {
      assert Digits(rest / 10) + [c] + Reversed(stored) == Digits(rest / 10) + ([c] + Reversed(stored));
    }
  }

  /** The digits, least significant first, into a buffer of ten characters. */
  method StoreDigits(num: u32, str: array<char>) returns (cnt: nat)
    requires str.Length == BUFFER
    modifies str
    ensures 0 < cnt <= BUFFER && Reversed(str[..cnt]) == Digits(num)
  {
    WordFits(num);
    var digit, remain := num % 10, num / 10;
    cnt := 0;
    var first := true;
    ghost var rest: nat := num;
    while first || remain > 0 || digit > 0
      invariant 0 <= cnt <= BUFFER && 0 <= digit < 10 && 0 <= remain && rest == 10 * remain + digit
      invariant first || rest > 0 ==> Digits(num) == Digits(rest) + Reversed(str[..cnt])
      invariant !first && rest == 0 ==> Digits(num) == Reversed(str[..cnt]) && 0 < cnt
      invariant |Reversed(str[..cnt])| == cnt
      decreases rest, first
    {
      first := false;
      DigitsStep(rest, str[..cnt]);
      ReversedAppend(str[..cnt], CharOf(digit));
      str[cnt] := CharOf(digit);
      assert str[..cnt + 1] == str[..cnt] + [CharOf(digit)];
      digit := remain % 10;
      remain := remain / 10;
      cnt := cnt + 1;
      rest := rest / 10;
    }
  }

  /** The digits are sent in the opposite order; `tx` is what was sent before. */
  method PrintInt(num: u32, tx: string) returns (out: string)
    ensures out == tx + Digits(num)
  {
    var str := new char[BUFFER];
    var cnt := StoreDigits(num, str);
    out := tx;
    ghost var n := cnt;
    while cnt > 0
      invariant 0 <= cnt <= n <= BUFFER && out + Reversed(str[..cnt]) == tx + Digits(num)
    {
      cnt := cnt - 1;
      ReversedAppend(str[..cnt], str[cnt]);
      assert str[..cnt + 1] == str[..cnt] + [str[cnt]];
      out := out + [str[cnt]];
    }
  }
}
