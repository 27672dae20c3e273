/** The digit printers: itoa_hex, itoa, and the hexadecimal stream output. */
module Digits {
  import opened Arith

  /** A base the printers use: 10 or 16. */
  type Base = b: nat | 2 <= b <= 16 witness 10

  function DigitChar(d: nat): char
    requires d < 16
  {
    if d < 10 then '0' + d as char else 'a' + (d - 10) as char
  }

  function DigitValue(c: char): nat {
    if '0' <= c <= '9' then (c - '0') as nat else if 'a' <= c <= 'f' then (c - 'a') as nat + 10 else 0
  }

  lemma DigitRoundTrip(d: nat)
    requires d < 16
    ensures DigitValue(DigitChar(d)) == d
  {
  }

  lemma DigitChars(d: nat)
    requires d < 16
    ensures DigitChar(d) == "0123456789abcdef"[d]
  {
  }

  /** The value a digit string denotes. */
  function Parse(s: seq<char>, base: Base): nat {
    if s == [] then 0 else Mul(Parse(s[..|s| - 1], base), base) + DigitValue(s[|s| - 1])
  }

  /** v with its last k digits dropped. */
  function Shift(v: nat, k: nat, base: Base): nat {
    if k == 0 then v else Shift(Div(v, base), k - 1, base)
  }

  /** The digit of v at position k, counted from the right. */
  function DigitAt(v: nat, k: nat, base: Base): char {
    DigitChar(Mod(Shift(v, k, base), base))
  }

  /** The last k digits of v, as a numeral. */
  function LowDigits(v: nat, k: nat, base: Base): (s: seq<char>)
    ensures |s| == k
  {
    if k == 0 then [] else LowDigits(Div(v, base), k - 1, base) + [DigitChar(Mod(v, base))]
  }

  function Pow(base: Base, k: nat): nat {
    if k == 0 then 1 else Mul(Pow(base, k - 1), base)
  }

  /** What the printers write: right-aligned digits, padding in front, and '~' in the first place
      when there are more digits than places. */
  function Text(v: nat, n: nat, base: Base, padding: char): (s: seq<char>)
    ensures |s| == n
  {
    seq(n, j requires 0 <= j < n =>
      if j == 0 && Shift(v, n, base) != 0 then '~'
      else if j < n - 1 && Shift(v, n - 1 - j, base) == 0 then padding
      else DigitAt(v, n - 1 - j, base))
  }

  lemma {:induction false} ShiftStep(v: nat, k: nat, base: Base)
    ensures Shift(v, k + 1, base) == Div(Shift(v, k, base), base)
    decreases k
  {
    hide Div;
    if k > 0 {
      ShiftStep(Div(v, base), k - 1, base);
    }
  }

  lemma ZeroQuotient(base: Base)
    ensures Div(0, base) == 0
  {
  }

  lemma {:induction false} ShiftStaysZero(v: nat, k: nat, m: nat, base: Base)
    requires k <= m && Shift(v, k, base) == 0
    ensures Shift(v, m, base) == 0
  {
    hide Div;
    if k < m {
      ShiftStaysZero(v, k, m - 1, base);
      ShiftStep(v, m - 1, base);
      ZeroQuotient(base);
    }
  }

  /** A value has at most k digits exactly when it is below base^k. */
  lemma {:induction false} FitsIff(v: nat, k: nat, base: Base)
    ensures Shift(v, k, base) == 0 <==> v < Pow(base, k)
    decreases k
  {
    hide Mul, Div, Mod;
    if k > 0 {
      var q, p := Div(v, base), Pow(base, k - 1);
      FitsIff(q, k - 1, base);
      DivMod(v, base);
      Units(base);
      if q < p {
        Monotone(q + 1, p, base);
        Distributes(q, 1, base);
      } else {
        Monotone(p, q, base);
      }
    }
  }

  /** Printing digits and reading them is the identity on values that fit. */
  lemma {:induction false} ParseLowDigits(v: nat, k: nat, base: Base)
    requires Shift(v, k, base) == 0
    ensures Parse(LowDigits(v, k, base), base) == v
    decreases k
  {
    hide Mul, Div, Mod, DigitChar, DigitValue;
    if k > 0 {
      ParseLowDigits(Div(v, base), k - 1, base);
      DivMod(v, base);
      DigitRoundTrip(Mod(v, base));
      var s := LowDigits(v, k, base);
      assert s[..k - 1] == LowDigits(Div(v, base), k - 1, base);
    }
  }

  /** The last k digits denote the remainder modulo base^k. */
  lemma {:induction false} LowDigitsMeaning(v: nat, k: nat, base: Base)
    ensures v == Mul(Shift(v, k, base), Pow(base, k)) + Parse(LowDigits(v, k, base), base)
    ensures Parse(LowDigits(v, k, base), base) < Pow(base, k)
    decreases k
  {
    hide Mul, Div, Mod, DigitChar, DigitValue;
    if k == 0 {
      Units(v);
      Commutes(v, 1);
    } else {
      var q, r, p := Div(v, base), Mod(v, base), Pow(base, k - 1);
      LowDigitsMeaning(q, k - 1, base);
      DivMod(v, base);
      LastDigit(v, k, base);
      OneMoreDigit(q, r, Shift(v, k, base), p, Parse(LowDigits(q, k - 1, base), base), base);
    }
  }

  lemma LastDigit(v: nat, k: nat, base: Base)
    requires k > 0
    ensures Parse(LowDigits(v, k, base), base) == Mul(Parse(LowDigits(Div(v, base), k - 1, base), base), base) + Mod(v, base)
  {
    hide Mul, Div, Mod, DigitChar, DigitValue;
    DigitRoundTrip(Mod(v, base));
    var s := LowDigits(v, k, base);
    assert s[..k - 1] == LowDigits(Div(v, base), k - 1, base);
  }

  lemma OneMoreDigit(q: nat, r: nat, high: nat, p: nat, low: nat, base: Base)
    requires q == Mul(high, p) + low && low < p && r < base
    ensures Mul(q, base) + r == Mul(high, Mul(p, base)) + (Mul(low, base) + r)
    ensures Mul(low, base) + r < Mul(p, base)
  {
    hide Mul;
    Distributes(Mul(high, p), low, base);
    Associates(high, p, base);
    Monotone(low + 1, p, base);
    Distributes(low, 1, base);
    Units(base);
  }

  lemma {:induction false} LowDigitsAt(v: nat, k: nat, j: nat, base: Base)
    requires j < k
    ensures LowDigits(v, k, base)[j] == DigitAt(v, k - 1 - j, base)
    decreases k
  {
    hide Div, Mod, DigitChar;
    if j < k - 1 {
      LowDigitsAt(Div(v, base), k - 1, j, base);
    }
  }

  /** Main result: a text of n places reads back as the printed value when the value has at most n
      digits; otherwise it is '~' and the low n - 1 digits. */
  lemma TextRoundTrip(v: nat, n: nat, base: Base)
    requires n >= 1
    ensures v < Pow(base, n) ==>
              Text(v, n, base, '0') == LowDigits(v, n, base) && Parse(Text(v, n, base, '0'), base) == v
    ensures v >= Pow(base, n) ==> Text(v, n, base, '0') == ['~'] + LowDigits(v, n - 1, base)
    ensures v < Pow(base, n) <==> Text(v, n, base, '0')[0] != '~'
  {
    hide Div, Mod, Parse, DigitChar;
    FitsIff(v, n, base);
    var s := Text(v, n, base, '0');
    if Shift(v, n, base) == 0 {
      forall j | 0 <= j < n ensures s[j] == LowDigits(v, n, base)[j] {
        LowDigitsAt(v, n, j, base);
        ZeroDigit(base);
      }
      assert s == LowDigits(v, n, base);
      LowDigitsAt(v, n, 0, base);
      DigitIsNotTilde(Mod(Shift(v, n - 1, base), base));
      ParseLowDigits(v, n, base);
    } else {
      forall j | 1 <= j < n ensures s[j] == LowDigits(v, n - 1, base)[j - 1] {
        LowDigitsAt(v, n - 1, j - 1, base);
        if Shift(v, n - 1 - j, base) == 0 {
          ShiftStaysZero(v, n - 1 - j, n, base);
        }
      }
      assert s == ['~'] + LowDigits(v, n - 1, base);
    }
  }

  /** With any padding: a value of exactly d digits is written as them, with n - d places of padding
      in front; one of more than n digits as '~' and the low n - 1 digits. */
  lemma PaddedText(v: nat, n: nat, d: nat, base: Base, padding: char)
    requires 1 <= d && 1 <= n && v < Pow(base, d) && (d == 1 || v >= Pow(base, d - 1))
    ensures d <= n ==> Text(v, n, base, padding) == seq(n - d, i => padding) + LowDigits(v, d, base)
    ensures d > n ==> Text(v, n, base, padding) == ['~'] + LowDigits(v, n - 1, base)
  {
    hide Div, Mod, DigitChar, Pow, DigitAt;
    FitsIff(v, d, base);
    FitsIff(v, d - 1, base);
    forall k: nat ensures k < d ==> k == 0 || Shift(v, k, base) != 0
                  ensures k >= d ==> Shift(v, k, base) == 0 {
      if 0 < k < d && Shift(v, k, base) == 0 {
        ShiftStaysZero(v, k, d - 1, base);
      } else if k >= d {
        ShiftStaysZero(v, d, k, base);
      }
    }
    var text := Text(v, n, base, padding);
    var digits := if d <= n then d else n - 1;
    forall j | n - digits <= j < n ensures text[j] == LowDigits(v, digits, base)[j - (n - digits)] {
      LowDigitsAt(v, digits, j - (n - digits), base);
    }
  }

  lemma DigitIsNotTilde(d: nat)
    requires d < 16
    ensures DigitChar(d) != '~'
  {
  }

  lemma ZeroDigit(base: Base)
    ensures DigitChar(Mod(0, base)) == '0'
  {
  }

  /** The state of a printer's buffer when digits have been written down to place "left" and
      padding in front of them. */
  lemma PrintedText(s: seq<char>, v: nat, n: nat, left: nat, base: Base, padding: char)
    requires |s| == n && left < n
    requires forall j :: left <= j < n ==> s[j] == DigitAt(v, n - 1 - j, base)
    requires forall j :: 0 <= j < left ==> s[j] == padding
    requires forall k :: 0 < k < n - left ==> Shift(v, k, base) != 0
    requires left > 0 ==> Shift(v, n - left, base) == 0
    ensures Text(v, n, base, padding) == if Shift(v, n, base) == 0 then s else s[0 := '~']
  {
    hide Div, Mod, DigitChar, DigitAt;
    if left > 0 {
      ShiftStaysZero(v, n - left, n, base);
    }
    forall j | 0 <= j < left ensures Text(v, n, base, padding)[j] == s[j] {
      ShiftStaysZero(v, n - left, n - 1 - j, base);
    }
  }

  /** itoa (base 10, unsigned) and itoa_hex (base 16): n places of buf and a terminating zero. */
  method Itoa(buf: array<char>, value: nat, n: nat, base: Base, padding: char)
    requires n >= 1 && buf.Length >= n + 1
    modifies buf
    ensures buf[..n] == Text(value, n, base, padding) && buf[n] == '\0'
    ensures buf[n + 1..] == old(buf[n + 1..])
  {
    hide Div, Mod, DigitChar, Text;
    var left, val := n, value;
    buf[n] := '\0';
    if val == 0 {
      ZeroDigit(base);
      left := left - 1;
      buf[left] := '0';
    }
    while left > 0 && val > 0
      invariant 0 <= left <= n && buf[n] == '\0' && buf[n + 1..] == old(buf[n + 1..])
      invariant value != 0 ==> val == Shift(value, n - left, base)
      invariant value == 0 ==> val == 0 && left == n - 1
      invariant forall j :: left <= j < n ==> buf[j] == DigitAt(value, n - 1 - j, base)
      invariant forall k :: 0 <= k < n - left ==> k == 0 || Shift(value, k, base) != 0
    {
      left := left - 1;
      buf[left] := DigitChar(Mod(val, base));
      ShiftStep(value, n - 1 - left, base);
      val := Div(val, base);
    }
    ghost var digits := left;
    ZeroQuotient(base);
    ShiftStep(value, 0, base);
    while left > 0
      invariant 0 <= left <= digits && buf[n] == '\0' && buf[n + 1..] == old(buf[n + 1..])
      invariant forall j :: digits <= j < n ==> buf[j] == DigitAt(value, n - 1 - j, base)
      invariant forall j :: left <= j < digits ==> buf[j] == padding
    {
      left := left - 1;
      buf[left] := padding;
    }
    PrintedText(buf[..n], value, n, digits, base, padding);
    if val > 0 {
      buf[0] := '~';
    } else if digits > 0 {
      ShiftStaysZero(value, n - digits, n, base);
    }
  }

  /** The stream's hexadecimal operator<<: the characters passed to put(), for a type of the given
      number of bytes. */
  method StreamHex(value: nat, bytes: nat) returns (out: seq<char>)
    ensures out == LowDigits(value, 2 * bytes, 16)
  {
    hide Div, Mod, DigitChar;
    var i := 2 * bytes;
    out := [];
    while i > 0
      invariant 0 <= i <= 2 * bytes && |out| == 2 * bytes - i
      invariant forall j :: 0 <= j < |out| ==> out[j] == DigitAt(value, 2 * bytes - 1 - j, 16)
    {
      i := i - 1;
      out := out + [DigitAt(value, i, 16)];
    }
    forall j | 0 <= j < 2 * bytes ensures out[j] == LowDigits(value, 2 * bytes, 16)[j] {
      LowDigitsAt(value, 2 * bytes, j, 16);
    }
  }

  /** itoa_hex at its default width writes what the stream writes. */
  lemma HexFormsAgree(value: nat, bytes: nat)
    requires bytes >= 1 && value < Pow(16, 2 * bytes)
    ensures Text(value, 2 * bytes, 16, '0') == LowDigits(value, 2 * bytes, 16)
  {
    TextRoundTrip(value, 2 * bytes, 16);
  }
}
