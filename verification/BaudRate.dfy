/** The baud rate register value, as computed by the baud_rate<> template and at run time. */
module BaudRates {
  import opened Arith
  import opened Words
  import opened Wrappers

  /** What both forms compute first, in 32-bit arithmetic. */
  function DivBy(pclk: nat, baud: nat): nat
    requires 0 < 4 * baud < WORD
  {
    Div(pclk * 25 % WORD, 4 * baud)
  }

  function Mant(div: nat): nat {
    div / 100
  }

  function Fraq(div: nat): nat {
    ((div - div / 100 * 100) * 16 + 50) / 100
  }

  /** baud_rate<value>: both regval<> must fit their field, 12 and 4 bits wide. */
  function TemplateBrr(pclk: nat, baud: nat): Option<nat>
    requires 0 < 4 * baud < WORD
  {
    var div := DivBy(pclk, baud);
    if Mant(div) < 4096 && Fraq(div) < 16 then Some(Mant(div) * 16 + Fraq(div)) else None
  }

  /** baud_to_brr: (mant << 4) | (fraq & 0x0f) */
  function BaudToBrr(pclk: nat, baud: nat): nat
    requires 0 < 4 * baud < WORD
  {
    var div := DivBy(pclk, baud);
    Mant(div) * 16 + Fraq(div) % 16
  }

  /** A sixteenth-bit divider that is right to within the two roundings, in hundredths. */
  predicate Accurate(brr: nat, pclk: nat, baud: nat) {
    -65 * baud < 100 * (Mul(brr, baud) - pclk) <= 50 * baud
  }

  lemma FraqRange(div: nat)
    ensures Fraq(div) <= 16
    ensures Fraq(div) == 16 <==> div % 100 >= 97
    ensures 16 * (div % 100) - 49 <= 100 * Fraq(div) <= 16 * (div % 100) + 50
  {
    assert div == div / 100 * 100 + div % 100;
  }

  lemma Multiples(x: int, y: int)
    ensures Mul(x, 4 * y) == 4 * Mul(x, y)
    ensures Mul(100 * x, y) == 100 * Mul(x, y)
    ensures Mul(16 * x + 50, y) == 16 * Mul(x, y) + 50 * y
    ensures Mul(16 * x - 49, y) == 16 * Mul(x, y) - 49 * y
  {
  }

  /** The rounded divider, its carry included. */
  lemma RoundedIsAccurate(pclk: nat, baud: nat)
    requires 0 < 4 * baud < WORD && pclk * 25 < WORD
    ensures var div := DivBy(pclk, baud); Accurate(Mant(div) * 16 + Fraq(div), pclk, baud)
  {
    hide Mul, Div, Mod;
    var div: nat := DivBy(pclk, baud);
    var brr := Mant(div) * 16 + Fraq(div);
    FraqRange(div);
    DivMod(pclk * 25, 4 * baud);
    Multiples(div, baud);
    Multiples(brr, baud);
    Monotone(100 * brr, 16 * div + 50, baud);
    Monotone(16 * (div as int) - 49, 100 * brr, baud);
  }

  /** For clocks up to 171 MHz, where nothing overflows: the run-time value is accurate exactly when
      the rounded fraction does not carry, that is, when the last two digits of the divider are
      below 97; otherwise the carry is lost. The template form then does not compile; when it does
      compile, it is accurate and the two agree. */
  lemma BrrAccurateIff(pclk: nat, baud: nat)
    requires 0 < 4 * baud < WORD && pclk <= 171_000_000
    ensures Accurate(BaudToBrr(pclk, baud), pclk, baud) <==> DivBy(pclk, baud) % 100 < 97
    ensures TemplateBrr(pclk, baud).Some? <==> DivBy(pclk, baud) % 100 < 97 && DivBy(pclk, baud) < 409_600
    ensures TemplateBrr(pclk, baud).Some? ==>
              TemplateBrr(pclk, baud).value == BaudToBrr(pclk, baud) < 0x1_0000
              && Accurate(BaudToBrr(pclk, baud), pclk, baud)
  {
    hide DivBy, Mul;
    var div := DivBy(pclk, baud);
    FraqRange(div);
    RoundedIsAccurate(pclk, baud);
    if Fraq(div) == 16 {
      Distributes(Mant(div) * 16, 16, baud);
      Sixteen(baud);
    }
  }

  lemma Sixteen(y: int)
    ensures Mul(16, y) == 16 * y
  {
  }

  /** A rate for which the carry is lost. */
  lemma LostCarryExample()
    ensures Fraq(DivBy(36_000_000, 1_142_131)) == 16
    ensures !Accurate(BaudToBrr(36_000_000, 1_142_131), 36_000_000, 1_142_131)
  {
    assert DivBy(36_000_000, 1_142_131) == 196 || DivBy(36_000_000, 1_142_131) == 197;
    BrrAccurateIff(36_000_000, 1_142_131);
  }
}
