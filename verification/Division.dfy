// do_div of lab/zeos/utils.c: a 64-bit division by a 32-bit base in two hardware divisions.

module Division {
  import opened Common

  /** divl: divides high:low by base; it faults unless the quotient fits in a word. */
  method DivL(high: Word, low: Word, base: Word) returns (quotient: Word, remainder: Word)
    requires base > 0
    requires (high * WORD + low) / base < WORD
    ensures quotient == (high * WORD + low) / base && remainder == (high * WORD + low) % base
  {
    quotient := (high * WORD + low) / base;
    remainder := (high * WORD + low) % base;
  }

  /** The second hardware division cannot overflow: its upper limb is below the base. */
  lemma NoOverflow(upper: nat, low: Word, base: Word)
    requires upper < base
    ensures (upper * WORD + low) / base < WORD
  {
    var n := upper * WORD + low;
    assert upper * WORD <= (base - 1) * WORD;
    assert (base - 1) * WORD == base * WORD - WORD;
    var q := n / base;
    assert q >= WORD ==> base * q >= base * WORD;
  }

  /** Long division in base 2^32. */
  lemma TwoLimbs(high: Word, low: Word, base: Word)
    requires base > 0
    ensures var upper := high % base;
            var n, m := high * WORD + low, upper * WORD + low;
            n / base == (high / base) * WORD + m / base && n % base == m % base
  {
    var upper, q := high % base, high / base;
    var n, m := high * WORD + low, upper * WORD + low;
    assert high == base * q + upper;
    assert (base * q + upper) * WORD == base * (q * WORD) + upper * WORD;
    assert base * (q * WORD + m / base) == base * (q * WORD) + base * (m / base);
    QuotientUnique(n, base, q * WORD + m / base, m % base);
  }

  /** The limbs before the second division: a high word of zero needs no first one. */
  method FirstLimb(high: Word, base: Word) returns (quotient: Word, upper: Word)
    requires base > 0
    ensures quotient == high / base && upper == high % base
  {
    quotient, upper := high, high;
    if high != 0 {
      upper := high % base;
      quotient := high / base;
    }
  }

  /** do_div(n, base): n is replaced by the quotient, the remainder is the value of the macro. */
  method DoDiv(n: nat, base: Word) returns (quotient: nat, mod: Word)
    requires n < WORD * WORD && base > 0
    ensures quotient == n / base && mod == n % base
  {
    var low: Word, high: Word := n % WORD, n / WORD;
    TwoLimbs(high, low, base);
    var top, upper := FirstLimb(high, base);
    NoOverflow(upper, low, base);
    var bottom;
    bottom, mod := DivL(upper, low, base);
    quotient := top * WORD + bottom;
  }

  const CYCLESPERTICK: Word := 109000

  /** get_ticks: the time stamp counter in ticks, cut to a word. */
  method GetTicks(high: Word, low: Word) returns (ticks: Word)
    ensures ticks == (high * WORD + low) / CYCLESPERTICK % WORD
  {
    var quotient, mod := DoDiv(high * WORD + low, CYCLESPERTICK);
    ticks := quotient % WORD;
  }
}
