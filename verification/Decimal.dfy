// Decimal text: itoa and strlen of lab/zeos/libc.c, atoi_n of lab/zeos/devices.c.

module Decimal {

  /** is_number */
  predicate IsDigit(c: char) {
    '0' <= c <= '9'
  }

  function DigitChar(d: nat): (c: char)
    requires d < 10
    ensures IsDigit(c) && DigitValue(c) == d && c == "0123456789"[d]
  {
    ('0' as int + d) as char
  }

  function DigitValue(c: char): (d: nat)
    requires IsDigit(c)
    ensures d < 10
  {
    c as int - '0' as int
  }

  /** The decimal digits of a, most significant first. */
  function Digits(a: nat): (s: seq<char>)
    ensures s != []
  {
    if a < 10 then [DigitChar(a)] else Digits(a / 10) + [DigitChar(a % 10)]
  }

  /** The number written by the digits of s, other characters skipped. */
  function Value(s: seq<char>): nat {
    if s == [] then 0
    else
      var n := |s| - 1;
      if IsDigit(s[n]) then Value(s[..n]) * 10 + DigitValue(s[n]) else Value(s[..n])
  }

  ghost predicate AllDigits(s: seq<char>) {
    forall i :: 0 <= i < |s| ==> IsDigit(s[i])
  }

  /** A numeral: digits only, at least one, no leading zero except for zero itself. */
  ghost predicate IsNumeral(s: seq<char>) {
    AllDigits(s) && s != [] && (s[0] == '0' ==> |s| == 1)
  }

  // ---------- numerals and numbers correspond

  lemma {:induction false} DigitsIsNumeral(a: nat)
    ensures IsNumeral(Digits(a)) && (Digits(a)[0] == '0' <==> a == 0)
  {
    if a >= 10 {
      DigitsIsNumeral(a / 10);
    }
  }

  /** Reading back what was written gives the number. */
  lemma {:induction false} ValueOfDigits(a: nat)
    ensures Value(Digits(a)) == a
  {
    var s := Digits(a);
    if a < 10 {
      assert s[..0] == [] && Value([]) == 0;
    } else {
      ValueOfDigits(a / 10);
      assert s[..|s| - 1] == Digits(a / 10);
    }
  }

  lemma {:induction false} ValuePositive(s: seq<char>)
    requires IsNumeral(s) && s[0] != '0'
    ensures Value(s) > 0
  {
    var n := |s| - 1;
    if n == 0 {
      assert s[..0] == [];
    } else {
      ValuePositive(s[..n]);
    }
  }

  /** Writing what was read gives the numeral: the two are inverse on numerals. */
  lemma {:induction false} DigitsOfValue(s: seq<char>)
    requires IsNumeral(s)
    ensures Digits(Value(s)) == s
  {
    var n := |s| - 1;
    assert s == s[..n] + [s[n]];
    if n == 0 {
      assert s[..0] == [] && Value(s[..0]) == 0;
    } else {
      DigitsOfValue(s[..n]);
      ValuePositive(s[..n]);
      var v := Value(s[..n]);
      assert Value(s) == v * 10 + DigitValue(s[n]);
      assert Value(s) / 10 == v && Value(s) % 10 == DigitValue(s[n]);
    }
  }

  /** s without the characters that are not digits. */
  function DigitsIn(s: seq<char>): (d: seq<char>)
    ensures forall i :: 0 <= i < |d| ==> IsDigit(d[i])
  {
    if s == [] then [] else DigitsIn(s[..|s| - 1]) + if IsDigit(s[|s| - 1]) then [s[|s| - 1]] else []
  }

  /** Characters that are not digits do not matter. */
  lemma {:induction false} ValueSkips(s: seq<char>)
    ensures Value(s) == Value(DigitsIn(s))
  {
    if s != [] {
      var n := |s| - 1;
      ValueSkips(s[..n]);
      if IsDigit(s[n]) {
        assert DigitsIn(s)[..|DigitsIn(s)| - 1] == DigitsIn(s[..n]);
      } else {
        assert DigitsIn(s) == DigitsIn(s[..n]);
      }
    }
  }

  // ---------- itoa

  /** The digits as itoa first stores them, least significant first. */
  function LowFirst(a: nat): seq<char> {
    if a == 0 then [] else [DigitChar(a % 10)] + LowFirst(a / 10)
  }

  lemma {:induction false} LowFirstIsReversed(a: nat)
    requires a > 0
    ensures |LowFirst(a)| == |Digits(a)|
    ensures forall k :: 0 <= k < |Digits(a)| ==> LowFirst(a)[k] == Digits(a)[|Digits(a)| - 1 - k]
  {
    if a < 10 {
      assert LowFirst(a / 10) == [];
    } else {
      LowFirstIsReversed(a / 10);
    }
  }

  /** What itoa writes: a negative number gives the empty string. */
  function Text(a: int): seq<char> {
    if a < 0 then [] else Digits(a)
  }

  /** The digit loop. */
  method StoreLowFirst(a: int, b: array<char>) returns (i: nat)
    requires a != 0 && b.Length > |Text(a)|
    modifies b
    ensures i == |Text(a)|
    ensures forall k :: 0 <= k < i ==> b[k] == Text(a)[i - 1 - k]
    ensures forall k :: i <= k < b.Length ==> b[k] == old(b[k])
  {
    var n := a;
    i := 0;
    if a > 0 {
      LowFirstIsReversed(a);
    }
    while n > 0
      invariant a > 0 ==> n >= 0 && i <= |LowFirst(a)| && LowFirst(a)[i..] == LowFirst(n)
      invariant a < 0 ==> n == a && i == 0
      invariant forall k :: 0 <= k < i ==> b[k] == LowFirst(a)[k]
      invariant forall k :: i <= k < b.Length ==> b[k] == old(b[k])
    {
      assert LowFirst(a)[i] == LowFirst(n)[0] && LowFirst(a)[i + 1..] == LowFirst(n)[1..];
      b[i] := DigitChar(n % 10);
      n := n / 10;
      i := i + 1;
    }
  }

  /** The swapping loop: the first i characters end up in reverse order. */
  method ReverseFirst(b: array<char>, i: nat)
    requires i <= b.Length
    modifies b
    ensures forall k :: 0 <= k < i ==> b[k] == old(b[i - 1 - k])
    ensures forall k :: i <= k < b.Length ==> b[k] == old(b[k])
  {
    for i1 := 0 to i / 2
      invariant forall k :: 0 <= k < i1 || i - i1 <= k < i ==> b[k] == old(b[i - 1 - k])
      invariant forall k :: i1 <= k < i - i1 || i <= k < b.Length ==> b[k] == old(b[k])
    {
      var c := b[i1];
      b[i1] := b[i - i1 - 1];
      b[i - i1 - 1] := c;
    }
  }

  /** itoa */
  method Itoa(a: int, b: array<char>)
    requires b.Length > |Text(a)|
    modifies b
    ensures b[..|Text(a)|] == Text(a) && b[|Text(a)|] == '\0'
    ensures forall k :: |Text(a)| < k < b.Length ==> b[k] == old(b[k])
  {
    if a == 0 {
      b[0] := '0';
      b[1] := '\0';
      return;
    }
    var i := StoreLowFirst(a, b);
    ReverseFirst(b, i);
    b[i] := '\0';
  }

  /** strlen */
  method Strlen(a: array<char>) returns (i: nat)
    requires exists k :: 0 <= k < a.Length && a[k] == '\0'
    ensures i < a.Length && a[i] == '\0' && forall k :: 0 <= k < i ==> a[k] != '\0'
  {
    i := 0;
    while a[i] != '\0'
      invariant i < a.Length && forall k :: 0 <= k < i ==> a[k] != '\0'
      decreases a.Length - i
    {
      i := i + 1;
    }
  }

  /** atoi_n on the n characters from args on. */
  method AtoiN(s: seq<char>, args: nat, n: nat) returns (num: nat)
    requires args + n <= |s|
    ensures num == Value(s[args..args + n])
  {
    num := 0;
    for i := 0 to n
      invariant num == Value(s[args..args + i])
    {
      assert s[args..args + i + 1][..i] == s[args..args + i];
      if IsDigit(s[args + i]) {
        num := num * 10 + DigitValue(s[args + i]);
      }
    }
  }

  /** itoa, then strlen, then atoi_n: the number comes back. */
  method RoundTrip(a: nat, b: array<char>) returns (r: nat)
    requires b.Length > |Digits(a)|
    modifies b
    ensures r == a
  {
    Itoa(a, b);
    DigitsIsNumeral(a);
    ValueOfDigits(a);
    var n := Strlen(b);
    assert n == |Digits(a)| by {
      assert b[..|Digits(a)|] == Digits(a);
      assert forall k :: 0 <= k < |Digits(a)| ==> b[k] == Digits(a)[k];
    }
    r := AtoiN(b[..], 0, n);
  }
}
