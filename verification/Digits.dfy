/**
 Numbers to digits and back: the two conversion loops, which write digits from the least
 significant one up, and the numerals they stand for.
 */
module Digits {

  const WORD := 0x1_0000_0000_0000_0000

  /** The character of a digit; caseAdjust is 32 for lower case. */
  function Glyph(d: nat, caseAdjust: nat): (c: char)
    requires d < 16 && (caseAdjust == 0 || caseAdjust == 32)
    ensures DigitValue(c) == d
  {
    if d < 10 then (48 + d) as char else (65 + caseAdjust + (d - 10)) as char
  }

  /** The value of a digit of either case; 16 for any other character. */
  function DigitValue(c: char): nat {
    if '0' <= c <= '9' then c as nat - 48
    else if 'A' <= c <= 'F' then c as nat - 55
    else if 'a' <= c <= 'f' then c as nat - 87
    else 16
  }

  predicate Base(b: nat) {
    b == 8 || b == 10 || b == 16
  }

  predicate CaseAdjust(a: nat) {
    a == 0 || a == 32
  }

  /** A number as it is written, most significant digit first. */
  function Numeral(v: nat, base: nat, caseAdjust: nat): (s: string)
    requires Base(base) && CaseAdjust(caseAdjust)
    ensures s != ""
  {
    if v < base then [Glyph(v, caseAdjust)]
    else Numeral(v / base, base, caseAdjust) + [Glyph(v % base, caseAdjust)]
  }

  /** All characters are digits of the base. */
  predicate Digital(s: string, base: nat) {
    forall i :: 0 <= i < |s| ==> DigitValue(s[i]) < base
  }

  /** The number some digits stand for. */
  function Number(s: string, base: nat): nat
    requires Digital(s, base)
  {
    if s == "" then 0 else Number(s[..|s|-1], base) * base + DigitValue(s[|s|-1])
  }

  function Backwards(s: string): (r: string)
    ensures |r| == |s|
  {
    if s == "" then "" else Backwards(s[1..]) + [s[0]]
  }

  function Repeat(c: char, n: nat): (s: string)
    ensures |s| == n && forall i :: 0 <= i < n ==> s[i] == c
  {
    if n == 0 then "" else Repeat(c, n - 1) + [c]
  }

  function Pow(b: nat, k: nat): nat {
    if k == 0 then 1 else b * Pow(b, k - 1)
  }

  // ---------- numerals ----------

  lemma NumberNext(s: string, c: char, base: nat)
    requires Digital(s, base) && DigitValue(c) < base
    ensures Digital(s + [c], base) && Number(s + [c], base) == Number(s, base) * base + DigitValue(c)
  {
    assert (s + [c])[..|s|] == s;
  }

  lemma {:induction false} NumeralSteps(v: nat, base: nat, caseAdjust: nat)
    requires Base(base) && CaseAdjust(caseAdjust)
    ensures v < base ==> v < 16 && Numeral(v, base, caseAdjust) == "" + [Glyph(v, caseAdjust)]
    ensures v >= base ==>
              && v % base < base <= 16 && 0 < v / base < v && v / base * base + v % base == v
              && Numeral(v, base, caseAdjust) == Numeral(v / base, base, caseAdjust) + [Glyph(v % base, caseAdjust)]
              && Numeral(v, base, caseAdjust)[0] == Numeral(v / base, base, caseAdjust)[0]
  {
    DivMod(v, base);
  }

  /** Reading a numeral gives the number back, and it has no leading zeros. */
  lemma {:induction false} NumeralReads(v: nat, base: nat, caseAdjust: nat)
    requires Base(base) && CaseAdjust(caseAdjust)
    ensures Digital(Numeral(v, base, caseAdjust), base) && Number(Numeral(v, base, caseAdjust), base) == v
    ensures v > 0 ==> Numeral(v, base, caseAdjust)[0] != '0'
  {
    hide Numeral;
    NumeralSteps(v, base, caseAdjust);
    if v < base {
      NumberNext("", Glyph(v, caseAdjust), base);
    } else {
      var q, r := v / base, v % base;
      NumeralReads(q, base, caseAdjust);
      NumberNext(Numeral(q, base, caseAdjust), Glyph(r, caseAdjust), base);
    }
  }

  lemma DivMod(v: nat, base: nat)
    requires Base(base)
    ensures v / base * base + v % base == v && v % base < base <= 16 && (v >= base ==> 0 < v / base < v)
  {
  }

  /** A number below base^k has at most k digits. */
  lemma {:induction false} NumeralLength(v: nat, base: nat, caseAdjust: nat, k: nat)
    requires Base(base) && CaseAdjust(caseAdjust) && k > 0 && v < Pow(base, k)
    ensures |Numeral(v, base, caseAdjust)| <= k
  {
    if v >= base {
      assert Pow(base, 1) == base * Pow(base, 0) == base;
      Quotient(v, base, Pow(base, k - 1));
      NumeralLength(v / base, base, caseAdjust, k - 1);
    }
  }

  lemma Quotient(v: nat, base: nat, p: nat)
    requires Base(base) && v < base * p
    ensures v / base < p
  {
  }

  lemma {:induction false} PowAdd(b: nat, j: nat, k: nat)
    ensures Pow(b, j + k) == Pow(b, j) * Pow(b, k)
  {
    if j > 0 {
      PowAdd(b, j - 1, k);
      MulAssoc3(b, Pow(b, j - 1), Pow(b, k));
    }
  }

  lemma MulAssoc3(a: nat, b: nat, c: nat)
    ensures a * (b * c) == (a * b) * c
  {
  }

  lemma {:induction false} PowFour(b: nat)
    ensures Pow(b, 1) == b && Pow(b, 2) == b * b && Pow(b, 4) == Pow(b, 2) * Pow(b, 2)
    ensures Pow(b, 8) == Pow(b, 4) * Pow(b, 4) && Pow(b, 16) == Pow(b, 8) * Pow(b, 8)
    ensures Pow(b, 20) == Pow(b, 16) * Pow(b, 4) && Pow(b, 22) == Pow(b, 20) * Pow(b, 2)
  {
    assert Pow(b, 1) == b * Pow(b, 0);
    PowAdd(b, 1, 1);
    PowAdd(b, 2, 2);
    PowAdd(b, 4, 4);
    PowAdd(b, 8, 8);
    PowAdd(b, 16, 4);
    PowAdd(b, 20, 2);
  }

  lemma WordPowers()
    ensures Pow(8, 22) >= WORD && Pow(10, 20) >= WORD && Pow(16, 16) >= WORD
  {
    PowFour(8);
    PowFour(10);
    PowFour(16);
  }

  /** Every 64-bit number fits the 23-byte buffer in every base, with room for one more digit. */
  lemma NumeralFits(v: nat, base: nat, caseAdjust: nat)
    requires Base(base) && CaseAdjust(caseAdjust) && v < WORD
    ensures |Numeral(v, base, caseAdjust)| <= if base == 8 then 22 else if base == 10 then 20 else 16
  {
    WordPowers();
    NumeralLength(v, base, caseAdjust, if base == 8 then 22 else if base == 10 then 20 else 16);
  }

  lemma {:induction false} NumeralCase(v: nat, a: nat, b: nat)
    requires CaseAdjust(a) && CaseAdjust(b)
    ensures Numeral(v, 10, a) == Numeral(v, 10, b)
  {
    if v >= 10 {
      NumeralCase(v / 10, a, b);
    }
  }

  // ---------- zeros around digits ----------

  lemma {:induction false} LeadingZeros(k: nat, s: string, base: nat)
    requires Base(base) && Digital(s, base)
    ensures Digital(Repeat('0', k) + s, base) && Number(Repeat('0', k) + s, base) == Number(s, base)
    decreases |s|, k
  {
    if s != "" {
      var front := s[..|s|-1];
      LeadingZeros(k, front, base);
      NumberNext(Repeat('0', k) + front, s[|s|-1], base);
      assert Repeat('0', k) + s == (Repeat('0', k) + front) + [s[|s|-1]];
    } else if k > 0 {
      LeadingZeros(k - 1, "", base);
      assert Repeat('0', k - 1) + "" == Repeat('0', k - 1);
      NumberNext(Repeat('0', k - 1), '0', base);
      assert Repeat('0', k) + "" == Repeat('0', k);
    } else {
      assert Repeat('0', 0) + "" == "";
    }
  }

  /** Each zero behind the digits multiplies by the base. */
  lemma {:induction false} RepeatBehind(s: string, c: char, k: nat)
    ensures s + Repeat(c, 0) == s && s + Repeat(c, k + 1) == (s + Repeat(c, k)) + [c]
  {
    assert Repeat(c, k + 1) == Repeat(c, k) + [c];
  }

  lemma {:induction false} TrailingZeros(s: string, k: nat, base: nat)
    requires Base(base) && Digital(s, base)
    ensures Digital(s + Repeat('0', k), base) && Number(s + Repeat('0', k), base) == Number(s, base) * Pow(base, k)
  {
    hide Repeat, Digital, Number;
    RepeatBehind(s, '0', if k == 0 then 0 else k - 1);
    if k > 0 {
      TrailingZeros(s, k - 1, base);
      NumberNext(s + Repeat('0', k - 1), '0', base);
      MulAssoc(Number(s, base), Pow(base, k - 1), base);
    }
  }

  lemma MulAssoc(a: nat, p: nat, b: nat)
    ensures (a * p) * b == a * (b * p)
  {
  }

  // ---------- the loops ----------

  lemma {:induction false} BackwardsConcat(a: string, b: string)
    ensures Backwards(a + b) == Backwards(b) + Backwards(a)
  {
    if a == "" {
      assert a + b == b && Backwards(b) + "" == Backwards(b);
    } else {
      BackwardsConcat(a[1..], b);
      assert (a + b)[1..] == a[1..] + b;
    }
  }

  lemma BackwardsNext(s: string, c: char, front: string)
    ensures front + Backwards(s + [c]) == (front + [c]) + Backwards(s)
  {
    BackwardsConcat(s, [c]);
    assert Backwards([c]) == [c];
  }

  /** npf_utoa_rev: the digits of a number, least significant first. */
  method UtoaRev(buf: array<char>, v: nat, base: nat, caseAdj: nat) returns (n: nat)
    requires Base(base) && CaseAdjust(caseAdj) && |Numeral(v, base, caseAdj)| <= buf.Length
    modifies buf
    ensures n == |Numeral(v, base, caseAdj)| && Backwards(buf[..n]) == Numeral(v, base, caseAdj)
    ensures forall k :: n <= k < buf.Length ==> buf[k] == old(buf[k])
  {
    hide Numeral, Backwards;
    n := 0;
    var i: nat, more := v, true;
    while more
      invariant n <= buf.Length && (!more ==> i == 0)
      invariant Numeral(v, base, caseAdj) == (if more then Numeral(i, base, caseAdj) else "") + Backwards(buf[..n])
      invariant forall k :: n <= k < buf.Length ==> buf[k] == old(buf[k])
      decreases more, i
    {
      UnfoldNumeral(i, base, caseAdj);
      var d, q := i % base, i / base;
      ghost var done, front := buf[..n], if q == 0 then "" else Numeral(q, base, caseAdj);
      assert Numeral(i, base, caseAdj) == front + [Glyph(d, caseAdj)];
      BackwardsNext(done, Glyph(d, caseAdj), front);
      buf[n] := Glyph(d, caseAdj);
      assert buf[..n + 1] == done + [Glyph(d, caseAdj)];
      i := q;
      n := n + 1;
      more := i != 0;
    }
  }

  lemma UnfoldNumeral(i: nat, base: nat, caseAdj: nat)
    requires Base(base) && CaseAdjust(caseAdj)
    ensures Numeral(i, base, caseAdj) ==
            (if i < base then "" else Numeral(i / base, base, caseAdj)) + [Glyph(i % base, caseAdj)]
    ensures (i < base <==> i / base == 0) && (i > 0 ==> i / base < i) && i % base < base <= 16
  {
  }

  /** C's division and remainder: the quotient is cut towards zero, the remainder keeps the sign. */
  function CDiv(a: int, b: nat): int
    requires b > 0
  {
    if a >= 0 then a / b else -((-a) / b)
  }

  function CMod(a: int, b: nat): int
    requires b > 0
  {
    a - CDiv(a, b) * b
  }

  function Abs(i: int): nat {
    if i >= 0 then i else -i
  }

  lemma CDigits(i: int)
    ensures Abs(CDiv(i, 10)) == Abs(i) / 10 && (i < 0 ==> CDiv(i, 10) <= 0) && (i >= 0 ==> CDiv(i, 10) >= 0)
    ensures (if i >= 0 then 1 else -1) * CMod(i, 10) == Abs(i) % 10
  {
  }

  /**
   npf_itoa_rev: the digits of the absolute value. The number itself is never negated, so that the
   smallest 64-bit integer needs no wider one.
   */
  method ItoaRev(buf: array<char>, v: int) returns (n: nat)
    requires -WORD / 2 <= v < WORD / 2 && |Numeral(Abs(v), 10, 0)| <= buf.Length
    modifies buf
    ensures n == |Numeral(Abs(v), 10, 0)| && Backwards(buf[..n]) == Numeral(Abs(v), 10, 0)
    ensures forall k :: n <= k < buf.Length ==> buf[k] == old(buf[k])
  {
    hide Numeral, Backwards;
    n := 0;
    var sign := if v >= 0 then 1 else -1;
    var i, more := v, true;
    while more
      invariant n <= buf.Length && -WORD / 2 <= i < WORD / 2 && (!more ==> i == 0)
      invariant if sign == 1 then i >= 0 else i <= 0
      invariant sign == -1 ==> v < 0 && (i == 0 ==> !more)
      invariant sign == 1 || sign == -1
      invariant Numeral(Abs(v), 10, 0) == (if more then Numeral(Abs(i), 10, 0) else "") + Backwards(buf[..n])
      invariant forall k :: n <= k < buf.Length ==> buf[k] == old(buf[k])
      decreases more, Abs(i)
    {
      ghost var done, u := buf[..n], Abs(i);
      CDigits(i);
      UnfoldNumeral(u, 10, 0);
      BackwardsNext(done, Glyph(u % 10, 0), if u < 10 then "" else Numeral(u / 10, 10, 0));
      buf[n] := (48 + sign * CMod(i, 10)) as char;
      assert buf[..n + 1] == done + [Glyph(u % 10, 0)];
      i := CDiv(i, 10);
      n := n + 1;
      more := i != 0;
    }
  }
}
