/**
 64-bit words as naturals, with the bit operations the page-table code performs on them.
 */
module Words {
  import opened Arithmetic

  /** Bitwise or. */
  function Or(a: nat, b: nat): nat
    decreases a + b
  {
    if a == 0 && b == 0 then 0
    else 2 * Or(a / 2, b / 2) + (if a % 2 == 1 || b % 2 == 1 then 1 else 0)
  }

  /** w >> n. */
  function Shr(w: nat, n: nat): nat
    decreases n
  {
    if n == 0 then w else Shr(w / 2, n - 1)
  }

  /** w & ((1 << n) - 1). */
  function Low(w: nat, n: nat): nat
    decreases n
  {
    if n == 0 then 0 else w % 2 + 2 * Low(w / 2, n - 1)
  }

  function Pow2(n: nat): (r: nat)
    ensures r > 0
  {
    if n == 0 then 1 else 2 * Pow2(n - 1)
  }

  /** A page number as an address. */
  function PageStart(n: nat): (r: nat)
    ensures r % 4096 == 0 && r / 4096 == n
  {
    n * 4096
  }

  /** w & ((1 << width) - 1) & ~0xFFF: the page-aligned address stored in an entry. */
  function AddressBits(w: nat, width: nat): (r: nat)
    ensures r % 4096 == 0
  {
    if width < 12 then 0 else PageStart(Low(Shr(w, 12), width - 12))
  }

  /** w & 0x000ffffffffff000. */
  function Field(w: nat): nat {
    AddressBits(w, 52)
  }

  /** w & PTE_BIT_PRESENT. */
  predicate Present(w: nat) {
    w % 2 == 1
  }

  /** p is a page address of at most width bits. */
  predicate PageAddress(p: nat, width: nat) {
    p % 4096 == 0 && 12 <= width && p / 4096 < Pow2(width - 12)
  }

  lemma OrHalf(a: nat, b: nat)
    ensures Or(a, b) / 2 == Or(a / 2, b / 2)
    ensures Or(a, b) % 2 == if a % 2 == 1 || b % 2 == 1 then 1 else 0
  {
  }

  lemma {:induction false} OrZero(a: nat)
    ensures Or(a, 0) == a
  {
    if a > 0 { OrZero(a / 2); }
  }

  lemma {:induction false} OrShr(a: nat, b: nat, n: nat)
    ensures Shr(Or(a, b), n) == Or(Shr(a, n), Shr(b, n))
  {
    if n > 0 {
      OrHalf(a, b);
      OrShr(a / 2, b / 2, n - 1);
    }
  }

  lemma {:induction false} OrLow(a: nat, b: nat, n: nat)
    ensures Low(Or(a, b), n) == Or(Low(a, n), Low(b, n))
  {
    if n > 0 {
      OrHalf(a, b);
      OrLow(a / 2, b / 2, n - 1);
      OrHalf(Low(a, n), Low(b, n));
    }
  }

  lemma {:induction false} LowFits(w: nat, n: nat)
    requires w < Pow2(n)
    ensures Low(w, n) == w
  {
    if n > 0 { LowFits(w / 2, n - 1); }
  }

  lemma {:induction false} LowNothing(w: nat, m: nat, n: nat)
    requires m <= n && Low(w, n) == 0
    ensures Low(w, m) == 0
  {
    if m > 0 { LowNothing(w / 2, m - 1, n - 1); }
  }

  lemma {:induction false} ShrAdd(w: nat, m: nat, n: nat)
    ensures Shr(w, m + n) == Shr(Shr(w, m), n)
  {
    if m > 0 { ShrAdd(w / 2, m - 1, n); }
  }

  lemma ShrPage(w: nat)
    ensures Shr(w, 12) == w / 4096
  {
    ShrAdd(w, 4, 8);
    ShrAdd(Shr(w, 4), 4, 4);
    ShrNibble(w);
    ShrNibble(w / 16);
    ShrNibble(w / 256);
  }

  lemma ShrNibble(w: nat)
    ensures Shr(w, 4) == w / 16
  {
    assert Shr(w, 1) == w / 2 && Shr(w, 2) == w / 4;
    assert Shr(w / 4, 2) == w / 16;
    ShrAdd(w, 2, 2);
  }

  /**
   A page address survives being combined with flag bits: masking the entry to any physical
   width that covers the address gives the address back, and the present bit is the flags'.
   */
  lemma EntryRoundTrip(phys: nat, flags: nat, width: nat)
    requires width <= 52 && PageAddress(phys, width) && Field(flags) == 0
    ensures AddressBits(Or(phys, flags), width) == phys
    ensures Present(Or(phys, flags)) <==> Present(flags)
  {
    var n, p, f := width - 12, phys / 4096, Shr(flags, 12);
    assert Low(Shr(Or(phys, flags), 12), n) == Or(Low(p, n), Low(f, n)) by {
      OrShr(phys, flags, 12);
      ShrPage(phys);
      OrLow(p, f, n);
    }
    LowFits(p, n);
    LowNothing(f, n, 40);
    OrZero(p);
    OrHalf(phys, flags);
  }

  lemma {:induction false} Pow2Mono(m: nat, n: nat)
    requires m <= n
    ensures Pow2(m) <= Pow2(n)
  {
    if m < n { Pow2Mono(m, n - 1); }
  }

  lemma WiderAddress(p: nat, width: nat)
    requires width <= 52 && PageAddress(p, width)
    ensures PageAddress(p, 52)
  {
    Pow2Mono(width - 12, 40);
  }

  lemma {:induction false} LowZero(n: nat)
    ensures Low(0, n) == 0
  {
    if n > 0 { LowZero(n - 1); }
  }

  /** Flag bits below bit 12 leave the address field empty. */
  lemma SmallFlags(flags: nat)
    requires flags < 4096
    ensures Field(flags) == 0
  {
    hide Low, Shr;
    ShrPage(flags);
    LowZero(40);
  }

  /** The execute-disable bit, bit 63, lies above the address field. */
  lemma HighFlag(flags: nat)
    requires flags < 4096
    ensures Field(0x8000_0000_0000_0000 + flags) == 0
  {
    hide Low, Shr, Pow2;
    ShrPage(0x8000_0000_0000_0000 + flags);
    LowOfPow2(51, 40);
    Pow2Values();
  }

  lemma Pow2Values()
    ensures Pow2(40) == 0x100_0000_0000 && Pow2(51) == 0x8_0000_0000_0000
  {
    assert Pow2(8) == 0x100;
    assert Pow2(16) == 0x1_0000;
    assert Pow2(24) == 0x100_0000;
    assert Pow2(32) == 0x1_0000_0000;
    assert Pow2(40) == 0x100_0000_0000;
    assert Pow2(48) == 0x1_0000_0000_0000;
  }

  lemma {:induction false} LowOfPow2(m: nat, n: nat)
    requires n <= m
    ensures Low(Pow2(m), n) == 0
  {
    if n > 0 { LowOfPow2(m - 1, n - 1); }
  }

  lemma {:induction false} LowMod(w: nat, n: nat)
    ensures Low(w, n) == w % Pow2(n)
  {
    if n > 0 {
      LowMod(w / 2, n - 1);
      HalfMod(w, Pow2(n - 1));
    }
  }

  lemma {:induction false} HalfMod(w: nat, m: nat)
    requires m > 0
    ensures w % (2 * m) == w % 2 + 2 * (w / 2 % m)
  {
    var h := w / 2;
    var q, r := h / m, h % m;
    assert h == q * m + r;
    assert w == q * (2 * m) + (w % 2 + 2 * r);
    Remainder(w, 2 * m, q, w % 2 + 2 * r);
  }

  /** The address in an entry is the entry cut to the width, without its lowest 12 bits. */
  lemma {:induction false} AddressExact(w: nat, width: nat)
    requires 12 <= width
    ensures AddressBits(w, width) == w % Pow2(width) / 4096 * 4096
  {
    hide Low, Shr;
    ShrPage(w);
    LowMod(w / 4096, width - 12);
    PageMod(w, width - 12);
  }

  /** The mask of the page-table code: bits 12 to 51. */
  lemma {:induction false} FieldExact(w: nat)
    ensures Field(w) == w % 0x10_0000_0000_0000 / 4096 * 4096
  {
    AddressExact(w, 52);
    Pow2Values();
    TwelveMore(40);
  }

  lemma {:induction false} PageMod(w: nat, n: nat)
    ensures w % Pow2(n + 12) / 4096 == w / 4096 % Pow2(n)
  {
    TwelveMore(n);
    var p, m := w / 4096, Pow2(n);
    var q, r := p / m, p % m;
    assert p == q * m + r;
    assert w == q * (4096 * m) + (4096 * r + w % 4096);
    Remainder(w, 4096 * m, q, 4096 * r + w % 4096);
  }

  lemma {:induction false} Pow2Sum(m: nat, n: nat)
    ensures Pow2(m + n) == Pow2(m) * Pow2(n)
  {
    if m > 0 { Pow2Sum(m - 1, n); }
  }

  lemma {:induction false} TwelveMore(n: nat)
    ensures Pow2(n + 12) == 4096 * Pow2(n)
  {
    Pow2Sum(12, n);
    assert Pow2(4) == 16 && Pow2(8) == 256;
  }

  // ---------- single bits ----------

  /** Bit n of a word. */
  predicate Bit(w: nat, n: nat) {
    Shr(w, n) % 2 == 1
  }

  /** What the hardware takes a present entry for: writable, and not executable. */
  predicate Writable(entry: nat) {
    Bit(entry, 1)
  }

  predicate NoExecute(entry: nat) {
    Bit(entry, 63)
  }

  lemma {:induction false} BitOr(a: nat, b: nat, n: nat)
    ensures Bit(Or(a, b), n) <==> Bit(a, n) || Bit(b, n)
  {
    OrShr(a, b, n);
    OrHalf(Shr(a, n), Shr(b, n));
  }

  /** A page address leaves all bits below 12 and bit 63 to the flags. */
  lemma {:induction false} AddressHasNoFlags(phys: nat, width: nat, n: nat)
    requires width <= 52 && PageAddress(phys, width) && (n < 4 || n == 63)
    ensures !Bit(phys, n)
  {
    hide Low, Pow2;
    PageBits(phys, width);
  }

  lemma {:induction false} ShrFew(w: nat)
    ensures Shr(w, 0) == w && Shr(w, 1) == w / 2 && Shr(w, 2) == w / 4 && Shr(w, 3) == w / 8
  {
    ShrAdd(w, 1, 1);
    ShrAdd(w, 1, 2);
    ShrAdd(w / 2, 1, 1);
    ShrOne(w);
    ShrOne(w / 2);
    ShrOne(w / 4);
  }

  lemma {:induction false} ShrOne(w: nat)
    ensures Shr(w, 1) == w / 2 && Shr(w, 0) == w
  {
  }

  lemma {:induction false} PageBits(phys: nat, width: nat)
    requires width <= 52 && PageAddress(phys, width)
    ensures Shr(phys, 0) % 2 == Shr(phys, 1) % 2 == Shr(phys, 2) % 2 == Shr(phys, 3) % 2 == 0 && Shr(phys, 63) == 0
  {
    hide Shr, Pow2, PageAddress;
    WiderAddress(phys, width);
    ShrFew(phys);
    LowClear(phys);
    ShrAdd(phys, 12, 51);
    ShrPage(phys);
    AddressSmall(phys);
    ShrSmall(phys / 4096, 51);
  }

  lemma {:induction false} LowClear(phys: nat)
    requires PageAddress(phys, 52)
    ensures phys % 2 == phys / 2 % 2 == phys / 4 % 2 == phys / 8 % 2 == 0
  {
    hide Pow2;
    var q := phys / 4096;
    Twice(2048 * q);
    Twice(1024 * q);
    Twice(512 * q);
    Twice(256 * q);
    assert phys == 2 * (2048 * q) == 4 * (1024 * q) == 8 * (512 * q);
  }

  lemma Twice(n: nat)
    ensures 2 * n / 2 == n && 2 * n % 2 == 0
    ensures 4 * n / 4 == n && 8 * n / 8 == n
  {
  }

  lemma {:induction false} AddressSmall(phys: nat)
    requires PageAddress(phys, 52)
    ensures phys / 4096 < Pow2(51)
  {
    hide Pow2;
    Pow2Values();
  }

  lemma {:induction false} ShrSmall(w: nat, n: nat)
    requires w < Pow2(n)
    ensures Shr(w, n) == 0
  {
    if n > 0 { ShrSmall(w / 2, n - 1); }
  }
}
