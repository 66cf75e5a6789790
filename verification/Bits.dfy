/** The C bit operators on unsigned words, over unbounded naturals, with their arithmetic meaning. */
module Bits {

  type Word = x: int | 0 <= x < 0x1_0000_0000

  function Pow2(n: nat): (p: nat)
    ensures p >= 1
  {
    if n == 0 then 1 else 2 * Pow2(n - 1)
  }

  /** Bit k of x. */
  predicate Bit(x: nat, k: nat) {
    if k == 0 then x % 2 == 1 else Bit(x / 2, k - 1)
  }

  /** x & y */
  function And(x: nat, y: nat): nat {
    if x == 0 || y == 0 then 0
    else 2 * And(x / 2, y / 2) + (if x % 2 == 1 && y % 2 == 1 then 1 else 0)
  }

  /** x | y */
  function Or(x: nat, y: nat): nat {
    if x == 0 then y else if y == 0 then x
    else 2 * Or(x / 2, y / 2) + (if x % 2 == 1 || y % 2 == 1 then 1 else 0)
  }

  lemma {:induction false} ZeroHasNoBits(k: nat)
    ensures !Bit(0, k)
  {
    if k > 0 { ZeroHasNoBits(k - 1); }
  }

  lemma {:induction false} AndBit(x: nat, y: nat, k: nat)
    ensures Bit(And(x, y), k) <==> Bit(x, k) && Bit(y, k)
  {
    if x == 0 || y == 0 {
      ZeroHasNoBits(k);
    } else if k > 0 {
      AndBit(x / 2, y / 2, k - 1);
    }
  }

  lemma {:induction false} OrBit(x: nat, y: nat, k: nat)
    ensures Bit(Or(x, y), k) <==> Bit(x, k) || Bit(y, k)
  {
    if x == 0 || y == 0 {
      ZeroHasNoBits(k);
    } else if k > 0 {
      OrBit(x / 2, y / 2, k - 1);
    }
  }

  lemma {:induction false} Pow2Bit(o: nat, k: nat)
    ensures Bit(Pow2(o), k) <==> o == k
  {
    if o == 0 {
      if k > 0 { ZeroHasNoBits(k - 1); }
    } else if k > 0 {
      Pow2Bit(o - 1, k - 1);
    }
  }

  /** Complement within n bits flips every bit. */
  lemma {:induction false} NotBit(x: nat, n: nat, k: nat)
    requires x < Pow2(n) && k < n
    ensures Bit(Pow2(n) - 1 - x, k) <==> !Bit(x, k)
  {
    HalfComplement(Pow2(n - 1), x);
    if k > 0 { NotBit(x / 2, n - 1, k - 1); }
  }

  lemma HalfComplement(p: nat, x: nat)
    requires x < 2 * p
    ensures x / 2 < p && (2 * p - 1 - x) / 2 == p - 1 - x / 2 && (2 * p - 1 - x) % 2 == 1 - x % 2
  {}

  /** The C idiom `w & (1 << k)` as a condition tests bit k. */
  lemma {:induction false} TestBit(w: nat, k: nat)
    ensures And(w, Pow2(k)) != 0 <==> Bit(w, k)
  {
    if w == 0 {
      ZeroHasNoBits(k);
    } else if k > 0 {
      TestBit(w / 2, k - 1);
    }
  }

  lemma {:induction false} AndAtMost(x: nat, y: nat)
    ensures And(x, y) <= y
  {
    if x != 0 && y != 0 { AndAtMost(x / 2, y / 2); }
  }

  lemma {:induction false} OrBelow(x: nat, y: nat, n: nat)
    requires x < Pow2(n) && y < Pow2(n)
    ensures Or(x, y) < Pow2(n)
  {
    if x != 0 && y != 0 { OrBelow(x / 2, y / 2, n - 1); }
  }

  lemma {:induction false} Pow2Monotone(a: nat, b: nat)
    requires a <= b
    ensures Pow2(a) <= Pow2(b)
  {
    if a < b { Pow2Monotone(a, b - 1); }
  }

  lemma ModDouble(x: nat, p: nat)
    requires p > 0
    ensures x % (2 * p) == 2 * ((x / 2) % p) + x % 2
  {
    var q, r := (x / 2) / p, (x / 2) % p;
    assert x / 2 == q * p + r;
    assert x == q * (2 * p) + (2 * r + x % 2);
    DivModUnique(x, 2 * p, q, 2 * r + x % 2);
  }

  lemma AtLeastOnce(k: int, d: nat)
    requires k >= 1
    ensures k * d >= d
  {
    assert k * d == (k - 1) * d + d;
    assert (k - 1) * d >= 0;
  }

  lemma DivModUnique(x: nat, d: nat, q: nat, r: nat)
    requires d > 0 && x == q * d + r && r < d
    ensures x % d == r
  {
    var q', r' := x / d, x % d;
    assert x == q' * d + r';
    assert (q - q') * d == r' - r;
    if q' < q {
      AtLeastOnce(q - q', d);
    } else if q' > q {
      AtLeastOnce(q' - q, d);
    }
  }

  /** Masking with 2^n - 1 keeps the remainder modulo 2^n. */
  lemma {:induction false} AndMask(x: nat, n: nat)
    ensures And(x, Pow2(n) - 1) == x % Pow2(n)
  {
    if n > 0 {
      AndMask(x / 2, n - 1);
      ModDouble(x, Pow2(n - 1));
      assert (Pow2(n) - 1) / 2 == Pow2(n - 1) - 1;
    }
  }

  /** A mask and its complement split a word. */
  lemma {:induction false} AndComplement(x: nat, y: nat, n: nat)
    requires y < Pow2(n)
    ensures And(x, y) + And(x, Pow2(n) - 1 - y) == And(x, Pow2(n) - 1)
  {
    if n > 0 && x > 0 {
      AndComplement(x / 2, y / 2, n - 1);
      assert (Pow2(n) - 1 - y) / 2 == Pow2(n - 1) - 1 - y / 2;
      assert (Pow2(n) - 1) / 2 == Pow2(n - 1) - 1;
    }
  }

  lemma DoubledProduct(a: nat, p: nat)
    ensures a * (2 * p) == 2 * (a * p)
  {}

  lemma Pow2Thirty2()
    ensures Pow2(1) == 2 && Pow2(12) == 4096 && Pow2(32) == 0x1_0000_0000
  {
    assert Pow2(8) == 0x100;
    assert Pow2(12) == 0x1000;
    assert Pow2(20) == 0x10_0000;
    assert Pow2(26) == 0x400_0000;
  }

  /** Page arithmetic: `x & 0xFFF` and `x & ~0xFFF` on 32-bit words. */
  lemma PageMasks(x: Word)
    ensures And(x, 0xFFF) == x % 4096
    ensures And(x, 0xFFFF_F000) == x - x % 4096
    ensures And(x, 1) == x % 2
  {
    Pow2Thirty2();
    AndMask(x, 12);
    AndMask(x, 32);
    AndMask(x, 1);
    AndComplement(x, 0xFFF, 32);
  }

  /** The low twelve flag bits with the present bit forced. */
  function PresentFlags(flags: nat): (r: nat)
    ensures r < 4096 && r % 2 == 1
  {
    var x := flags % 4096;
    x - x % 2 + 1
  }

  lemma OrOne(e: nat)
    ensures Or(e, 1) == e - e % 2 + 1
  {
    OrHalves(e, 1);
    OrNone(e / 2);
  }

  /** The twelve low bits of an entry: those of the flags, and any the address brings along. */
  function EntryFlags(phys: nat, flags: nat): (r: nat)
    ensures r < 4096 && r % 2 == 1
  {
    PresentFlags(Or(phys % 4096, flags % 4096))
  }

  lemma AlignedFlags(phys: nat, flags: nat)
    requires phys % 4096 == 0
    ensures EntryFlags(phys, flags) == PresentFlags(flags)
  {}

  /** `phys | (flags & 0xFFF) | 1` for any address: its page, and in the low bits whatever it and the flags set. */
  lemma AnyEntryWord(phys: Word, flags: Word)
    ensures Or(Or(phys, And(flags, 0xFFF)), 1) == phys - phys % 4096 + EntryFlags(phys, flags)
    ensures phys - phys % 4096 + EntryFlags(phys, flags) < 0x1_0000_0000
  {
    hide And, Or, Pow2, PresentFlags;
    var q, b, c := phys / 4096, phys % 4096, flags % 4096;
    PageMasks(flags);
    Pow2Thirty2();
    OrLow(q, b, c, 12);
    OrBelow(b, c, 12);
    OrOne(q * 4096 + Or(b, c));
    OddPage(q, Or(b, c));
    assert phys == q * 4096 + b && q <= 0xF_FFFF;
    assert Or(phys, And(flags, 0xFFF)) == q * 4096 + Or(b, c);
  }

  lemma OddPage(q: nat, r: nat)
    requires r < 4096
    ensures var x := q * 4096 + r; x - x % 2 + 1 == q * 4096 + PresentFlags(r)
  {
    HalvedSum(q * 2048, r);
    assert r % 4096 == r;
  }

  /** For an aligned address the word keeps address and flags apart. */
  lemma EntryWord(phys: Word, flags: Word)
    requires phys % 4096 == 0
    ensures Or(Or(phys, And(flags, 0xFFF)), 1) == phys + PresentFlags(flags)
    ensures phys + PresentFlags(flags) < 0x1_0000_0000
  {
    hide And, Or, PresentFlags, EntryFlags;
    AnyEntryWord(phys, flags);
    AlignedFlags(phys, flags);
  }

  /** Or of a number below 2^n leaves what stands above alone. */
  lemma {:induction false} OrLow(a: nat, b: nat, c: nat, n: nat)
    requires b < Pow2(n) && c < Pow2(n)
    ensures Or(a * Pow2(n) + b, c) == a * Pow2(n) + Or(b, c)
  {
    hide Or;
    if n == 0 {
      OrNone(a);
      OrNone(0);
    } else {
      OrLow(a, b / 2, c / 2, n - 1);
      DoubledProduct(a, Pow2(n - 1));
      OrLowStep(a * Pow2(n - 1), b, c);
    }
  }

  lemma OrLowStep(h: nat, b: nat, c: nat)
    requires Or(h + b / 2, c / 2) == h + Or(b / 2, c / 2)
    ensures Or(2 * h + b, c) == 2 * h + Or(b, c)
  {
    hide Or;
    OrHalves(2 * h + b, c);
    OrHalves(b, c);
    HalvedSum(h, b);
  }

  lemma OrNone(a: nat)
    ensures Or(a, 0) == a && Or(0, a) == a
  {}

  lemma HalvedSum(h: nat, b: nat)
    ensures (2 * h + b) / 2 == h + b / 2 && (2 * h + b) % 2 == b % 2
  {}

  lemma OrHalves(x: nat, y: nat)
    ensures Or(x, y) == 2 * Or(x / 2, y / 2) + (if x % 2 == 1 || y % 2 == 1 then 1 else 0)
  {
    if x == 0 { OrNone(y); OrNone(y / 2); } else if y == 0 { OrNone(x); OrNone(x / 2); }
  }
}
