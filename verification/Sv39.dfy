/**
 Sv39 addresses and page-table entries, and the entries that stand for swapped-out pages.
 Words are unsigned 64-bit values; shifts and masks by constants are written as arithmetic.
 */
module Sv39 {

  const PGSIZE := 4096
  const NPTEENTRY := 512
  const NBASE := 0x80000         // page number at which physical memory starts
  const KERNEL_SLOT := 511       // top-level slot of the kernel's gigapage; the walk never goes there
  const VA_LIMIT := 0x7F_C000_0000 // KERNEL_SLOT << 30: the first address of that slot

  const PTE_V := 1
  const PTE_R := 2
  const PTE_W := 4
  const PTE_U := 16

  // ----- addresses -----

  /** The three 9-bit indices of a virtual page. */
  datatype Vpn = Vpn(i: nat, j: nat, k: nat)

  function Pdx1(la: nat): nat { la / 0x4000_0000 % 512 }

  function Pdx0(la: nat): nat { la / 0x20_0000 % 512 }

  function Ptx(la: nat): nat { la / 0x1000 % 512 }

  function IndexOf(la: nat): Vpn
  {
    Vpn(Pdx1(la), Pdx0(la), Ptx(la))
  }

  predicate InRange(v: Vpn)
  {
    v.i < KERNEL_SLOT && v.j < NPTEENTRY && v.k < NPTEENTRY
  }

  /** The 27-bit virtual page number. */
  function Number(v: Vpn): nat
  {
    v.i * 0x4_0000 + v.j * 0x200 + v.k
  }

  lemma LastDigit(a: nat, x: nat, b: nat, y: nat)
    requires x < 512 && y < 512 && a * 512 + x == b * 512 + y
    ensures a == b && x == y
  {
  }

  /** The number determines the indices. */
  lemma NumberInjective(u: Vpn, v: Vpn)
    requires u.i < 512 && u.j < 512 && u.k < 512 && v.i < 512 && v.j < 512 && v.k < 512
    requires Number(u) == Number(v)
    ensures u == v
  {
    LastDigit(u.i * 512 + u.j, u.k, v.i * 512 + v.j, v.k);
    LastDigit(u.i, u.j, v.i, v.j);
  }

  /** Below the kernel's slot the indices are the digits of the page number. */
  lemma IndexNumber(la: nat)
    requires la < VA_LIMIT
    ensures InRange(IndexOf(la)) && Number(IndexOf(la)) == la / PGSIZE
  {
    var p := la / 0x1000;
    assert la / 0x20_0000 == p / 512 && la / 0x4000_0000 == p / 512 / 512;
  }

  /** Two addresses share all three indices exactly when the 27 bits above the offset agree. */
  lemma SameIndices(la: nat, lb: nat)
    ensures IndexOf(la) == IndexOf(lb) <==> la / PGSIZE % 0x800_0000 == lb / PGSIZE % 0x800_0000
  {
    IndexDigits(la);
    IndexDigits(lb);
    if Number(IndexOf(la)) == Number(IndexOf(lb)) {
      NumberInjective(IndexOf(la), IndexOf(lb));
    }
  }

  lemma IndexDigits(la: nat)
    ensures la / PGSIZE % 0x800_0000 == Number(IndexOf(la))
    ensures Pdx1(la) < 512 && Pdx0(la) < 512 && Ptx(la) < 512
  {
    var p := la / 0x1000;
    assert la / 0x20_0000 == p / 512 && la / 0x4000_0000 == p / 512 / 512;
    var q := p % 0x800_0000;
    assert p == p / 0x800_0000 * 0x800_0000 + q;
  }

  /** ROUNDDOWN(la, PGSIZE) */
  function PageBase(la: nat): nat
  {
    la / PGSIZE * PGSIZE
  }

  lemma PageBaseIndex(la: nat)
    requires la < VA_LIMIT
    ensures PageBase(la) < VA_LIMIT && IndexOf(PageBase(la)) == IndexOf(la)
  {
    IndexNumber(la);
    IndexNumber(PageBase(la));
    assert PageBase(la) / PGSIZE == la / PGSIZE;
    NumberInjective(IndexOf(PageBase(la)), IndexOf(la));
  }

  // ----- entries -----

  predicate IsValid(pte: nat)
  {
    pte % 2 == 1
  }

  /** pte_create: the physical page number above the ten flag bits, with V set. */
  function PteCreate(page: nat, perm: nat): nat
    requires perm < 1024
  {
    (NBASE + page) * 1024 + (if perm % 2 == 1 then perm else perm + 1)
  }

  /** pte2page: the page whose number the entry holds (negative below physical memory). */
  function PageOf(pte: nat): int
  {
    pte / 1024 - NBASE
  }

  lemma PteRoundTrip(page: nat, perm: nat)
    requires perm < 1024
    ensures IsValid(PteCreate(page, perm)) && PageOf(PteCreate(page, perm)) == page
  {
    var low := if perm % 2 == 1 then perm else perm + 1;
    FlagBits(low);
    HighAndLow(NBASE + page, low);
  }

  /** The ten flag bits with V set. */
  lemma FlagBits(low: nat)
    ensures low % 2 == 1 ==> low == 2 * (low / 2) + 1
  {
  }

  /** The flags leave the page number above them alone. */
  lemma HighAndLow(high: nat, low: nat)
    requires low < 1024 && low % 2 == 1
    ensures (high * 1024 + low) / 1024 == high && (high * 1024 + low) % 2 == 1
  {
    var x := high * 1024 + low;
    Quotient(x / 1024, x % 1024, high, low);
    Parity(x / 2, x % 2, high * 512 + low / 2);
  }

  lemma Quotient(q: nat, r: nat, high: nat, low: nat)
    requires r < 1024 && low < 1024 && q * 1024 + r == high * 1024 + low
    ensures q == high
  {
  }

  lemma Parity(q: nat, r: nat, half: nat)
    requires r < 2 && 2 * q + r == 2 * half + 1
    ensures r == 1
  {
  }

  predicate HasFlag(pte: nat, flag: nat)
    requires flag > 0
  {
    pte / flag % 2 == 1
  }

  /** The flags above V, up to the two bits left to software. */
  const FLAGS: seq<nat> := [2, 4, 8, 16, 32, 64, 128, 256, 512]

  /** w is valid, holds the page's number above the flags, and has exactly the flags of perm. */
  predicate EntryFor(w: nat, page: nat, perm: nat)
  {
    && w % 2 == 1 && w / 1024 == 0x80000 + page
    && forall b: nat | b in FLAGS && b > 0 :: HasFlag(w, b) <==> HasFlag(perm, b)
  }

  /** No flag gets lost or set but V. */
  lemma PteFlags(page: nat, perm: nat)
    requires perm < 1024
    ensures EntryFor(PteCreate(page, perm), page, perm)
    ensures PteCreate(page, perm) % 1024 == if perm % 2 == 1 then perm else perm + 1
  {
    var low := if perm % 2 == 1 then perm else perm + 1;
    var w, high := PteCreate(page, perm), NBASE + page;
    FlagBits(low);
    HighAndLow(high, low);
    assert w == w / 1024 * 1024 + w % 1024;
    AllFlags(high, low, perm);
  }

  lemma AllFlags(high: nat, low: nat, perm: nat)
    requires low == (if perm % 2 == 1 then perm else perm + 1)
    ensures forall b: nat | b in FLAGS && b > 0 :: HasFlag(high * 1024 + low, b) <==> HasFlag(perm, b)
  {
    forall b: nat | b in FLAGS && b > 0 ensures HasFlag(high * 1024 + low, b) <==> HasFlag(perm, b) {
      FlagKept(high, low, perm, b, 512 / b);
    }
  }

  /** Flag by flag: neither the page number above nor setting V touches it. */
  lemma FlagKept(high: nat, low: nat, perm: nat, b: nat, c: nat)
    requires b > 0 && 2 * b * c == 1024 && b % 2 == 0
    requires low == (if perm % 2 == 1 then perm else perm + 1)
    ensures HasFlag(high * 1024 + low, b) <==> HasFlag(perm, b)
  {
    var q, r, t := low / b, low % b, c * high;
    DivMod(low, b);
    Regroup(high, b, c);
    Distribute(b, 2 * t, q);
    DivUnique(high * 1024 + low, b, 2 * t + q, r);
    SameParity(t, q);
    EvenQuotient(perm, low, b);
  }

  lemma DivMod(x: nat, b: nat)
    requires b > 0
    ensures x == b * (x / b) + x % b && 0 <= x % b < b && x / b >= 0
  {
  }

  lemma Regroup(high: nat, b: nat, c: nat)
    requires 2 * b * c == 1024
    ensures high * 1024 == b * (2 * (c * high))
  {
    assert high * (2 * b * c) == b * (2 * (c * high));
  }

  lemma Distribute(b: nat, x: nat, y: nat)
    ensures b * (x + y) == b * x + b * y
  {
  }

  lemma SameParity(t: nat, q: nat)
    ensures (2 * t + q) % 2 == q % 2
  {
  }

  lemma DivUnique(x: nat, b: nat, q: nat, r: nat)
    requires b > 0 && x == b * q + r && r < b
    ensures x / b == q && x % b == r
  {
    DivMod(x, b);
    Distribute2(b, x / b, q);
    Factor(b, x / b - q, r - x % b);
  }

  lemma Distribute2(b: nat, x: int, y: int)
    ensures b * (x - y) == b * x - b * y
  {
  }

  lemma Factor(b: int, d: int, e: int)
    requires b * d == e && -b < e < b
    ensures d == 0
  {
  }

  /** Adding 1 to an even number does not change its quotient by an even number. */
  lemma EvenQuotient(perm: nat, low: nat, b: nat)
    requires b > 0 && b % 2 == 0 && low == (if perm % 2 == 1 then perm else perm + 1)
    ensures low / b == perm / b
  {
    if low != perm {
      DivMod(perm, b);
      EvenRemainder(b, perm / b, perm % b);
      DivUnique(low, b, perm / b, perm % b + 1);
    }
  }

  lemma EvenRemainder(b: nat, q: nat, r: nat)
    requires b > 0 && b % 2 == 0 && r < b && (b * q + r) % 2 == 0
    ensures r + 1 < b
  {
    var h := b / 2;
    var t := h * q;
    assert b * q == 2 * t by {
      assert b == 2 * h;
    }
    SameParity(t, r);
  }

  /**
   Pages of a writable area can be read and written; those of any other area, although meant to
   be readable, get an entry with neither flag.
   */
  lemma PermissionFlags(page: nat)
    ensures HasFlag(PteCreate(page, PTE_U + PTE_R + PTE_W), PTE_R)
    ensures HasFlag(PteCreate(page, PTE_U + PTE_R + PTE_W), PTE_W)
    ensures !HasFlag(PteCreate(page, PTE_U), PTE_R) && !HasFlag(PteCreate(page, PTE_U), PTE_W)
  {
  }

  // ----- swap entries -----

  const PAGE_NSECT := 8          // sectors of 512 bytes in a page
  const SECT_WORDS := 64         // 64-bit words in a sector
  const MAX_DISK_NSECS := 56
  const MAX_SWAP_OFFSET := MAX_DISK_NSECS / PAGE_NSECT

  /** The entry left behind by a swapped-out page: disk slot page number + 1. */
  function SwapEntry(v: Vpn): nat
  {
    (Number(v) + 1) * 256
  }

  function SwapOffset(entry: nat): nat
  {
    entry / 256
  }

  /** The check inside swap_offset that panics on a bad entry. */
  predicate SwapOffsetOk(entry: nat)
  {
    0 < SwapOffset(entry) < MAX_SWAP_OFFSET
  }

  predicate HasSlot(v: Vpn)
  {
    Number(v) + 1 < MAX_SWAP_OFFSET
  }

  /** The entry in numbers: the page number of the address, plus one, above eight zero bits. */
  lemma SwapEntryValue(la: nat)
    requires la < VA_LIMIT
    ensures SwapEntry(IndexOf(la)) == (la / 4096 + 1) * 256 && SwapOffset(SwapEntry(IndexOf(la))) == la / 4096 + 1
  {
    IndexNumber(la);
  }

  lemma SwapEntryFacts(v: Vpn)
    ensures !IsValid(SwapEntry(v)) && SwapEntry(v) != 0 && SwapOffset(SwapEntry(v)) == Number(v) + 1
  {
  }

  /** A valid entry never passes the slot check, so a fault on a present page stops in a panic. */
  lemma PresentPagePanics(page: nat, perm: nat)
    requires perm < 1024
    ensures !SwapOffsetOk(PteCreate(page, perm))
  {
  }
}
