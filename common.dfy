/**
 * Shared vocabulary of the section manager model: machine integer widths,
 * the platform constants the memory manager is compiled with, status codes,
 * the abstract prototype PTE, and little-endian field decoding of header bytes.
 *
 * Platform: a 4 KiB page, 512-byte sectors, 4-byte PTEs and a 64 KiB
 * prototype-PTE alignment (the configuration in which the alignment
 * offset of the PTE array is not trivially zero).
 */
module Common {

  // ---------------------------------------------------------------------
  // Machine integers
  // ---------------------------------------------------------------------

  const U32_LIMIT: int := 0x1_0000_0000
  const U16_LIMIT: int := 0x1_0000

  type u8 = x: int | 0 <= x < 0x100
  type u16 = x: int | 0 <= x < 0x1_0000
  type u32 = x: int | 0 <= x < 0x1_0000_0000

  /** A signed 64-bit LARGE_INTEGER value. */
  predicate IsLargeInteger(x: int) { -0x8000_0000_0000_0000 <= x < 0x8000_0000_0000_0000 }

  /** ULONG multiplication, keeping the low 32 bits like the C operator. */
  function Mul32(a: nat, b: nat): (r: u32)
    ensures a * b < U32_LIMIT ==> r == a * b
  {
    (a * b) % U32_LIMIT
  }

  /** ULONG addition, wrapping like the C operator. */
  function Add32(a: u32, b: u32): (r: u32)
    ensures a + b < U32_LIMIT ==> r == a + b
    ensures a + b >= U32_LIMIT ==> r == a + b - U32_LIMIT
  {
    (a + b) % U32_LIMIT
  }

  /** ULONG subtraction, wrapping like the C operator. */
  function Sub32(a: u32, b: u32): (r: u32)
    ensures b <= a ==> r == a - b
    ensures a < b ==> r == a - b + U32_LIMIT
  {
    (a - b) % U32_LIMIT
  }

  /** Bitwise AND of two ULONGs, bit by bit from the least significant. */
  function And32(a: u32, b: u32): (r: u32)
    ensures r <= a && r <= b
  {
    BitAnd(a, b)
  }

  function BitAnd(a: nat, b: nat): (r: nat)
    ensures r <= a && r <= b
  {
    if a == 0 || b == 0 then 0
    else 2 * BitAnd(a / 2, b / 2) + (if a % 2 == 1 && b % 2 == 1 then 1 else 0)
  }

  /** Bitwise complement of a ULONG: every one of the 32 bits flipped. */
  function Not32(a: u32): (r: u32)
    ensures r + a == U32_LIMIT - 1
  {
    U32_LIMIT - 1 - a
  }

  /** MI_ROUND_TO_SIZE(x, a): ((x + a - 1) & ~(a - 1)) in ULONG arithmetic. */
  function RoundToSize(x: u32, a: u32): u32
  {
    And32(Add32(x, Sub32(a, 1)), Not32(Sub32(a, 1)))
  }

  /** Facts of integer arithmetic the bit lemmas rest on. */
  lemma MulAtLeast(d: nat, x: int)
    requires d > 0 && x >= 1
    ensures d * x >= d
  {
    assert d * x == d * (x - 1) + d;
    assert d * (x - 1) >= 0;
  }

  lemma ModUnique(a: nat, d: nat, q: nat, r: nat)
    requires d > 0 && a == d * q + r && r < d
    ensures a % d == r && a / d == q
  {
    var q0 := a / d;
    var r0 := a % d;
    assert d * q + r == d * q0 + r0;
    assert d * (q - q0) == r0 - r;
    if q > q0 {
      MulAtLeast(d, q - q0);
    } else if q < q0 {
      MulAtLeast(d, q0 - q);
    }
  }

  lemma DivModPow2(a: nat, k: nat)
    requires k > 0
    ensures a % Pow2(k) == 2 * ((a / 2) % Pow2(k - 1)) + a % 2
  {
    var q := Pow2(k - 1);
    assert Pow2(k) == 2 * q;
    HalfDivMod(a, q);
    ModUnique(a, 2 * q, (a / 2) / q, 2 * ((a / 2) % q) + a % 2);
  }

  /** a written in base 2q through its half: quotient (a/2)/q, remainder 2((a/2) mod q) + a mod 2. */
  lemma HalfDivMod(a: nat, q: nat)
    requires q > 0
    ensures a == (2 * q) * ((a / 2) / q) + (2 * ((a / 2) % q) + a % 2)
    ensures 2 * ((a / 2) % q) + a % 2 < 2 * q
  {
    var b := a / 2;
    var t := b / q;
    var s := b % q;
    assert a == 2 * b + a % 2;
    assert b == q * t + s;
    assert 2 * (q * t) == (2 * q) * t;
  }

  /** The k low bits of a, collected one halving at a time. */
  function LowBits(a: nat, k: nat): nat
  {
    if k == 0 then 0 else 2 * LowBits(a / 2, k - 1) + a % 2
  }

  /** The k low bits are the remainder modulo 2^k. */
  lemma {:induction false} LowBitsMod(a: nat, k: nat)
    ensures LowBits(a, k) == a % Pow2(k)
    decreases k
  {
    if k == 0 {
      ModUnique(a, 1, a, 0);
    } else {
      LowBitsMod(a / 2, k - 1);
      DivModPow2(a, k);
    }
  }

  /** Below 2^k, a is its own k low bits. */
  lemma {:induction false} LowBitsBelow(a: nat, k: nat)
    requires a < Pow2(k)
    ensures LowBits(a, k) == a
    decreases k
  {
    if k > 0 {
      assert a / 2 < Pow2(k - 1);
      LowBitsBelow(a / 2, k - 1);
    }
  }

  /** AND with a mask of the k low bits keeps the remainder modulo 2^k. */
  lemma AndLowBits(a: nat, k: nat)
    ensures BitAnd(a, Pow2(k) - 1) == a % Pow2(k)
  {
    AndLowBitsAre(a, k);
    LowBitsMod(a, k);
  }

  lemma {:induction false} AndLowBitsAre(a: nat, k: nat)
    ensures BitAnd(a, Pow2(k) - 1) == LowBits(a, k)
    decreases k
  {
    if k > 0 {
      var h := Pow2(k - 1) - 1;
      var m := Pow2(k) - 1;
      assert m == 2 * h + 1;
      assert m / 2 == h && m % 2 == 1;
      AndLowBitsAre(a / 2, k - 1);
      if a == 0 {
        LowBitsBelow(0, k);
      }
    }
  }

  lemma {:induction false} Pow2Monotone(k: nat, n: nat)
    requires k <= n
    ensures Pow2(k) <= Pow2(n)
    decreases n
  {
    if k < n { Pow2Monotone(k, n - 1); }
  }

  /**
   * AND with the complement of the k low bits clears them: for a below 2^n,
   * a & (2^n - 2^k) is a rounded down to a multiple of 2^k.
   */
  lemma AndHighBits(a: nat, n: nat, k: nat)
    requires k <= n && a < Pow2(n)
    ensures Pow2(k) <= Pow2(n)
    ensures BitAnd(a, Pow2(n) - Pow2(k)) == a - a % Pow2(k)
  {
    Pow2Monotone(k, n);
    AndHighBitsAre(a, n, k);
    LowBitsMod(a, k);
  }

  lemma {:induction false} AndHighBitsAre(a: nat, n: nat, k: nat)
    requires k <= n && a < Pow2(n) && Pow2(k) <= Pow2(n)
    ensures BitAnd(a, Pow2(n) - Pow2(k)) == a - LowBits(a, k)
    decreases k, 1
  {
    if k == 0 {
      AndLowBitsAre(a, n);
      LowBitsBelow(a, n);
    } else if k == n {
      LowBitsBelow(a, n);
    } else if a == 0 {
      LowBitsBelow(0, k);
    } else {
      AndHighBitsStep(a, n, k);
    }
  }

  /** The mask 2^n - 2^k, for 0 < k < n, has a clear low bit and halves to 2^(n-1) - 2^(k-1). */
  lemma {:induction false} AndHighBitsStep(a: nat, n: nat, k: nat)
    requires 0 < k < n && 0 < a < Pow2(n) && Pow2(k) <= Pow2(n)
    ensures BitAnd(a, Pow2(n) - Pow2(k)) == a - LowBits(a, k)
    decreases k, 0
  {
    MaskHalves(a, n, k);
    AndHighBitsAre(a / 2, n - 1, k - 1);
    HalvingStep(a, Pow2(n) - Pow2(k), Pow2(n - 1) - Pow2(k - 1), k);
  }

  /** For 0 < k < n, 2^n - 2^k is twice 2^(n-1) - 2^(k-1), and a / 2 stays below 2^(n-1). */
  lemma MaskHalves(a: nat, n: nat, k: nat)
    requires 0 < k < n && a < Pow2(n)
    ensures Pow2(k - 1) <= Pow2(n - 1) && Pow2(k) <= Pow2(n)
    ensures Pow2(n) - Pow2(k) == 2 * (Pow2(n - 1) - Pow2(k - 1))
    ensures a / 2 < Pow2(n - 1)
  {
    Pow2Monotone(k - 1, n - 1);
  }

  /** Clearing the k low bits of a through the even mask 2h follows from clearing k - 1 bits of a / 2 through h. */
  lemma HalvingStep(a: nat, m: nat, h: nat, k: nat)
    requires 0 < k && m == 2 * h
    requires BitAnd(a / 2, h) == a / 2 - LowBits(a / 2, k - 1)
    ensures BitAnd(a, m) == a - LowBits(a, k)
  {
    assert m / 2 == h && m % 2 == 0;
    assert BitAnd(a, m) == 2 * BitAnd(a / 2, h);
    assert LowBits(a, k) == 2 * LowBits(a / 2, k - 1) + a % 2;
  }

  /**
   * MI_ROUND_TO_SIZE with a power-of-two alignment that does not wrap
   * rounds up to the next multiple of the alignment.
   */
  lemma RoundToSizePow2(x: u32, k: nat)
    requires 0 < k <= 31 && x + Pow2(k) - 1 < U32_LIMIT
    ensures Pow2(k) < U32_LIMIT
    ensures RoundToSize(x, Pow2(k)) == ((x + Pow2(k) - 1) / Pow2(k)) * Pow2(k)
    ensures RoundToSize(x, Pow2(k)) % Pow2(k) == 0
    ensures x <= RoundToSize(x, Pow2(k)) < x + Pow2(k)
  {
    RoundToSizeClearsLowBits(x, k);
    RoundedUp(x, Pow2(k), RoundToSize(x, Pow2(k)));
  }

  /** A value equal to x + a - 1 with its remainder modulo a removed rounds x up to a multiple of a. */
  lemma RoundedUp(x: nat, a: nat, r: int)
    requires a > 0 && r == (x + a - 1) - (x + a - 1) % a
    ensures r == ((x + a - 1) / a) * a && r % a == 0 && x <= r < x + a
  {
    RoundUp(x, a);
  }

  lemma RoundToSizeClearsLowBits(x: u32, k: nat)
    requires 0 < k <= 31 && x + Pow2(k) - 1 < U32_LIMIT
    ensures Pow2(k) < U32_LIMIT
    ensures RoundToSize(x, Pow2(k)) == (x + Pow2(k) - 1) - (x + Pow2(k) - 1) % Pow2(k)
  {
    Pow2Values();
    Pow2Monotone(k, 31);
    var a: u32 := Pow2(k);
    var y: u32 := x + a - 1;
    assert Sub32(a, 1) == a - 1;
    assert Add32(x, a - 1) == y;
    assert Not32(a - 1) == Pow2(32) - a;
    AndHighBits(y, 32, k);
  }

  /** y - y % a for y = x + a - 1 is the multiple of a that rounds x up. */
  lemma RoundUp(x: nat, a: nat)
    requires a > 0
    ensures var y := x + a - 1;
      && y - y % a == (y / a) * a
      && (y - y % a) % a == 0
      && x <= y - y % a < x + a
  {
    var y := x + a - 1;
    var q := y / a;
    assert y == a * q + y % a;
    assert y - y % a == q * a;
    ModUnique(q * a, a, q, 0);
  }

  lemma Pow2Values()
    ensures Pow2(9) == 512 && Pow2(12) == PAGE_SIZE && Pow2(16) == X64K && Pow2(32) == U32_LIMIT
  {
    assert Pow2(4) == 16;
    assert Pow2(8) == 256;
    assert Pow2(9) == 512;
    assert Pow2(12) == 4096;
    assert Pow2(16) == 0x1_0000;
    assert Pow2(24) == 0x100_0000;
    assert Pow2(32) == 0x1_0000_0000;
  }

  /** ImageBase & (64K - 1) is ImageBase modulo 64 KiB. */
  lemma And64KLow(a: u32)
    ensures And32(a, X64K - 1) == a % X64K
  {
    Pow2Values();
    AndLowBits(a, 16);
  }

  // ---------------------------------------------------------------------
  // Platform constants
  // ---------------------------------------------------------------------

  const PAGE_SIZE: nat := 4096
  const PAGE_SHIFT: nat := 12
  const MMSECTOR_SHIFT: nat := 9
  const MMSECTOR_MASK: nat := 0x1FF
  /** sizeof(MMPTE) */
  const PTE_SIZE: nat := 4
  const MM_PROTO_PTE_ALIGNMENT: nat := 0x10000
  /** MM_PROTO_PTE_ALIGNMENT / PAGE_SIZE: the PTE-index alignment unit. */
  const PROTO_ALIGN_PTES: nat := MM_PROTO_PTE_ALIGNMENT / PAGE_SIZE
  const X64K: nat := 0x10000
  /** sectors per page: 1 << (PAGE_SHIFT - MMSECTOR_SHIFT) */
  const SECTORS_PER_PAGE: nat := 8

  /** The stated assumption on the platform: a page is a power of two dividing 64 KiB. */
  lemma PlatformAssumptions()
    ensures PAGE_SIZE == Pow2(PAGE_SHIFT)
    ensures X64K % PAGE_SIZE == 0 && MM_PROTO_PTE_ALIGNMENT % PAGE_SIZE == 0
    ensures PROTO_ALIGN_PTES == Pow2(4)
    ensures PAGE_SIZE / Pow2(MMSECTOR_SHIFT) == SECTORS_PER_PAGE
  {
    assert Pow2(4) == 16;
    assert Pow2(9) == 512 by { assert Pow2(8) == 256 by { assert Pow2(4) == 16; } }
    assert Pow2(12) == 4096 by { assert Pow2(9) == 512 by { assert Pow2(8) == 256 by { assert Pow2(4) == 16; } } }
  }

  function Pow2(k: nat): (r: nat)
    ensures r >= 1
  {
    if k == 0 then 1 else 2 * Pow2(k - 1)
  }

  /** BYTES_TO_PAGES: the number of pages needed to hold x bytes. */
  function BytesToPages(x: nat): (r: nat)
    ensures r * PAGE_SIZE >= x
    ensures r == 0 || (r - 1) * PAGE_SIZE < x
  {
    (x + PAGE_SIZE - 1) / PAGE_SIZE
  }

  /** ROUND_TO_PAGES for a value that cannot wrap. */
  function RoundToPages(x: nat): (r: nat)
    ensures r % PAGE_SIZE == 0 && x <= r < x + PAGE_SIZE
  {
    BytesToPages(x) * PAGE_SIZE
  }

  /**
   * The index-alignment calculation of the three segment builders:
   * i = (PTE index of ThePtes[0]) & (PROTO_ALIGN_PTES - 1), replaced by
   * PROTO_ALIGN_PTES - i when non-zero. The mask is a remainder because
   * the alignment unit is a power of two.
   */
  function AlignmentOffset(ptesAddress: u32): (i: nat)
    ensures i < PROTO_ALIGN_PTES
    ensures (ptesAddress / PTE_SIZE + i) % PROTO_ALIGN_PTES == 0
    ensures ptesAddress % MM_PROTO_PTE_ALIGNMENT == 0 ==> i == 0
  {
    AlignmentFacts(ptesAddress);
    var low := (ptesAddress / PTE_SIZE) % PROTO_ALIGN_PTES;
    if low != 0 then PROTO_ALIGN_PTES - low else 0
  }

  lemma AlignmentFacts(x: nat)
    ensures var y := x / 4;
      && (y + (if y % 16 != 0 then 16 - y % 16 else 0)) % 16 == 0
      && (x % 0x10000 == 0 ==> y % 16 == 0)
  {
    var y := x / 4;
    var t := y / 16;
    var low := y % 16;
    assert y == 16 * t + low;
    if low != 0 {
      ModUnique(y + 16 - low, 16, t + 1, 0);
    } else {
      ModUnique(y, 16, t, 0);
    }
    if x % 0x10000 == 0 {
      var q := x / 0x10000;
      assert x == 0x10000 * q;
      ModUnique(x, 4, 0x4000 * q, 0);
      ModUnique(y, 16, 0x400 * q, 0);
    }
  }

  // ---------------------------------------------------------------------
  // Status codes
  // ---------------------------------------------------------------------

  datatype Status =
    | Success
    | InvalidParameter4
    | InvalidParameter6
    | InvalidPageProtection
    | FileLockConflict
    | SectionTooBig
    | MappedFileSizeZero
    | InvalidFileForSection
    | FileIsADirectory
    | InvalidImageFormat
    | InvalidImageProtect
    | InvalidImageWin16
    | InvalidImageNeFormat
    | InsufficientResources
    /** a status produced by a collaborator outside the model */
    | OtherStatus(code: nat)
  {
    /** NT_SUCCESS */
    predicate IsSuccess() { Success? }
  }

  datatype Option<T> = None | Some(value: T)

  // ---------------------------------------------------------------------
  // Memory-manager protection codes and the abstract prototype PTE
  // ---------------------------------------------------------------------

  type MmProtection = bv8

  const MM_ZERO_ACCESS: MmProtection := 0
  const MM_READONLY: MmProtection := 1
  const MM_EXECUTE: MmProtection := 2
  const MM_EXECUTE_READ: MmProtection := 3
  const MM_READWRITE: MmProtection := 4
  const MM_WRITECOPY: MmProtection := 5
  const MM_EXECUTE_READWRITE: MmProtection := 6
  const MM_EXECUTE_WRITECOPY: MmProtection := 7
  const MM_NOACCESS: MmProtection := 0x18
  const MM_PROTECTION_WRITE_MASK: MmProtection := 4
  const MM_COPY_ON_WRITE_MASK: MmProtection := 5

  predicate IsWritable(p: MmProtection) { p & MM_PROTECTION_WRITE_MASK != 0 }
  predicate IsCopyOnWrite(p: MmProtection) { p & MM_COPY_ON_WRITE_MASK == MM_COPY_ON_WRITE_MASK }

  /**
   * A prototype PTE. NoAccess is ZeroPte; DemandZero is a zero PTE that
   * carries a protection; FileBacked is a prototype-format PTE referring
   * to subsection number `subsection` of its control area.
   */
  datatype Pte =
    | NoAccess
    | DemandZero(protection: MmProtection)
    | FileBacked(subsection: nat, protection: MmProtection)

  /** ZeroPte with its protection field set to p. */
  function ZeroPteWith(p: MmProtection): (r: Pte)
    ensures p == MM_ZERO_ACCESS <==> r == NoAccess
    ensures r != NoAccess ==> r == DemandZero(p)
  {
    if p == MM_ZERO_ACCESS then NoAccess else DemandZero(p)
  }

  // ---------------------------------------------------------------------
  // Little-endian decoding of header bytes
  // ---------------------------------------------------------------------

  function U16At(s: seq<bv8>, off: nat): u16
    requires off + 2 <= |s|
  {
    s[off] as int + 0x100 * s[off + 1] as int
  }

  function U32At(s: seq<bv8>, off: nat): u32
    requires off + 4 <= |s|
  {
    U16At(s, off) + 0x1_0000 * U16At(s, off + 2)
  }

  /** A 32-bit LONG field, two's complement. */
  function I32At(s: seq<bv8>, off: nat): (r: int)
    requires off + 4 <= |s|
    ensures -0x8000_0000 <= r < 0x8000_0000
  {
    var u := U32At(s, off);
    if u < 0x8000_0000 then u else u - U32_LIMIT
  }

  /** The bytes of s from off on equal the ASCII string lit (RtlEqualMemory). */
  predicate BytesEqual(s: seq<bv8>, off: nat, lit: string)
    requires off + |lit| <= |s|
  {
    forall k :: 0 <= k < |lit| ==> s[off + k] as int == lit[k] as int
  }

  /** BytesEqual where a range outside the buffer counts as a mismatch. */
  predicate MatchAt(s: seq<bv8>, off: int, lit: string)
  {
    0 <= off && off + |lit| <= |s| && BytesEqual(s, off, lit)
  }
}
