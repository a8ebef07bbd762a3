/**
 * Translation of an image section's characteristics to a memory-manager
 * protection code (MiGetImageProtection and MmImageProtectionArray).
 *
 * The four characteristic bits are those of section 4.1 (Section Flags) of
 * the Microsoft PE/COFF specification.
 */
module ImageProtection {
  import opened Common

  const IMAGE_SCN_MEM_SHARED: bv32 := 0x1000_0000
  const IMAGE_SCN_MEM_EXECUTE: bv32 := 0x2000_0000
  const IMAGE_SCN_MEM_READ: bv32 := 0x4000_0000
  const IMAGE_SCN_MEM_WRITE: bv32 := 0x8000_0000

  /** The four bits the translation looks at. */
  const PROTECTION_BITS: bv32 := 0xF000_0000

  /** MmImageProtectionArray, indexed by execute=1, read=2, write=4, shared=8. */
  const MmImageProtectionArray: seq<MmProtection> := [
    MM_NOACCESS,
    MM_EXECUTE,
    MM_READONLY,
    MM_EXECUTE_READ,
    MM_WRITECOPY,
    MM_EXECUTE_WRITECOPY,
    MM_WRITECOPY,
    MM_EXECUTE_WRITECOPY,
    MM_NOACCESS,
    MM_EXECUTE,
    MM_READONLY,
    MM_EXECUTE_READ,
    MM_READWRITE,
    MM_EXECUTE_READWRITE,
    MM_READWRITE,
    MM_EXECUTE_READWRITE
  ]

  function Bit(c: bv32, mask: bv32, weight: nat): nat
  {
    if c & mask != 0 then weight else 0
  }

  /** The table index MiGetImageProtection builds from the characteristics. */
  function ProtectionIndex(c: bv32): (index: nat)
    ensures index < |MmImageProtectionArray|
    ensures (index % 2 == 1) == (c & IMAGE_SCN_MEM_EXECUTE != 0)
    ensures ((index / 2) % 2 == 1) == (c & IMAGE_SCN_MEM_READ != 0)
    ensures ((index / 4) % 2 == 1) == (c & IMAGE_SCN_MEM_WRITE != 0)
    ensures (index / 8 == 1) == (c & IMAGE_SCN_MEM_SHARED != 0)
  {
    Bit(c, IMAGE_SCN_MEM_EXECUTE, 1) + Bit(c, IMAGE_SCN_MEM_READ, 2)
      + Bit(c, IMAGE_SCN_MEM_WRITE, 4) + Bit(c, IMAGE_SCN_MEM_SHARED, 8)
  }

  function MiGetImageProtection(c: bv32): MmProtection
  {
    MmImageProtectionArray[ProtectionIndex(c)]
  }

  /** The translation depends on the execute, read, write and shared bits only. */
  lemma ProtectionDependsOnFourBits(c1: bv32, c2: bv32)
    requires c1 & PROTECTION_BITS == c2 & PROTECTION_BITS
    ensures MiGetImageProtection(c1) == MiGetImageProtection(c2)
  {
    assert c1 & IMAGE_SCN_MEM_EXECUTE == c2 & IMAGE_SCN_MEM_EXECUTE;
    assert c1 & IMAGE_SCN_MEM_READ == c2 & IMAGE_SCN_MEM_READ;
    assert c1 & IMAGE_SCN_MEM_WRITE == c2 & IMAGE_SCN_MEM_WRITE;
    assert c1 & IMAGE_SCN_MEM_SHARED == c2 & IMAGE_SCN_MEM_SHARED;
  }

  /**
   * Write without shared yields a copy-on-write code, write with shared a
   * true read/write code; the execute bit selects the executable variant.
   */
  lemma WriteProtection(c: bv32)
    requires c & IMAGE_SCN_MEM_WRITE != 0
    ensures c & IMAGE_SCN_MEM_SHARED == 0 ==>
      MiGetImageProtection(c) == (if c & IMAGE_SCN_MEM_EXECUTE != 0 then MM_EXECUTE_WRITECOPY else MM_WRITECOPY)
    ensures c & IMAGE_SCN_MEM_SHARED != 0 ==>
      MiGetImageProtection(c) == (if c & IMAGE_SCN_MEM_EXECUTE != 0 then MM_EXECUTE_READWRITE else MM_READWRITE)
  {
    var i := ProtectionIndex(c);
    assert 4 <= i;
  }

  /**
   * The protection is writable exactly when the write bit is set, and
   * copy-on-write exactly when write is set and shared is not: the facts
   * the image builder's commitment rules rely on.
   */
  lemma WritableIffWriteBit(c: bv32)
    ensures IsWritable(MiGetImageProtection(c)) <==> c & IMAGE_SCN_MEM_WRITE != 0
    ensures IsCopyOnWrite(MiGetImageProtection(c)) <==>
      (c & IMAGE_SCN_MEM_WRITE != 0 && c & IMAGE_SCN_MEM_SHARED == 0)
  {
    var i := ProtectionIndex(c);
    assert i in {0, 1, 2, 3, 4, 5, 6, 7, 8, 9, 10, 11, 12, 13, 14, 15};
  }

  /** A section with none of execute, read or write gets no access at all. */
  lemma NoAccessWithoutBits(c: bv32)
    requires c & (IMAGE_SCN_MEM_EXECUTE | IMAGE_SCN_MEM_READ | IMAGE_SCN_MEM_WRITE) == 0
    ensures MiGetImageProtection(c) == MM_NOACCESS
  {
    assert c & IMAGE_SCN_MEM_EXECUTE == 0;
    assert c & IMAGE_SCN_MEM_READ == 0;
    assert c & IMAGE_SCN_MEM_WRITE == 0;
  }
}
