/**
 * Classification and validation of an executable's headers
 * (MiVerifyImageHeader and MiCheckDosCalls), over the raw header bytes.
 *
 * Offsets are those of IMAGE_DOS_HEADER, IMAGE_OS2_HEADER and
 * IMAGE_NT_HEADERS; the checked PE fields are those of section 3.3 (COFF
 * File Header) and section 3.4.2 (Optional Header Windows-Specific Fields)
 * of the Microsoft PE/COFF specification.
 */
module ImageHeader {
  import opened Common

  // ---------------------------------------------------------------------
  // Sizes, limits and signatures
  // ---------------------------------------------------------------------

  const SIZEOF_IMAGE_NT_HEADERS: nat := 248
  const SIZEOF_IMAGE_SECTION_HEADER: nat := 40
  const SIZEOF_IMAGE_OS2_HEADER: nat := 64
  const MM_MAXIMUM_IMAGE_HEADER: nat := 2 * PAGE_SIZE
  const MM_SIZE_OF_LARGEST_IMAGE: nat := 0x1000_0000
  /** As many section headers as fit in the second header page. */
  const MM_MAXIMUM_IMAGE_SECTIONS: nat :=
    (MM_MAXIMUM_IMAGE_HEADER - (PAGE_SIZE + SIZEOF_IMAGE_NT_HEADERS)) / SIZEOF_IMAGE_SECTION_HEADER

  const IMAGE_DOS_SIGNATURE: nat := 0x5A4D
  const IMAGE_OS2_SIGNATURE: nat := 0x454E
  const IMAGE_OS2_SIGNATURE_LE: nat := 0x454C
  const IMAGE_NT_SIGNATURE: nat := 0x0000_4550
  const IMAGE_FILE_EXECUTABLE_IMAGE: u32 := 0x0002

  // ---------------------------------------------------------------------
  // Field accessors
  // ---------------------------------------------------------------------

  /** A buffer that holds at least a whole IMAGE_NT_HEADERS. */
  predicate HoldsNtHeaders(nt: seq<bv8>) { SIZEOF_IMAGE_NT_HEADERS <= |nt| }

  function Signature(nt: seq<bv8>): u32 requires HoldsNtHeaders(nt) { U32At(nt, 0) }
  /** (USHORT)NtHeader->Signature */
  function ShortSignature(nt: seq<bv8>): u16 requires HoldsNtHeaders(nt) { U16At(nt, 0) }
  function Machine(nt: seq<bv8>): u16 requires HoldsNtHeaders(nt) { U16At(nt, 4) }
  function NumberOfSections(nt: seq<bv8>): u16 requires HoldsNtHeaders(nt) { U16At(nt, 6) }
  function SizeOfOptionalHeader(nt: seq<bv8>): u16 requires HoldsNtHeaders(nt) { U16At(nt, 20) }
  function Characteristics(nt: seq<bv8>): u16 requires HoldsNtHeaders(nt) { U16At(nt, 22) }
  function SizeOfCode(nt: seq<bv8>): u32 requires HoldsNtHeaders(nt) { U32At(nt, 28) }
  function AddressOfEntryPoint(nt: seq<bv8>): u32 requires HoldsNtHeaders(nt) { U32At(nt, 40) }
  function ImageBase(nt: seq<bv8>): u32 requires HoldsNtHeaders(nt) { U32At(nt, 52) }
  function SectionAlignment(nt: seq<bv8>): u32 requires HoldsNtHeaders(nt) { U32At(nt, 56) }
  function FileAlignment(nt: seq<bv8>): u32 requires HoldsNtHeaders(nt) { U32At(nt, 60) }
  function SizeOfImage(nt: seq<bv8>): u32 requires HoldsNtHeaders(nt) { U32At(nt, 80) }
  function SizeOfHeaders(nt: seq<bv8>): u32 requires HoldsNtHeaders(nt) { U32At(nt, 84) }
  function Subsystem(nt: seq<bv8>): u16 requires HoldsNtHeaders(nt) { U16At(nt, 92) }
  function DllCharacteristics(nt: seq<bv8>): u16 requires HoldsNtHeaders(nt) { U16At(nt, 94) }
  function SizeOfStackReserve(nt: seq<bv8>): u32 requires HoldsNtHeaders(nt) { U32At(nt, 96) }
  function SizeOfStackCommit(nt: seq<bv8>): u32 requires HoldsNtHeaders(nt) { U32At(nt, 100) }

  // IMAGE_OS2_HEADER fields, read through the same pointer
  const NE_ENTTAB: nat := 4
  const NE_CMOD: nat := 30
  const NE_MODTAB: nat := 40
  const NE_IMPTAB: nat := 42
  const NE_NRESTAB: nat := 44
  const NE_EXETYP: nat := 54
  const NE_EXPVER: nat := 62

  predicate HoldsOs2Header(os2: seq<bv8>) { SIZEOF_IMAGE_OS2_HEADER <= |os2| }

  // IMAGE_DOS_HEADER fields, in the first page of the file
  const E_MAGIC: nat := 0
  const E_CPARHDR: nat := 8
  const E_LFANEW: nat := 60

  predicate IsFirstPage(dos: seq<bv8>) { |dos| == PAGE_SIZE }

  // ---------------------------------------------------------------------
  // MiCheckDosCalls: does the NE import table name DOSCALLS?
  // ---------------------------------------------------------------------

  /** What the scan needs: the module table lies within the header. */
  predicate ModuleTableFits(os2: seq<bv8>, headerSize: nat)
    requires HoldsOs2Header(os2)
  {
    U16At(os2, NE_MODTAB) + 2 * U16At(os2, NE_CMOD) <= headerSize
  }

  /** Offset of module entry i's import-table record. */
  function ImportOffset(os2: seq<bv8>, headerSize: nat, i: nat): nat
    requires HoldsOs2Header(os2) && headerSize <= |os2| && ModuleTableFits(os2, headerSize)
    requires i < U16At(os2, NE_CMOD)
  {
    U16At(os2, NE_IMPTAB) + U16At(os2, U16At(os2, NE_MODTAB) + 2 * i)
  }

  /**
   * Module entries i, i+1, ... checked in order. Every byte the scan looks at
   * lies below headerSize: the length byte at the record's offset, and, for
   * an 8-byte record, the name that follows it.
   */
  function DosCallsScan(os2: seq<bv8>, headerSize: nat, i: nat): bool
    requires HoldsOs2Header(os2) && headerSize <= |os2| && ModuleTableFits(os2, headerSize)
    decreases U16At(os2, NE_CMOD) - i
  {
    if i >= U16At(os2, NE_CMOD) then false
    else
      var off := ImportOffset(os2, headerSize, i);
      if off >= headerSize then false
      else
        var entrySize := os2[off] as nat;
        if entrySize == 0 then false
        else if off + entrySize > headerSize then false
        else if entrySize == 8 && off + 8 >= headerSize then false
        else if entrySize == 8 && BytesEqual(os2, off + 1, "DOSCALLS") then true
        else DosCallsScan(os2, headerSize, i + 1)
  }

  /** MiCheckDosCalls, with every import-table access inside headerSize. */
  function CheckDosCalls(os2: seq<bv8>, headerSize: nat): bool
    requires HoldsOs2Header(os2) && headerSize <= |os2|
  {
    if U16At(os2, NE_CMOD) == 0 then false
    else if !ModuleTableFits(os2, headerSize) then false
    else DosCallsScan(os2, headerSize, 0)
  }

  /** The scan as a loop advancing through the module table. */
  method MiCheckDosCalls(os2: seq<bv8>, headerSize: nat) returns (found: bool)
    requires HoldsOs2Header(os2) && headerSize <= |os2|
    ensures found == CheckDosCalls(os2, headerSize)
  {
    var moduleCount: nat := U16At(os2, NE_CMOD);
    if moduleCount == 0 {
      return false;
    }
    var modtab: nat := U16At(os2, NE_MODTAB);
    var imptab: nat := U16At(os2, NE_IMPTAB);
    if modtab + moduleCount * 2 > headerSize {
      return false;
    }
    var moduleTable := modtab;
    var i := 0;
    while i < moduleCount
      invariant 0 <= i <= moduleCount
      invariant moduleTable == modtab + 2 * i
      invariant DosCallsScan(os2, headerSize, 0) == DosCallsScan(os2, headerSize, i)
    {
      var moduleSize := U16At(os2, moduleTable);
      var importTable: nat := imptab + moduleSize;
      assert importTable == ImportOffset(os2, headerSize, i);
      ScanUnfold(os2, headerSize, i);
      if importTable >= headerSize {
        return false;
      }
      var entrySize := os2[importTable] as nat;
      if entrySize == 0 {
        return false;
      }
      if importTable + entrySize > headerSize {
        return false;
      }
      if entrySize == 8 && importTable + 8 >= headerSize {
        return false;
      }
      if entrySize == 8 && BytesEqual(os2, importTable + 1, "DOSCALLS") {
        return true;
      }
      moduleTable := moduleTable + 2;
      i := i + 1;
    }
    return false;
  }

  /** One step of the scan, in terms of the record at module entry i. */
  lemma ScanUnfold(os2: seq<bv8>, headerSize: nat, i: nat)
    requires HoldsOs2Header(os2) && headerSize <= |os2| && ModuleTableFits(os2, headerSize)
    requires i < U16At(os2, NE_CMOD)
    ensures var off := ImportOffset(os2, headerSize, i);
      && (off >= headerSize ==> !DosCallsScan(os2, headerSize, i))
      && (off < headerSize && os2[off] == 0 ==> !DosCallsScan(os2, headerSize, i))
      && (off < headerSize && off + os2[off] as nat > headerSize ==> !DosCallsScan(os2, headerSize, i))
      && (off < headerSize && os2[off] == 8 && off + 8 >= headerSize ==> !DosCallsScan(os2, headerSize, i))
      && ((off + 8 < headerSize && os2[off] == 8 && BytesEqual(os2, off + 1, "DOSCALLS"))
            ==> DosCallsScan(os2, headerSize, i))
      && ((off < headerSize && os2[off] != 0 && off + os2[off] as nat <= headerSize
           && !(os2[off] == 8 && (off + 8 >= headerSize || BytesEqual(os2, off + 1, "DOSCALLS"))))
            ==> DosCallsScan(os2, headerSize, i) == DosCallsScan(os2, headerSize, i + 1))
  {
  }

  /** With no module references there is nothing to find. */
  lemma NoModulesNoDosCalls(os2: seq<bv8>, headerSize: nat)
    requires HoldsOs2Header(os2) && headerSize <= |os2|
    requires U16At(os2, NE_CMOD) == 0
    ensures !CheckDosCalls(os2, headerSize)
  {
  }

  /** The witness of a successful scan: an 8-byte entry spelling DOSCALLS. */
  predicate DosCallsEntry(os2: seq<bv8>, headerSize: nat, i: nat)
    requires HoldsOs2Header(os2) && headerSize <= |os2| && ModuleTableFits(os2, headerSize)
  {
    && i < U16At(os2, NE_CMOD)
    && var off := ImportOffset(os2, headerSize, i);
    && off + 8 < headerSize
    && os2[off] == 8
    && BytesEqual(os2, off + 1, "DOSCALLS")
  }

  lemma {:induction false} ScanFindsEntry(os2: seq<bv8>, headerSize: nat, i: nat)
    requires HoldsOs2Header(os2) && headerSize <= |os2| && ModuleTableFits(os2, headerSize)
    requires DosCallsScan(os2, headerSize, i)
    ensures exists j :: i <= j && DosCallsEntry(os2, headerSize, j)
    decreases U16At(os2, NE_CMOD) - i
  {
    var off := ImportOffset(os2, headerSize, i);
    if off + 8 < headerSize && os2[off] == 8 && BytesEqual(os2, off + 1, "DOSCALLS") {
      assert DosCallsEntry(os2, headerSize, i);
    } else {
      ScanFindsEntry(os2, headerSize, i + 1);
    }
  }

  /** TRUE is returned only for an entry of length 8 equal to "DOSCALLS". */
  lemma DosCallsTrueHasEntry(os2: seq<bv8>, headerSize: nat)
    requires HoldsOs2Header(os2) && headerSize <= |os2|
    requires CheckDosCalls(os2, headerSize)
    ensures ModuleTableFits(os2, headerSize)
    ensures exists j :: DosCallsEntry(os2, headerSize, j)
  {
    ScanFindsEntry(os2, headerSize, 0);
  }

  /** a and b hold the same bytes below n. */
  predicate AgreeBelow(a: seq<bv8>, b: seq<bv8>, n: nat)
  {
    n <= |a| && n <= |b| && forall k :: 0 <= k < n ==> a[k] == b[k]
  }

  lemma AgreeBelowFromSlices(a: seq<bv8>, b: seq<bv8>, n: nat)
    requires n <= |a| && n <= |b| && a[..n] == b[..n]
    ensures AgreeBelow(a, b, n)
  {
    forall k | 0 <= k < n ensures a[k] == b[k] {
      assert a[..n][k] == b[..n][k];
    }
  }

  lemma U16Agree(a: seq<bv8>, b: seq<bv8>, n: nat, off: nat)
    requires AgreeBelow(a, b, n) && off + 2 <= n
    ensures U16At(a, off) == U16At(b, off)
  {
    assert a[off] == b[off] && a[off + 1] == b[off + 1];
  }

  lemma BytesEqualAgree(a: seq<bv8>, b: seq<bv8>, n: nat, off: nat, lit: string)
    requires AgreeBelow(a, b, n) && off + |lit| <= n
    ensures BytesEqual(a, off, lit) == BytesEqual(b, off, lit)
  {
  }

  lemma {:induction false} ScanReadsOnlyHeader(a: seq<bv8>, b: seq<bv8>, headerSize: nat, i: nat)
    requires HoldsOs2Header(a) && HoldsOs2Header(b) && SIZEOF_IMAGE_OS2_HEADER <= headerSize
    requires AgreeBelow(a, b, headerSize) && ModuleTableFits(a, headerSize) && ModuleTableFits(b, headerSize)
    requires U16At(a, NE_CMOD) == U16At(b, NE_CMOD) && U16At(a, NE_MODTAB) == U16At(b, NE_MODTAB)
    requires U16At(a, NE_IMPTAB) == U16At(b, NE_IMPTAB)
    ensures DosCallsScan(a, headerSize, i) == DosCallsScan(b, headerSize, i)
    decreases U16At(a, NE_CMOD) - i
  {
    if i < U16At(a, NE_CMOD) {
      U16Agree(a, b, headerSize, U16At(a, NE_MODTAB) + 2 * i);
      var off := ImportOffset(a, headerSize, i);
      assert off == ImportOffset(b, headerSize, i);
      if off < headerSize && a[off] != 0 && off + a[off] as nat <= headerSize {
        assert a[off] == b[off];
        if a[off] == 8 && off + 8 < headerSize {
          BytesEqualAgree(a, b, headerSize, off + 1, "DOSCALLS");
        }
        ScanReadsOnlyHeader(a, b, headerSize, i + 1);
      }
    }
  }

  /**
   * The scan never looks past headerSize: two buffers that agree on their
   * first headerSize bytes give the same answer.
   */
  lemma DosCallsReadsOnlyHeader(a: seq<bv8>, b: seq<bv8>, headerSize: nat)
    requires HoldsOs2Header(a) && headerSize <= |a|
    requires HoldsOs2Header(b) && headerSize <= |b|
    requires SIZEOF_IMAGE_OS2_HEADER <= headerSize && a[..headerSize] == b[..headerSize]
    ensures CheckDosCalls(a, headerSize) == CheckDosCalls(b, headerSize)
  {
    AgreeBelowFromSlices(a, b, headerSize);
    U16Agree(a, b, headerSize, NE_CMOD);
    U16Agree(a, b, headerSize, NE_MODTAB);
    U16Agree(a, b, headerSize, NE_IMPTAB);
    if U16At(a, NE_CMOD) != 0 && ModuleTableFits(a, headerSize) {
      ScanReadsOnlyHeader(a, b, headerSize, 0);
    }
  }

  // The scan exactly as the source writes its two import-table bounds
  // checks (`>` rather than `>=`). `mem` is the readable memory from the
  // header on, possibly longer than headerSize; a read beyond it faults and
  // the exception handler answers FALSE.

  function DosCallsScanAsWritten(mem: seq<bv8>, headerSize: nat, i: nat): bool
    requires HoldsOs2Header(mem) && headerSize <= |mem| && ModuleTableFits(mem, headerSize)
    decreases U16At(mem, NE_CMOD) - i
  {
    if i >= U16At(mem, NE_CMOD) then false
    else
      var off := ImportOffset(mem, headerSize, i);
      if off > headerSize then false
      else if off >= |mem| then false
      else
        var entrySize := mem[off] as nat;
        if entrySize == 0 then false
        else if off + entrySize > headerSize then false
        else if entrySize == 8 && off + 9 > |mem| then false
        else if entrySize == 8 && BytesEqual(mem, off + 1, "DOSCALLS") then true
        else DosCallsScanAsWritten(mem, headerSize, i + 1)
  }

  function CheckDosCallsAsWritten(mem: seq<bv8>, headerSize: nat): bool
    requires HoldsOs2Header(mem) && headerSize <= |mem|
  {
    if U16At(mem, NE_CMOD) == 0 then false
    else if !ModuleTableFits(mem, headerSize) then false
    else DosCallsScanAsWritten(mem, headerSize, 0)
  }

  lemma {:induction false} ScanAgreesWithinHeader(mem: seq<bv8>, i: nat)
    requires HoldsOs2Header(mem) && ModuleTableFits(mem, |mem|)
    ensures DosCallsScanAsWritten(mem, |mem|, i) == DosCallsScan(mem, |mem|, i)
    decreases U16At(mem, NE_CMOD) - i
  {
    if i < U16At(mem, NE_CMOD) {
      ScanAgreesWithinHeader(mem, i + 1);
    }
  }

  /**
   * When nothing past the header is readable, the as-written checks and the
   * in-bounds scan give the same answer: they differ only where the source
   * compares a name whose last byte lies at offset headerSize.
   */
  lemma DosCallsAsWrittenWithinHeader(mem: seq<bv8>)
    requires HoldsOs2Header(mem)
    ensures CheckDosCallsAsWritten(mem, |mem|) == CheckDosCalls(mem, |mem|)
  {
    if U16At(mem, NE_CMOD) != 0 && ModuleTableFits(mem, |mem|) {
      ScanAgreesWithinHeader(mem, 0);
    }
  }

  /** A 72-byte buffer: one module whose 8-byte name ends at offset 71. */
  function DosCallsWitness(last: bv8): (w: seq<bv8>)
    ensures |w| == 72
  {
    seq(72, k requires 0 <= k < 72 =>
      if k == NE_CMOD then 1
      else if k == NE_MODTAB then 50
      else if k == 50 then 63
      else if k == 63 then 8
      else if k == 64 then 0x44 else if k == 65 then 0x4F
      else if k == 66 then 0x53 else if k == 67 then 0x43
      else if k == 68 then 0x41 else if k == 69 then 0x4C
      else if k == 70 then 0x4C
      else if k == 71 then last
      else 0)
  }

  /**
   * With headerSize 71, the as-written checks accept a name whose last byte
   * is at offset 71, one past the header: the answer then depends on a byte
   * outside it, and the in-bounds scan rejects the entry.
   */
  lemma DosCallsAsWrittenReadsPastHeader()
    ensures var w := DosCallsWitness(0x53);
            var v := DosCallsWitness(0);
            && w[..71] == v[..71]
            && CheckDosCallsAsWritten(w, 71)
            && !CheckDosCallsAsWritten(v, 71)
            && !CheckDosCalls(w, 71)
  {
    WitnessPrefix();
    WitnessAsWritten(0x53);
    WitnessAsWritten(0);
    WitnessInBounds(0x53);
  }

  /** The two witnesses differ only in their last byte. */
  lemma WitnessPrefix()
    ensures DosCallsWitness(0x53)[..71] == DosCallsWitness(0)[..71]
  {
    var w := DosCallsWitness(0x53);
    var v := DosCallsWitness(0);
    assert forall k :: 0 <= k < 71 ==> w[k] == v[k];
  }

  /** The header fields and the one import record of a witness. */
  lemma WitnessFields(last: bv8)
    ensures var w := DosCallsWitness(last);
      && U16At(w, NE_CMOD) == 1 && U16At(w, NE_MODTAB) == 50 && U16At(w, NE_IMPTAB) == 0
      && ModuleTableFits(w, 71) && ImportOffset(w, 71, 0) == 63 && w[63] == 8
  {
    var w := DosCallsWitness(last);
    assert U16At(w, 50) == 63;
  }

  /** Under the as-written checks, the witness is accepted exactly when its last byte completes the name. */
  lemma WitnessAsWritten(last: bv8)
    requires last == 0x53 || last == 0
    ensures CheckDosCallsAsWritten(DosCallsWitness(last), 71) == (last == 0x53)
  {
    var w := DosCallsWitness(last);
    WitnessFields(last);
    if last == 0x53 {
      assert BytesEqual(w, 64, "DOSCALLS") by {
        assert w[64] == 0x44 && w[65] == 0x4F && w[66] == 0x53 && w[67] == 0x43;
        assert w[68] == 0x41 && w[69] == 0x4C && w[70] == 0x4C && w[71] == 0x53;
      }
    } else {
      assert !BytesEqual(w, 64, "DOSCALLS") by { assert w[71] as int != "DOSCALLS"[7] as int; }
      assert DosCallsScanAsWritten(w, 71, 1) == false;
    }
  }

  /** The in-bounds scan rejects the record, whose name would end at offset 71. */
  lemma WitnessInBounds(last: bv8)
    ensures !CheckDosCalls(DosCallsWitness(last), 71)
  {
    WitnessFields(last);
  }

  // ---------------------------------------------------------------------
  // The legacy NE cascade: ordered (rule, classification) pairs
  // ---------------------------------------------------------------------

  datatype NeRule =
    | Win16          // no DOSCALLS import and a Windows exe type or expected version
    | DosExtender    // exe type 5, or an empty entry table
    | BorlandStub    // exe type 1 with "16STUB" at offset 0x200
    | PharLap        // a Phar Lap configuration block
    | Rational       // the Rational Systems copyright
    | LotusPreloader // "1-2-3 Preloader" in the non-resident name table

  const NeRules: seq<NeRule> := [Win16, DosExtender, BorlandStub, PharLap, Rational, LotusPreloader]

  function RuleStatus(rule: NeRule): Status
  {
    if rule == Win16 then InvalidImageWin16 else InvalidImageProtect
  }

  /** The inputs every rule may look at. */
  predicate NeInputs(nt: seq<bv8>, dos: seq<bv8>, ntHeaderSize: nat)
  {
    HoldsNtHeaders(nt) && ntHeaderSize <= |nt| && IsFirstPage(dos)
  }

  function ExeType(nt: seq<bv8>): u8 requires HoldsOs2Header(nt) { nt[NE_EXETYP] as int }
  function ExpectedVersion(nt: seq<bv8>): u16 requires HoldsOs2Header(nt) { U16At(nt, NE_EXPVER) }

  /** sizeof(CONFIGPHARLAP) */
  const SIZEOF_PHARLAP_CONFIG: nat := 0x32 + 8

  predicate PharLapMatches(dos: seq<bv8>)
    requires IsFirstPage(dos)
  {
    var p := U16At(dos, E_CPARHDR) * 16;
    && p < PAGE_SIZE - SIZEOF_PHARLAP_CONFIG
    && BytesEqual(dos, p + 0x18, "Phar Lap Software, Inc.\0")
    && U16At(dos, p + 0x38) in {0x4b50, 0x4f50, 0x5650}
  }

  predicate RationalMatches(dos: seq<bv8>)
    requires IsFirstPage(dos)
  {
    var pb := U16At(dos, E_CPARHDR) * 16;
    && pb < PAGE_SIZE - 0x30 - 2
    && var copyright := pb + U16At(dos, pb + 0x30);
    && copyright < PAGE_SIZE - 36
    && BytesEqual(dos, copyright, "Copyright (C) Rational Systems, Inc.")
  }

  /**
   * ne_nrestab and e_lfanew are signed LONGs; the distance plus 16 is
   * compared as a ULONG. A range outside the bytes held here counts as no
   * match, where the source compares whatever lies at the computed address.
   */
  predicate LotusMatches(nt: seq<bv8>, dos: seq<bv8>, ntHeaderSize: nat)
    requires NeInputs(nt, dos, ntHeaderSize)
  {
    var resTable := I32At(nt, NE_NRESTAB);
    var lfanew := I32At(dos, E_LFANEW);
    && resTable > lfanew
    && (resTable + 16 - lfanew) % U32_LIMIT < ntHeaderSize
    && MatchAt(nt, 1 + (resTable - lfanew), "1-2-3 Preloader")
  }

  predicate RuleMatches(rule: NeRule, nt: seq<bv8>, dos: seq<bv8>, ntHeaderSize: nat)
    requires NeInputs(nt, dos, ntHeaderSize)
  {
    match rule
    case Win16 =>
      && !CheckDosCalls(nt, ntHeaderSize)
      && (ExeType(nt) == 2
          || (ExeType(nt) == 0
              && (And32(ExpectedVersion(nt), 0xff00) == 0x200
                  || And32(ExpectedVersion(nt), 0xff00) == 0x300)))
    case DosExtender => ExeType(nt) == 5 || U16At(nt, NE_ENTTAB) == U16At(nt, NE_IMPTAB)
    case BorlandStub => ExeType(nt) == 1 && BytesEqual(dos, 0x200, "16STUB")
    case PharLap => PharLapMatches(dos)
    case Rational => RationalMatches(dos)
    case LotusPreloader => LotusMatches(nt, dos, ntHeaderSize)
  }

  /** The first rule that matches decides; none matching means NE format. */
  function FirstMatch(rules: seq<NeRule>, nt: seq<bv8>, dos: seq<bv8>, ntHeaderSize: nat): Status
    requires NeInputs(nt, dos, ntHeaderSize)
  {
    if rules == [] then InvalidImageNeFormat
    else if RuleMatches(rules[0], nt, dos, ntHeaderSize) then RuleStatus(rules[0])
    else FirstMatch(rules[1..], nt, dos, ntHeaderSize)
  }

  /** The legacy NE cascade; it never accepts the image. */
  function ClassifyNeImage(nt: seq<bv8>, dos: seq<bv8>, ntHeaderSize: nat): (r: Status)
    requires NeInputs(nt, dos, ntHeaderSize)
    ensures r in {InvalidImageWin16, InvalidImageProtect, InvalidImageNeFormat}
  {
    FirstMatchNone(NeRules, nt, dos, ntHeaderSize);
    FirstMatch(NeRules, nt, dos, ntHeaderSize)
  }

  lemma {:induction false} FirstMatchNone(rules: seq<NeRule>, nt: seq<bv8>, dos: seq<bv8>, ntHeaderSize: nat)
    requires NeInputs(nt, dos, ntHeaderSize)
    ensures FirstMatch(rules, nt, dos, ntHeaderSize) == InvalidImageNeFormat
            <==> (forall k :: 0 <= k < |rules| ==> !RuleMatches(rules[k], nt, dos, ntHeaderSize))
    ensures FirstMatch(rules, nt, dos, ntHeaderSize) in {InvalidImageWin16, InvalidImageProtect, InvalidImageNeFormat}
    ensures Win16 !in rules ==> FirstMatch(rules, nt, dos, ntHeaderSize) != InvalidImageWin16
  {
    if rules != [] {
      FirstMatchNone(rules[1..], nt, dos, ntHeaderSize);
      assert forall k :: 0 < k < |rules| ==> rules[1..][k - 1] == rules[k];
      if !RuleMatches(rules[0], nt, dos, ntHeaderSize) {
        assert forall k :: 0 <= k < |rules[1..]| ==> rules[1..][k] == rules[k + 1];
      }
    }
  }

  /**
   * The NE cascade yields WIN_16 exactly when the Win16 rule holds, the
   * unsupported NE format exactly when no rule holds, and otherwise PROTECT.
   */
  lemma NeClassification(nt: seq<bv8>, dos: seq<bv8>, ntHeaderSize: nat)
    requires NeInputs(nt, dos, ntHeaderSize)
    ensures var s := ClassifyNeImage(nt, dos, ntHeaderSize);
      && s in {InvalidImageWin16, InvalidImageProtect, InvalidImageNeFormat}
      && (s == InvalidImageWin16 <==> RuleMatches(Win16, nt, dos, ntHeaderSize))
      && (s == InvalidImageNeFormat <==>
            forall k :: 0 <= k < |NeRules| ==> !RuleMatches(NeRules[k], nt, dos, ntHeaderSize))
  {
    FirstMatchNone(NeRules, nt, dos, ntHeaderSize);
    FirstMatchNone(NeRules[1..], nt, dos, ntHeaderSize);
    assert Win16 !in NeRules[1..];
  }

  // ---------------------------------------------------------------------
  // MiVerifyImageHeader
  // ---------------------------------------------------------------------

  /** ((FileAlignment - 1) & FileAlignment) == 0 in ULONG arithmetic. */
  predicate SingleBitOrZero(x: u32) { And32(Sub32(x, 1), x) == 0 }

  /** The conditions under which a PE header is accepted. */
  predicate AcceptablePeHeader(nt: seq<bv8>)
    requires HoldsNtHeaders(nt)
  {
    && Signature(nt) == IMAGE_NT_SIGNATURE
    && !(Machine(nt) == 0 && SizeOfOptionalHeader(nt) == 0)
    && And32(Characteristics(nt), IMAGE_FILE_EXECUTABLE_IMAGE) != 0
    && (And32(FileAlignment(nt), 511) == 0 || FileAlignment(nt) == SectionAlignment(nt))
    && SingleBitOrZero(FileAlignment(nt))
    && SectionAlignment(nt) >= FileAlignment(nt)
    && SizeOfImage(nt) <= MM_SIZE_OF_LARGEST_IMAGE
    && NumberOfSections(nt) <= MM_MAXIMUM_IMAGE_SECTIONS
  }

  /** Success exactly when every PE condition holds; otherwise one of the image statuses. */
  function MiVerifyImageHeader(nt: seq<bv8>, dos: seq<bv8>, ntHeaderSize: nat): (r: Status)
    requires NeInputs(nt, dos, ntHeaderSize)
    ensures r == Success <==> AcceptablePeHeader(nt)
    ensures r in {Success, InvalidImageFormat, InvalidImageProtect, InvalidImageWin16, InvalidImageNeFormat}
  {
    if Signature(nt) != IMAGE_NT_SIGNATURE then
      if ShortSignature(nt) == IMAGE_OS2_SIGNATURE then ClassifyNeImage(nt, dos, ntHeaderSize)
      else if ShortSignature(nt) == IMAGE_OS2_SIGNATURE_LE then InvalidImageProtect
      else InvalidImageProtect
    else if Machine(nt) == 0 && SizeOfOptionalHeader(nt) == 0 then InvalidImageProtect
    else if And32(Characteristics(nt), IMAGE_FILE_EXECUTABLE_IMAGE) == 0 then InvalidImageFormat
    else if And32(FileAlignment(nt), 511) != 0 && FileAlignment(nt) != SectionAlignment(nt) then InvalidImageFormat
    else if !SingleBitOrZero(FileAlignment(nt)) then InvalidImageFormat
    else if SectionAlignment(nt) < FileAlignment(nt) then InvalidImageFormat
    else if SizeOfImage(nt) > MM_SIZE_OF_LARGEST_IMAGE then InvalidImageFormat
    else if NumberOfSections(nt) > MM_MAXIMUM_IMAGE_SECTIONS then InvalidImageFormat
    else Success
  }

  /**
   * The section table of an accepted header fits in the two header pages
   * after the first page and the NT headers: at most 96 section headers.
   */
  lemma AcceptedSectionTableFits(nt: seq<bv8>, dos: seq<bv8>, ntHeaderSize: nat)
    requires NeInputs(nt, dos, ntHeaderSize)
    requires MiVerifyImageHeader(nt, dos, ntHeaderSize) == Success
    ensures NumberOfSections(nt) <= 96
    ensures PAGE_SIZE + SIZEOF_IMAGE_NT_HEADERS + NumberOfSections(nt) * SIZEOF_IMAGE_SECTION_HEADER
            <= MM_MAXIMUM_IMAGE_HEADER
  {
  }

  /**
   * A header without the NT signature never succeeds: an NE header goes
   * through the legacy cascade, LE and unknown signatures are PROTECT.
   */
  lemma NonNtSignature(nt: seq<bv8>, dos: seq<bv8>, ntHeaderSize: nat)
    requires NeInputs(nt, dos, ntHeaderSize)
    requires Signature(nt) != IMAGE_NT_SIGNATURE
    ensures var s := MiVerifyImageHeader(nt, dos, ntHeaderSize);
      && s != Success
      && (ShortSignature(nt) != IMAGE_OS2_SIGNATURE ==> s == InvalidImageProtect)
      && (ShortSignature(nt) == IMAGE_OS2_SIGNATURE ==>
            s in {InvalidImageWin16, InvalidImageProtect, InvalidImageNeFormat})
  {
    if ShortSignature(nt) == IMAGE_OS2_SIGNATURE {
      NeClassification(nt, dos, ntHeaderSize);
    }
  }

  /** An NT header without the executable-image bit is rejected as malformed. */
  lemma NotExecutableIsInvalidFormat(nt: seq<bv8>, dos: seq<bv8>, ntHeaderSize: nat)
    requires NeInputs(nt, dos, ntHeaderSize)
    requires Signature(nt) == IMAGE_NT_SIGNATURE
    requires Machine(nt) != 0
    requires And32(Characteristics(nt), IMAGE_FILE_EXECUTABLE_IMAGE) == 0
    ensures MiVerifyImageHeader(nt, dos, ntHeaderSize) == InvalidImageFormat
  {
  }
}
