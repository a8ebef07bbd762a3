/**
 * MiCreateDataFileMap: the segment of a mapped data file. The end of file
 * is resolved against the maximum size, the prototype PTEs are counted
 * and padded to the alignment unit, the segment is allocated in one piece
 * or, failing that, in 64 KiB fragments each described by its own
 * subsection, and the subsection chain is walked to give every subsection
 * its sectors and its run of prototype PTEs.
 */
module DataMap {
  import opened Common
  import opened CreateSection

  /** The size of each piece when the segment is allocated in fragments. */
  const MM_ALLOCATION_FRAGMENT: nat := 0x10000

  /** 1 << MMSECTOR_SHIFT */
  const MMSECTOR_SIZE: nat := 512

  /** A subsection of a data-file control area. */
  datatype DataSubsection = DataSubsection(
    ptesInSubsection: u32,
    unusedPtes: u32,
    startingSector: u32,
    endingSector: u32,
    sectorEndOffset: nat,
    protection: MmProtection)

  /** The fields of the new segment the builder sets. */
  datatype DataSegment = DataSegment(
    totalNumberOfPtes: u32,
    nonExtendedPtes: u32,
    sizeOfSegment: int,
    prototypeOffset: nat,
    template: Pte)

  /** The fields of the file's data control area the builder sets. */
  datatype DataControlArea = DataControlArea(
    numberOfSectionReferences: nat,
    numberOfUserReferences: nat,
    beingCreated: bool,
    file: bool,
    networked: bool,
    noCache: bool,
    wasPurged: bool,
    numberOfSubsections: u16)

  datatype SizeResult = SizeOk(endOfFile: int) | SizeFailed(status: Status)

  // ---------------------------------------------------------------------
  // The end of file
  // ---------------------------------------------------------------------

  predicate GrantsWrite(protection: bv32)
  {
    (protection & PAGE_READWRITE) | (protection & PAGE_EXECUTE_READWRITE) != 0
  }

  /**
   * The end of file the section maps. getStatus and fileSize are what
   * FsRtlGetFileSize reports, setStatus what FsRtlSetFileSize returns when
   * the file has to grow to the maximum size. The cache manager's calls
   * (ignoreFileSizing) take the maximum size as it is.
   */
  function DataFileSize(ignoreFileSizing: bool, getStatus: Status, fileSize: int, maximumSize: int,
                        protection: bv32, setStatus: Status): (r: SizeResult)
    ensures r.SizeOk? ==> r.endOfFile >= maximumSize
    ensures r.SizeOk? && !ignoreFileSizing ==> r.endOfFile >= fileSize
    ensures r.SizeFailed? ==> !r.status.IsSuccess() && !ignoreFileSizing
  {
    if ignoreFileSizing then SizeOk(maximumSize)
    else if getStatus == FileIsADirectory then SizeFailed(InvalidFileForSection)
    else if !getStatus.IsSuccess() then SizeFailed(getStatus)
    else if fileSize == 0 && maximumSize == 0 then SizeFailed(MappedFileSizeZero)
    else if maximumSize > fileSize then
      if !GrantsWrite(protection) then SizeFailed(SectionTooBig)
      else if !setStatus.IsSuccess() then SizeFailed(setStatus)
      else SizeOk(maximumSize)
    else SizeOk(fileSize)
  }

  /**
   * Outside the cache manager a size is found exactly when the query
   * succeeds, the file or the maximum size is non-zero, and growing the
   * file, when the maximum size is larger, is allowed by a writable
   * protection and succeeds.
   */
  lemma DataFileSizeAccepted(getStatus: Status, fileSize: int, maximumSize: int, protection: bv32, setStatus: Status)
    ensures DataFileSize(false, getStatus, fileSize, maximumSize, protection, setStatus).SizeOk? <==>
      && getStatus.IsSuccess()
      && !(fileSize == 0 && maximumSize == 0)
      && (maximumSize > fileSize ==> GrantsWrite(protection) && setStatus.IsSuccess())
  {
  }

  /** The size mapped is the larger of the file and the maximum size, and never empty. */
  lemma DataFileSizeIsLarger(getStatus: Status, fileSize: int, maximumSize: int, protection: bv32, setStatus: Status)
    requires DataFileSize(false, getStatus, fileSize, maximumSize, protection, setStatus).SizeOk?
    ensures var eof := DataFileSize(false, getStatus, fileSize, maximumSize, protection, setStatus).endOfFile;
      && eof == (if maximumSize > fileSize then maximumSize else fileSize)
      && (fileSize >= 0 && maximumSize >= 0 ==> eof > 0)
  {
  }

  /** A directory is refused as an invalid file for a section. */
  lemma DataFileSizeFailures(getStatus: Status, fileSize: int, maximumSize: int, protection: bv32, setStatus: Status)
    ensures getStatus == FileIsADirectory ==>
      DataFileSize(false, getStatus, fileSize, maximumSize, protection, setStatus) == SizeFailed(InvalidFileForSection)
  {
  }

  // ---------------------------------------------------------------------
  // Sizes
  // ---------------------------------------------------------------------

  /** The file's pages: the end of file rounded up, shifted, truncated to a ULONG. */
  function DataPtes(eof: int): (n: u32)
    ensures 0 <= eof && (eof + PAGE_SIZE - 1) / PAGE_SIZE < U32_LIMIT ==> n == BytesToPages(eof)
  {
    ((eof + PAGE_SIZE - 1) / PAGE_SIZE) % U32_LIMIT
  }

  /** The page count rounded up to the prototype PTE alignment unit. */
  function PtesWithAlignment(np: u32): u32
  {
    RoundToSize(np, PROTO_ALIGN_PTES)
  }

  /** Below the top of the ULONG range the padding adds fewer than one alignment unit. */
  lemma AlignmentPadding(np: u32)
    requires np + PROTO_ALIGN_PTES - 1 < U32_LIMIT
    ensures np <= PtesWithAlignment(np) < np + PROTO_ALIGN_PTES
    ensures PtesWithAlignment(np) % PROTO_ALIGN_PTES == 0
  {
    PlatformAssumptions();
    RoundToSizePow2(np, 4);
  }

  /** sizeof(SEGMENT) + sizeof(MMPTE) * (NumberOfPtesWithAlignment - 1), in ULONG arithmetic. */
  function SegmentBytes(sizeofSegment: u32, npwa: u32): (r: u32)
    ensures 1 <= npwa && sizeofSegment + PTE_SIZE * (npwa - 1) < U32_LIMIT ==>
      r == sizeofSegment + PTE_SIZE * (npwa - 1)
  {
    Add32(sizeofSegment, Mul32(PTE_SIZE, Sub32(npwa, 1)))
  }

  // ---------------------------------------------------------------------
  // Fragmented allocation
  // ---------------------------------------------------------------------

  /** The sizes of the fragments that make up partial bytes of segment. */
  function FragmentSizes(partial: nat): seq<nat>
    decreases partial
  {
    if partial == 0 then []
    else if partial < MM_ALLOCATION_FRAGMENT then [RoundToPages(partial)]
    else [MM_ALLOCATION_FRAGMENT] + FragmentSizes(partial - MM_ALLOCATION_FRAGMENT)
  }

  function Sum(s: seq<nat>): nat
  {
    if s == [] then 0 else s[0] + Sum(s[1..])
  }

  /**
   * Every fragment but the last is a full 64 KiB, the last is whole pages
   * and at most 64 KiB, and together they cover the size with less than a
   * page to spare.
   */
  lemma {:induction false} FragmentShape(partial: nat)
    requires partial > 0
    ensures var f := FragmentSizes(partial);
      && |f| == (partial + MM_ALLOCATION_FRAGMENT - 1) / MM_ALLOCATION_FRAGMENT
      && (forall k :: 0 <= k < |f| - 1 ==> f[k] == MM_ALLOCATION_FRAGMENT)
      && 0 < f[|f| - 1] <= MM_ALLOCATION_FRAGMENT && f[|f| - 1] % PAGE_SIZE == 0
      && partial <= Sum(f) < partial + PAGE_SIZE
    decreases partial
  {
    if partial >= MM_ALLOCATION_FRAGMENT && partial - MM_ALLOCATION_FRAGMENT > 0 {
      var rest := FragmentSizes(partial - MM_ALLOCATION_FRAGMENT);
      FragmentShape(partial - MM_ALLOCATION_FRAGMENT);
      assert FragmentSizes(partial) == [MM_ALLOCATION_FRAGMENT] + rest;
      assert ([MM_ALLOCATION_FRAGMENT] + rest)[1..] == rest;
    } else if partial == MM_ALLOCATION_FRAGMENT {
      assert FragmentSizes(partial) == [MM_ALLOCATION_FRAGMENT];
      assert FragmentSizes(partial)[1..] == [];
    } else {
      assert FragmentSizes(partial) == [RoundToPages(partial)];
      assert FragmentSizes(partial)[1..] == [];
      assert RoundToPages(partial) <= MM_ALLOCATION_FRAGMENT by {
        assert BytesToPages(partial) <= 16;
      }
    }
  }

  /** Every fragment and its subsection the loop asks for are granted. */
  predicate AllFragmentsAllocated(sizeOfSegment: nat, granted: nat -> bool)
  {
    forall k :: 0 <= k < |FragmentSizes(sizeOfSegment)| ==> granted(k)
  }

  /**
   * The fragment loop: granted(k) is whether the k-th pair of pool
   * allocations (the fragment and its subsection) succeeds. On the first
   * failure everything allocated so far is freed and the loop gives up.
   */
  method AllocateFragments(sizeOfSegment: u32, granted: nat -> bool) returns (ok: bool, sizes: seq<nat>)
    requires sizeOfSegment >= MM_ALLOCATION_FRAGMENT
    ensures ok <==> AllFragmentsAllocated(sizeOfSegment, granted)
    ensures ok ==> sizes == FragmentSizes(sizeOfSegment)
  {
    var size := MM_ALLOCATION_FRAGMENT;
    var partial: nat := sizeOfSegment;
    sizes := [];
    while partial != 0
      invariant sizes + FragmentSizes(partial) == FragmentSizes(sizeOfSegment)
      invariant forall k :: 0 <= k < |sizes| ==> granted(k)
      invariant partial != 0 ==> size == MM_ALLOCATION_FRAGMENT
      decreases partial
    {
      if partial < MM_ALLOCATION_FRAGMENT {
        assert FragmentSizes(RoundToPages(partial)) == [RoundToPages(partial)] by {
          assert BytesToPages(partial) <= 16;
          if RoundToPages(partial) == MM_ALLOCATION_FRAGMENT {
            assert FragmentSizes(0) == [];
          }
        }
        partial := RoundToPages(partial);
        size := partial;
      }
      assert FragmentSizes(partial) == [size] + FragmentSizes(partial - size);
      if !granted(|sizes|) {
        assert (sizes + FragmentSizes(partial))[|sizes|] == size;
        return false, sizes;
      }
      sizes := sizes + [size];
      partial := partial - size;
    }
    ok := true;
  }

  /** ControlArea->NumberOfSubsections = 1 + (USHORT)NumberOfNewSubsections. */
  function SubsectionCount(fragments: nat): (r: u16)
    requires fragments >= 1
    ensures fragments < U16_LIMIT ==> r == fragments
  {
    (1 + (fragments - 1) % U16_LIMIT) % U16_LIMIT
  }

  /** The PtesInSubsection each fragment's subsection starts with: its size in PTEs. */
  function FragmentCapacities(sizes: seq<nat>): (c: seq<u32>)
    requires forall k :: 0 <= k < |sizes| ==> sizes[k] <= MM_ALLOCATION_FRAGMENT
    ensures |c| == |sizes|
    ensures forall k :: 0 <= k < |sizes| ==>
      c[k] as int * PTE_SIZE <= sizes[k] < (c[k] as int + 1) * PTE_SIZE
    ensures forall k :: 0 <= k < |sizes| ==> c[k] as int <= MM_ALLOCATION_FRAGMENT / PTE_SIZE
  {
    seq(|sizes|, k requires 0 <= k < |sizes| => sizes[k] / PTE_SIZE)
  }

  // ---------------------------------------------------------------------
  // The subsection chain
  // ---------------------------------------------------------------------

  /**
   * The first subsection of a chain of several keeps what fits of its
   * fragment after the bytes up to the aligned prototype PTEs, cut down
   * to a multiple of 64 KiB worth of pages.
   */
  function NonExtendedPtes(firstPtes: u32, prototypeBytes: u32): u32
  {
    And32(Sub32(Mul32(firstPtes, PTE_SIZE), prototypeBytes) / PTE_SIZE, Not32(X64K / PAGE_SIZE - 1))
  }

  /** The first fragment's PTE run lies inside that fragment. */
  lemma FirstFragmentFits(firstPtes: u32, prototypeBytes: u32)
    requires prototypeBytes <= PTE_SIZE * firstPtes < U32_LIMIT
    ensures prototypeBytes + PTE_SIZE * NonExtendedPtes(firstPtes, prototypeBytes) <= PTE_SIZE * firstPtes
  {
  }

  /** The PtesInSubsection of subsection k before the terminal one is trimmed to the file. */
  function Capacity(initial: seq<u32>, k: nat, npwa: u32, prototypeBytes: u32): u32
    requires k < |initial|
  {
    if k == 0 then (if |initial| > 1 then NonExtendedPtes(initial[0], prototypeBytes) else npwa)
    else initial[k]
  }

  /** The PTEs of the subsections before k. */
  function PtesBefore(subs: seq<DataSubsection>, k: nat): nat
    requires k <= |subs|
  {
    if k == 0 then 0 else PtesBefore(subs, k - 1) + subs[k - 1].ptesInSubsection
  }

  lemma {:induction false} PtesBeforeAppend(subs: seq<DataSubsection>, s: DataSubsection, k: nat)
    requires k <= |subs|
    ensures PtesBefore(subs + [s], k) == PtesBefore(subs, k)
  {
    if k > 0 {
      PtesBeforeAppend(subs, s, k - 1);
      assert (subs + [s])[k - 1] == subs[k - 1];
    }
  }

  /** The sector at a PTE index, in the ULONG the subsections keep. */
  function SectorOf(ptes: nat): u32
  {
    (SECTORS_PER_PAGE * ptes) % U32_LIMIT
  }

  /**
   * A subsection before the last: it starts at the sector of its first PTE,
   * holds its whole capacity with none unused and ends at the sector where
   * the next one starts.
   */
  predicate InnerSubsection(s: DataSubsection, capacity: u32, before: nat, after: nat)
  {
    && s.startingSector == SectorOf(before)
    && s.ptesInSubsection == capacity
    && after == before + capacity
    && s.unusedPtes == 0
    && s.endingSector == SectorOf(after)
    && s.sectorEndOffset == 0
    && s.protection == MM_EXECUTE_READWRITE
  }

  /**
   * The last subsection: it starts at the sector of its first PTE, holds
   * what remains of the file's pages, counts the rest of its capacity as
   * unused and ends at the file's last sector and offset.
   */
  predicate TerminalSubsection(s: DataSubsection, capacity: u32, before: nat, np: u32, eof: int)
  {
    && s.startingSector == SectorOf(before)
    && s.ptesInSubsection == Sub32(np, s.startingSector / SECTORS_PER_PAGE)
    && s.unusedPtes == Sub32(capacity, s.ptesInSubsection)
    && s.endingSector == (eof / MMSECTOR_SIZE) % U32_LIMIT
    && s.sectorEndOffset == eof % MMSECTOR_SIZE
    && s.protection == MM_EXECUTE_READWRITE
  }

  /** The chain as the walk leaves it: one subsection per initial entry, in order. */
  predicate ChainLaidOut(subs: seq<DataSubsection>, initial: seq<u32>, np: u32, npwa: u32, eof: int, prototypeBytes: u32)
  {
    && |subs| == |initial| > 0
    && (forall k :: 0 <= k < |subs| - 1 ==>
          InnerSubsection(subs[k], Capacity(initial, k, npwa, prototypeBytes), PtesBefore(subs, k), PtesBefore(subs, k + 1)))
    && TerminalSubsection(subs[|subs| - 1], Capacity(initial, |subs| - 1, npwa, prototypeBytes),
                          PtesBefore(subs, |subs| - 1), np, eof)
  }

  /** The bytes RtlFillMemoryUlong is given, divided back into PTEs. */
  function FillCount(s: DataSubsection): nat
  {
    Mul32(Add32(s.ptesInSubsection, s.unusedPtes), PTE_SIZE) / PTE_SIZE
  }

  /** Every PTE of subsection k's run is the prototype PTE referring to subsection k. */
  predicate FilledWithTemplates(filled: seq<seq<Pte>>, subs: seq<DataSubsection>)
  {
    && |filled| == |subs|
    && forall k :: 0 <= k < |subs| ==>
         && |filled[k]| == FillCount(subs[k])
         && forall m :: 0 <= m < |filled[k]| ==> filled[k][m] == FileBacked(k, MM_EXECUTE_READWRITE)
  }

  lemma SectorStep(before: nat, ptes: u32)
    ensures Add32(SectorOf(before), Mul32(ptes, SECTORS_PER_PAGE)) == SectorOf(before + ptes)
  {
  }

  /**
   * One pass of the walk: subsection i's PtesInSubsection (the first one's
   * aligned down for a chain of several), its sectors from partial on, the
   * run RtlFillMemoryUlong writes and the sector the next subsection starts
   * at. before is the number of PTEs the subsections ahead of it hold.
   */
  method LaySubsection(initial: seq<u32>, i: nat, partial: u32, np: u32, npwa: u32, eof: int, prototypeBytes: u32,
                       ghost before: nat)
      returns (s: DataSubsection, run: seq<Pte>, partial': u32, ghost before': nat)
    requires i < |initial| && partial == SectorOf(before)
    ensures before' == before + s.ptesInSubsection && partial' == SectorOf(before')
    ensures i < |initial| - 1 ==> InnerSubsection(s, Capacity(initial, i, npwa, prototypeBytes), before, before')
    ensures i == |initial| - 1 ==> TerminalSubsection(s, Capacity(initial, i, npwa, prototypeBytes), before, np, eof)
    ensures |run| == FillCount(s) && forall m :: 0 <= m < |run| ==> run[m] == FileBacked(i, MM_EXECUTE_READWRITE)
  {
    var ptes: u32;
    if i == 0 {
      if |initial| > 1 {
        ptes := NonExtendedPtes(initial[0], prototypeBytes);
      } else {
        ptes := npwa;
      }
    } else {
      ptes := initial[i];
    }
    if i == |initial| - 1 {
      var terminal := Sub32(np, partial / SECTORS_PER_PAGE);
      s := DataSubsection(terminal, Sub32(ptes, terminal), partial,
                          (eof / MMSECTOR_SIZE) % U32_LIMIT, eof % MMSECTOR_SIZE, MM_EXECUTE_READWRITE);
    } else {
      SectorStep(before, ptes);
      s := DataSubsection(ptes, 0, partial, Add32(partial, Mul32(ptes, SECTORS_PER_PAGE)), 0, MM_EXECUTE_READWRITE);
    }
    var fill := Mul32(Add32(s.ptesInSubsection, s.unusedPtes), PTE_SIZE) / PTE_SIZE;
    run := seq(fill, _ => FileBacked(i, MM_EXECUTE_READWRITE));
    SectorStep(before, s.ptesInSubsection);
    partial' := Add32(partial, Mul32(s.ptesInSubsection, SECTORS_PER_PAGE));
    before' := before + s.ptesInSubsection;
  }

  /** Appending the subsection just laid keeps the chain laid out so far. */
  lemma ChainAppend(subs: seq<DataSubsection>, s: DataSubsection, initial: seq<u32>, np: u32, npwa: u32, eof: int,
                    prototypeBytes: u32, before: nat, after: nat)
    requires |subs| < |initial| && before == PtesBefore(subs, |subs|) && after == before + s.ptesInSubsection
    requires forall k :: 0 <= k < |subs| && k < |initial| - 1 ==>
      InnerSubsection(subs[k], Capacity(initial, k, npwa, prototypeBytes), PtesBefore(subs, k), PtesBefore(subs, k + 1))
    requires |subs| < |initial| - 1 ==>
      InnerSubsection(s, Capacity(initial, |subs|, npwa, prototypeBytes), before, after)
    requires |subs| == |initial| - 1 ==>
      TerminalSubsection(s, Capacity(initial, |subs|, npwa, prototypeBytes), before, np, eof)
    ensures PtesBefore(subs + [s], |subs| + 1) == after
    ensures forall k :: 0 <= k < |subs| + 1 && k < |initial| - 1 ==>
      InnerSubsection((subs + [s])[k], Capacity(initial, k, npwa, prototypeBytes),
                      PtesBefore(subs + [s], k), PtesBefore(subs + [s], k + 1))
    ensures |subs| + 1 == |initial| ==>
      TerminalSubsection((subs + [s])[|subs|], Capacity(initial, |subs|, npwa, prototypeBytes),
                         PtesBefore(subs + [s], |subs|), np, eof)
  {
    var t := subs + [s];
    PtesBeforeAppend(subs, s, |subs|);
    assert PtesBefore(t, |subs| + 1) == after;
    forall k | 0 <= k < |subs| + 1 && k < |initial| - 1
      ensures InnerSubsection(t[k], Capacity(initial, k, npwa, prototypeBytes), PtesBefore(t, k), PtesBefore(t, k + 1))
    {
      if k < |subs| {
        assert t[k] == subs[k];
        PtesBeforeAppend(subs, s, k);
        PtesBeforeAppend(subs, s, k + 1);
      } else {
        assert t[k] == s;
      }
    }
    assert t[|subs|] == s;
  }

  lemma FilledAppend(filled: seq<seq<Pte>>, subs: seq<DataSubsection>, run: seq<Pte>, s: DataSubsection)
    requires FilledWithTemplates(filled, subs)
    requires |run| == FillCount(s) && forall m :: 0 <= m < |run| ==> run[m] == FileBacked(|subs|, MM_EXECUTE_READWRITE)
    ensures FilledWithTemplates(filled + [run], subs + [s])
  {
    assert (filled + [run])[|subs|] == run && (subs + [s])[|subs|] == s;
  }

  /**
   * The walk over the chain. initial holds each subsection's PtesInSubsection
   * as the allocation left it (0 for the one subsection of a segment
   * allocated whole); prototypeBytes is the distance from the segment to its
   * aligned prototype PTEs. The PTE blocks are returned as values.
   */
  method BuildDataSubsections(initial: seq<u32>, np: u32, npwa: u32, eof: int, prototypeBytes: u32)
      returns (subs: seq<DataSubsection>, filled: seq<seq<Pte>>)
    requires |initial| >= 1
    ensures ChainLaidOut(subs, initial, np, npwa, eof, prototypeBytes)
    ensures FilledWithTemplates(filled, subs)
  {
    var partial: u32 := 0;
    subs, filled := [], [];
    var i := 0;
    ghost var before: nat := 0;
    while i < |initial|
      invariant 0 <= i <= |initial| && |subs| == i
      invariant before == PtesBefore(subs, i) && partial == SectorOf(before)
      invariant forall k :: 0 <= k < i && k < |initial| - 1 ==>
        InnerSubsection(subs[k], Capacity(initial, k, npwa, prototypeBytes), PtesBefore(subs, k), PtesBefore(subs, k + 1))
      invariant i == |initial| ==>
        TerminalSubsection(subs[i - 1], Capacity(initial, i - 1, npwa, prototypeBytes), PtesBefore(subs, i - 1), np, eof)
      invariant FilledWithTemplates(filled, subs)
    {
      var s, run;
      ghost var after;
      s, run, partial, after := LaySubsection(initial, i, partial, np, npwa, eof, prototypeBytes, before);
      ChainAppend(subs, s, initial, np, npwa, eof, prototypeBytes, before, after);
      FilledAppend(filled, subs, run, s);
      before := after;
      subs := subs + [s];
      filled := filled + [run];
      i := i + 1;
    }
  }

  lemma TimesPteSize(c: u32)
    requires PTE_SIZE * c < U32_LIMIT
    ensures Mul32(c, PTE_SIZE) / PTE_SIZE == c
  {
    assert Mul32(c, PTE_SIZE) == PTE_SIZE * c;
  }

  lemma AddBack(p: u32, c: u32)
    ensures Add32(p, Sub32(c, p)) == c
  {
  }

  /** Each subsection's run fills exactly its capacity, the terminal's unused PTEs included. */
  lemma FillMatchesCapacity(subs: seq<DataSubsection>, initial: seq<u32>, np: u32, npwa: u32, eof: int,
                            prototypeBytes: u32, k: nat)
    requires ChainLaidOut(subs, initial, np, npwa, eof, prototypeBytes) && k < |subs|
    requires PTE_SIZE * Capacity(initial, k, npwa, prototypeBytes) < U32_LIMIT
    ensures FillCount(subs[k]) == Capacity(initial, k, npwa, prototypeBytes)
  {
    var c := Capacity(initial, k, npwa, prototypeBytes);
    var sub := subs[k];
    if k < |subs| - 1 {
      assert InnerSubsection(sub, c, PtesBefore(subs, k), PtesBefore(subs, k + 1));
      assert Add32(sub.ptesInSubsection, sub.unusedPtes) == c;
    } else {
      assert TerminalSubsection(sub, c, PtesBefore(subs, k), np, eof);
      AddBack(sub.ptesInSubsection, c);
    }
    TimesPteSize(c);
  }

  /** Each subsection before the last ends at the sector the next one starts at. */
  lemma SectorsContiguous(subs: seq<DataSubsection>, initial: seq<u32>, np: u32, npwa: u32, eof: int,
                          prototypeBytes: u32, k: nat)
    requires ChainLaidOut(subs, initial, np, npwa, eof, prototypeBytes) && k + 1 < |subs|
    ensures subs[k].endingSector == subs[k + 1].startingSector
  {
    assert InnerSubsection(subs[k], Capacity(initial, k, npwa, prototypeBytes), PtesBefore(subs, k), PtesBefore(subs, k + 1));
    if k + 1 < |subs| - 1 {
      assert InnerSubsection(subs[k + 1], Capacity(initial, k + 1, npwa, prototypeBytes),
                             PtesBefore(subs, k + 1), PtesBefore(subs, k + 2));
    } else {
      assert TerminalSubsection(subs[k + 1], Capacity(initial, k + 1, npwa, prototypeBytes), PtesBefore(subs, k + 1), np, eof);
    }
  }

  lemma SectorRoundTrip(before: nat)
    requires SECTORS_PER_PAGE * before < U32_LIMIT
    ensures SectorOf(before) / SECTORS_PER_PAGE == before
  {
  }

  /**
   * When the sectors do not wrap and the subsections before the last hold
   * no more than the file's pages, the chain covers exactly the file's pages.
   */
  lemma WholeFileCovered(subs: seq<DataSubsection>, initial: seq<u32>, np: u32, npwa: u32, eof: int, prototypeBytes: u32)
    requires ChainLaidOut(subs, initial, np, npwa, eof, prototypeBytes)
    requires SECTORS_PER_PAGE * np < U32_LIMIT
    requires PtesBefore(subs, |subs| - 1) <= np
    ensures PtesBefore(subs, |subs|) == np
    ensures subs[|subs| - 1].startingSector == SECTORS_PER_PAGE * PtesBefore(subs, |subs| - 1)
  {
    var last := |subs| - 1;
    var before := PtesBefore(subs, last);
    var sub := subs[last];
    assert TerminalSubsection(sub, Capacity(initial, last, npwa, prototypeBytes), before, np, eof);
    SectorRoundTrip(before);
    assert sub.ptesInSubsection == np - before;
    assert PtesBefore(subs, |subs|) == before + sub.ptesInSubsection;
  }

  /** A segment allocated whole has one subsection holding all the file's pages and the padding. */
  lemma SingleSubsectionHoldsFile(subs: seq<DataSubsection>, np: u32, eof: int, prototypeBytes: u32)
    requires ChainLaidOut(subs, [0], np, PtesWithAlignment(np), eof, prototypeBytes)
    requires np + PROTO_ALIGN_PTES - 1 < U32_LIMIT
    ensures |subs| == 1 && subs[0].startingSector == 0
    ensures subs[0].ptesInSubsection == np
    ensures subs[0].unusedPtes == PtesWithAlignment(np) - np < PROTO_ALIGN_PTES
  {
    var s0 := subs[0];
    var npwa := PtesWithAlignment(np);
    assert PtesBefore(subs, 0) == 0 && Capacity([0], 0, npwa, prototypeBytes) == npwa;
    assert TerminalSubsection(s0, npwa, 0, np, eof);
    assert s0.startingSector == 0 by { assert SectorOf(0) == 0; }
    assert s0.ptesInSubsection == np;
    AlignmentPadding(np);
    assert s0.unusedPtes == Sub32(npwa, np) == npwa - np;
  }

  // ---------------------------------------------------------------------
  // The builder
  // ---------------------------------------------------------------------

  /** The end of file stays in range while it is rounded up to pages. */
  predicate RoundableSize(x: int)
  {
    IsLargeInteger(x) && IsLargeInteger(x + PAGE_SIZE - 1)
  }

  /** What the allocation leaves as the chain's initial PtesInSubsection values. */
  function InitialChain(segmentAllocated: bool, sizeOfSegment: u32): seq<u32>
  {
    if segmentAllocated || sizeOfSegment < MM_ALLOCATION_FRAGMENT then [0]
    else
      FragmentShape(sizeOfSegment);
      FragmentCapacities(FragmentSizes(sizeOfSegment))
  }

  /** The aligned prototype PTEs' offset from the segment, in bytes. */
  function PrototypeBytes(sizeofSegment: u32, segmentAddress: u32): u32
    requires sizeofSegment >= PTE_SIZE
  {
    var j := AlignmentOffset(Add32(segmentAddress, sizeofSegment - PTE_SIZE));
    Add32(sizeofSegment - PTE_SIZE, PTE_SIZE * j)
  }

  /**
   * MiCreateDataFileMap. The file-system queries, the pool allocations and
   * the layout of SEGMENT are parameters: sizeofSegment is sizeof(SEGMENT),
   * whose last member is ThePtes[1]; segmentAddress is where the segment
   * (or its first fragment) was placed; segmentAllocated is whether the
   * segment could be allocated in one piece and fragmentAllocated(k) whether
   * the k-th fragment could.
   */
  method MiCreateDataFileMap(ignoreFileSizing: bool, getStatus: Status, fileSize: int, maximumSize: int,
                             protection: bv32, attributes: bv32, setStatus: Status, remote: bool,
                             sizeofSegment: u32, segmentAddress: u32,
                             segmentAllocated: bool, fragmentAllocated: nat -> bool)
      returns (status: Status, segment: DataSegment, area: DataControlArea,
               subs: seq<DataSubsection>, filled: seq<seq<Pte>>)
    requires RoundableSize(fileSize) && RoundableSize(maximumSize)
    requires sizeofSegment >= PTE_SIZE
    ensures var size := DataFileSize(ignoreFileSizing, getStatus, fileSize, maximumSize, protection, setStatus);
      && (size.SizeFailed? ==> status == size.status)
      && (size.SizeOk? ==>
            var np := DataPtes(size.endOfFile);
            var npwa := PtesWithAlignment(np);
            var bytes := SegmentBytes(sizeofSegment, npwa);
            var initial := InitialChain(segmentAllocated, bytes);
            var pb := PrototypeBytes(sizeofSegment, segmentAddress);
            && (status == Success <==>
                  segmentAllocated || (bytes >= MM_ALLOCATION_FRAGMENT && AllFragmentsAllocated(bytes, fragmentAllocated)))
            && (status != Success ==> status == InsufficientResources)
            && (status == Success ==>
                  && ChainLaidOut(subs, initial, np, npwa, size.endOfFile, pb)
                  && FilledWithTemplates(filled, subs)
                  && segment == DataSegment(np, Capacity(initial, 0, npwa, pb), size.endOfFile,
                                            AlignmentOffset(Add32(segmentAddress, sizeofSegment - PTE_SIZE)),
                                            FileBacked(0, MM_EXECUTE_READWRITE))
                  && area == DataControlArea(1, if ignoreFileSizing then 0 else 1, true, true, remote,
                                             Has(attributes, SEC_NOCACHE), ignoreFileSizing,
                                             SubsectionCount(|initial|))))
  {
    segment := DataSegment(0, 0, 0, 0, NoAccess);
    area := DataControlArea(0, 0, false, false, false, false, false, 0);
    subs, filled := [], [];
    var size := DataFileSize(ignoreFileSizing, getStatus, fileSize, maximumSize, protection, setStatus);
    if size.SizeFailed? {
      return size.status, segment, area, subs, filled;
    }
    status, segment, area, subs, filled := BuildDataSegment(size.endOfFile, ignoreFileSizing, attributes, remote,
                                                            sizeofSegment, segmentAddress,
                                                            segmentAllocated, fragmentAllocated);
  }

  /** The segment's pool, whole or in fragments: the chain's initial capacities, or failure. */
  method AllocateSegment(sizeOfSegment: u32, segmentAllocated: bool, fragmentAllocated: nat -> bool)
      returns (ok: bool, initial: seq<u32>)
    ensures ok <==> segmentAllocated || (sizeOfSegment >= MM_ALLOCATION_FRAGMENT
                                         && AllFragmentsAllocated(sizeOfSegment, fragmentAllocated))
    ensures ok ==> initial == InitialChain(segmentAllocated, sizeOfSegment)
  {
    initial := [0];
    if segmentAllocated {
      return true, initial;
    }
    if sizeOfSegment < MM_ALLOCATION_FRAGMENT {
      return false, initial;
    }
    var sizes;
    ok, sizes := AllocateFragments(sizeOfSegment, fragmentAllocated);
    if ok {
      FragmentShape(sizeOfSegment);
      initial := FragmentCapacities(sizes);
    }
  }

  /** Everything after the file size is known: the allocation, the control area and the chain. */
  method BuildDataSegment(endOfFile: int, ignoreFileSizing: bool, attributes: bv32, remote: bool,
                          sizeofSegment: u32, segmentAddress: u32,
                          segmentAllocated: bool, fragmentAllocated: nat -> bool)
      returns (status: Status, segment: DataSegment, area: DataControlArea,
               subs: seq<DataSubsection>, filled: seq<seq<Pte>>)
    requires sizeofSegment >= PTE_SIZE
    ensures var np := DataPtes(endOfFile);
      var npwa := PtesWithAlignment(np);
      var bytes := SegmentBytes(sizeofSegment, npwa);
      var initial := InitialChain(segmentAllocated, bytes);
      var pb := PrototypeBytes(sizeofSegment, segmentAddress);
      && (status == Success <==>
            segmentAllocated || (bytes >= MM_ALLOCATION_FRAGMENT && AllFragmentsAllocated(bytes, fragmentAllocated)))
      && (status != Success ==> status == InsufficientResources)
      && (status == Success ==>
            && ChainLaidOut(subs, initial, np, npwa, endOfFile, pb)
            && FilledWithTemplates(filled, subs)
            && segment == DataSegment(np, Capacity(initial, 0, npwa, pb), endOfFile,
                                      AlignmentOffset(Add32(segmentAddress, sizeofSegment - PTE_SIZE)),
                                      FileBacked(0, MM_EXECUTE_READWRITE))
            && area == DataControlArea(1, if ignoreFileSizing then 0 else 1, true, true, remote,
                                       Has(attributes, SEC_NOCACHE), ignoreFileSizing,
                                       SubsectionCount(|initial|)))
  {
    segment := DataSegment(0, 0, 0, 0, NoAccess);
    area := DataControlArea(0, 0, false, false, false, false, false, 0);
    subs, filled := [], [];
    var numberOfPtes := DataPtes(endOfFile);
    var numberOfPtesWithAlignment := PtesWithAlignment(numberOfPtes);
    var sizeOfSegment := SegmentBytes(sizeofSegment, numberOfPtesWithAlignment);
    var ok, initial := AllocateSegment(sizeOfSegment, segmentAllocated, fragmentAllocated);
    if !ok {
      return InsufficientResources, segment, area, subs, filled;
    }
    area := DataControlArea(1, if ignoreFileSizing then 0 else 1, true, true, remote,
                            Has(attributes, SEC_NOCACHE), ignoreFileSizing, SubsectionCount(|initial|));
    var j := AlignmentOffset(Add32(segmentAddress, sizeofSegment - PTE_SIZE));
    var prototypeBytes := Add32(sizeofSegment - PTE_SIZE, PTE_SIZE * j);
    subs, filled := BuildDataSubsections(initial, numberOfPtes, numberOfPtesWithAlignment, endOfFile, prototypeBytes);
    segment := DataSegment(numberOfPtes, Capacity(initial, 0, numberOfPtesWithAlignment, prototypeBytes), endOfFile, j,
                           FileBacked(0, MM_EXECUTE_READWRITE));
    status := Success;
  }
}
