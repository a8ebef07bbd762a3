/**
 * The prototype-PTE layout of an image section (the layout half of
 * MiCreateImageFileMap): a header subsection, one subsection per section
 * header whose PTE run starts exactly where the previous one ended, three
 * kinds of page state, per-section commitment and a no-access tail.
 *
 * The section headers are the 40-byte records of section 4 (Section Table)
 * of the Microsoft PE/COFF specification, already decoded.
 */
module ImageMap {
  import opened Common
  import opened ImageProtection

  const MM_SIZE_OF_LARGEST_IMAGE: nat := 0x1000_0000

  datatype SectionHeader = SectionHeader(
    virtualSize: u32,
    virtualAddress: u32,
    sizeOfRawData: u32,
    pointerToRawData: u32,
    characteristics: bv32)

  /** The optional-header fields the layout reads. */
  datatype ImageParams = ImageParams(
    imageBase: u32,
    sectionAlignment: u32,
    fileAlignment: u32,
    sizeOfImage: u32,
    sizeOfHeaders: u32)

  /** What a successful header verification guarantees the layout. */
  predicate SizeVerified(p: ImageParams) { p.sizeOfImage <= MM_SIZE_OF_LARGEST_IMAGE }

  /** A subsection; firstPte is SubsectionBase as an index into the PTE array. */
  datatype Subsection = Subsection(
    firstPte: nat,
    ptesInSubsection: nat,
    startingSector: nat,
    endingSector: nat,
    sectorEndOffset: nat,
    protection: MmProtection,
    readOnly: bool,
    copyOnWrite: bool,
    globalMemory: bool)

  /** Everything the builder records besides the PTEs themselves. */
  datatype Counters = Counters(
    subsections: seq<Subsection>,
    left: nat,              // NumberOfPtes still unassigned
    nextVa: u32,
    imageCommit: bool,
    sectionCommit: bool,
    imageCommitment: nat,
    committedPages: nat,
    globalMemory: bool,
    imageFileSize: u32)

  datatype BuildState = BuildState(ptes: seq<Pte>, c: Counters)

  /** numberOfSubsections is what the control area records, not the length of the chain. */
  datatype SegmentInfo = SegmentInfo(
    numberOfSubsections: nat,
    subsections: seq<Subsection>,
    imageCommitment: nat,
    committedPages: nat,
    globalMemory: bool)

  /** BadImage is the BadPeImageSegment exit (STATUS_INVALID_IMAGE_FORMAT). */
  datatype LayoutOutcome = BadImage | Laid(ptes: seq<Pte>, info: SegmentInfo)

  /** The initial values of the three locals the builder reads before writing. */
  datatype Uninitialised = Uninitialised(imageCommit: bool, sectionCommit: bool, imageFileSize: u32)

  const Initialised: Uninitialised := Uninitialised(false, false, 0)

  // ---------------------------------------------------------------------
  // Per-image and per-section quantities
  // ---------------------------------------------------------------------

  /** NumberOfPtes: BYTES_TO_PAGES(SizeOfImage). */
  function ImagePtes(p: ImageParams): (n: nat)
    requires SizeVerified(p)
    ensures n <= 0x1_0000
  {
    BytesToPages(p.sizeOfImage)
  }

  /** VA of the page `pages` pages into the image, in ULONG arithmetic. */
  function VaAt(base: u32, pages: nat): u32
  {
    (base + PAGE_SIZE * pages) % U32_LIMIT
  }

  lemma VaAtNoWrap(base: u32, pages: nat)
    requires base + PAGE_SIZE * pages < U32_LIMIT
    ensures VaAt(base, pages) == base + PAGE_SIZE * pages
  {
    ModUnique(base + PAGE_SIZE * pages, U32_LIMIT, 0, base + PAGE_SIZE * pages);
  }

  function HeaderPteCount(p: ImageParams): nat
  {
    RoundToSize(p.sizeOfHeaders, p.sectionAlignment) / PAGE_SIZE
  }

  /** Header page k: backed by the file while it starts inside SizeOfHeaders. */
  function HeaderPte(p: ImageParams, k: nat): Pte
  {
    if k * PAGE_SIZE < p.sizeOfHeaders then FileBacked(0, MM_READONLY) else NoAccess
  }

  function HeaderSubsection(p: ImageParams): Subsection
  {
    Subsection(0, HeaderPteCount(p), 0, p.sizeOfHeaders / 512, p.sizeOfHeaders % 512,
               MM_READONLY, true, true, false)
  }

  /** The single subsection of an image aligned below a page. */
  function SubPageSubsection(n: nat, eof: u32): Subsection
  {
    Subsection(0, n, 0, eof / 512, eof % 512, MM_EXECUTE_WRITECOPY, false, false, false)
  }

  /** A virtual size of 0 means SizeOfRawData. */
  function EffectiveVirtualSize(s: SectionHeader): u32
  {
    if s.virtualSize == 0 then s.sizeOfRawData else s.virtualSize
  }

  /** A raw size of 0 zeroes the raw pointer (the linker work-around). */
  function EffectiveRawPointer(s: SectionHeader): u32
  {
    if s.sizeOfRawData == 0 then 0 else s.pointerToRawData
  }

  function SectionPteCount(s: SectionHeader, sa: u32): nat
  {
    RoundToSize(EffectiveVirtualSize(s), sa) / PAGE_SIZE
  }

  function SectionProtection(s: SectionHeader): MmProtection
  {
    MiGetImageProtection(s.characteristics)
  }

  /** TempPte: file-backed by subsection n, or demand-zero when the raw pointer is 0. */
  function SectionTemplate(s: SectionHeader, n: nat): Pte
  {
    if EffectiveRawPointer(s) == 0 then DemandZero(SectionProtection(s))
    else FileBacked(n, SectionProtection(s))
  }

  /** Page k of a section: on disk below the raw size, zero below the virtual size, else no access. */
  function SectionPte(s: SectionHeader, n: nat, k: nat): Pte
  {
    if k * PAGE_SIZE < EffectiveVirtualSize(s) then
      if k * PAGE_SIZE < s.sizeOfRawData then SectionTemplate(s, n)
      else DemandZero(SectionProtection(s))
    else NoAccess
  }

  function SectionPtes(s: SectionHeader, n: nat, sa: u32): (r: seq<Pte>)
    ensures |r| == SectionPteCount(s, sa)
  {
    seq(SectionPteCount(s, sa), k requires 0 <= k => SectionPte(s, n, k))
  }

  function Min(a: nat, b: nat): nat { if a <= b then a else b }

  /** The pages of the run whose offset lies below the virtual size. */
  function AccessiblePages(s: SectionHeader, sa: u32): nat
  {
    Min(SectionPteCount(s, sa), BytesToPages(EffectiveVirtualSize(s)))
  }

  function EndingOffset(s: SectionHeader, fa: u32): u32
  {
    And32(Add32(Add32(EffectiveRawPointer(s), s.sizeOfRawData), Sub32(fa, 1)), Not32(Sub32(fa, 1)))
  }

  function SectionSubsection(s: SectionHeader, firstPte: nat, p: ImageParams): Subsection
  {
    var prot := SectionProtection(s);
    Subsection(firstPte, SectionPteCount(s, p.sectionAlignment),
               EffectiveRawPointer(s) / 512,
               EndingOffset(s, p.fileAlignment) / 512, EndingOffset(s, p.fileAlignment) % 512,
               prot, true, true, IsWritable(prot) && !IsCopyOnWrite(prot))
  }

  /** The commit flags after a section: only the writable branches set one flag each. */
  function NextImageCommit(prot: MmProtection, imageCommit: bool): bool
  {
    if IsWritable(prot) then (if IsCopyOnWrite(prot) then true else imageCommit) else false
  }

  function NextSectionCommit(prot: MmProtection, sectionCommit: bool): bool
  {
    if IsWritable(prot) then (if IsCopyOnWrite(prot) then sectionCommit else true) else false
  }

  // ---------------------------------------------------------------------
  // The layout, phase by phase
  // ---------------------------------------------------------------------

  /** The image-base check and the header subsection (or the single sub-page subsection). */
  function HeaderPhase(p: ImageParams, eof: u32, u: Uninitialised): Option<BuildState>
    requires SizeVerified(p)
  {
    var n := ImagePtes(p);
    if And32(p.imageBase, X64K - 1) != 0 then None
    else if p.sectionAlignment < PAGE_SIZE then
      Some(BuildState(seq(n, _ => FileBacked(0, MM_EXECUTE_WRITECOPY)),
        Counters([SubPageSubsection(n, eof)], n, p.imageBase, u.imageCommit, u.sectionCommit,
                 n, 0, false, u.imageFileSize)))
    else if HeaderPteCount(p) > n then None
    else
      var h := HeaderPteCount(p);
      Some(BuildState(seq(h, k requires 0 <= k => HeaderPte(p, k)),
        Counters([HeaderSubsection(p)], n - h, VaAt(p.imageBase, h), u.imageCommit, u.sectionCommit,
                 0, 0, false, u.imageFileSize)))
  }

  /** One section header of an image aligned on a page or more. None is BadPeImageSegment. */
  function SectionStep(st: BuildState, s: SectionHeader, n: nat, p: ImageParams): Option<BuildState>
  {
    var c := st.c;
    var count := SectionPteCount(s, p.sectionAlignment);
    if c.nextVa != Add32(p.imageBase, s.virtualAddress) || EffectiveVirtualSize(s) == 0 then None
    else if count > c.left then None
    else
      var prot := SectionProtection(s);
      var imageCommit := NextImageCommit(prot, c.imageCommit);
      var sectionCommit := NextSectionCommit(prot, c.sectionCommit);
      var accessible := AccessiblePages(s, p.sectionAlignment);
      Some(BuildState(st.ptes + SectionPtes(s, n, p.sectionAlignment),
        Counters(c.subsections + [SectionSubsection(s, |st.ptes|, p)],
                 c.left - count,
                 VaAt(c.nextVa, count),
                 imageCommit, sectionCommit,
                 c.imageCommitment + (if imageCommit then accessible else 0),
                 c.committedPages + (if sectionCommit then accessible else 0),
                 c.globalMemory || (IsWritable(prot) && !IsCopyOnWrite(prot)),
                 Add32(EffectiveRawPointer(s), s.sizeOfRawData))))
  }

  function SectionsFrom(st: BuildState, sections: seq<SectionHeader>, j: nat, p: ImageParams): Option<BuildState>
    decreases |sections| - j
  {
    if j >= |sections| then Some(st)
    else match SectionStep(st, sections[j], j + 1, p)
      case None => None
      case Some(st') => SectionsFrom(st', sections, j + 1, p)
  }

  /** The file-size and leftover checks, then the no-access tail. */
  function Finish(st: BuildState, numberOfSections: nat, eof: u32, p: ImageParams): LayoutOutcome
  {
    if st.c.imageFileSize > eof then BadImage
    else if st.c.left >= p.sectionAlignment / PAGE_SIZE then BadImage
    else Laid(st.ptes + seq(st.c.left, _ => NoAccess),
              SegmentInfo(numberOfSections, st.c.subsections, st.c.imageCommitment, st.c.committedPages, st.c.globalMemory))
  }

  /** The sub-page checks of one section: inside the file and mapped one to one. */
  predicate SubPageSectionOk(s: SectionHeader, eof: u32)
  {
    && Add32(s.sizeOfRawData, s.pointerToRawData) <= eof
    && s.pointerToRawData == s.virtualAddress
    && EffectiveVirtualSize(s) <= s.sizeOfRawData
  }

  /**
   * The layout with the three locals starting from whatever `u` holds. A
   * laid-out image is based on a 64 KiB boundary, and its control area
   * records a single subsection and no committed pages below page
   * alignment, and one subsection per section header otherwise.
   */
  function ImageLayoutAsWritten(p: ImageParams, sections: seq<SectionHeader>, eof: u32, u: Uninitialised): (r: LayoutOutcome)
    requires SizeVerified(p)
    ensures r.Laid? ==> And32(p.imageBase, X64K - 1) == 0
    ensures r.Laid? ==> r.info.numberOfSubsections == (if p.sectionAlignment < PAGE_SIZE then 1 else |sections|)
    ensures r.Laid? && p.sectionAlignment < PAGE_SIZE ==> r.info.committedPages == 0
  {
    match HeaderPhase(p, eof, u)
    case None => BadImage
    case Some(st) =>
      if p.sectionAlignment < PAGE_SIZE then
        if forall j :: 0 <= j < |sections| ==> SubPageSectionOk(sections[j], eof) then
          Laid(st.ptes, SegmentInfo(1, st.c.subsections, st.c.imageCommitment, 0, false))
        else BadImage
      else match SectionsFrom(st, sections, 0, p)
        case None => BadImage
        case Some(st') => Finish(st', |sections|, eof, p)
  }

  /**
   * The layout with ImageCommit and SectionCommit FALSE and ImageFileSize 0
   * at the start. Aligned on a page or more, a laid-out image is well laid
   * and charges exactly the pages of its writable sections of each kind.
   */
  function ImageLayout(p: ImageParams, sections: seq<SectionHeader>, eof: u32): (r: LayoutOutcome)
    requires SizeVerified(p)
    ensures r.Laid? && p.sectionAlignment >= PAGE_SIZE ==>
      && WellLaid(r.ptes, r.info, sections, p)
      && r.info.imageCommitment == CommitTotal(sections, false, true, p.sectionAlignment)
      && r.info.committedPages == CommitTotal(sections, false, false, p.sectionAlignment)
  {
    if p.sectionAlignment >= PAGE_SIZE && ImageLayoutAsWritten(p, sections, eof, Initialised).Laid? then
      LaidImageIsWellLaid(p, sections, eof, Initialised);
      LaidCounters(p, sections, eof, Initialised);
      ImageLayoutAsWritten(p, sections, eof, Initialised)
    else ImageLayoutAsWritten(p, sections, eof, Initialised)
  }

  // ---------------------------------------------------------------------
  // The builder around the layout: pool allocations and the section table
  // ---------------------------------------------------------------------

  /**
   * How the section table reaches the builder after the header phase. For a
   * read, readStatus is what IoPageRead returns (a pending read taken after
   * its wait, with any success code written Success) and ioStatus is the
   * IO_STATUS_BLOCK's status.
   */
  datatype TableFetch =
    | TableResident          // inside the header page already read
    | TablePoolFailure       // the ExtendedHeader allocation returned NULL
    | TableRead(readStatus: Status, ioStatus: Status)   // read in from the file

  /**
   * What the calls outside the layout return: the control-area and segment
   * allocations made ahead of it, the section-table fetch, and the exception
   * MiChargeCommitment raises for the committed pages, if any.
   */
  datatype ImageResources = ImageResources(controlArea: bool, segment: bool, table: TableFetch,
                                           chargeFault: Option<Status>)

  datatype ImageOutcome = ImageFailed(status: Status) | ImageMapped(ptes: seq<Pte>, info: SegmentInfo)

  /**
   * The status the section-table fetch leaves: STATUS_INSUFFICIENT_RESOURCES
   * for a failed allocation; for a failed read, a lock conflict returned by
   * IoPageRead itself is kept, and every other failure, including one seen
   * only in the IO_STATUS_BLOCK, becomes STATUS_INVALID_FILE_FOR_SECTION.
   */
  function TableStatus(t: TableFetch): (r: Status)
  {
    match t
    case TableResident => Success
    case TablePoolFailure => InsufficientResources
    case TableRead(s, io) =>
      if s == Success && io == Success then Success
      else if s == FileLockConflict then FileLockConflict
      else InvalidFileForSection
  }

  predicate TableFetched(t: TableFetch)
  {
    t.TableResident? || (t.TableRead? && t.readStatus == Success && t.ioStatus == Success)
  }

  lemma TableStatusOutcomes(t: TableFetch)
    ensures TableStatus(t) == Success <==> TableFetched(t)
    ensures TableStatus(t) in {Success, InsufficientResources, FileLockConflict, InvalidFileForSection}
    ensures t.TableRead? && !TableFetched(t) ==>
      (TableStatus(t) == FileLockConflict <==> t.readStatus == FileLockConflict)
  {
  }

  /** The charge for the committed pages raised an exception with a failure code. */
  predicate ChargeFaults(res: ImageResources)
  {
    res.chargeFault.Some? && res.chargeFault.value != Success
  }

  function FromLayout(r: LayoutOutcome): ImageOutcome
  {
    match r
    case BadImage => ImageFailed(InvalidImageFormat)
    case Laid(ptes, info) => ImageMapped(ptes, info)
  }

  /**
   * MiCreateImageFileMap from the decoded headers up to the commitment
   * charge: both allocations ahead of the header subsection, then the header
   * phase, then the section table, then the rest of the layout.
   */
  function ImageSegmentAsWritten(p: ImageParams, sections: seq<SectionHeader>, eof: u32,
                                 u: Uninitialised, res: ImageResources): (r: ImageOutcome)
    requires SizeVerified(p)
    ensures r.ImageFailed? ==> r.status != Success
  {
    if !res.controlArea || !res.segment then ImageFailed(InsufficientResources)
    else if HeaderPhase(p, eof, u).None? then ImageFailed(InvalidImageFormat)
    else if TableStatus(res.table) != Success then ImageFailed(TableStatus(res.table))
    else FromLayout(ImageLayoutAsWritten(p, sections, eof, u))
  }

  /**
   * The last step: a built segment with committed pages is charged for
   * them, and a faulting charge fails the builder with the exception's code.
   */
  function ChargeSegment(o: ImageOutcome, res: ImageResources): ImageOutcome
  {
    match o
    case ImageFailed(_) => o
    case ImageMapped(ptes, info) =>
      if info.committedPages != 0 && ChargeFaults(res) then ImageFailed(res.chargeFault.value) else o
  }

  /** The whole of MiCreateImageFileMap from the decoded headers on. */
  function ImageFileMapAsWritten(p: ImageParams, sections: seq<SectionHeader>, eof: u32,
                                 u: Uninitialised, res: ImageResources): (r: ImageOutcome)
    requires SizeVerified(p)
    ensures r.ImageFailed? ==> r.status != Success
  {
    ChargeSegment(ImageSegmentAsWritten(p, sections, eof, u, res), res)
  }

  function ImageFileMap(p: ImageParams, sections: seq<SectionHeader>, eof: u32, res: ImageResources): ImageOutcome
    requires SizeVerified(p)
  {
    ImageFileMapAsWritten(p, sections, eof, Initialised, res)
  }

  /**
   * The builder maps the image exactly when both allocations succeed, the
   * section table arrives, the layout succeeds, and the charge for its
   * committed pages (if there are any) does not fault; what it maps is the
   * layout.
   */
  lemma ImageFileMapIsLayout(p: ImageParams, sections: seq<SectionHeader>, eof: u32, u: Uninitialised, res: ImageResources)
    requires SizeVerified(p)
    ensures var r := ImageFileMapAsWritten(p, sections, eof, u, res);
            var l := ImageLayoutAsWritten(p, sections, eof, u);
      && (r.ImageMapped? <==> res.controlArea && res.segment && TableFetched(res.table) && l.Laid?
                              && !(l.info.committedPages != 0 && ChargeFaults(res)))
      && (r.ImageMapped? ==> r.ptes == l.ptes && r.info == l.info)
  {
    if res.controlArea && res.segment && HeaderPhase(p, eof, u).None? {
      assert ImageLayoutAsWritten(p, sections, eof, u) == BadImage;
    }
  }

  /**
   * A failed allocation ahead of the layout gives STATUS_INSUFFICIENT_RESOURCES
   * whatever the image holds; a failed ExtendedHeader allocation does so
   * only for an image that passes the header phase.
   */
  lemma PoolFailureStatus(p: ImageParams, sections: seq<SectionHeader>, eof: u32, u: Uninitialised, res: ImageResources)
    requires SizeVerified(p)
    ensures !res.controlArea || !res.segment ==>
      ImageFileMapAsWritten(p, sections, eof, u, res) == ImageFailed(InsufficientResources)
    ensures res.controlArea && res.segment && res.table.TablePoolFailure? ==>
      ImageFileMapAsWritten(p, sections, eof, u, res) ==
        (if HeaderPhase(p, eof, u).None? then ImageFailed(InvalidImageFormat) else ImageFailed(InsufficientResources))
  {
  }

  /**
   * Past the table fetch a laid-out image fails only in its commitment
   * charge: with committed pages and a faulting charge it fails with the
   * exception's code, and otherwise it is mapped as laid out.
   */
  lemma ChargeFaultStatus(p: ImageParams, sections: seq<SectionHeader>, eof: u32, u: Uninitialised, res: ImageResources)
    requires SizeVerified(p)
    requires res.controlArea && res.segment && TableFetched(res.table)
    requires ImageLayoutAsWritten(p, sections, eof, u).Laid?
    ensures var r := ImageFileMapAsWritten(p, sections, eof, u, res);
            var l := ImageLayoutAsWritten(p, sections, eof, u);
      && (l.info.committedPages != 0 && ChargeFaults(res) ==> r == ImageFailed(res.chargeFault.value))
      && (l.info.committedPages == 0 || !ChargeFaults(res) ==> r == ImageMapped(l.ptes, l.info))
  {
    TableStatusOutcomes(res.table);
  }

  /**
   * A sub-page image, or one without a shared writable section, has no
   * committed pages, so the outcome of the charge never matters to it.
   */
  lemma UnchargedWithoutSharedWrites(p: ImageParams, sections: seq<SectionHeader>, eof: u32, res: ImageResources)
    requires SizeVerified(p)
    requires p.sectionAlignment < PAGE_SIZE || forall i :: 0 <= i < |sections| ==> !WriteKind(sections[i], false)
    ensures ImageFileMap(p, sections, eof, res) == ImageFileMap(p, sections, eof, res.(chargeFault := None))
  {
    var l := ImageLayoutAsWritten(p, sections, eof, Initialised);
    if l.Laid? && p.sectionAlignment >= PAGE_SIZE {
      CommitmentNeedsWritableSections(p, sections, eof);
    }
  }

  // ---------------------------------------------------------------------
  // The shape of a laid-out image
  // ---------------------------------------------------------------------

  function HeaderPtes(p: ImageParams): (r: seq<Pte>)
    ensures |r| == HeaderPteCount(p)
  {
    seq(HeaderPteCount(p), k requires 0 <= k => HeaderPte(p, k))
  }

  /** The j-th section run's subsection: where it starts, and what it records. */
  predicate RunShapeOk(sections: seq<SectionHeader>, subs: seq<Subsection>, j: nat, p: ImageParams)
    requires j < |sections| && j + 1 < |subs|
  {
    var s := sections[j];
    var sub := subs[j + 1];
    && sub.ptesInSubsection == SectionPteCount(s, p.sectionAlignment)
    && sub.firstPte == subs[j].firstPte + subs[j].ptesInSubsection
    && Add32(p.imageBase, s.virtualAddress) == VaAt(p.imageBase, sub.firstPte)
    && EffectiveVirtualSize(s) != 0
  }

  /** The PTEs of the run of section s (subsection number j + 1) obey the page rules. */
  predicate RunPtesOk(ptes: seq<Pte>, s: SectionHeader, sub: Subsection, j: nat, p: ImageParams)
  {
    && sub.firstPte + sub.ptesInSubsection <= |ptes|
    && ptes[sub.firstPte..sub.firstPte + sub.ptesInSubsection] == SectionPtes(s, j + 1, p.sectionAlignment)
  }

  /** The j-th section run, as the layout rules demand. */
  predicate SectionRunOk(ptes: seq<Pte>, sections: seq<SectionHeader>, subs: seq<Subsection>, j: nat, p: ImageParams)
    requires j < |sections| && j + 1 < |subs|
  {
    RunShapeOk(sections, subs, j, p) && RunPtesOk(ptes, sections[j], subs[j + 1], j, p)
  }

  /** The first j section runs are laid out, and the PTEs end where the last run ends. */
  predicate PartialLayout(st: BuildState, sections: seq<SectionHeader>, j: nat, p: ImageParams)
    requires SizeVerified(p)
  {
    var subs := st.c.subsections;
    && j <= |sections|
    && |subs| == j + 1
    && subs[0] == HeaderSubsection(p)
    && HeaderPteCount(p) <= |st.ptes|
    && st.ptes[..HeaderPteCount(p)] == HeaderPtes(p)
    && (forall i :: 0 <= i < j ==> SectionRunOk(st.ptes, sections, subs, i, p))
    && subs[j].firstPte + subs[j].ptesInSubsection == |st.ptes|
    && |st.ptes| + st.c.left == ImagePtes(p)
    && st.c.nextVa == VaAt(p.imageBase, |st.ptes|)
  }

  /** An image aligned on a page or more, fully laid out. */
  predicate WellLaid(ptes: seq<Pte>, info: SegmentInfo, sections: seq<SectionHeader>, p: ImageParams)
    requires SizeVerified(p)
  {
    var subs := info.subsections;
    && |ptes| == ImagePtes(p)
    && |subs| == |sections| + 1
    && subs[0] == HeaderSubsection(p)
    && HeaderPteCount(p) <= |ptes|
    && ptes[..HeaderPteCount(p)] == HeaderPtes(p)
    && (forall j :: 0 <= j < |sections| ==> SectionRunOk(ptes, sections, subs, j, p))
    && var end := subs[|sections|].firstPte + subs[|sections|].ptesInSubsection;
    && end <= |ptes|
    && ImagePtes(p) - end < p.sectionAlignment / PAGE_SIZE
    && ptes[end..] == seq(|ptes| - end, _ => NoAccess)
  }

  lemma HeaderPhaseLayout(p: ImageParams, eof: u32, u: Uninitialised, sections: seq<SectionHeader>)
    requires SizeVerified(p) && p.sectionAlignment >= PAGE_SIZE
    requires HeaderPhase(p, eof, u).Some?
    ensures PartialLayout(HeaderPhase(p, eof, u).value, sections, 0, p)
  {
    var st := HeaderPhase(p, eof, u).value;
    assert st.ptes == HeaderPtes(p);
  }

  /** Appending PTEs and subsections keeps an earlier run as it was. */
  lemma RunOkAppend(ptes: seq<Pte>, more: seq<Pte>, sections: seq<SectionHeader>,
                    subs: seq<Subsection>, subs': seq<Subsection>, i: nat, p: ImageParams)
    requires i < |sections| && i + 1 < |subs| && i + 1 < |subs'|
    requires subs'[i] == subs[i] && subs'[i + 1] == subs[i + 1]
    requires SectionRunOk(ptes, sections, subs, i, p)
    ensures SectionRunOk(ptes + more, sections, subs', i, p)
  {
    assert RunShapeOk(sections, subs', i, p);
    PtesAppend(ptes, more, sections[i], subs[i + 1], i, p);
  }

  lemma PtesAppend(ptes: seq<Pte>, more: seq<Pte>, s: SectionHeader, sub: Subsection, j: nat, p: ImageParams)
    requires RunPtesOk(ptes, s, sub, j, p)
    ensures RunPtesOk(ptes + more, s, sub, j, p)
  {
    assert (ptes + more)[sub.firstPte..sub.firstPte + sub.ptesInSubsection]
        == ptes[sub.firstPte..sub.firstPte + sub.ptesInSubsection];
  }

  /** What one successful step does to the state. */
  lemma StepFacts(st: BuildState, s: SectionHeader, n: nat, p: ImageParams)
    requires SectionStep(st, s, n, p).Some?
    ensures var st' := SectionStep(st, s, n, p).value;
      && st'.ptes == st.ptes + SectionPtes(s, n, p.sectionAlignment)
      && st'.c.subsections == st.c.subsections + [SectionSubsection(s, |st.ptes|, p)]
      && st.c.nextVa == Add32(p.imageBase, s.virtualAddress)
      && EffectiveVirtualSize(s) != 0
      && SectionPteCount(s, p.sectionAlignment) <= st.c.left
      && st'.c.left == st.c.left - SectionPteCount(s, p.sectionAlignment)
      && st'.c.nextVa == VaAt(st.c.nextVa, SectionPteCount(s, p.sectionAlignment))
  {
  }

  lemma StepKeepsLayout(st: BuildState, sections: seq<SectionHeader>, j: nat, p: ImageParams)
    requires SizeVerified(p) && PartialLayout(st, sections, j, p) && j < |sections|
    requires SectionStep(st, sections[j], j + 1, p).Some?
    ensures PartialLayout(SectionStep(st, sections[j], j + 1, p).value, sections, j + 1, p)
  {
    StepFacts(st, sections[j], j + 1, p);
    var sub := SectionSubsection(sections[j], |st.ptes|, p);
    assert sub.firstPte == |st.ptes| && sub.ptesInSubsection == SectionPteCount(sections[j], p.sectionAlignment);
    AppendKeepsLayout(st, SectionStep(st, sections[j], j + 1, p).value, sub, sections, j, p);
  }

  /** Appending the j-th run, placed where the rules place it, extends the partial layout. */
  lemma AppendKeepsLayout(st: BuildState, st': BuildState, sub: Subsection, sections: seq<SectionHeader>, j: nat, p: ImageParams)
    requires SizeVerified(p) && PartialLayout(st, sections, j, p) && j < |sections|
    requires var s := sections[j];
      && st'.ptes == st.ptes + SectionPtes(s, j + 1, p.sectionAlignment)
      && sub.firstPte == |st.ptes| && sub.ptesInSubsection == SectionPteCount(s, p.sectionAlignment)
      && st'.c.subsections == st.c.subsections + [sub]
      && st.c.nextVa == Add32(p.imageBase, s.virtualAddress)
      && EffectiveVirtualSize(s) != 0
      && SectionPteCount(s, p.sectionAlignment) <= st.c.left
      && st'.c.left == st.c.left - SectionPteCount(s, p.sectionAlignment)
      && st'.c.nextVa == VaAt(st.c.nextVa, SectionPteCount(s, p.sectionAlignment))
    ensures PartialLayout(st', sections, j + 1, p)
  {
    var run := SectionPtes(sections[j], j + 1, p.sectionAlignment);
    var subs := st.c.subsections;
    var subs' := st'.c.subsections;
    EarlierRunsKept(st.ptes, run, sections, subs, sub, j, p);
    NewRunOk(st.ptes, run, sections, subs, sub, j, p);
    SliceOfAppend(st.ptes, run);
    VaAtAdd(p.imageBase, |st.ptes|, |run|);
  }

  lemma EarlierRunsKept(ptes: seq<Pte>, run: seq<Pte>, sections: seq<SectionHeader>,
                        subs: seq<Subsection>, sub: Subsection, j: nat, p: ImageParams)
    requires j <= |sections| && |subs| == j + 1
    requires forall i :: 0 <= i < j ==> SectionRunOk(ptes, sections, subs, i, p)
    ensures forall i :: 0 <= i < j ==> SectionRunOk(ptes + run, sections, subs + [sub], i, p)
  {
    forall i | 0 <= i < j
      ensures SectionRunOk(ptes + run, sections, subs + [sub], i, p)
    {
      RunOkAppend(ptes, run, sections, subs, subs + [sub], i, p);
    }
  }

  lemma NewRunOk(ptes: seq<Pte>, run: seq<Pte>, sections: seq<SectionHeader>,
                 subs: seq<Subsection>, sub: Subsection, j: nat, p: ImageParams)
    requires j < |sections| && |subs| == j + 1
    requires run == SectionPtes(sections[j], j + 1, p.sectionAlignment)
    requires sub.firstPte == |ptes| && sub.ptesInSubsection == |run|
    requires subs[j].firstPte + subs[j].ptesInSubsection == |ptes|
    requires Add32(p.imageBase, sections[j].virtualAddress) == VaAt(p.imageBase, |ptes|)
    requires EffectiveVirtualSize(sections[j]) != 0
    ensures SectionRunOk(ptes + run, sections, subs + [sub], j, p)
  {
    SliceOfAppend(ptes, run);
    assert RunPtesOk(ptes + run, sections[j], sub, j, p);
  }

  lemma VaAtAdd(base: u32, a: nat, b: nat)
    ensures VaAt(VaAt(base, a), b) == VaAt(base, a + b)
  {
    ModAddLeft(base + PAGE_SIZE * a, PAGE_SIZE * b);
  }

  lemma SliceOfAppend<T>(a: seq<T>, b: seq<T>)
    ensures (a + b)[|a|..|a| + |b|] == b
    ensures forall n :: 0 <= n <= |a| ==> (a + b)[..n] == a[..n]
  {
  }

  lemma ModAddLeft(a: nat, b: nat)
    ensures (a % U32_LIMIT + b) % U32_LIMIT == (a + b) % U32_LIMIT
  {
  }

  lemma {:induction false} SectionsKeepLayout(st: BuildState, sections: seq<SectionHeader>, j: nat, p: ImageParams)
    requires SizeVerified(p) && PartialLayout(st, sections, j, p)
    requires SectionsFrom(st, sections, j, p).Some?
    ensures PartialLayout(SectionsFrom(st, sections, j, p).value, sections, |sections|, p)
    decreases |sections| - j
  {
    if j < |sections| {
      StepKeepsLayout(st, sections, j, p);
      SectionsKeepLayout(SectionStep(st, sections[j], j + 1, p).value, sections, j + 1, p);
    }
  }

  /**
   * An image aligned on a page or more that is laid out at all is laid out
   * as the rules say: header PTEs, one contiguous run per section starting at
   * ImageBase + VirtualAddress with the page rules applied, and fewer than
   * SectionAlignment / PAGE_SIZE trailing no-access PTEs. This holds whatever
   * the uninitialised locals held.
   */
  lemma LaidImageIsWellLaid(p: ImageParams, sections: seq<SectionHeader>, eof: u32, u: Uninitialised)
    requires SizeVerified(p) && p.sectionAlignment >= PAGE_SIZE
    requires ImageLayoutAsWritten(p, sections, eof, u).Laid?
    ensures var r := ImageLayoutAsWritten(p, sections, eof, u);
            WellLaid(r.ptes, r.info, sections, p)
  {
    var st, st' := LaidDecompose(p, sections, eof, u);
    HeaderPhaseLayout(p, eof, u, sections);
    SectionsKeepLayout(st, sections, 0, p);
    FinishWellLaid(st', eof, p, sections);
  }

  /** A laid-out image aligned on a page or more passed all three phases. */
  lemma LaidDecompose(p: ImageParams, sections: seq<SectionHeader>, eof: u32, u: Uninitialised)
      returns (st: BuildState, st': BuildState)
    requires SizeVerified(p) && p.sectionAlignment >= PAGE_SIZE
    requires ImageLayoutAsWritten(p, sections, eof, u).Laid?
    ensures HeaderPhase(p, eof, u) == Some(st)
    ensures SectionsFrom(st, sections, 0, p) == Some(st')
    ensures ImageLayoutAsWritten(p, sections, eof, u) == Finish(st', |sections|, eof, p)
  {
    st := HeaderPhase(p, eof, u).value;
    st' := SectionsFrom(st, sections, 0, p).value;
  }

  /** The checks of Finish turn a complete partial layout into a well-laid image. */
  lemma FinishWellLaid(st: BuildState, eof: u32, p: ImageParams, sections: seq<SectionHeader>)
    requires SizeVerified(p) && PartialLayout(st, sections, |sections|, p)
    requires Finish(st, |sections|, eof, p).Laid?
    ensures WellLaid(Finish(st, |sections|, eof, p).ptes, Finish(st, |sections|, eof, p).info, sections, p)
  {
    var r := Finish(st, |sections|, eof, p);
    var tail := seq(st.c.left, _ => NoAccess);
    assert r.ptes == st.ptes + tail;
    var subs := st.c.subsections;
    forall j | 0 <= j < |sections|
      ensures SectionRunOk(r.ptes, sections, subs, j, p)
    {
      RunOkAppend(st.ptes, tail, sections, subs, subs, j, p);
    }
    SliceOfAppend(st.ptes, tail);
    assert r.ptes[|st.ptes|..] == tail;
  }

  /**
   * Every PTE of a section run is in the state the page rules give its
   * offset: file-backed (or demand-zero when the raw pointer is 0) below the
   * raw size, demand-zero below the virtual size, no access beyond it.
   */
  lemma SectionPageStates(p: ImageParams, sections: seq<SectionHeader>, eof: u32, u: Uninitialised, j: nat, k: nat)
    requires SizeVerified(p) && p.sectionAlignment >= PAGE_SIZE
    requires ImageLayoutAsWritten(p, sections, eof, u).Laid?
    requires j < |sections|
    requires k < SectionPteCount(sections[j], p.sectionAlignment)
    ensures var r := ImageLayoutAsWritten(p, sections, eof, u);
            var s := sections[j];
            && j + 1 < |r.info.subsections|
            && var i := r.info.subsections[j + 1].firstPte + k;
            && i < |r.ptes|
            && PageRule(r.ptes[i], s, j + 1, k)
  {
    LaidImageIsWellLaid(p, sections, eof, u);
    var r := ImageLayoutAsWritten(p, sections, eof, u);
    WellLaidPte(r.ptes, r.info, sections, p, j, k);
    SectionPteRule(sections[j], j + 1, k);
  }

  /** The three page states, by the page's offset k * PAGE_SIZE in the section. */
  predicate PageRule(pte: Pte, s: SectionHeader, n: nat, k: nat)
  {
    && ((k * PAGE_SIZE < s.sizeOfRawData && k * PAGE_SIZE < EffectiveVirtualSize(s))
          ==> pte == (if EffectiveRawPointer(s) == 0 then DemandZero(SectionProtection(s))
                      else FileBacked(n, SectionProtection(s))))
    && ((s.sizeOfRawData <= k * PAGE_SIZE < EffectiveVirtualSize(s))
          ==> pte == DemandZero(SectionProtection(s)))
    && (EffectiveVirtualSize(s) <= k * PAGE_SIZE ==> pte == NoAccess)
  }

  lemma SectionPteRule(s: SectionHeader, n: nat, k: nat)
    ensures PageRule(SectionPte(s, n, k), s, n, k)
  {
  }

  lemma WellLaidPte(ptes: seq<Pte>, info: SegmentInfo, sections: seq<SectionHeader>, p: ImageParams, j: nat, k: nat)
    requires SizeVerified(p) && WellLaid(ptes, info, sections, p)
    requires j < |sections| && k < SectionPteCount(sections[j], p.sectionAlignment)
    ensures j + 1 < |info.subsections| && info.subsections[j + 1].firstPte + k < |ptes|
    ensures ptes[info.subsections[j + 1].firstPte + k] == SectionPte(sections[j], j + 1, k)
  {
    assert SectionRunOk(ptes, sections, info.subsections, j, p);
    RunPte(ptes, info.subsections, sections, p, j, k);
  }

  lemma RunPte(ptes: seq<Pte>, subs: seq<Subsection>, sections: seq<SectionHeader>, p: ImageParams, j: nat, k: nat)
    requires j < |sections| && j + 1 < |subs| && SectionRunOk(ptes, sections, subs, j, p)
    requires k < SectionPteCount(sections[j], p.sectionAlignment)
    ensures subs[j + 1].firstPte + k < |ptes|
    ensures ptes[subs[j + 1].firstPte + k] == SectionPte(sections[j], j + 1, k)
  {
    var sub := subs[j + 1];
    assert sub.ptesInSubsection == SectionPteCount(sections[j], p.sectionAlignment);
    var run := ptes[sub.firstPte..sub.firstPte + sub.ptesInSubsection];
    assert ptes[sub.firstPte + k] == run[k];
  }

  /** The running sum of PtesInSubsection never exceeds NumberOfPtes. */
  lemma RunsFitInImage(p: ImageParams, sections: seq<SectionHeader>, eof: u32, u: Uninitialised, j: nat)
    requires SizeVerified(p) && p.sectionAlignment >= PAGE_SIZE
    requires ImageLayoutAsWritten(p, sections, eof, u).Laid?
    requires j <= |sections|
    ensures var subs := ImageLayoutAsWritten(p, sections, eof, u).info.subsections;
            j < |subs| && subs[j].firstPte + subs[j].ptesInSubsection <= ImagePtes(p)
  {
    LaidImageIsWellLaid(p, sections, eof, u);
    var r := ImageLayoutAsWritten(p, sections, eof, u);
    RunEnd(r.ptes, r.info, sections, p, j);
  }

  lemma RunEnd(ptes: seq<Pte>, info: SegmentInfo, sections: seq<SectionHeader>, p: ImageParams, j: nat)
    requires SizeVerified(p) && WellLaid(ptes, info, sections, p) && j <= |sections|
    ensures info.subsections[j].firstPte + info.subsections[j].ptesInSubsection <= |ptes|
  {
    if 0 < j {
      assert SectionRunOk(ptes, sections, info.subsections, j - 1, p);
      assert RunPtesOk(ptes, sections[j - 1], info.subsections[j], j - 1, p);
    }
  }

  /** A sub-page image maps every page through the single subsection, copy-on-write. */
  lemma SubPageLayout(p: ImageParams, sections: seq<SectionHeader>, eof: u32)
    requires SizeVerified(p) && p.sectionAlignment < PAGE_SIZE
    ensures var r := ImageLayout(p, sections, eof);
      && (r.Laid? <==> p.imageBase % X64K == 0
                       && forall j :: 0 <= j < |sections| ==> SubPageSectionOk(sections[j], eof))
      && (r.Laid? ==>
            && |r.ptes| == ImagePtes(p)
            && (forall k :: 0 <= k < |r.ptes| ==> r.ptes[k] == FileBacked(0, MM_EXECUTE_WRITECOPY))
            && r.info == SegmentInfo(1, [SubPageSubsection(ImagePtes(p), eof)], ImagePtes(p), 0, false))
  {
    And64KLow(p.imageBase);
  }

  /** A base address off a 64 KiB boundary is rejected, whatever else the headers say. */
  lemma UnalignedBaseRejected(p: ImageParams, sections: seq<SectionHeader>, eof: u32, u: Uninitialised)
    requires SizeVerified(p) && p.imageBase % X64K != 0
    ensures ImageLayoutAsWritten(p, sections, eof, u) == BadImage
  {
    And64KLow(p.imageBase);
  }

  /** A header run longer than the image is rejected. */
  lemma HeaderLongerThanImageRejected(p: ImageParams, sections: seq<SectionHeader>, eof: u32, u: Uninitialised)
    requires SizeVerified(p) && p.sectionAlignment >= PAGE_SIZE
    requires HeaderPteCount(p) > ImagePtes(p)
    ensures ImageLayoutAsWritten(p, sections, eof, u) == BadImage
  {
  }

  // ---------------------------------------------------------------------
  // Commitment, global memory, subsection records and the file size
  // ---------------------------------------------------------------------

  predicate Writable(s: SectionHeader) { IsWritable(SectionProtection(s)) }

  /** A writable copy-on-write section (cow) or a writable shared section (!cow). */
  predicate WriteKind(s: SectionHeader, cow: bool)
  {
    Writable(s) && IsCopyOnWrite(SectionProtection(s)) == cow
  }

  predicate AllWritableFrom(ss: seq<SectionHeader>, i: nat)
  {
    forall m :: i <= m < |ss| ==> Writable(ss[m])
  }

  /**
   * The value of ImageCommit (cow) or SectionCommit (!cow) after the
   * sections ss, starting from init: some section of that kind was followed
   * by writable sections only, or init survived because every section was
   * writable.
   */
  predicate FlagAfter(ss: seq<SectionHeader>, init: bool, cow: bool)
  {
    || (exists i :: 0 <= i < |ss| && WriteKind(ss[i], cow) && AllWritableFrom(ss, i))
    || (init && AllWritableFrom(ss, 0))
  }

  /** The ImageCommitment (cow) or NumberOfCommittedPages (!cow) the sections ss add up to. */
  function CommitTotal(ss: seq<SectionHeader>, init: bool, cow: bool, sa: u32): nat
  {
    if |ss| == 0 then 0
    else CommitTotal(ss[..|ss| - 1], init, cow, sa)
         + (if FlagAfter(ss, init, cow) then AccessiblePages(ss[|ss| - 1], sa) else 0)
  }

  /** The file offset just past a section's raw data: ImageFileSize after it. */
  function FileEnd(s: SectionHeader): u32
  {
    Add32(EffectiveRawPointer(s), s.sizeOfRawData)
  }

  /** Every section subsection records its section's sectors and protection. */
  ghost predicate RecordsAfter(subs: seq<Subsection>, sections: seq<SectionHeader>, j: nat, p: ImageParams)
    requires j <= |sections| && |subs| == j + 1
  {
    forall i :: 1 <= i <= j ==> subs[i] == SectionSubsection(sections[i - 1], subs[i].firstPte, p)
  }

  /** The commit flags and totals after the sections done. */
  predicate CommitAfter(c: Counters, done: seq<SectionHeader>, u: Uninitialised, sa: u32)
  {
    && c.imageCommit == FlagAfter(done, u.imageCommit, true)
    && c.sectionCommit == FlagAfter(done, u.sectionCommit, false)
    && c.imageCommitment == CommitTotal(done, u.imageCommit, true, sa)
    && c.committedPages == CommitTotal(done, u.sectionCommit, false, sa)
  }

  /** GlobalMemory: some section among the first j is shared and writable. */
  ghost predicate SharedWriteBefore(sections: seq<SectionHeader>, j: nat)
    requires j <= |sections|
  {
    exists i :: 0 <= i < j && WriteKind(sections[i], false)
  }

  /** What the counters hold after the first j sections. */
  ghost predicate CountersAfter(c: Counters, sections: seq<SectionHeader>, j: nat, u: Uninitialised, p: ImageParams)
    requires j <= |sections|
  {
    && |c.subsections| == j + 1
    && RecordsAfter(c.subsections, sections, j, p)
    && CommitAfter(c, sections[..j], u, p.sectionAlignment)
    && c.globalMemory == SharedWriteBefore(sections, j)
    && c.imageFileSize == (if j == 0 then u.imageFileSize else FileEnd(sections[j - 1]))
  }

  /** The flag update of one section agrees with FlagAfter. */
  lemma FlagStep(ss: seq<SectionHeader>, s: SectionHeader, init: bool, cow: bool)
    ensures FlagAfter(ss + [s], init, cow) ==
      (if cow then NextImageCommit(SectionProtection(s), FlagAfter(ss, init, cow))
       else NextSectionCommit(SectionProtection(s), FlagAfter(ss, init, cow)))
  {
    if !Writable(s) {
      FlagClearedByReadOnly(ss, s, init, cow);
    } else if WriteKind(s, cow) {
      assert AllWritableFrom(ss + [s], |ss|);
    } else {
      FlagKeptByOtherWrite(ss, s, init, cow);
    }
  }

  lemma FlagClearedByReadOnly(ss: seq<SectionHeader>, s: SectionHeader, init: bool, cow: bool)
    requires !Writable(s)
    ensures !FlagAfter(ss + [s], init, cow)
  {
    var ss' := ss + [s];
    assert ss'[|ss|] == s;
    forall i | 0 <= i < |ss'| ensures !AllWritableFrom(ss', i) { assert !Writable(ss'[|ss|]); }
    assert !AllWritableFrom(ss', 0);
  }

  lemma FlagKeptByOtherWrite(ss: seq<SectionHeader>, s: SectionHeader, init: bool, cow: bool)
    requires Writable(s) && !WriteKind(s, cow)
    ensures FlagAfter(ss + [s], init, cow) == FlagAfter(ss, init, cow)
  {
    var ss' := ss + [s];
    AllWritableAppend(ss, s, 0);
    if exists i :: 0 <= i < |ss'| && WriteKind(ss'[i], cow) && AllWritableFrom(ss', i) {
      var i :| 0 <= i < |ss'| && WriteKind(ss'[i], cow) && AllWritableFrom(ss', i);
      assert i < |ss| && ss'[i] == ss[i];
      AllWritableAppend(ss, s, i);
    }
    if exists i :: 0 <= i < |ss| && WriteKind(ss[i], cow) && AllWritableFrom(ss, i) {
      var i :| 0 <= i < |ss| && WriteKind(ss[i], cow) && AllWritableFrom(ss, i);
      assert ss'[i] == ss[i];
      AllWritableAppend(ss, s, i);
    }
  }

  lemma AllWritableAppend(ss: seq<SectionHeader>, s: SectionHeader, i: nat)
    requires Writable(s) && i <= |ss|
    ensures AllWritableFrom(ss + [s], i) == AllWritableFrom(ss, i)
  {
    var ss' := ss + [s];
    if AllWritableFrom(ss, i) {
      forall m | i <= m < |ss'| ensures Writable(ss'[m]) {
        if m < |ss| { assert ss'[m] == ss[m]; }
      }
    } else {
      var m :| i <= m < |ss| && !Writable(ss[m]);
      assert ss'[m] == ss[m];
    }
  }

  /** What one successful step does to the counters. */
  lemma StepCounterFacts(st: BuildState, s: SectionHeader, n: nat, p: ImageParams)
    requires SectionStep(st, s, n, p).Some?
    ensures var c := st.c;
      var c' := SectionStep(st, s, n, p).value.c;
      var prot := SectionProtection(s);
      var accessible := AccessiblePages(s, p.sectionAlignment);
      && c'.subsections == c.subsections + [SectionSubsection(s, |st.ptes|, p)]
      && c'.imageCommit == NextImageCommit(prot, c.imageCommit)
      && c'.sectionCommit == NextSectionCommit(prot, c.sectionCommit)
      && c'.imageCommitment == c.imageCommitment + (if c'.imageCommit then accessible else 0)
      && c'.committedPages == c.committedPages + (if c'.sectionCommit then accessible else 0)
      && c'.globalMemory == (c.globalMemory || WriteKind(s, false))
      && c'.imageFileSize == FileEnd(s)
  {
  }

  lemma CountersExtend(c: Counters, c': Counters, sub: Subsection, sections: seq<SectionHeader>, j: nat, u: Uninitialised, p: ImageParams)
    requires j < |sections| && CountersAfter(c, sections, j, u, p)
    requires var s := sections[j];
      var prot := SectionProtection(s);
      var accessible := AccessiblePages(s, p.sectionAlignment);
      && sub == SectionSubsection(s, sub.firstPte, p)
      && c'.subsections == c.subsections + [sub]
      && c'.imageCommit == NextImageCommit(prot, c.imageCommit)
      && c'.sectionCommit == NextSectionCommit(prot, c.sectionCommit)
      && c'.imageCommitment == c.imageCommitment + (if c'.imageCommit then accessible else 0)
      && c'.committedPages == c.committedPages + (if c'.sectionCommit then accessible else 0)
      && c'.globalMemory == (c.globalMemory || WriteKind(s, false))
      && c'.imageFileSize == FileEnd(s)
    ensures CountersAfter(c', sections, j + 1, u, p)
  {
    RecordsExtend(c.subsections, sub, sections, j, p);
    var done := sections[..j];
    assert sections[..j + 1] == done + [sections[j]];
    CommitExtend(c, c', done, sections[j], u, p.sectionAlignment);
    SharedWriteExtend(sections, j);
  }

  lemma RecordsExtend(subs: seq<Subsection>, sub: Subsection, sections: seq<SectionHeader>, j: nat, p: ImageParams)
    requires j < |sections| && |subs| == j + 1 && RecordsAfter(subs, sections, j, p)
    requires sub == SectionSubsection(sections[j], sub.firstPte, p)
    ensures RecordsAfter(subs + [sub], sections, j + 1, p)
  {
    var subs' := subs + [sub];
    forall i | 1 <= i <= j + 1
      ensures subs'[i] == SectionSubsection(sections[i - 1], subs'[i].firstPte, p)
    {
      if i <= j {
        assert subs'[i] == subs[i];
      } else {
        assert i - 1 == j && subs'[i] == sub;
      }
    }
  }

  lemma CommitExtend(c: Counters, c': Counters, done: seq<SectionHeader>, s: SectionHeader, u: Uninitialised, sa: u32)
    requires CommitAfter(c, done, u, sa)
    requires var prot := SectionProtection(s);
      var accessible := AccessiblePages(s, sa);
      && c'.imageCommit == NextImageCommit(prot, c.imageCommit)
      && c'.sectionCommit == NextSectionCommit(prot, c.sectionCommit)
      && c'.imageCommitment == c.imageCommitment + (if c'.imageCommit then accessible else 0)
      && c'.committedPages == c.committedPages + (if c'.sectionCommit then accessible else 0)
    ensures CommitAfter(c', done + [s], u, sa)
  {
    var done' := done + [s];
    assert done'[..|done'| - 1] == done;
    assert done'[|done'| - 1] == s;
    FlagStep(done, s, u.imageCommit, true);
    FlagStep(done, s, u.sectionCommit, false);
  }

  lemma SharedWriteExtend(sections: seq<SectionHeader>, j: nat)
    requires j < |sections|
    ensures SharedWriteBefore(sections, j + 1) == (SharedWriteBefore(sections, j) || WriteKind(sections[j], false))
  {
    if WriteKind(sections[j], false) {
      assert 0 <= j < j + 1 && WriteKind(sections[j], false);
    }
  }

  lemma CountersStep(st: BuildState, sections: seq<SectionHeader>, j: nat, u: Uninitialised, p: ImageParams)
    requires j < |sections| && CountersAfter(st.c, sections, j, u, p)
    requires SectionStep(st, sections[j], j + 1, p).Some?
    ensures CountersAfter(SectionStep(st, sections[j], j + 1, p).value.c, sections, j + 1, u, p)
  {
    StepCounterFacts(st, sections[j], j + 1, p);
    var sub := SectionSubsection(sections[j], |st.ptes|, p);
    CountersExtend(st.c, SectionStep(st, sections[j], j + 1, p).value.c, sub, sections, j, u, p);
  }

  lemma {:induction false} SectionsKeepCounters(st: BuildState, sections: seq<SectionHeader>, j: nat, u: Uninitialised, p: ImageParams)
    requires j <= |sections| && CountersAfter(st.c, sections, j, u, p)
    requires SectionsFrom(st, sections, j, p).Some?
    ensures CountersAfter(SectionsFrom(st, sections, j, p).value.c, sections, |sections|, u, p)
    decreases |sections| - j
  {
    if j < |sections| {
      CountersStep(st, sections, j, u, p);
      SectionsKeepCounters(SectionStep(st, sections[j], j + 1, p).value, sections, j + 1, u, p);
    }
  }

  lemma HeaderPhaseCounters(p: ImageParams, eof: u32, u: Uninitialised, sections: seq<SectionHeader>)
    requires SizeVerified(p) && p.sectionAlignment >= PAGE_SIZE
    requires HeaderPhase(p, eof, u).Some?
    ensures CountersAfter(HeaderPhase(p, eof, u).value.c, sections, 0, u, p)
  {
    assert sections[..0] == [];
  }

  /**
   * For an image aligned on a page or more: every section subsection records
   * its section's starting and ending sectors and protection; ImageCommitment
   * and NumberOfCommittedPages are the per-section sums the carried commit
   * flags select; GlobalMemory is set exactly when some section is shared and
   * writable; and the last section's raw data ends inside the file.
   */
  lemma LaidCounters(p: ImageParams, sections: seq<SectionHeader>, eof: u32, u: Uninitialised)
    requires SizeVerified(p) && p.sectionAlignment >= PAGE_SIZE
    requires ImageLayoutAsWritten(p, sections, eof, u).Laid?
    ensures var info := ImageLayoutAsWritten(p, sections, eof, u).info;
      && info.numberOfSubsections == |sections|
      && |info.subsections| == |sections| + 1
      && (forall i :: 1 <= i <= |sections| ==>
            info.subsections[i] == SectionSubsection(sections[i - 1], info.subsections[i].firstPte, p))
      && info.imageCommitment == CommitTotal(sections, u.imageCommit, true, p.sectionAlignment)
      && info.committedPages == CommitTotal(sections, u.sectionCommit, false, p.sectionAlignment)
      && (info.globalMemory <==> exists i :: 0 <= i < |sections| && WriteKind(sections[i], false))
      && (|sections| > 0 ==> FileEnd(sections[|sections| - 1]) <= eof)
      && (|sections| == 0 ==> u.imageFileSize <= eof)
  {
    var st, st' := LaidDecompose(p, sections, eof, u);
    HeaderPhaseCounters(p, eof, u, sections);
    SectionsKeepCounters(st, sections, 0, u, p);
    assert sections[..|sections|] == sections;
  }

  /** Without a section of the flag's kind, and with the flag clear at the start, nothing is counted. */
  lemma {:induction false} NoKindNoCommit(ss: seq<SectionHeader>, cow: bool, sa: u32)
    requires forall i :: 0 <= i < |ss| ==> !WriteKind(ss[i], cow)
    ensures CommitTotal(ss, false, cow, sa) == 0
    decreases |ss|
  {
    if |ss| > 0 {
      var front := ss[..|ss| - 1];
      assert forall i :: 0 <= i < |front| ==> front[i] == ss[i];
      NoKindNoCommit(front, cow, sa);
      assert !FlagAfter(ss, false, cow);
    }
  }

  /**
   * With the locals initialised, NumberOfCommittedPages is 0 and GlobalMemory
   * clear unless some section is shared and writable, and ImageCommitment is 0
   * unless some section is copy-on-write.
   */
  lemma CommitmentNeedsWritableSections(p: ImageParams, sections: seq<SectionHeader>, eof: u32)
    requires SizeVerified(p) && p.sectionAlignment >= PAGE_SIZE
    requires ImageLayout(p, sections, eof).Laid?
    ensures var info := ImageLayout(p, sections, eof).info;
      && ((forall i :: 0 <= i < |sections| ==> !WriteKind(sections[i], false))
            ==> info.committedPages == 0 && !info.globalMemory)
      && ((forall i :: 0 <= i < |sections| ==> !WriteKind(sections[i], true))
            ==> info.imageCommitment == 0)
  {
    LaidCounters(p, sections, eof, Initialised);
    if forall i :: 0 <= i < |sections| ==> !WriteKind(sections[i], false) {
      NoKindNoCommit(sections, false, p.sectionAlignment);
    }
    if forall i :: 0 <= i < |sections| ==> !WriteKind(sections[i], true) {
      NoKindNoCommit(sections, true, p.sectionAlignment);
    }
  }

  /**
   * The flag carry-over: after a copy-on-write section, ImageCommit stays set
   * through a following shared writable section, so ImageCommitment counts the
   * accessible pages of both, while NumberOfCommittedPages counts only the second.
   */
  lemma CommitCarriesOver(a: SectionHeader, b: SectionHeader, sa: u32)
    requires WriteKind(a, true) && WriteKind(b, false)
    ensures CommitTotal([a, b], false, true, sa) == AccessiblePages(a, sa) + AccessiblePages(b, sa)
    ensures CommitTotal([a, b], false, false, sa) == AccessiblePages(b, sa)
  {
    var ss := [a, b];
    assert ss[..1] == [a] && ss[1] == b;
    assert [a][..0] == [];
    assert FlagAfter([a], false, true) by { assert AllWritableFrom([a], 0); }
    assert FlagAfter(ss, false, true) by { assert AllWritableFrom(ss, 0); }
    assert !FlagAfter([a], false, false);
    assert FlagAfter(ss, false, false) by { assert AllWritableFrom(ss, 1); }
    assert CommitTotal([a], false, true, sa) == AccessiblePages(a, sa);
    assert CommitTotal([a], false, false, sa) == 0;
  }

  // ---------------------------------------------------------------------
  // The uninitialised locals
  // ---------------------------------------------------------------------

  /** The example image: 64 KiB base, page alignment, 0x400 bytes of headers. */
  function ExampleImage(sizeOfImage: u32): ImageParams
  {
    ImageParams(0x1_0000, 0x1000, 0x200, sizeOfImage, 0x400)
  }

  /** A one-page initialised-data section at RVA 0x1000, 0x200 bytes at file offset 0x400, read/write. */
  const ExampleSection: SectionHeader := SectionHeader(0x1000, 0x1000, 0x200, 0x400, 0xC000_0040)

  lemma ExampleArithmetic()
    ensures And32(0x1_0000, X64K - 1) == 0
    ensures RoundToSize(0x400, 0x1000) == 0x1000
    ensures RoundToSize(0x1000, 0x1000) == 0x1000
  {
    ExampleBase();
    ExampleRound(0x400);
    ExampleRound(0x1000);
  }

  lemma ExampleBase()
    ensures And32(0x1_0000, X64K - 1) == 0
  {
    And64KLow(0x1_0000);
  }

  lemma ExampleRound(x: u32)
    requires 0 < x <= 0x1000
    ensures RoundToSize(x, 0x1000) == 0x1000
  {
    var r := RoundToSize(x, 0x1000);
    assert r % 0x1000 == 0 && x <= r < x + 0x1000 by {
      Pow2Values();
      RoundToSizePow2(x, 12);
    }
    var q := r / 0x1000;
    assert r == 0x1000 * q;
    assert q == 1;
  }

  lemma ExampleHeaderPhase(p: ImageParams, eof: u32, u: Uninitialised)
    requires p.imageBase == 0x1_0000 && p.sectionAlignment == 0x1000 && p.sizeOfHeaders == 0x400
    requires SizeVerified(p) && 1 <= ImagePtes(p)
    ensures var h := HeaderPhase(p, eof, u);
      && h.Some? && |h.value.ptes| == 1 && h.value.c.left == ImagePtes(p) - 1
      && h.value.c.nextVa == 0x1_1000 && h.value.c.imageCommit == u.imageCommit
      && h.value.c.sectionCommit == u.sectionCommit && h.value.c.imageFileSize == u.imageFileSize
  {
    ExampleArithmetic();
    assert RoundToSize(p.sizeOfHeaders, p.sectionAlignment) == 0x1000;
    assert HeaderPteCount(p) == 1;
    VaAtNoWrap(p.imageBase, 1);
  }

  lemma ExampleSectionStep(st: BuildState, p: ImageParams)
    requires p == ExampleImage(0x2000) && st.c.nextVa == 0x1_1000 && st.c.left == 1
    ensures var r := SectionStep(st, ExampleSection, 1, p);
      && r.Some? && r.value.c.left == 0 && r.value.c.imageFileSize == 0x600
  {
    var s := ExampleSection;
    assert p.sectionAlignment == 0x1000 && p.imageBase == 0x1_0000;
    assert SectionPteCount(s, p.sectionAlignment) == 1 by {
      assert EffectiveVirtualSize(s) == 0x1000;
      ExampleRound(0x1000);
    }
    assert Add32(p.imageBase, s.virtualAddress) == 0x1_1000;
    assert FileEnd(s) == 0x600;
    StepTaken(st, s, 1, p);
  }

  /** A section that starts at the next address and fits in what is left is taken. */
  lemma StepTaken(st: BuildState, s: SectionHeader, n: nat, p: ImageParams)
    requires st.c.nextVa == Add32(p.imageBase, s.virtualAddress) && EffectiveVirtualSize(s) != 0
    requires SectionPteCount(s, p.sectionAlignment) <= st.c.left
    ensures var r := SectionStep(st, s, n, p);
      && r.Some? && r.value.c.left == st.c.left - SectionPteCount(s, p.sectionAlignment)
      && r.value.c.imageFileSize == FileEnd(s)
  {
  }

  /**
   * SectionCommit is read before it is written: for an image whose only
   * section is copy-on-write, whatever the local held decides whether its
   * page is charged. Initialised to FALSE, nothing is charged.
   */
  lemma SectionCommitGarbageCharged()
    ensures var p := ExampleImage(0x2000);
      var garbage := ImageLayoutAsWritten(p, [ExampleSection], 0x600, Uninitialised(false, true, 0));
      var clean := ImageLayout(p, [ExampleSection], 0x600);
      && garbage.Laid? && garbage.info.committedPages == 1
      && clean.Laid? && clean.info.committedPages == 0
  {
    GarbageCommitCharges();
    CleanCommitChargesNothing();
  }

  /** The example section is writable and copy-on-write. */
  lemma ExampleWriteKinds()
    ensures WriteKind(ExampleSection, true) && !WriteKind(ExampleSection, false)
  {
    WritableIffWriteBit(ExampleSection.characteristics);
  }

  lemma GarbageCommitCharges()
    ensures var r := ImageLayoutAsWritten(ExampleImage(0x2000), [ExampleSection], 0x600, Uninitialised(false, true, 0));
      r.Laid? && r.info.committedPages == 1
  {
    var p := ExampleImage(0x2000);
    var s := ExampleSection;
    var u := Uninitialised(false, true, 0);
    ExampleLaid(p, u);
    LaidCommittedPages(p, [s], 0x600, u);
    ExampleCommitTotal();
  }

  /** Starting from TRUE, the one writable section keeps the flag and charges its one page. */
  lemma ExampleCommitTotal()
    ensures CommitTotal([ExampleSection], true, false, 0x1000) == 1
  {
    var s := ExampleSection;
    ExampleWriteKinds();
    assert AccessiblePages(s, 0x1000) == 1 by {
      ExampleRound(0x1000);
    }
    assert FlagAfter([s], true, false) by { assert AllWritableFrom([s], 0); }
    CommitTotalOne(s, true, false, 0x1000);
  }

  lemma LaidCommittedPages(p: ImageParams, sections: seq<SectionHeader>, eof: u32, u: Uninitialised)
    requires SizeVerified(p) && p.sectionAlignment >= PAGE_SIZE
    requires ImageLayoutAsWritten(p, sections, eof, u).Laid?
    ensures ImageLayoutAsWritten(p, sections, eof, u).info.committedPages
      == CommitTotal(sections, u.sectionCommit, false, p.sectionAlignment)
  {
    LaidCounters(p, sections, eof, u);
  }

  lemma CommitTotalOne(s: SectionHeader, init: bool, cow: bool, sa: u32)
    ensures CommitTotal([s], init, cow, sa) == if FlagAfter([s], init, cow) then AccessiblePages(s, sa) else 0
  {
    assert [s][..0] == [];
  }

  lemma CleanCommitChargesNothing()
    ensures var r := ImageLayout(ExampleImage(0x2000), [ExampleSection], 0x600);
      r.Laid? && r.info.committedPages == 0
  {
    var p := ExampleImage(0x2000);
    ExampleWriteKinds();
    ExampleLaid(p, Initialised);
    CommitmentNeedsWritableSections(p, [ExampleSection], 0x600);
  }

  lemma ExampleLaid(p: ImageParams, u: Uninitialised)
    requires p == ExampleImage(0x2000)
    ensures ImageLayoutAsWritten(p, [ExampleSection], 0x600, u).Laid?
  {
    assert ImagePtes(p) == 2;
    ExampleHeaderPhase(p, 0x600, u);
    var st := HeaderPhase(p, 0x600, u).value;
    ExampleSectionStep(st, p);
    OneSection(st, ExampleSection, p);
    var st' := SectionStep(st, ExampleSection, 1, p).value;
    assert p.sectionAlignment / PAGE_SIZE == 1;
    LaidWhenFinished(p, [ExampleSection], 0x600, u, st, st');
  }

  /** A list of one section is laid out by its one step. */
  lemma OneSection(st: BuildState, s: SectionHeader, p: ImageParams)
    ensures SectionsFrom(st, [s], 0, p) == SectionStep(st, s, 1, p)
  {
    match SectionStep(st, s, 1, p)
    case None =>
    case Some(st') => assert SectionsFrom(st', [s], 1, p) == Some(st');
  }

  /** Past the header, the sections and the two final checks, the image is laid out. */
  lemma LaidWhenFinished(p: ImageParams, sections: seq<SectionHeader>, eof: u32, u: Uninitialised, st: BuildState, st': BuildState)
    requires SizeVerified(p) && HeaderPhase(p, eof, u) == Some(st) && p.sectionAlignment >= PAGE_SIZE
    requires SectionsFrom(st, sections, 0, p) == Some(st')
    requires st'.c.imageFileSize <= eof && st'.c.left < p.sectionAlignment / PAGE_SIZE
    ensures ImageLayoutAsWritten(p, sections, eof, u).Laid?
  {
  }

  /**
   * ImageFileSize is read before it is written when there are no section
   * headers: whatever the local held is compared with the file size.
   */
  lemma FileSizeGarbageRejects()
    ensures var p := ExampleImage(0x1000);
      && ImageLayoutAsWritten(p, [], 0x400, Uninitialised(false, false, 0xFFFF)) == BadImage
      && ImageLayout(p, [], 0x400).Laid?
  {
    var p := ExampleImage(0x1000);
    assert ImagePtes(p) == 1;
    ExampleHeaderPhase(p, 0x400, Uninitialised(false, false, 0xFFFF));
    ExampleHeaderPhase(p, 0x400, Initialised);
  }

  /** With ImageFileSize initialised, an image without sections does not depend on the file size. */
  lemma NoSectionsIgnoreFileSize(p: ImageParams, eof1: u32, eof2: u32)
    requires SizeVerified(p) && p.sectionAlignment >= PAGE_SIZE
    ensures ImageLayout(p, [], eof1) == ImageLayout(p, [], eof2)
  {
  }
}
