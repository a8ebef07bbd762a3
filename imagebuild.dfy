/**
 * The PTE-filling loops of MiCreateImageFileMap over the prototype-PTE
 * array of the new segment, each proved to build exactly the layout that
 * ImageMap.ImageLayoutAsWritten describes.
 */
module ImageBuild {
  import opened Common
  import opened ImageProtection
  import opened ImageMap
  import PagingMap

  lemma SliceSplit<T>(a: seq<T>, i: nat, j: nat)
    requires i <= j <= |a|
    ensures a[..j] == a[..i] + a[i..j]
  {
  }

  /** A page starts below a size exactly when its index is below the size in pages. */
  lemma PageBelowSize(k: nat, size: nat)
    ensures k * PAGE_SIZE < size <==> k < BytesToPages(size)
  {
    var r := BytesToPages(size);
    if k < r {
      assert k * PAGE_SIZE <= (r - 1) * PAGE_SIZE;
    } else {
      assert k * PAGE_SIZE >= r * PAGE_SIZE;
    }
  }

  /** One more page below the virtual size adds one to the accessible count. */
  lemma AccessibleStep(i: nat, size: nat)
    ensures Min(i + 1, BytesToPages(size)) == Min(i, BytesToPages(size)) + (if i * PAGE_SIZE < size then 1 else 0)
  {
    PageBelowSize(i, size);
  }

  /**
   * The page loop of one section: PtesInSubsection PTEs from pos on, each in
   * the state its offset gives it, counting every accessible page into the
   * commitment the flags select, and advancing NextVa a page at a time.
   */
  method FillSectionPtes(ptes: array<Pte>, pos: nat, s: SectionHeader, n: nat, sa: u32,
                         imageCommit: bool, sectionCommit: bool,
                         imageCommitment: nat, committedPages: nat, nextVa: u32)
      returns (imageCommitment': nat, committedPages': nat, nextVa': u32)
    requires pos + SectionPteCount(s, sa) <= ptes.Length
    modifies ptes
    ensures ptes[..pos] == old(ptes[..pos])
    ensures ptes[pos..pos + SectionPteCount(s, sa)] == SectionPtes(s, n, sa)
    ensures ptes[pos + SectionPteCount(s, sa)..] == old(ptes[pos + SectionPteCount(s, sa)..])
    ensures imageCommitment' == imageCommitment + (if imageCommit then AccessiblePages(s, sa) else 0)
    ensures committedPages' == committedPages + (if sectionCommit then AccessiblePages(s, sa) else 0)
    ensures nextVa' == VaAt(nextVa, SectionPteCount(s, sa))
  {
    var count := SectionPteCount(s, sa);
    var virtualSize := EffectiveVirtualSize(s);
    var prot := SectionProtection(s);
    var template := SectionTemplate(s, n);
    var offset := 0;
    imageCommitment', committedPages', nextVa' := imageCommitment, committedPages, nextVa;
    var i := 0;
    while i < count
      invariant 0 <= i <= count && offset == i * PAGE_SIZE
      invariant forall k :: 0 <= k < i ==> ptes[pos + k] == SectionPte(s, n, k)
      invariant forall k :: 0 <= k < ptes.Length && !(pos <= k < pos + i) ==> ptes[k] == old(ptes[k])
      invariant imageCommitment' == imageCommitment + (if imageCommit then Min(i, BytesToPages(virtualSize)) else 0)
      invariant committedPages' == committedPages + (if sectionCommit then Min(i, BytesToPages(virtualSize)) else 0)
      invariant nextVa' == VaAt(nextVa, i)
    {
      AccessibleStep(i, virtualSize);
      if offset < virtualSize {
        if sectionCommit {
          committedPages' := committedPages' + 1;
        }
        if imageCommit {
          imageCommitment' := imageCommitment' + 1;
        }
        if offset < s.sizeOfRawData {
          ptes[pos + i] := template;
        } else {
          ptes[pos + i] := DemandZero(prot);
        }
      } else {
        ptes[pos + i] := NoAccess;
      }
      VaAtAdd(nextVa, i, 1);
      nextVa' := Add32(nextVa', PAGE_SIZE);
      offset := offset + PAGE_SIZE;
      i := i + 1;
    }
    assert ptes[pos..pos + count] == SectionPtes(s, n, sa) by {
      forall k | 0 <= k < count
        ensures ptes[pos..pos + count][k] == SectionPtes(s, n, sa)[k]
      {
        assert ptes[pos + k] == SectionPte(s, n, k);
      }
    }
  }

  /** The header loop: a PTE per header page, file-backed while the page starts inside SizeOfHeaders. */
  method FillHeaderPtes(ptes: array<Pte>, p: ImageParams, h: nat) returns (nextVa: u32)
    requires h <= ptes.Length
    modifies ptes
    ensures forall k :: 0 <= k < h ==> ptes[k] == HeaderPte(p, k)
    ensures forall k :: h <= k < ptes.Length ==> ptes[k] == old(ptes[k])
    ensures nextVa == VaAt(p.imageBase, h)
  {
    var template := FileBacked(0, MM_READONLY);
    var offset := 0;
    nextVa := p.imageBase;
    var i := 0;
    while i < h
      invariant 0 <= i <= h && offset == i * PAGE_SIZE
      invariant forall k :: 0 <= k < i ==> ptes[k] == HeaderPte(p, k)
      invariant forall k :: i <= k < ptes.Length ==> ptes[k] == old(ptes[k])
      invariant nextVa == VaAt(p.imageBase, i)
    {
      if offset < p.sizeOfHeaders {
        ptes[i] := template;
      } else {
        ptes[i] := NoAccess;
      }
      VaAtAdd(p.imageBase, i, 1);
      nextVa := Add32(nextVa, PAGE_SIZE);
      offset := offset + PAGE_SIZE;
      i := i + 1;
    }
  }

  /** The sub-page loop: every prototype PTE refers to the single subsection. */
  method FillAll(ptes: array<Pte>, template: Pte)
    modifies ptes
    ensures forall k :: 0 <= k < ptes.Length ==> ptes[k] == template
  {
    var i := 0;
    while i < ptes.Length
      invariant 0 <= i <= ptes.Length
      invariant forall k :: 0 <= k < i ==> ptes[k] == template
    {
      ptes[i] := template;
      i := i + 1;
    }
  }

  /** The trailing loop: the PTEs from pos to the end become no-access. */
  method FillNoAccessTail(ptes: array<Pte>, pos: nat)
    requires pos <= ptes.Length
    modifies ptes
    ensures forall k :: 0 <= k < pos ==> ptes[k] == old(ptes[k])
    ensures forall k :: pos <= k < ptes.Length ==> ptes[k] == NoAccess
  {
    var i := pos;
    var left := ptes.Length - pos;
    while left != 0
      invariant pos <= i <= ptes.Length && left == ptes.Length - i
      invariant forall k :: 0 <= k < pos ==> ptes[k] == old(ptes[k])
      invariant forall k :: pos <= k < i ==> ptes[k] == NoAccess
    {
      ptes[i] := NoAccess;
      i := i + 1;
      left := left - 1;
    }
  }

  /** The sub-page scan of the section table: it stops at the first section that fails. */
  method CheckSubPageSections(sections: seq<SectionHeader>, eof: u32) returns (ok: bool)
    ensures ok <==> forall j :: 0 <= j < |sections| ==> SubPageSectionOk(sections[j], eof)
  {
    var j := 0;
    while j < |sections|
      invariant 0 <= j <= |sections|
      invariant forall i :: 0 <= i < j ==> SubPageSectionOk(sections[i], eof)
    {
      var s := sections[j];
      var virtualSize := if s.virtualSize == 0 then s.sizeOfRawData else s.virtualSize;
      if Add32(s.sizeOfRawData, s.pointerToRawData) > eof {
        return false;
      }
      if s.pointerToRawData != s.virtualAddress || virtualSize > s.sizeOfRawData {
        return false;
      }
      j := j + 1;
    }
    return true;
  }

  /**
   * The commit flags of one section: copy-on-write sets ImageCommit, shared
   * write sets SectionCommit and marks the memory global, anything not
   * writable clears both flags.
   */
  method CommitFlags(prot: MmProtection, imageCommit: bool, sectionCommit: bool)
      returns (imageCommit': bool, sectionCommit': bool, globalMemory: bool)
    ensures imageCommit' == NextImageCommit(prot, imageCommit)
    ensures sectionCommit' == NextSectionCommit(prot, sectionCommit)
    ensures globalMemory <==> IsWritable(prot) && !IsCopyOnWrite(prot)
    ensures globalMemory ==> sectionCommit'
  {
    imageCommit', sectionCommit', globalMemory := imageCommit, sectionCommit, false;
    if IsWritable(prot) {
      if IsCopyOnWrite(prot) {
        imageCommit' := true;
      } else {
        sectionCommit' := true;
        globalMemory := true;
      }
    } else {
      imageCommit' := false;
      sectionCommit' := false;
    }
  }

  /**
   * One pass of the section loop with PointerPte at index pos and the
   * builder's locals held in c: the VA and size checks, then the record
   * and the page loop. It succeeds exactly when SectionStep does and then
   * leaves the array and the locals where SectionStep leaves them.
   */
  method BuildSection(ptes: array<Pte>, pos: nat, c: Counters, s: SectionHeader, n: nat, p: ImageParams)
      returns (ok: bool, pos': nat, c': Counters)
    requires pos + c.left == ptes.Length
    modifies ptes
    ensures var r := SectionStep(BuildState(old(ptes[..pos]), c), s, n, p);
      && ok == r.Some?
      && (ok ==> pos' == |r.value.ptes| && pos' + c'.left == ptes.Length
                 && ptes[..pos'] == r.value.ptes && c' == r.value.c)
  {
    var virtualSize := if s.virtualSize == 0 then s.sizeOfRawData else s.virtualSize;
    if c.nextVa != Add32(p.imageBase, s.virtualAddress) || virtualSize == 0 {
      return false, pos, c;
    }
    var count := RoundToSize(virtualSize, p.sectionAlignment) / PAGE_SIZE;
    if count > c.left {
      return false, pos, c;
    }
    ok := true;
    pos', c' := RecordSection(ptes, pos, c, s, n, p);
  }

  /**
   * The part of a section pass after its checks: the subsection record,
   * ImageFileSize, the commit flags and the page loop.
   */
  method RecordSection(ptes: array<Pte>, pos: nat, c: Counters, s: SectionHeader, n: nat, p: ImageParams)
      returns (pos': nat, c': Counters)
    requires pos + c.left == ptes.Length
    requires c.nextVa == Add32(p.imageBase, s.virtualAddress) && EffectiveVirtualSize(s) != 0
    requires SectionPteCount(s, p.sectionAlignment) <= c.left
    modifies ptes
    ensures pos' == pos + SectionPteCount(s, p.sectionAlignment) && pos' + c'.left == ptes.Length
    ensures ptes[..pos'] == old(ptes[..pos]) + SectionPtes(s, n, p.sectionAlignment)
    ensures var prot := SectionProtection(s);
            var imageCommit := NextImageCommit(prot, c.imageCommit);
            var sectionCommit := NextSectionCommit(prot, c.sectionCommit);
            var accessible := AccessiblePages(s, p.sectionAlignment);
            c' == Counters(c.subsections + [SectionSubsection(s, pos, p)],
                           c.left - SectionPteCount(s, p.sectionAlignment),
                           VaAt(c.nextVa, SectionPteCount(s, p.sectionAlignment)),
                           imageCommit, sectionCommit,
                           c.imageCommitment + (if imageCommit then accessible else 0),
                           c.committedPages + (if sectionCommit then accessible else 0),
                           c.globalMemory || (IsWritable(prot) && !IsCopyOnWrite(prot)),
                           Add32(EffectiveRawPointer(s), s.sizeOfRawData))
  {
    ghost var prefix := ptes[..pos];
    var count := RoundToSize(EffectiveVirtualSize(s), p.sectionAlignment) / PAGE_SIZE;
    var rawPointer := if s.sizeOfRawData == 0 then 0 else s.pointerToRawData;
    var fileAlignment := Sub32(p.fileAlignment, 1);
    var endingOffset := And32(Add32(Add32(rawPointer, s.sizeOfRawData), fileAlignment), Not32(fileAlignment));
    var imageFileSize := Add32(rawPointer, s.sizeOfRawData);
    var prot := MiGetImageProtection(s.characteristics);
    var imageCommit, sectionCommit, subGlobal := CommitFlags(prot, c.imageCommit, c.sectionCommit);
    var sub := Subsection(pos, count, rawPointer / 512, endingOffset / 512, endingOffset % 512,
                          prot, true, true, subGlobal);
    assert sub == SectionSubsection(s, pos, p);
    var imageCommitment, committedPages, nextVa :=
      FillSectionPtes(ptes, pos, s, n, p.sectionAlignment, imageCommit, sectionCommit,
                      c.imageCommitment, c.committedPages, c.nextVa);
    pos' := pos + count;
    c' := Counters(c.subsections + [sub], c.left - count, nextVa, imageCommit, sectionCommit,
                   imageCommitment, committedPages, c.globalMemory || subGlobal, imageFileSize);
    SliceSplit(ptes[..], pos, pos');
  }

  /** The section loop: one pass per section header until one fails. */
  method BuildSections(ptes: array<Pte>, pos: nat, c: Counters, sections: seq<SectionHeader>, p: ImageParams)
      returns (ok: bool, pos': nat, c': Counters)
    requires pos + c.left == ptes.Length
    modifies ptes
    ensures var r := SectionsFrom(BuildState(old(ptes[..pos]), c), sections, 0, p);
      && ok == r.Some?
      && (ok ==> pos' + c'.left == ptes.Length && ptes[..pos'] == r.value.ptes && c' == r.value.c)
  {
    ghost var st0 := BuildState(ptes[..pos], c);
    pos', c' := pos, c;
    var j := 0;
    while j < |sections|
      invariant 0 <= j <= |sections| && pos' + c'.left == ptes.Length
      invariant SectionsFrom(st0, sections, 0, p) == SectionsFrom(BuildState(ptes[..pos'], c'), sections, j, p)
    {
      var okj;
      okj, pos', c' := BuildSection(ptes, pos', c', sections[j], j + 1, p);
      if !okj {
        return false, pos', c';
      }
      j := j + 1;
    }
    ok := true;
  }

  /**
   * The charge at the end of the builder: a segment with committed pages
   * charges them and adds them to the shared commitment, unless the charge
   * faults, in which case nothing is charged and the fault is the status.
   */
  method ChargeImageCommitment(ledger: PagingMap.CommitLedger, committed: nat, res: ImageResources)
      returns (status: Status)
    modifies ledger
    ensures status == (if committed != 0 && ChargeFaults(res) then res.chargeFault.value else Success)
    ensures status == Success ==>
      && ledger.charged == old(ledger.charged) + committed
      && ledger.sharedCommit == old(ledger.sharedCommit) + committed
    ensures status != Success ==>
      ledger.charged == old(ledger.charged) && ledger.sharedCommit == old(ledger.sharedCommit)
  {
    if committed != 0 {
      if ChargeFaults(res) {
        return res.chargeFault.value;
      }
      ledger.MiChargeCommitment(committed);
      ledger.sharedCommit := ledger.sharedCommit + committed;
    }
    return Success;
  }

  /**
   * MiCreateImageFileMap up to the commitment charge: the prototype PTEs of
   * the new segment and what its control area records, or the failure
   * status of the exit the source takes (BadPeImageSegment or NeImage).
   * The pool allocations and the section-table fetch come in as `res`; the
   * three locals that the source reads before it writes them start from u.
   */
  method BuildImageSegment(p: ImageParams, sections: seq<SectionHeader>, eof: u32, u: Uninitialised,
                           res: ImageResources)
      returns (status: Status, ptes: array<Pte>, info: SegmentInfo)
    requires SizeVerified(p)
    ensures var r := ImageSegmentAsWritten(p, sections, eof, u, res);
      && (status == Success <==> r.ImageMapped?)
      && (r.ImageFailed? ==> status == r.status)
      && (r.ImageMapped? ==> ptes[..] == r.ptes && info == r.info)
  {
    info := SegmentInfo(0, [], 0, 0, false);
    if !res.controlArea || !res.segment {
      ptes := new Pte[0];
      return InsufficientResources, ptes, info;
    }
    var n := BytesToPages(p.sizeOfImage);
    ptes := new Pte[n](_ => NoAccess);
    if And32(p.imageBase, X64K - 1) != 0 {
      return InvalidImageFormat, ptes, info;
    }
    if p.sectionAlignment < PAGE_SIZE {
      FillAll(ptes, FileBacked(0, MM_EXECUTE_WRITECOPY));
      assert ptes[..] == seq(n, _ => FileBacked(0, MM_EXECUTE_WRITECOPY));
      status := TableStatus(res.table);
      if status != Success {
        return;
      }
      var ok := CheckSubPageSections(sections, eof);
      if ok {
        info := SegmentInfo(1, [SubPageSubsection(n, eof)], n, 0, false);
      } else {
        status := InvalidImageFormat;
      }
      return;
    }
    var h := RoundToSize(p.sizeOfHeaders, p.sectionAlignment) / PAGE_SIZE;
    if h > n {
      return InvalidImageFormat, ptes, info;
    }
    var nextVa := FillHeaderPtes(ptes, p, h);
    var c := Counters([HeaderSubsection(p)], n - h, nextVa, u.imageCommit, u.sectionCommit,
                      0, 0, false, u.imageFileSize);
    assert ptes[..h] == HeaderPtes(p);
    assert HeaderPhase(p, eof, u) == Some(BuildState(ptes[..h], c));
    status := TableStatus(res.table);
    if status != Success {
      return;
    }
    var ok, pos;
    ok, pos, c := BuildSections(ptes, h, c, sections, p);
    if !ok {
      return InvalidImageFormat, ptes, info;
    }
    if c.imageFileSize > eof || c.left >= p.sectionAlignment / PAGE_SIZE {
      return InvalidImageFormat, ptes, info;
    }
    ghost var laid := ptes[..pos];
    FillNoAccessTail(ptes, pos);
    assert ptes[..] == laid + seq(c.left, _ => NoAccess);
    info := SegmentInfo(|sections|, c.subsections, c.imageCommitment, c.committedPages, c.globalMemory);
  }

  /**
   * MiCreateImageFileMap from the decoded headers on: it returns the status
   * of the exit it takes, and on success the segment's PTEs and counters,
   * with its committed pages charged and added to the shared commitment.
   */
  method MiCreateImageFileMap(p: ImageParams, sections: seq<SectionHeader>, eof: u32, u: Uninitialised,
                              res: ImageResources, ledger: PagingMap.CommitLedger)
      returns (status: Status, ptes: array<Pte>, info: SegmentInfo)
    requires SizeVerified(p)
    modifies ledger
    ensures var r := ImageFileMapAsWritten(p, sections, eof, u, res);
      && (status == Success <==> r.ImageMapped?)
      && (r.ImageFailed? ==> status == r.status)
      && (r.ImageMapped? ==> ptes[..] == r.ptes && info == r.info)
    ensures status == Success ==>
      && ledger.charged == old(ledger.charged) + info.committedPages
      && ledger.sharedCommit == old(ledger.sharedCommit) + info.committedPages
    ensures status != Success ==>
      ledger.charged == old(ledger.charged) && ledger.sharedCommit == old(ledger.sharedCommit)
  {
    status, ptes, info := BuildImageSegment(p, sections, eof, u, res);
    if status == Success {
      status := ChargeImageCommitment(ledger, info.committedPages, res);
    }
  }
}
