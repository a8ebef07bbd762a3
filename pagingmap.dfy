/**
 * MiCreatePagingFileMap: a section backed by the paging file, limited to
 * 2 GiB, whose pages are charged against the commit limit under SEC_COMMIT
 * and refunded if a later allocation fails, and whose prototype PTEs are
 * all the same zero PTE.
 */
module PagingMap {
  import opened Common
  import opened CreateSection

  /** The largest paging-file backed section, in bytes. */
  const MAXIMUM_PAGING_SECTION: int := 0x7FFF_FFFF

  /**
   * The system commit accounting the builder touches: the pages charged
   * through MiChargeCommitment and MmSharedCommit.
   */
  class CommitLedger {
    var charged: nat
    var sharedCommit: nat

    constructor ()
      ensures charged == 0 && sharedCommit == 0
    {
      charged, sharedCommit := 0, 0;
    }

    method MiChargeCommitment(pages: nat)
      modifies this
      ensures charged == old(charged) + pages && sharedCommit == old(sharedCommit)
    {
      charged := charged + pages;
    }

    method MiReturnCommitment(pages: nat)
      requires pages <= charged
      modifies this
      ensures charged == old(charged) - pages && sharedCommit == old(sharedCommit)
    {
      charged := charged - pages;
    }
  }

  /** What the new segment, its control area and its one subsection record. */
  datatype PagingSegment = PagingSegment(
    totalNumberOfPtes: nat,
    nonExtendedPtes: nat,
    sizeOfSegment: nat,
    committedPages: nat,
    templateProtection: MmProtection,
    numberOfSubsections: nat,
    ptesInSubsection: nat,
    based: bool,
    reserve: bool,
    commit: bool)

  /** HighPart != 0 or LowPart > 0x7FFFFFFF. */
  predicate TooBig(size: int)
    requires IsLargeInteger(size)
  {
    size < 0 || size > MAXIMUM_PAGING_SECTION
  }

  /** Every PTE of the segment: zero, with the protection only under commit. */
  method FillPagingPtes(ptes: array<Pte>, template: Pte)
    modifies ptes
    ensures forall k :: 0 <= k < ptes.Length ==> ptes[k] == template
  {
    for i := 0 to ptes.Length
      invariant forall k :: 0 <= k < i ==> ptes[k] == template
    {
      ptes[i] := template;
    }
  }

  /**
   * chargeFault is the exception MiChargeCommitment raises, if any;
   * segmentAllocated and controlAreaAllocated are the outcomes of the two
   * pool allocations.
   */
  method MiCreatePagingFileMap(ledger: CommitLedger, maximumSize: int, protectionMask: MmProtection,
                               attributes: bv32, chargeFault: Option<Status>,
                               segmentAllocated: bool, controlAreaAllocated: bool)
      returns (status: Status, ptes: array<Pte>, segment: PagingSegment)
    requires IsLargeInteger(maximumSize)
    requires chargeFault != Some(Success)
    modifies ledger
    ensures ledger.sharedCommit >= old(ledger.sharedCommit)
    ensures maximumSize == 0 ==> status == InvalidParameter4
    ensures maximumSize != 0 && TooBig(maximumSize) ==> status == SectionTooBig
    ensures status != Success ==> ledger.charged == old(ledger.charged) && ledger.sharedCommit == old(ledger.sharedCommit)
    ensures 0 < maximumSize <= MAXIMUM_PAGING_SECTION ==>
      var n := BytesToPages(maximumSize);
      var commit := Has(attributes, SEC_COMMIT);
      && (commit && chargeFault.Some? ==> status == chargeFault.value)
      && (!(commit && chargeFault.Some?) && !(segmentAllocated && controlAreaAllocated) ==> status == InsufficientResources)
      && (!(commit && chargeFault.Some?) && segmentAllocated && controlAreaAllocated ==>
            && status == Success
            && ptes.Length == n
            && (forall k :: 0 <= k < n ==> ptes[k] == ZeroPteWith(if commit then protectionMask else MM_ZERO_ACCESS))
            && segment.totalNumberOfPtes == n && segment.nonExtendedPtes == n && segment.ptesInSubsection == n
            && segment.sizeOfSegment == n * PAGE_SIZE && segment.numberOfSubsections == 1
            && segment.committedPages == (if commit then n else 0)
            && segment.templateProtection == protectionMask
            && ledger.charged == old(ledger.charged) + (if commit then n else 0)
            && ledger.sharedCommit == old(ledger.sharedCommit) + (if commit then n else 0)
            && segment.based == Has(attributes, SEC_BASED)
            && segment.reserve == Has(attributes, SEC_RESERVE)
            && segment.commit == commit)
  {
    ptes := new Pte[0];
    segment := PagingSegment(0, 0, 0, 0, MM_ZERO_ACCESS, 0, 0, false, false, false);
    if maximumSize == 0 {
      return InvalidParameter4, ptes, segment;
    }
    if maximumSize < 0 || maximumSize > MAXIMUM_PAGING_SECTION {
      return SectionTooBig, ptes, segment;
    }
    var numberOfPtes := BytesToPages(maximumSize);
    var commit := Has(attributes, SEC_COMMIT);
    if commit {
      if chargeFault.Some? {
        return chargeFault.value, ptes, segment;
      }
      ledger.MiChargeCommitment(numberOfPtes);
    }
    if !segmentAllocated {
      if commit {
        ledger.MiReturnCommitment(numberOfPtes);
      }
      return InsufficientResources, ptes, segment;
    }
    if !controlAreaAllocated {
      if commit {
        ledger.MiReturnCommitment(numberOfPtes);
      }
      return InsufficientResources, ptes, segment;
    }
    ptes := new Pte[numberOfPtes];
    var template := NoAccess;
    var committedPages := 0;
    if commit {
      template := ZeroPteWith(protectionMask);
      committedPages := numberOfPtes;
      ledger.sharedCommit := ledger.sharedCommit + committedPages;
    }
    segment := PagingSegment(numberOfPtes, numberOfPtes, numberOfPtes * PAGE_SIZE, committedPages,
                             protectionMask, 1, numberOfPtes,
                             Has(attributes, SEC_BASED), Has(attributes, SEC_RESERVE), commit);
    FillPagingPtes(ptes, template);
    status := Success;
  }
}
