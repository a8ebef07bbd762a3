# Section creation in the NT memory manager, modelled in Dafny

This project models how the NT memory manager creates a section object, as
implemented in `minkernel/ntos/mm/creasect.c`, together with the small table
and counter setters of `minkernel/ntos/ke/miscc.c`. A section is the kernel
object a process maps to see a file, an executable image or paging-file
backed memory. Its pages are described by a segment of prototype PTEs held
in a control area.

The model covers the following pieces of `creasect.c`:

- **NtCreateSection** (module `CreateSection`): the checks on the allocation
  attributes and page protection, and the bounded retry of MmCreateSection
  while the file system reports a lock conflict.
- **MmCreateSection** (module `Registry`): the file's image and data
  control-area slots; the wait-and-recheck protocol when an area is being
  created or deleted; section and user reference counts; the size of a
  section on an existing or newly built segment, or on a paging-file
  segment; the flags of the new section; and the decision to extend it.
- **MiVerifyImageHeader and MiCheckDosCalls** (module `ImageHeader`): the
  PE header checks, the first-match cascade that sorts an NE header into its
  legacy formats, and the scan of the NE module-reference table for
  `DOSCALLS`.
- **MiGetImageProtection** (module `ImageProtection`): translating PE section
  characteristics into memory-manager protection codes through the
  16-entry table.
- **MiCreateImageFileMap**:
  - module `ImageMap` is the layout of an image segment as values: header
    PTEs, one run of prototype PTEs per section, the no-access tail, the
    sub-page path, the subsections and the commit counters; around it, the
    control-area and segment allocations, the section-table fetch, the
    charge for the committed pages and the status of each failure exit;
  - module `ImageBuild` is the imperative builder that fills an array of
    PTEs and is proved to produce exactly that outcome, and that charges the
    committed pages to the commit ledger and to the shared commitment.
- **MiCreateDataFileMap** (module `DataMap`): the file-size rules; the PTE
  count and its alignment; the segment's allocation whole or in 64 KiB
  fragments; and the chain of subsections with their sector ranges.
- **MiCreatePagingFileMap** (module `PagingMap`): the size limits, the
  commit charge and its refund on allocation failure, and the zero PTEs.

Module `Common` holds the ULONG arithmetic (wrap-around explicit),
BYTES_TO_PAGES, MI_ROUND_TO_SIZE, the prototype-PTE alignment offset, the
status values, the protection codes and the PTE states. Module `KernelMisc`
holds KeAddSystemServiceTable, KeSetTimeIncrement / KeQueryTimeIncrement and
KeEnterCriticalRegion.

Platform constants:

- a page is 4096 bytes and a sector 512;
- a PTE is 4 bytes;
- prototype PTEs are aligned to 64 KiB, so the alignment unit is 16 PTEs.

Calls into code that is not part of this model become parameters of the
methods that make them. These include:

- the file-system size queries;
- the pool allocations of the image, data and paging-file builders;
- the paging read of an image's section table;
- ObCreateObject;
- the exception MiChargeCommitment raises in the paging-file and image
  builders.

The model therefore covers every answer those calls can give.

## Model

| member | source | states |
|---|---|---|
| CreateSection.ArgumentsAcceptedIff | minkernel/ntos/mm/creasect.c:215-249 | the argument checks pass exactly when the attributes hold only known bits, exactly one of COMMIT, RESERVE and IMAGE is set, IMAGE comes with nothing but BASED, and the protection has none of NOCACHE, GUARD and NOACCESS |
| CreateSection.AttributeFaults | minkernel/ntos/mm/creasect.c:215-233 | each of the four attribute faults gives STATUS_INVALID_PARAMETER_6 whatever the protection |
| CreateSection.ProtectionFaults | minkernel/ntos/mm/creasect.c:238-249 | with acceptable attributes, NOCACHE, GUARD or NOACCESS in the protection gives STATUS_INVALID_PAGE_PROTECTION |
| CreateSection.CheckArguments | minkernel/ntos/mm/creasect.c:215-249 | the checks yield only success, INVALID_PARAMETER_6 or INVALID_PAGE_PROTECTION, and report a bad protection only for attributes that pass their own checks |
| CreateSection.NtCreateSection | minkernel/ntos/mm/creasect.c:271-307 | a failed check makes no call; otherwise between one and four calls are made, every call but the last returned a lock conflict, the status is the last call's, and a lock conflict is returned only after the fourth call |
| CreateSection.PersistentConflict | minkernel/ntos/mm/creasect.c:289-307 | a conflict on every attempt is returned after exactly four calls |
| CreateSection.FirstFailureReturned | minkernel/ntos/mm/creasect.c:289-307 | any status other than a lock conflict is returned from the first call |
| ImageHeader.AcceptedSectionTableFits | minkernel/ntos/mm/creasect.c:42-44 | an accepted header has at most 96 section headers, so its section table fits in the two header pages after the first page and the NT headers (the limit is checked at lines 2735-2742) |
| ImageProtection.ProtectionIndex | minkernel/ntos/mm/creasect.c:3477-3489 | the table index is below 16 and its four bits are exactly the execute, read, write and shared characteristics |
| ImageProtection.ProtectionDependsOnFourBits | minkernel/ntos/mm/creasect.c:3477-3491 | characteristics that agree on execute, read, write and shared translate to the same protection |
| ImageProtection.WriteProtection | minkernel/ntos/mm/creasect.c:54-70 | a writable section is copy-on-write unless shared and truly read/write when shared, executable exactly when the execute bit is set |
| ImageProtection.WritableIffWriteBit | minkernel/ntos/mm/creasect.c:54-70 | the protection is writable exactly when the write bit is set, and copy-on-write exactly when write is set and shared is not |
| ImageProtection.NoAccessWithoutBits | minkernel/ntos/mm/creasect.c:54-70 | without execute, read or write a section gets no access |
| ImageHeader.MiCheckDosCalls | minkernel/ntos/mm/creasect.c:2442-2503 | the loop over the module-reference table returns what the in-bounds scan returns: FALSE at a record at or past HeaderSize, of length 0 or running past HeaderSize, or of length 8 with its name ending at HeaderSize; TRUE at an 8-byte DOSCALLS record inside the header; otherwise on to the next module |
| ImageHeader.NoModulesNoDosCalls | minkernel/ntos/mm/creasect.c:2442-2443 | a header with no module references never reports DOSCALLS |
| ImageHeader.DosCallsTrueHasEntry | minkernel/ntos/mm/creasect.c:2458-2493 | TRUE means the module table fits in the header and some entry inside it has length 8 and reads DOSCALLS |
| ImageHeader.DosCallsReadsOnlyHeader | minkernel/ntos/mm/creasect.c:2458-2485 | the in-bounds scan depends only on the first HeaderSize bytes: two buffers agreeing there give the same answer |
| ImageHeader.DosCallsAsWrittenReadsPastHeader | minkernel/ntos/mm/creasect.c:2471-2485 | with the source's `>` comparisons, two buffers identical on the header's 71 bytes get different answers, because the name's last byte lies one past the header |
| ImageHeader.DosCallsAsWrittenWithinHeader | minkernel/ntos/mm/creasect.c:2458-2493 | when nothing past HeaderSize is readable, the source's checks and the in-bounds scan give the same answer on every header |
| ImageHeader.FirstMatchNone | minkernel/ntos/mm/creasect.c:2546-2668 | a cascade of rules yields the unsupported-NE status exactly when no rule matches, and otherwise one of the three NE statuses |
| ImageHeader.ClassifyNeImage | minkernel/ntos/mm/creasect.c:2540-2668 | the NE cascade never accepts an image: it yields WIN_16, PROTECT or the unsupported-NE status |
| ImageHeader.NeClassification | minkernel/ntos/mm/creasect.c:2540-2668 | an NE header is WIN_16 exactly when the Win16 rule (no DOSCALLS reference, and a Windows executable type or an unspecified type with version 2.x or 3.x) matches, unsupported NE exactly when no rule matches, and PROTECT otherwise |
| ImageHeader.MiVerifyImageHeader | minkernel/ntos/mm/creasect.c:2509-2744 | the header is accepted exactly when it is a PE header with a machine or optional header, executable, with a sector-aligned or section-equal power-of-two file alignment not above the section alignment, within the image-size limit and with at most 96 sections; otherwise the status is INVALID_IMAGE_FORMAT, PROTECT or one of the NE statuses |
| ImageHeader.NonNtSignature | minkernel/ntos/mm/creasect.c:2540-2683 | a header without the PE signature is never accepted; an LE or unknown signature is PROTECT, an NE header one of the three NE statuses |
| ImageHeader.NotExecutableIsInvalidFormat | minkernel/ntos/mm/creasect.c:2697-2699 | a PE header without the executable-image characteristic is an invalid format |
| Common.BytesToPages | minkernel/ntos/mm/creasect.c:1618 | the page count is the least number of pages holding the given bytes |
| Common.RoundToPages | minkernel/ntos/mm/creasect.c:2930 | the size rounded up to whole pages is a page multiple less than a page above it |
| Common.RoundToSizePow2 | minkernel/ntos/mm/creasect.c:1747-1750 | rounding to a power-of-two alignment that does not wrap gives the next multiple of the alignment, less than one alignment above |
| Common.AlignmentOffset | minkernel/ntos/mm/creasect.c:1643-1651 | the index offset is below 16, moves the first prototype PTE to a 64 KiB boundary, and is 0 for an address already on one (the same calculation appears at lines 3077-3087 and 3311-3317) |
| Common.And64KLow | minkernel/ntos/mm/creasect.c:1737-1744 | masking the image base with 64K-1 is its remainder modulo 64 KiB |
| Common.Add32 | minkernel/ntos/mm/creasect.c:2186-2187 | ULONG addition wraps at 2^32 exactly as the C operator does |
| Common.Sub32 | minkernel/ntos/mm/creasect.c:3126-3128 | ULONG subtraction wraps below 0 exactly as the C operator does |
| Common.Mul32 | minkernel/ntos/mm/creasect.c:3135-3136 | ULONG multiplication keeps the product when it fits in 32 bits |
| ImageMap.ImagePtes | minkernel/ntos/mm/creasect.c:1618 | a verified image has at most 65536 prototype PTEs |
| ImageMap.ImageLayoutAsWritten | minkernel/ntos/mm/creasect.c:1690-1744 | a laid-out image is based on a 64 KiB boundary, and its control area records one subsection below page alignment and one per section header otherwise |
| ImageMap.ImageLayout | minkernel/ntos/mm/creasect.c:1865-2328 | with the locals initialised, a laid-out image aligned on a page or more is well laid, and its image commitment and committed pages are exactly the page sums over its copy-on-write and its shared writable sections |
| ImageMap.LaidImageIsWellLaid | minkernel/ntos/mm/creasect.c:1865-2328 | a laid-out image has its header PTEs first, then one contiguous run per section starting at its virtual address with every PTE following the page rules, and fewer than SectionAlignment/PAGE_SIZE no-access PTEs at the end, whatever the uninitialised locals held |
| ImageMap.SectionPageStates | minkernel/ntos/mm/creasect.c:2235-2281 | each PTE of a section's run is file-backed (demand-zero when the raw pointer is 0) below the raw size, demand-zero below the virtual size and no access beyond |
| ImageMap.RunsFitInImage | minkernel/ntos/mm/creasect.c:2145-2156 | every subsection's PTE run ends within the image's PTE count |
| ImageMap.SubPageLayout | minkernel/ntos/mm/creasect.c:1761-1850 | a sub-page image is laid out exactly when its base is 64 KiB aligned and every section passes the raw-equals-virtual checks of lines 2045-2103; then every PTE is file-backed copy-on-write through the single subsection |
| ImageMap.UnalignedBaseRejected | minkernel/ntos/mm/creasect.c:1737-1744 | an image base off a 64 KiB boundary is rejected whatever else the headers say |
| ImageMap.HeaderLongerThanImageRejected | minkernel/ntos/mm/creasect.c:1865-1872 | a header run longer than the image is rejected |
| ImageMap.FlagStep | minkernel/ntos/mm/creasect.c:2201-2230 | one section updates the commit flag selected by its kind of write and carries the other over |
| ImageMap.FlagClearedByReadOnly | minkernel/ntos/mm/creasect.c:2222-2230 | a section that is not writable clears both commit flags |
| ImageMap.FlagKeptByOtherWrite | minkernel/ntos/mm/creasect.c:2201-2221 | a writable section of the other kind leaves a commit flag as it was |
| ImageMap.LaidCounters | minkernel/ntos/mm/creasect.c:2106-2301 | a laid-out image has one subsection per section recording its sectors and protection; ImageCommitment and NumberOfCommittedPages are the page sums the carried flags select; GlobalMemory holds exactly when some section is shared and writable; the last section's raw data ends inside the file |
| ImageMap.NoKindNoCommit | minkernel/ntos/mm/creasect.c:2247-2252 | without sections of a flag's kind, and with the flag clear at the start, nothing is counted against it |
| ImageMap.CommitmentNeedsWritableSections | minkernel/ntos/mm/creasect.c:2201-2252 | with the locals initialised, no committed pages and no global memory arise without a shared writable section, and no image commitment without a copy-on-write section |
| ImageMap.CommitCarriesOver | minkernel/ntos/mm/creasect.c:2201-2252 | after a copy-on-write section the image commitment also counts a following shared writable section, while the committed pages count only the second |
| ImageMap.SectionCommitGarbageCharged | minkernel/ntos/mm/creasect.c:1321 | with SectionCommit left uninitialised, a lone copy-on-write section is charged a committed page; initialised to FALSE it is charged none |
| ImageMap.FileSizeGarbageRejects | minkernel/ntos/mm/creasect.c:2292-2301 | with no section headers, the uninitialised ImageFileSize decides whether the image is rejected |
| ImageMap.NoSectionsIgnoreFileSize | minkernel/ntos/mm/creasect.c:2292-2301 | with ImageFileSize initialised, an image without sections lays out the same whatever the file size |
| ImageMap.TableStatusOutcomes | minkernel/ntos/mm/creasect.c:1964-2020 | the section-table fetch lets the build go on exactly when the table is resident or was read with both IoPageRead's return and the I/O status block successful; a failed ExtendedHeader allocation gives INSUFFICIENT_RESOURCES; a failed read gives a lock conflict exactly when IoPageRead itself returned one, and INVALID_FILE_FOR_SECTION otherwise, including a failure seen only in the I/O status block |
| ImageMap.ImageSegmentAsWritten | minkernel/ntos/mm/creasect.c:1580-2328 | every failure exit of the image builder before the commitment charge carries a failure status |
| ImageMap.ImageFileMapAsWritten | minkernel/ntos/mm/creasect.c:1580-2409 | every failure exit of the image builder, the charge's included, carries a failure status |
| ImageMap.ImageFileMapIsLayout | minkernel/ntos/mm/creasect.c:1580-2369 | the image is mapped exactly when the control area and the segment are allocated, the section table arrives, the layout succeeds, and the layout has no committed pages or their charge does not fault; what is mapped is the layout |
| ImageMap.ChargeFaultStatus | minkernel/ntos/mm/creasect.c:2348-2369 | a laid-out image past the allocations and the table fetch fails exactly when it has committed pages and their charge faults, and then with the exception's code; otherwise it is mapped as laid out |
| ImageMap.UnchargedWithoutSharedWrites | minkernel/ntos/mm/creasect.c:2348-2369 | with the locals initialised, a sub-page image or one without a shared writable section has the same outcome whatever the charge would do |
| ImageMap.PoolFailureStatus | minkernel/ntos/mm/creasect.c:1598-1634 | a failed control-area or segment allocation gives INSUFFICIENT_RESOURCES whatever the image holds; a failed ExtendedHeader allocation gives it for an image past the header phase |
| ImageBuild.FillHeaderPtes | minkernel/ntos/mm/creasect.c:1886-1900 | the header loop writes each header PTE as the header rule gives it, touches nothing after, and advances the virtual address a page per PTE |
| ImageBuild.FillAll | minkernel/ntos/mm/creasect.c:1839-1847 | the sub-page loop sets every prototype PTE to the single template |
| ImageBuild.FillSectionPtes | minkernel/ntos/mm/creasect.c:2235-2281 | the page loop writes exactly the section's PTE run at its position, leaves the rest of the array, and adds its accessible pages to the commitment each flag selects |
| ImageBuild.FillNoAccessTail | minkernel/ntos/mm/creasect.c:2324-2328 | the PTEs from the current position to the end become no access and those before are kept |
| ImageBuild.CheckSubPageSections | minkernel/ntos/mm/creasect.c:2045-2103 | the sub-page scan accepts exactly when every section passes its checks |
| ImageBuild.CommitFlags | minkernel/ntos/mm/creasect.c:2201-2230 | the flags follow the protection's kind of write, and global memory is marked exactly for a shared writable section, which also sets SectionCommit |
| ImageBuild.BuildSection | minkernel/ntos/mm/creasect.c:2106-2285 | one pass of the section loop succeeds exactly when the layout's section step does, and then leaves the array and the locals where it says |
| ImageBuild.RecordSection | minkernel/ntos/mm/creasect.c:2159-2281 | after the checks, a section pass appends its subsection, its PTE run and its commit counts, and records its raw end as ImageFileSize |
| ImageBuild.BuildSections | minkernel/ntos/mm/creasect.c:2106-2285 | the section loop succeeds exactly when every section step does, and leaves the array prefix and the locals the layout gives |
| ImageBuild.BuildImageSegment | minkernel/ntos/mm/creasect.c:1571-2328 | up to the commitment charge, the builder succeeds exactly when the allocations, the section-table fetch and the image layout do; its PTE array and segment records are then the layout's, and each failure returns the status of the exit the source takes |
| ImageBuild.ChargeImageCommitment | minkernel/ntos/mm/creasect.c:2348-2369 | a segment with committed pages is charged for them and adds them to MmSharedCommit, unless the charge faults, which leaves both unchanged and returns the exception's code; without committed pages nothing changes |
| ImageBuild.MiCreateImageFileMap | minkernel/ntos/mm/creasect.c:1571-2409 | the builder succeeds exactly when the allocations, the section-table fetch, the image layout and the commitment charge do; its PTE array and segment records are then the layout's and the charged and shared commitments have risen by its committed pages; each failure returns the status of the exit the source takes and leaves both commitments unchanged |
| DataMap.DataFileSizeAccepted | minkernel/ntos/mm/creasect.c:2820-2876 | outside the cache manager a size is found exactly when the query succeeds, the file or maximum size is non-zero, and growing the file is permitted by a writable protection and succeeds |
| DataMap.DataFileSizeIsLarger | minkernel/ntos/mm/creasect.c:2851-2876 | the mapped size is the larger of the file size and the maximum size, and positive when both are non-negative |
| DataMap.DataFileSizeFailures | minkernel/ntos/mm/creasect.c:2824-2834 | a directory is refused as an invalid file for a section |
| DataMap.DataFileSize | minkernel/ntos/mm/creasect.c:2820-2876 | a found end of file is at least the maximum size and, outside the cache manager, at least the file size; only a query outside the cache manager is refused, and with a failure status |
| DataMap.DataPtes | minkernel/ntos/mm/creasect.c:2891-2892 | the PTE count is the file's page count when it fits in a ULONG |
| DataMap.AlignmentPadding | minkernel/ntos/mm/creasect.c:2901-2905 | the aligned PTE count is a multiple of 16 and less than 16 above the PTE count |
| DataMap.SegmentBytes | minkernel/ntos/mm/creasect.c:2907-2908 | the segment size is the header plus the aligned PTEs past the first, when it fits in a ULONG |
| DataMap.FragmentShape | minkernel/ntos/mm/creasect.c:2920-2977 | the fragments number the 64 KiB units of the segment; all but the last are 64 KiB; the last is whole pages; together they cover the segment with less than a page to spare |
| DataMap.AllocateFragments | minkernel/ntos/mm/creasect.c:2920-2977 | the fragment loop succeeds exactly when every fragment it asks for is granted, and then yields the fragment sizes |
| DataMap.SubsectionCount | minkernel/ntos/mm/creasect.c:3034 | NumberOfSubsections equals the number of fragments while that fits in a USHORT |
| DataMap.FragmentCapacities | minkernel/ntos/mm/creasect.c:2973 | each fragment's subsection starts with the number of whole PTEs its block holds, at most 16384 for a 64 KiB fragment |
| DataMap.FirstFragmentFits | minkernel/ntos/mm/creasect.c:3103-3106 | the first subsection's aligned PTE run ends inside its fragment |
| DataMap.LaySubsection | minkernel/ntos/mm/creasect.c:3117-3140 | one pass of the chain walk lays an inner subsection with its whole capacity and no unused PTEs, or a terminal one ending at the file's last sector, and fills its run with PTEs referring to it |
| DataMap.BuildDataSubsections | minkernel/ntos/mm/creasect.c:3093-3142 | the walk lays out the whole chain in order and fills every subsection's run with its template |
| DataMap.FillMatchesCapacity | minkernel/ntos/mm/creasect.c:3134-3137 | each subsection's fill covers exactly its capacity, the terminal one's unused PTEs included |
| DataMap.SectorsContiguous | minkernel/ntos/mm/creasect.c:3118-3140 | each subsection before the last ends at the sector where the next starts |
| DataMap.WholeFileCovered | minkernel/ntos/mm/creasect.c:3121-3128 | when sectors do not wrap, the chain's subsections hold exactly the file's pages |
| DataMap.SingleSubsectionHoldsFile | minkernel/ntos/mm/creasect.c:3107-3128 | a segment allocated whole has one subsection from sector 0 holding all the file's pages, with fewer than 16 unused |
| DataMap.MiCreateDataFileMap | minkernel/ntos/mm/creasect.c:2820-3144 | a size refusal is returned; otherwise the map succeeds exactly when the segment is allocated whole or in fragments, fails only with insufficient resources, and on success the chain, its PTEs, the segment and the control area are as the layout rules give them |
| DataMap.AllocateSegment | minkernel/ntos/mm/creasect.c:2910-2986 | the segment's pool is found exactly when it is allocated whole or, from 64 KiB up, in granted fragments, and gives the chain's initial capacities |
| DataMap.BuildDataSegment | minkernel/ntos/mm/creasect.c:2891-3144 | once the size is known, the build succeeds exactly when the allocation does, and lays out the chain, the segment and the control area |
| PagingMap.CommitLedger.MiChargeCommitment | minkernel/ntos/mm/creasect.c:3224-3236 | a charge adds the pages to the charged commitment |
| PagingMap.CommitLedger.MiReturnCommitment | minkernel/ntos/mm/creasect.c:3244-3253 | a refund takes the pages back off the charged commitment |
| PagingMap.FillPagingPtes | minkernel/ntos/mm/creasect.c:3349-3357 | every prototype PTE of the segment becomes the template |
| PagingMap.MiCreatePagingFileMap | minkernel/ntos/mm/creasect.c:3200-3360 | size 0 is INVALID_PARAMETER_4 and a size above 2 GiB SECTION_TOO_BIG; a charge fault is returned; a failed allocation gives insufficient resources with the commitment refunded; success gives the page count of zero PTEs, protected only under SEC_COMMIT, with the segment fields and the charge and shared commitment raised by the committed pages |
| Registry.EventCounter.Signal | minkernel/ntos/mm/creasect.c:960-970 | signalling wakes the waiters and leaves the event's references with them |
| Registry.ControlArea.AddWaiter | minkernel/ntos/mm/creasect.c:691-747 | the first waiter installs its own event on the area, later waiters share the installed event and add a reference to it |
| Registry.ControlArea.AddReference | minkernel/ntos/mm/creasect.c:749-770 | reusing a segment adds a section reference and, for a user section, a user reference, and changes nothing else |
| Registry.ControlArea.RemoveReference | minkernel/ntos/mm/creasect.c:1234-1255 | giving a section up takes back exactly the references that reuse added |
| Registry.ControlArea.MarkPurged | minkernel/ntos/mm/creasect.c:1202 | a cache-manager section marks the area purged, and nothing else changes |
| Registry.SectionObjectPointers.SetSlot | minkernel/ntos/mm/creasect.c:771-790 | publishing fills the slot of the section's kind and leaves the other slot alone |
| Registry.SectionObjectPointers.LookupSegment | minkernel/ntos/mm/creasect.c:672-790 | an empty slot publishes the new area as being created; a stable area is reused with one more reference; a busy area makes the caller wait on its event, installing it or sharing it |
| Registry.SectionObjectPointers.AbandonCreation | minkernel/ntos/mm/creasect.c:928-973 | a failed build empties the slot, marks the area as having lost its file, clears BeingCreated and wakes the queued waiters |
| Registry.SectionObjectPointers.CompleteCreation | minkernel/ntos/mm/creasect.c:1031-1080 | a built image segment's own area replaces the placeholder in the slot, a data segment keeps it; BeingCreated is cleared and the waiters are woken |
| Registry.ExistingSizeRefusals | minkernel/ntos/mm/creasect.c:840-903 | a section on an existing segment is refused exactly when the file-size query fails, the file and requested size are both zero, or a larger size is asked for without write access, each with its status |
| Registry.ExistingSizeAccepted | minkernel/ntos/mm/creasect.c:872-903 | an accepted size is the end of file when none was asked for and the requested size otherwise; it counts as checked exactly when it does not exceed the end of file, and a larger one needs write access |
| Registry.ExistingSectionSize | minkernel/ntos/mm/creasect.c:840-903 | an accepted size with a maximum is that maximum; an unchecked size needs write access; a section that does not query the file is refused only as too big |
| Registry.CreatedSectionSize | minkernel/ntos/mm/creasect.c:976-986 | a section on a new segment has the requested size, or the segment's size when none was asked for, and no file size check; unless its control area was purged and the caller is not the cache manager, it is extended (the test at lines 1210-1214) exactly when a size was asked for that exceeds the segment |
| Registry.CreatePagingSection | minkernel/ntos/mm/creasect.c:988-1015 | an image attribute is refused before the paging-file builder runs; a refusal carries a failure status and leaves the commitment alone; a sized section is exactly the built segment, the requested size rounded up to whole pages, which never needs extending; it is sized whenever the builder can succeed |
| Registry.ResolveExistingSize | minkernel/ntos/mm/creasect.c:840-903 | the size on an existing segment follows the size rules, and a refusal gives back the lookup's references |
| Registry.CacheManagerFlags | minkernel/ntos/mm/creasect.c:1105-1106 | a cache-manager section carries the control area's flags and nothing more |
| Registry.UserSectionFlags | minkernel/ntos/mm/creasect.c:1133-1161 | a user section is marked as such, keeps the area's flags, and gains NoChange, CopyOnWrite and Based exactly when its attributes and protection call for them |
| Registry.NewSectionFlags | minkernel/ntos/mm/creasect.c:1105-1161 | the new section never drops a flag of the control area, and every user section is marked UserReference |
| Registry.ExtensionWhenLarger | minkernel/ntos/mm/creasect.c:1210-1228 | for the cache manager, a checked size or an unpurged area, the section is extended exactly when it is larger than its segment |
| Registry.NeedsExtension | minkernel/ntos/mm/creasect.c:1210-1214 | a section larger than its segment is always extended; one that fits is extended only on a purged area, outside the cache manager, with an unchecked size |
| Registry.FreshDataSectionNotExtended | minkernel/ntos/mm/creasect.c:1210-1228 | the first section on a data segment sized from the file never needs extending |
| Registry.CreateSectionObject | minkernel/ntos/mm/creasect.c:1114-1228 | a failed object creation gives back the reuse references, if taken; success marks a cache-manager area purged and yields the section's size, flags and extension decision |
| Registry.MmCreateSectionForFile | minkernel/ntos/mm/creasect.c:672-1255 | a busy slot means waiting; an empty slot leads to building a segment, emptying the slot on failure; a stable slot's segment is shared, and the counts go back to where they were unless the section is created |
| Registry.WaitForBusySlot | minkernel/ntos/mm/creasect.c:691-747 | a busy slot yields a wait and keeps the slot unchanged |
| Registry.CreateForEmptySlot | minkernel/ntos/mm/creasect.c:771-1080 | a new segment's outcome: failure empties the slot and abandons the placeholder; success publishes the segment's area and creates the section exactly when the object can be created |
| Registry.CreateForStableSlot | minkernel/ntos/mm/creasect.c:749-903 | sharing a stable segment leaves the counts unchanged when no section results, and one reference higher (two for a user) when one does |
| Registry.ExistingPathCounts | minkernel/ntos/mm/creasect.c:1234-1255 | the existing-segment path either fails with the reuse references given back or creates the section keeping them |
| Registry.SectionOnExisting | minkernel/ntos/mm/creasect.c:840-1255 | on an existing segment the section follows the size rules, the object creation and the flag rules, dropping the reference whenever it is not created |
| Registry.SectionOnNew | minkernel/ntos/mm/creasect.c:928-1228 | on a new segment a failed build empties the slot; a built one is published, no longer being created, with the created size, the flags and the extension decision |
| Registry.TwoWaiters | minkernel/ntos/mm/creasect.c:691-747 | two callers queued behind a segment under construction wait on the same event, which holds one more reference |
| Registry.FailedBuildHandsOver | minkernel/ntos/mm/creasect.c:928-973 | a failed build wakes its waiter, whose recheck finds the slot empty and publishes its own area |
| KernelMisc.ServiceTables.KeAddSystemServiceTable | minkernel/ntos/ke/miscc.c:558-582 | a table is added exactly when the index is in range and unbound in both tables; the shadow always receives it, the static table unless it is the Win32 slot, and nothing changes on failure |
| KernelMisc.ClockIncrements.KeSetTimeIncrement | minkernel/ntos/ke/miscc.c:500-504 | the maximum increment is stored in all four globals and the minimum never drops below one millisecond |
| KernelMisc.ClockIncrements.KeQueryTimeIncrement | minkernel/ntos/ke/miscc.c:200 | the reported increment is the maximum increment |
| KernelMisc.KThread.KeEnterCriticalRegion | minkernel/ntos/ke/miscc.c:69 | the kernel APC disable count drops by one, wrapping from 0 to the ULONG maximum |
| KernelMisc.SetThenQuery | minkernel/ntos/ke/miscc.c:500-504 | a query after a set reports the maximum increment just set |
| KernelMisc.AddTwice | minkernel/ntos/ke/miscc.c:558-582 | two adds of a non-NULL table at the same index: the second always fails, whether or not the first succeeded |

## Left out

- The file-system, cache-manager and I/O calls (FsRtlGetFileSize, FsRtlSetFileSize, IoPageRead of the image header, CcFlushCache, MmFlushSection, the file lock acquisition) are not modelled; their answers are inputs.
- The reading of the image headers from the file is not modelled; the decoded headers and section table are inputs.
- The PFN routines at the end of creasect.c (lines 3494 onward) are not modelled; they concern physical pages.
- Locking, the PFN spin lock and concurrency are not modelled. A caller that must wait gets a Waiting outcome holding the event instead of blocking.
- MiGetEventCounter and MiFreeEventCounter are not modelled; a fresh event is taken to hold one reference, and freeing it after the wake-up is not modelled.
- The cache-manager quick path of MmCreateSection (lines 547-596) is not modelled.
- The SectionObjectPointer == NULL check (lines 622-626) and the failure to allocate the new control area (lines 636-651) are not modelled; both only return a status.
- Object-manager plumbing is not modelled: the file reference, ObInsertObject, the user-mode handle probe and MiCheckControlArea. ObCreateObject's status is an input.
- The based-address allocation (lines 1163-1194) is not modelled.
- MmExtendSection is not modelled; only the decision to call it is.
- KeDelayExecutionThread between lock-conflict retries is not modelled; only the retry count is.
- The Alpha code paths, the i386 alignment checks and the debug tracing are not modelled; they are platform- or diagnostics-specific.
- The sub-page path's jump to NeImage when a section fails the raw-equals-virtual check is not modelled as its own exit; it leaves STATUS_INVALID_IMAGE_FORMAT, as BadPeImageSegment does, and the model returns that status for both.
- ImageMap.ImageFileMapAsWritten: whether the section table lies in the header page already read is an input (TableFetch); the offsets computed at lines 1905-1963 are not modelled. The freeing of the pool blocks on each failure exit is not modelled. A read of the section table that IoPageRead leaves pending is taken after its wait, and any success code of IoPageRead counts as success.
- MiCheckDosCalls: for an 8-byte record whose name ends exactly at offset HeaderSize, the source compares a byte past the header and may return TRUE or go on scanning; the model returns FALSE there (see Findings). On every other header the two agree, and they agree always when nothing past HeaderSize is readable (ImageHeader.DosCallsAsWrittenWithinHeader).
- ImageHeader.LotusMatches: the model holds only the header bytes, so an offset of the "1-2-3 Preloader" string outside them counts as no match; the source compares whatever lies at the computed address.
- NeClassification: the Win16 rule uses the in-bounds DOSCALLS scan, so on a header with such a record the classification can differ from the source's.
- sizeof(SEGMENT) and the pool's placement of the segment are parameters, because the structure layout is not part of this model.
- The PTE runs of the data-file builder are returned as values, one sequence per fragment, not as arrays; each fragment is a separate pool block, so there is no single array to update in place.
- DataMap.MiCreateDataFileMap: requires that the file and maximum sizes still fit in a LARGE_INTEGER after rounding up to a page; the source does not guard that overflow.
- The section object's flag word is modelled only in the four bits MmCreateSection sets itself (UserReference, NoChange, CopyOnWrite, Based).
- MiMakeProtectionMask is not modelled; the protection mask is an input of the paging-file builder.
- The other routines of miscc.c (hardware, scheduler and debugger services) are not modelled.

## Findings

| source | as written | input that shows it | evidently intended | confidence | as-written member | corrected member |
|---|---|---|---|---|---|---|
| minkernel/ntos/mm/creasect.c:2471-2493 | the import-record checks compare with `>` against the header size, so a length byte at offset HeaderSize is read, and an 8-byte name whose last byte is at offset HeaderSize is compared | HeaderSize 71, one module reference, its name record at offset 63 with length 8: the name's last byte is at offset 71 | read only bytes inside the header: stop at a record at HeaderSize, and reject an 8-byte name that does not end inside the header | not executed | ImageHeader.DosCallsAsWrittenReadsPastHeader | ImageHeader.DosCallsReadsOnlyHeader |
| minkernel/ntos/mm/creasect.c:1321 | SectionCommit is declared without an initial value and read by the first copy-on-write section, which keeps the flag as it is | an image with one copy-on-write section, with the local happening to hold TRUE: one page is charged to NumberOfCommittedPages | initialise SectionCommit (and ImageCommit) to FALSE | not executed | ImageMap.SectionCommitGarbageCharged | ImageMap.CommitmentNeedsWritableSections |
| minkernel/ntos/mm/creasect.c:2292-2301 | ImageFileSize is assigned only inside the section loop, yet compared with the file size after it | an image with no section headers, a 1 KiB file, and the local happening to hold 0xFFFF: the image is rejected | initialise ImageFileSize to 0 | not executed | ImageMap.FileSizeGarbageRejects | ImageMap.NoSectionsIgnoreFileSize |
