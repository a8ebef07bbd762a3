/**
 * The control-area registry of MmCreateSection: the file's image and data
 * slots, the wait-and-recheck protocol for an area that is being created or
 * deleted, the reference counts, the section size of an existing or a new
 * segment, and the flags of the new section object.
 *
 * Waiting is an outcome, not a blocking call: a caller that is told to wait
 * holds a reference on the event the current owner of the slot will signal.
 */
module Registry {
  import opened Common
  import opened CreateSection
  import DataMap
  import PagingMap

  /** An event counter handed out by MiGetEventCounter, holding one reference. */
  class EventCounter {
    var refCount: nat
    var signalled: bool

    constructor ()
      ensures refCount == 1 && !signalled
    {
      refCount, signalled := 1, false;
    }

    /** KeSetEvent: wake every waiter; the references stay with the waiters. */
    method Signal()
      modifies this
      ensures signalled && refCount == old(refCount)
    {
      signalled := true;
    }
  }

  /** Every field of a control area the registry reads or writes. */
  datatype AreaView = AreaView(
    beingCreated: bool,
    beingDeleted: bool,
    sectionReferences: nat,
    userReferences: nat,
    waitingForDeletion: EventCounter?,
    filePointerNull: bool,
    image: bool,
    wasPurged: bool,
    sizeOfSegment: int)

  class ControlArea {
    var beingCreated: bool
    var beingDeleted: bool
    var numberOfSectionReferences: nat
    var numberOfUserReferences: nat
    var waitingForDeletion: EventCounter?
    var filePointerNull: bool
    var image: bool
    var wasPurged: bool
    /** The segment's SizeOfSegment, reached through the area's segment. */
    var sizeOfSegment: int

    /** A control area straight out of pool: zeroed. */
    constructor ()
      ensures View() == AreaView(false, false, 0, 0, null, false, false, false, 0)
    {
      beingCreated, beingDeleted := false, false;
      numberOfSectionReferences, numberOfUserReferences := 0, 0;
      waitingForDeletion := null;
      filePointerNull, image, wasPurged := false, false, false;
      sizeOfSegment := 0;
    }

    function View(): AreaView
      reads this
    {
      AreaView(beingCreated, beingDeleted, numberOfSectionReferences, numberOfUserReferences,
               waitingForDeletion, filePointerNull, image, wasPurged, sizeOfSegment)
    }

    /** Neither being created nor being deleted: a new section may share the segment. */
    predicate Stable()
      reads this
    {
      !beingCreated && !beingDeleted
    }

    /**
     * Queue behind the area's owner. The first waiter installs its own event
     * (consumed), later ones share the installed event and add a reference.
     */
    method AddWaiter(segmentEvent: EventCounter) returns (event: EventCounter, consumed: bool)
      modifies this, waitingForDeletion
      ensures old(waitingForDeletion) == null ==>
        && event == segmentEvent && consumed
        && View() == old(View()).(waitingForDeletion := segmentEvent)
        && event.refCount == old(event.refCount)
      ensures old(waitingForDeletion) != null ==>
        && event == old(waitingForDeletion) && !consumed
        && View() == old(View())
        && event.refCount == old(event.refCount) + 1
      ensures event.signalled == old(event.signalled)
    {
      if waitingForDeletion == null {
        waitingForDeletion := segmentEvent;
        event := segmentEvent;
        consumed := true;
      } else {
        event := waitingForDeletion;
        event.refCount := event.refCount + 1;
        consumed := false;
      }
    }

    /** One more section on the segment; a user section also counts as a user reference. */
    method AddReference(ignoreFileSizing: bool)
      modifies this
      ensures View() == old(View()).(sectionReferences := old(numberOfSectionReferences) + 1,
                                     userReferences := old(numberOfUserReferences) + (if ignoreFileSizing then 0 else 1))
    {
      numberOfSectionReferences := numberOfSectionReferences + 1;
      if !ignoreFileSizing {
        numberOfUserReferences := numberOfUserReferences + 1;
      }
    }

    /** UnrefAndReturn: give back the references AddReference took. */
    method RemoveReference(ignoreFileSizing: bool)
      requires numberOfSectionReferences > 0
      requires !ignoreFileSizing ==> numberOfUserReferences > 0
      modifies this
      ensures View() == old(View()).(sectionReferences := old(numberOfSectionReferences) - 1,
                                     userReferences := old(numberOfUserReferences) - (if ignoreFileSizing then 0 else 1))
    {
      numberOfSectionReferences := numberOfSectionReferences - 1;
      if !ignoreFileSizing {
        numberOfUserReferences := numberOfUserReferences - 1;
      }
    }

    /** WasPurged |= IgnoreFileSizing: the cache manager's section may see the file size change. */
    method MarkPurged(ignoreFileSizing: bool)
      modifies this
      ensures View() == old(View()).(wasPurged := old(wasPurged) || ignoreFileSizing)
    {
      wasPurged := wasPurged || ignoreFileSizing;
    }
  }

  /** What one pass of the lookup at RecheckSegment decides. */
  datatype Lookup =
    | Wait(event: EventCounter)
    | Reuse(area: ControlArea)
    | Publish(area: ControlArea)

  /** The file's SECTION_OBJECT_POINTERS: one control-area slot per kind of section. */
  class SectionObjectPointers {
    var dataSectionObject: ControlArea?
    var imageSectionObject: ControlArea?

    constructor ()
      ensures dataSectionObject == null && imageSectionObject == null
    {
      dataSectionObject, imageSectionObject := null, null;
    }

    /** The slot SEC_IMAGE selects. */
    function Slot(image: bool): ControlArea?
      reads this
    {
      if image then imageSectionObject else dataSectionObject
    }

    method SetSlot(image: bool, area: ControlArea?)
      modifies this
      ensures Slot(image) == area && Slot(!image) == old(Slot(!image))
    {
      if image {
        imageSectionObject := area;
      } else {
        dataSectionObject := area;
      }
    }

    /**
     * One pass of the lookup. newArea is the zeroed control area allocated
     * beforehand and segmentEvent the event counter held for a wait.
     * remaining is the event the caller still owns afterwards.
     */
    method LookupSegment(image: bool, newArea: ControlArea, segmentEvent: EventCounter, ignoreFileSizing: bool)
        returns (outcome: Lookup, remaining: EventCounter?)
      requires newArea != Slot(image)
      modifies this, newArea, Slot(image), if Slot(image) == null then null else Slot(image).waitingForDeletion
      ensures Slot(!image) == old(Slot(!image))
      ensures old(Slot(image)) == null ==>
        && outcome == Publish(newArea) && Slot(image) == newArea && remaining == segmentEvent
        && newArea.View() == old(newArea.View()).(beingCreated := true)
      ensures old(Slot(image)) != null && old(Slot(image).Stable()) ==>
        && outcome == Reuse(old(Slot(image))) && Slot(image) == old(Slot(image)) && remaining == segmentEvent
        && outcome.area.View() == old(outcome.area.View()).(
             sectionReferences := old(outcome.area.numberOfSectionReferences) + 1,
             userReferences := old(outcome.area.numberOfUserReferences) + (if ignoreFileSizing then 0 else 1))
        && newArea.View() == old(newArea.View())
      ensures old(Slot(image)) != null && !old(Slot(image).Stable()) ==>
        && outcome.Wait? && Slot(image) == old(Slot(image))
        && newArea.View() == old(newArea.View())
        && (old(Slot(image).waitingForDeletion) == null ==>
              && outcome.event == segmentEvent && remaining == null
              && Slot(image).View() == old(Slot(image).View()).(waitingForDeletion := segmentEvent)
              && segmentEvent.refCount == old(segmentEvent.refCount))
        && (old(Slot(image).waitingForDeletion) != null ==>
              && outcome.event == old(Slot(image).waitingForDeletion) && remaining == segmentEvent
              && Slot(image).View() == old(Slot(image).View())
              && outcome.event.refCount == old(outcome.event.refCount) + 1)
    {
      var area := Slot(image);
      if area != null {
        if !area.Stable() {
          var event, consumed := area.AddWaiter(segmentEvent);
          remaining := if consumed then null else segmentEvent;
          outcome := Wait(event);
        } else {
          area.AddReference(ignoreFileSizing);
          remaining := segmentEvent;
          outcome := Reuse(area);
        }
      } else {
        newArea.beingCreated := true;
        SetSlot(image, newArea);
        remaining := segmentEvent;
        outcome := Publish(newArea);
      }
    }

    /**
     * The segment could not be built: empty the slot, mark the area as
     * having lost its file, clear BeingCreated and wake whoever queued
     * behind it. The event woken, if any, is returned.
     */
    method AbandonCreation(image: bool, area: ControlArea) returns (event: EventCounter?)
      requires Slot(image) == area
      modifies this, area, area.waitingForDeletion
      ensures event == old(area.waitingForDeletion)
      ensures Slot(image) == null && Slot(!image) == old(Slot(!image))
      ensures area.View() == old(area.View()).(waitingForDeletion := null, filePointerNull := true, beingCreated := false)
      ensures event != null ==> event.signalled && event.refCount == old(event.refCount)
    {
      event := area.waitingForDeletion;
      area.waitingForDeletion := null;
      area.filePointerNull := true;
      SetSlot(image, null);
      area.beingCreated := false;
      if event != null {
        event.Signal();
      }
    }

    /**
     * The segment was built. An image segment comes with its own control
     * area, which replaces the placeholder in the image slot; a data
     * segment keeps the placeholder. BeingCreated is cleared on the area
     * that stays and the placeholder's waiters are woken. area is the
     * control area the section uses from now on.
     */
    method CompleteCreation(image: bool, placeholder: ControlArea, segmentArea: ControlArea)
        returns (area: ControlArea, event: EventCounter?)
      requires Slot(image) == placeholder
      requires !image ==> segmentArea == placeholder
      modifies this, placeholder, segmentArea, placeholder.waitingForDeletion
      ensures event == old(placeholder.waitingForDeletion)
      ensures area == segmentArea && Slot(image) == segmentArea && Slot(!image) == old(Slot(!image))
      ensures segmentArea == placeholder ==> area.View() == old(area.View()).(waitingForDeletion := null, beingCreated := false)
      ensures image && segmentArea != placeholder ==>
        && placeholder.View() == old(placeholder.View()).(waitingForDeletion := null)
        && area.View() == old(area.View()).(beingCreated := false)
      ensures event != null ==> event.signalled && event.refCount == old(event.refCount)
    {
      event := placeholder.waitingForDeletion;
      placeholder.waitingForDeletion := null;
      area := placeholder;
      if image {
        SetSlot(image, segmentArea);
        area := segmentArea;
      }
      area.beingCreated := false;
      if event != null {
        event.Signal();
      }
    }
  }

  // -----------------------------------------------------------------------
  // Section size
  // -----------------------------------------------------------------------

  /** The size a new section gets, or the status that refuses it. */
  datatype Sizing =
    | Sized(sizeOfSection: int, fileSizeChecked: bool)
    | Refused(status: Status)

  /**
   * The size of a section on an existing segment. queryFile is set for a
   * user data section, whose size comes from FsRtlGetFileSize (getStatus,
   * endOfFile); otherwise the segment's own size is the end of file.
   */
  function ExistingSectionSize(queryFile: bool, getStatus: Status, endOfFile: int, sizeOfSegment: int,
                               maximumSize: int, protection: bv32): (r: Sizing)
    ensures r.Sized? && maximumSize != 0 ==> r.sizeOfSection == maximumSize
    ensures r.Sized? && !r.fileSizeChecked ==> DataMap.GrantsWrite(protection)
    ensures !queryFile ==> r.Sized? || r == Refused(SectionTooBig)
  {
    if queryFile && !getStatus.IsSuccess() then Refused(getStatus)
    else if queryFile && endOfFile == 0 && maximumSize == 0 then Refused(MappedFileSizeZero)
    else
      var eof := if queryFile then endOfFile else sizeOfSegment;
      if maximumSize == 0 then Sized(eof, true)
      else if eof >= maximumSize then Sized(maximumSize, true)
      else if !DataMap.GrantsWrite(protection) then Refused(SectionTooBig)
      else Sized(maximumSize, false)
  }

  /** The end of file the existing-segment rule compares against. */
  function EffectiveEndOfFile(queryFile: bool, endOfFile: int, sizeOfSegment: int): int
  {
    if queryFile then endOfFile else sizeOfSegment
  }

  /** When a section on an existing segment is refused, and why. */
  lemma ExistingSizeRefusals(queryFile: bool, getStatus: Status, endOfFile: int, sizeOfSegment: int,
                             maximumSize: int, protection: bv32)
    ensures var r := ExistingSectionSize(queryFile, getStatus, endOfFile, sizeOfSegment, maximumSize, protection);
      var eof := EffectiveEndOfFile(queryFile, endOfFile, sizeOfSegment);
      && (r.Refused? <==>
            || (queryFile && !getStatus.IsSuccess())
            || (queryFile && endOfFile == 0 && maximumSize == 0)
            || (maximumSize != 0 && eof < maximumSize && !DataMap.GrantsWrite(protection)))
      && (queryFile && !getStatus.IsSuccess() ==> r == Refused(getStatus))
      && (queryFile && getStatus.IsSuccess() && endOfFile == 0 && maximumSize == 0 ==> r == Refused(MappedFileSizeZero))
      && (r.Refused? ==> !r.status.IsSuccess())
  {
  }

  /**
   * An accepted size: the end of file when no size was asked for, the
   * maximum size otherwise; checked exactly when it does not exceed the end
   * of file, and beyond it only for a writable section.
   */
  lemma ExistingSizeAccepted(queryFile: bool, getStatus: Status, endOfFile: int, sizeOfSegment: int,
                             maximumSize: int, protection: bv32)
    requires ExistingSectionSize(queryFile, getStatus, endOfFile, sizeOfSegment, maximumSize, protection).Sized?
    ensures var r := ExistingSectionSize(queryFile, getStatus, endOfFile, sizeOfSegment, maximumSize, protection);
      var eof := EffectiveEndOfFile(queryFile, endOfFile, sizeOfSegment);
      && r.sizeOfSection == (if maximumSize == 0 then eof else maximumSize)
      && (r.fileSizeChecked <==> maximumSize == 0 || eof >= maximumSize)
      && (r.fileSizeChecked ==> r.sizeOfSection <= eof)
      && (!r.fileSizeChecked ==> r.sizeOfSection > eof && DataMap.GrantsWrite(protection))
  {
  }

  /**
   * The size of a section on a segment just built, which had no file size
   * check. Unless its control area was purged and the caller is not the
   * cache manager, the section is extended exactly when a size was asked
   * for and it is larger than the segment.
   */
  function CreatedSectionSize(maximumSize: int, sizeOfSegment: int): (r: Sizing)
    ensures r.Sized? && !r.fileSizeChecked
    ensures maximumSize != 0 ==> r.sizeOfSection == maximumSize
    ensures maximumSize == 0 ==> r.sizeOfSection == sizeOfSegment
    ensures forall wasPurged: bool, ignoreFileSizing: bool ::
      (!wasPurged || ignoreFileSizing) ==>
        (NeedsExtension(wasPurged, ignoreFileSizing, r.fileSizeChecked, r.sizeOfSection, sizeOfSegment) <==>
           maximumSize != 0 && maximumSize > sizeOfSegment)
  {
    Sized(if maximumSize == 0 then sizeOfSegment else maximumSize, false)
  }

  /** A paging-file section: never an image, and as large as the segment built for it. */
  function PagingSectionSize(attributes: bv32, mapStatus: Status, sizeOfSegment: int): (r: Sizing)
    ensures Has(attributes, SEC_IMAGE) ==> r == Refused(InvalidFileForSection)
    ensures !Has(attributes, SEC_IMAGE) && !mapStatus.IsSuccess() ==> r == Refused(mapStatus)
    ensures !Has(attributes, SEC_IMAGE) && mapStatus.IsSuccess() ==> r == Sized(sizeOfSegment, false)
  {
    if Has(attributes, SEC_IMAGE) then Refused(InvalidFileForSection)
    else if !mapStatus.IsSuccess() then Refused(mapStatus)
    else Sized(sizeOfSegment, false)
  }

  /**
   * The paging-file branch of MmCreateSection: an image attribute is refused
   * before anything is built, a failed build returns its own status, and
   * the section is then exactly as large as the segment built for it: the
   * requested size rounded up to whole pages, so it never needs extending.
   */
  method CreatePagingSection(ledger: PagingMap.CommitLedger, maximumSize: int, protectionMask: MmProtection,
                             attributes: bv32, chargeFault: Option<Status>,
                             segmentAllocated: bool, controlAreaAllocated: bool)
      returns (r: Sizing, ptes: array<Pte>, segment: PagingMap.PagingSegment)
    requires IsLargeInteger(maximumSize)
    requires chargeFault != Some(Success)
    modifies ledger
    ensures Has(attributes, SEC_IMAGE) ==> r == Refused(InvalidFileForSection)
    ensures !Has(attributes, SEC_IMAGE) && maximumSize == 0 ==> r == Refused(InvalidParameter4)
    ensures !Has(attributes, SEC_IMAGE) && maximumSize != 0 && PagingMap.TooBig(maximumSize) ==> r == Refused(SectionTooBig)
    ensures r.Refused? ==>
      && !r.status.IsSuccess()
      && ledger.charged == old(ledger.charged) && ledger.sharedCommit == old(ledger.sharedCommit)
    ensures r.Sized? ==>
      && 0 < maximumSize <= PagingMap.MAXIMUM_PAGING_SECTION
      && r.sizeOfSection == segment.sizeOfSegment == BytesToPages(maximumSize) * PAGE_SIZE
      && maximumSize <= r.sizeOfSection < maximumSize + PAGE_SIZE
      && ptes.Length == BytesToPages(maximumSize)
      && forall ignoreFileSizing: bool ::
           !NeedsExtension(ignoreFileSizing, ignoreFileSizing, r.fileSizeChecked, r.sizeOfSection, segment.sizeOfSegment)
    ensures !Has(attributes, SEC_IMAGE) && 0 < maximumSize <= PagingMap.MAXIMUM_PAGING_SECTION
            && !(Has(attributes, SEC_COMMIT) && chargeFault.Some?) && segmentAllocated && controlAreaAllocated
            ==> r.Sized?
  {
    if Has(attributes, SEC_IMAGE) {
      ptes := new Pte[0];
      segment := PagingMap.PagingSegment(0, 0, 0, 0, MM_ZERO_ACCESS, 0, 0, false, false, false);
      return Refused(InvalidFileForSection), ptes, segment;
    }
    var status;
    status, ptes, segment := PagingMap.MiCreatePagingFileMap(ledger, maximumSize, protectionMask, attributes,
                                                             chargeFault, segmentAllocated, controlAreaAllocated);
    r := PagingSectionSize(attributes, status, segment.sizeOfSegment);
  }

  /**
   * The size of a section on an existing segment, after the lookup took a
   * reference on area; a refused size gives the reference back.
   */
  method ResolveExistingSize(area: ControlArea, ignoreFileSizing: bool, getStatus: Status, endOfFile: int,
                             maximumSize: int, protection: bv32) returns (r: Sizing)
    requires area.numberOfSectionReferences > 0
    requires !ignoreFileSizing ==> area.numberOfUserReferences > 0
    modifies area
    ensures r == ExistingSectionSize(!ignoreFileSizing && !area.image, getStatus, endOfFile, area.sizeOfSegment,
                                     maximumSize, protection)
    ensures r.Sized? ==> area.View() == old(area.View())
    ensures r.Refused? ==> area.View() == old(area.View()).(
      sectionReferences := old(area.numberOfSectionReferences) - 1,
      userReferences := old(area.numberOfUserReferences) - (if ignoreFileSizing then 0 else 1))
  {
    var queryFile := !ignoreFileSizing && !area.image;
    var eof := area.sizeOfSegment;
    if queryFile {
      if !getStatus.IsSuccess() {
        area.RemoveReference(ignoreFileSizing);
        return Refused(getStatus);
      }
      if endOfFile == 0 && maximumSize == 0 {
        area.RemoveReference(ignoreFileSizing);
        return Refused(MappedFileSizeZero);
      }
      eof := endOfFile;
    }
    if maximumSize == 0 {
      r := Sized(eof, true);
    } else if eof >= maximumSize {
      r := Sized(maximumSize, true);
    } else {
      if (protection & PAGE_READWRITE) | (protection & PAGE_EXECUTE_READWRITE) == 0 {
        area.RemoveReference(ignoreFileSizing);
        return Refused(SectionTooBig);
      }
      r := Sized(maximumSize, false);
    }
  }

  // -----------------------------------------------------------------------
  // The section object
  // -----------------------------------------------------------------------

  /** The bits of the section's flag word that MmCreateSection sets itself. */
  datatype SectionFlags = SectionFlags(userReference: bool, noChange: bool, copyOnWrite: bool, based: bool)

  /**
   * The flags of the new section: a copy of the control area's flag word,
   * plus, for a user section, UserReference, NoChange under SEC_NO_CHANGE,
   * CopyOnWrite when the protection grants no write, Based under SEC_BASED.
   */
  function NewSectionFlags(areaFlags: SectionFlags, ignoreFileSizing: bool, attributes: bv32, protection: bv32): (f: SectionFlags)
    ensures !ignoreFileSizing ==> f.userReference
    ensures areaFlags.userReference ==> f.userReference
    ensures areaFlags.noChange ==> f.noChange
    ensures areaFlags.copyOnWrite ==> f.copyOnWrite
    ensures areaFlags.based ==> f.based
  {
    if ignoreFileSizing then areaFlags
    else SectionFlags(
      true,
      areaFlags.noChange || Has(attributes, SEC_NO_CHANGE),
      areaFlags.copyOnWrite || !DataMap.GrantsWrite(protection),
      areaFlags.based || Has(attributes, SEC_BASED))
  }

  /** The cache manager's section carries the area's flags and nothing more. */
  lemma CacheManagerFlags(areaFlags: SectionFlags, attributes: bv32, protection: bv32)
    ensures NewSectionFlags(areaFlags, true, attributes, protection) == areaFlags
  {
  }

  /**
   * A user section is marked as such, never loses a flag of the area, and
   * gains exactly the flags its attributes and protection call for.
   */
  lemma UserSectionFlags(areaFlags: SectionFlags, attributes: bv32, protection: bv32)
    ensures var f := NewSectionFlags(areaFlags, false, attributes, protection);
      && f.userReference
      && (f.noChange <==> areaFlags.noChange || attributes & SEC_NO_CHANGE != 0)
      && (f.copyOnWrite <==> areaFlags.copyOnWrite || protection & (PAGE_READWRITE | PAGE_EXECUTE_READWRITE) == 0)
      && (f.based <==> areaFlags.based || attributes & SEC_BASED != 0)
  {
    assert (protection & PAGE_READWRITE) | (protection & PAGE_EXECUTE_READWRITE)
        == protection & (PAGE_READWRITE | PAGE_EXECUTE_READWRITE);
  }

  /**
   * Whether the new section must be extended through MmExtendSection: a user
   * section on a purged area whose size was never checked, or any section
   * larger than its segment.
   */
  predicate NeedsExtension(wasPurged: bool, ignoreFileSizing: bool, fileSizeChecked: bool,
                           sizeOfSection: int, sizeOfSegment: int)
    ensures sizeOfSection > sizeOfSegment ==>
      NeedsExtension(wasPurged, ignoreFileSizing, fileSizeChecked, sizeOfSection, sizeOfSegment)
    ensures (ignoreFileSizing || fileSizeChecked || !wasPurged) && sizeOfSection <= sizeOfSegment ==>
      !NeedsExtension(wasPurged, ignoreFileSizing, fileSizeChecked, sizeOfSection, sizeOfSegment)
  {
    ((wasPurged && !ignoreFileSizing) && !fileSizeChecked) || sizeOfSection > sizeOfSegment
  }

  /** The cache manager, or a checked size, extends only a section larger than its segment. */
  lemma ExtensionWhenLarger(wasPurged: bool, ignoreFileSizing: bool, fileSizeChecked: bool,
                            sizeOfSection: int, sizeOfSegment: int)
    requires ignoreFileSizing || fileSizeChecked || !wasPurged
    ensures NeedsExtension(wasPurged, ignoreFileSizing, fileSizeChecked, sizeOfSection, sizeOfSegment)
      <==> sizeOfSection > sizeOfSegment
  {
  }

  /** A segment sized by the file system's answer never needs extending for its first section. */
  lemma FreshDataSectionNotExtended(ignoreFileSizing: bool, getStatus: Status, fileSize: int, maximumSize: int,
                                    protection: bv32, setStatus: Status)
    requires DataMap.DataFileSize(ignoreFileSizing, getStatus, fileSize, maximumSize, protection, setStatus).SizeOk?
    ensures var eof := DataMap.DataFileSize(ignoreFileSizing, getStatus, fileSize, maximumSize, protection, setStatus).endOfFile;
      var size := CreatedSectionSize(maximumSize, eof).sizeOfSection;
      !NeedsExtension(ignoreFileSizing, ignoreFileSizing, false, size, eof)
  {
    if !ignoreFileSizing {
      DataMap.DataFileSizeIsLarger(getStatus, fileSize, maximumSize, protection, setStatus);
    }
  }

  /** What MmCreateSection hands back for a section it created. */
  datatype Section = Section(sizeOfSection: int, flags: SectionFlags, extend: bool)

  /**
   * After the size is known: create the section object (createStatus is
   * ObCreateObject's answer), set its flags, mark the area purged for the
   * cache manager and decide on the extension. A failed object creation
   * gives back the reference the lookup took, if it took one.
   */
  method CreateSectionObject(area: ControlArea, incrementedRefCount: bool, ignoreFileSizing: bool,
                             sizing: Sizing, areaFlags: SectionFlags, attributes: bv32, protection: bv32,
                             createStatus: Status) returns (status: Status, section: Option<Section>)
    requires sizing.Sized?
    requires incrementedRefCount ==> area.numberOfSectionReferences > 0
    requires incrementedRefCount && !ignoreFileSizing ==> area.numberOfUserReferences > 0
    modifies area
    ensures status == createStatus
    ensures !createStatus.IsSuccess() ==> section == None
    ensures !createStatus.IsSuccess() && incrementedRefCount ==> area.View() == old(area.View()).(
      sectionReferences := old(area.numberOfSectionReferences) - 1,
      userReferences := old(area.numberOfUserReferences) - (if ignoreFileSizing then 0 else 1))
    ensures !createStatus.IsSuccess() && !incrementedRefCount ==> area.View() == old(area.View())
    ensures createStatus.IsSuccess() ==>
      && area.View() == old(area.View()).(wasPurged := old(area.wasPurged) || ignoreFileSizing)
      && section == Some(Section(
           sizing.sizeOfSection,
           NewSectionFlags(areaFlags, ignoreFileSizing, attributes, protection),
           NeedsExtension(area.wasPurged, ignoreFileSizing, sizing.fileSizeChecked,
                          sizing.sizeOfSection, area.sizeOfSegment)))
  {
    status := createStatus;
    if !createStatus.IsSuccess() {
      if incrementedRefCount {
        area.RemoveReference(ignoreFileSizing);
      }
      return status, None;
    }
    var flags := NewSectionFlags(areaFlags, ignoreFileSizing, attributes, protection);
    area.MarkPurged(ignoreFileSizing);
    var extend := NeedsExtension(area.wasPurged, ignoreFileSizing, sizing.fileSizeChecked,
                                 sizing.sizeOfSection, area.sizeOfSegment);
    section := Some(Section(sizing.sizeOfSection, flags, extend));
  }

  /** What one call of MmCreateSection on a file ends in. */
  datatype CreateOutcome =
    | Waiting(event: EventCounter)
    | Failed(status: Status)
    | Created(area: ControlArea, section: Section)

  /**
   * MmCreateSection for a file, from one pass of the lookup to the section
   * object. newArea is the zeroed control area allocated beforehand. For a
   * new segment, buildStatus and builtSize are what the image or data
   * builder returns and segmentArea the control area of its segment (the
   * placeholder itself for a data file). getStatus and endOfFile are what
   * FsRtlGetFileSize reports for an existing data segment; createStatus is
   * ObCreateObject's answer. The three ways the lookup can go are the three
   * methods below.
   */
  method MmCreateSectionForFile(file: SectionObjectPointers, image: bool, attributes: bv32, protection: bv32,
                                ignoreFileSizing: bool, maximumSize: int,
                                newArea: ControlArea, segmentEvent: EventCounter,
                                getStatus: Status, endOfFile: int,
                                buildStatus: Status, builtSize: int, segmentArea: ControlArea,
                                areaFlags: SectionFlags, createStatus: Status)
      returns (outcome: CreateOutcome)
    requires image == Has(attributes, SEC_IMAGE)
    requires newArea != file.Slot(image)
    requires newArea.View() == AreaView(false, false, 0, 0, null, false, false, false, 0)
    requires !image ==> segmentArea == newArea
    modifies file, newArea, segmentArea, file.Slot(image)
    modifies if file.Slot(image) == null then null else file.Slot(image).waitingForDeletion
    ensures file.Slot(!image) == old(file.Slot(!image))
    ensures old(file.Slot(image)) != null && !old(file.Slot(image).Stable()) ==>
      outcome.Waiting? && file.Slot(image) == old(file.Slot(image))
    ensures old(file.Slot(image)) == null ==> NewSegmentOutcome(file.Slot(image), newArea, segmentArea, buildStatus,
                                                                builtSize, maximumSize, createStatus, outcome)
    ensures old(file.Slot(image)) != null && old(file.Slot(image).Stable()) ==>
      && file.Slot(image) == old(file.Slot(image))
      && ExistingSegmentOutcome(old(file.Slot(image)), old(file.Slot(image).numberOfSectionReferences),
                                old(file.Slot(image).numberOfUserReferences), ignoreFileSizing, createStatus, outcome)
  {
    var area := file.Slot(image);
    if area == null {
      outcome := CreateForEmptySlot(file, image, attributes, protection, ignoreFileSizing, maximumSize, newArea,
                                    segmentEvent, buildStatus, builtSize, segmentArea, areaFlags, createStatus);
    } else if !area.Stable() {
      outcome := WaitForBusySlot(file, image, newArea, segmentEvent, ignoreFileSizing);
    } else {
      outcome := CreateForStableSlot(file, image, attributes, protection, ignoreFileSizing, maximumSize, newArea,
                                     segmentEvent, getStatus, endOfFile, areaFlags, createStatus);
    }
  }

  /**
   * A new segment: the slot ends up empty with the placeholder abandoned
   * when the build fails, and holds the segment's area, no longer being
   * created, when it succeeds; the section exists exactly when its object
   * could be created.
   */
  ghost predicate NewSegmentOutcome(slot: ControlArea?, newArea: ControlArea, segmentArea: ControlArea,
                                    buildStatus: Status, builtSize: int, maximumSize: int, createStatus: Status,
                                    outcome: CreateOutcome)
    reads newArea, segmentArea
  {
    && (!buildStatus.IsSuccess() ==>
          && outcome == Failed(buildStatus) && slot == null
          && newArea.filePointerNull && !newArea.beingCreated)
    && (buildStatus.IsSuccess() ==>
          && slot == segmentArea && !segmentArea.beingCreated && segmentArea.sizeOfSegment == builtSize
          && (outcome.Created? <==> createStatus.IsSuccess())
          && (outcome.Created? ==>
                && outcome.area == segmentArea
                && outcome.section.sizeOfSection == CreatedSectionSize(maximumSize, builtSize).sizeOfSection)
          && (outcome.Failed? ==> outcome.status == createStatus))
  }

  /**
   * An existing segment: a section that is not created leaves the area's
   * counts as they were, and one that is created holds one more section
   * reference and, for a user, one more user reference.
   */
  ghost predicate ExistingSegmentOutcome(area: ControlArea, sectionReferences: nat, userReferences: nat,
                                         ignoreFileSizing: bool, createStatus: Status, outcome: CreateOutcome)
    reads area
  {
    && !outcome.Waiting?
    && (outcome.Failed? ==>
          && area.numberOfSectionReferences == sectionReferences
          && area.numberOfUserReferences == userReferences)
    && (outcome.Created? ==>
          && outcome.area == area && createStatus.IsSuccess()
          && area.numberOfSectionReferences == sectionReferences + 1
          && area.numberOfUserReferences == userReferences + (if ignoreFileSizing then 0 else 1))
  }

  /** The slot holds an area being created or deleted: queue on its event. */
  method WaitForBusySlot(file: SectionObjectPointers, image: bool, newArea: ControlArea, segmentEvent: EventCounter,
                         ignoreFileSizing: bool) returns (outcome: CreateOutcome)
    requires file.Slot(image) != null && file.Slot(image) != newArea && !file.Slot(image).Stable()
    modifies file, newArea, file.Slot(image), file.Slot(image).waitingForDeletion
    ensures outcome.Waiting? && file.Slot(image) == old(file.Slot(image)) && file.Slot(!image) == old(file.Slot(!image))
  {
    var lookup, remaining := file.LookupSegment(image, newArea, segmentEvent, ignoreFileSizing);
    outcome := Waiting(lookup.event);
  }

  /** The slot is empty: publish the placeholder and build the segment. */
  method CreateForEmptySlot(file: SectionObjectPointers, image: bool, attributes: bv32, protection: bv32,
                            ignoreFileSizing: bool, maximumSize: int, newArea: ControlArea, segmentEvent: EventCounter,
                            buildStatus: Status, builtSize: int, segmentArea: ControlArea,
                            areaFlags: SectionFlags, createStatus: Status) returns (outcome: CreateOutcome)
    requires file.Slot(image) == null
    requires newArea.View() == AreaView(false, false, 0, 0, null, false, false, false, 0)
    requires !image ==> segmentArea == newArea
    modifies file, newArea, segmentArea
    ensures file.Slot(!image) == old(file.Slot(!image))
    ensures NewSegmentOutcome(file.Slot(image), newArea, segmentArea, buildStatus, builtSize, maximumSize,
                              createStatus, outcome)
  {
    var lookup, remaining := file.LookupSegment(image, newArea, segmentEvent, ignoreFileSizing);
    outcome := SectionOnNew(file, image, newArea, ignoreFileSizing, maximumSize, buildStatus, builtSize,
                            segmentArea, areaFlags, attributes, protection, createStatus);
  }

  /** The slot holds a stable area: share its segment. */
  method CreateForStableSlot(file: SectionObjectPointers, image: bool, attributes: bv32, protection: bv32,
                             ignoreFileSizing: bool, maximumSize: int, newArea: ControlArea, segmentEvent: EventCounter,
                             getStatus: Status, endOfFile: int, areaFlags: SectionFlags, createStatus: Status)
      returns (outcome: CreateOutcome)
    requires file.Slot(image) != null && file.Slot(image) != newArea && file.Slot(image).Stable()
    modifies file, newArea, file.Slot(image), file.Slot(image).waitingForDeletion
    ensures file.Slot(image) == old(file.Slot(image)) && file.Slot(!image) == old(file.Slot(!image))
    ensures ExistingSegmentOutcome(file.Slot(image), old(file.Slot(image).numberOfSectionReferences),
                                   old(file.Slot(image).numberOfUserReferences), ignoreFileSizing, createStatus, outcome)
  {
    ghost var area := file.Slot(image);
    ghost var refs, users := area.numberOfSectionReferences, area.numberOfUserReferences;
    var lookup, remaining := file.LookupSegment(image, newArea, segmentEvent, ignoreFileSizing);
    assert lookup == Reuse(area) && file.Slot(image) == area;
    ghost var before := area.View();
    assert before.sectionReferences == refs + 1;
    assert before.userReferences == users + (if ignoreFileSizing then 0 else 1);
    outcome := SectionOnExisting(lookup.area, ignoreFileSizing, getStatus, endOfFile, maximumSize,
                                 areaFlags, attributes, protection, createStatus);
    ExistingPathCounts(before, area.View(), area, ignoreFileSizing,
                       ExistingSectionSize(!ignoreFileSizing && !before.image, getStatus, endOfFile,
                                           before.sizeOfSegment, maximumSize, protection),
                       createStatus, NewSectionFlags(areaFlags, ignoreFileSizing, attributes, protection), outcome);
  }

  /**
   * The existing-segment path from the area's state before (holding the
   * lookup's reference) to after: a refused size or a failed object
   * creation drops that reference again, and a created section keeps it,
   * records a purge and carries the size, the flags and the extension
   * decision.
   */
  ghost predicate ExistingPath(before: AreaView, after: AreaView, area: ControlArea, ignoreFileSizing: bool,
                               sizing: Sizing, createStatus: Status, flags: SectionFlags, outcome: CreateOutcome)
  {
    && before.sectionReferences > 0
    && (!ignoreFileSizing ==> before.userReferences > 0)
    && var unref := before.(
         sectionReferences := before.sectionReferences - 1,
         userReferences := before.userReferences - (if ignoreFileSizing then 0 else 1));
    && (sizing.Refused? ==> outcome == Failed(sizing.status) && after == unref)
    && (sizing.Sized? && !createStatus.IsSuccess() ==> outcome == Failed(createStatus) && after == unref)
    && (sizing.Sized? && createStatus.IsSuccess() ==>
          && after == before.(wasPurged := before.wasPurged || ignoreFileSizing)
          && outcome == Created(area, Section(
               sizing.sizeOfSection, flags,
               NeedsExtension(after.wasPurged, ignoreFileSizing, sizing.fileSizeChecked,
                              sizing.sizeOfSection, after.sizeOfSegment))))
  }

  /** The reference counts an existing-segment path leaves behind. */
  lemma ExistingPathCounts(before: AreaView, after: AreaView, area: ControlArea, ignoreFileSizing: bool,
                           sizing: Sizing, createStatus: Status, flags: SectionFlags, outcome: CreateOutcome)
    requires ExistingPath(before, after, area, ignoreFileSizing, sizing, createStatus, flags, outcome)
    ensures !outcome.Waiting?
    ensures outcome.Failed? ==>
      && after.sectionReferences == before.sectionReferences - 1
      && after.userReferences == before.userReferences - (if ignoreFileSizing then 0 else 1)
    ensures outcome.Created? ==>
      && outcome.area == area && createStatus.IsSuccess()
      && after.sectionReferences == before.sectionReferences
      && after.userReferences == before.userReferences
  {
  }

  /** The existing-segment path, after the lookup took a reference on area. */
  method SectionOnExisting(area: ControlArea, ignoreFileSizing: bool, getStatus: Status, endOfFile: int,
                           maximumSize: int, areaFlags: SectionFlags, attributes: bv32, protection: bv32,
                           createStatus: Status) returns (outcome: CreateOutcome)
    requires area.numberOfSectionReferences > 0
    requires !ignoreFileSizing ==> area.numberOfUserReferences > 0
    modifies area
    ensures ExistingPath(old(area.View()), area.View(), area, ignoreFileSizing,
                         ExistingSectionSize(!ignoreFileSizing && !old(area.image), getStatus, endOfFile,
                                             old(area.sizeOfSegment), maximumSize, protection),
                         createStatus, NewSectionFlags(areaFlags, ignoreFileSizing, attributes, protection), outcome)
  {
    var sizing := ResolveExistingSize(area, ignoreFileSizing, getStatus, endOfFile, maximumSize, protection);
    if sizing.Refused? {
      return Failed(sizing.status);
    }
    var status, section := CreateSectionObject(area, true, ignoreFileSizing, sizing, areaFlags,
                                               attributes, protection, createStatus);
    outcome := if section.Some? then Created(area, section.value) else Failed(status);
  }

  /** The new-segment path, after the lookup published placeholder in the slot. */
  method SectionOnNew(file: SectionObjectPointers, image: bool, placeholder: ControlArea, ignoreFileSizing: bool,
                      maximumSize: int, buildStatus: Status, builtSize: int, segmentArea: ControlArea,
                      areaFlags: SectionFlags, attributes: bv32, protection: bv32, createStatus: Status)
      returns (outcome: CreateOutcome)
    requires file.Slot(image) == placeholder
    requires !image ==> segmentArea == placeholder
    modifies file, placeholder, segmentArea, placeholder.waitingForDeletion
    ensures file.Slot(!image) == old(file.Slot(!image))
    ensures !buildStatus.IsSuccess() ==>
      && outcome == Failed(buildStatus) && file.Slot(image) == null
      && placeholder.filePointerNull && !placeholder.beingCreated && placeholder.waitingForDeletion == null
    ensures buildStatus.IsSuccess() ==>
      var size := CreatedSectionSize(maximumSize, builtSize).sizeOfSection;
      && file.Slot(image) == segmentArea && !segmentArea.beingCreated && segmentArea.sizeOfSegment == builtSize
      && placeholder.waitingForDeletion == null
      && (createStatus.IsSuccess() ==>
            outcome == Created(segmentArea, Section(
              size,
              NewSectionFlags(areaFlags, ignoreFileSizing, attributes, protection),
              NeedsExtension(segmentArea.wasPurged, ignoreFileSizing, false, size, builtSize))))
      && (!createStatus.IsSuccess() ==> outcome == Failed(createStatus))
  {
    if !buildStatus.IsSuccess() {
      var woken := file.AbandonCreation(image, placeholder);
      return Failed(buildStatus);
    }
    var area, woken := file.CompleteCreation(image, placeholder, segmentArea);
    area.sizeOfSegment := builtSize;
    var sizing := CreatedSectionSize(maximumSize, builtSize);
    var status, section := CreateSectionObject(area, false, ignoreFileSizing, sizing, areaFlags,
                                               attributes, protection, createStatus);
    outcome := if section.Some? then Created(area, section.value) else Failed(status);
  }

  // -----------------------------------------------------------------------
  // Two callers on one file
  // -----------------------------------------------------------------------

  /**
   * While a first caller builds the segment, two more callers queue: the
   * first of them installs its event, the second shares it. Both wait on
   * the same event, which then holds one more reference than it was given.
   */
  method TwoWaiters(file: SectionObjectPointers, image: bool, builder: ControlArea,
                    area2: ControlArea, event2: EventCounter, area3: ControlArea, event3: EventCounter, ignoreFileSizing: bool)
      returns (second: Lookup, third: Lookup)
    requires file.Slot(image) == builder && builder.beingCreated && builder.waitingForDeletion == null
    requires area2 != builder && area3 != builder
    requires event2.refCount == 1
    modifies file, builder, area2, area3, event2
    ensures second == Wait(event2) && third == Wait(event2)
    ensures event2.refCount == 2
    ensures file.Slot(image) == builder && builder.waitingForDeletion == event2
  {
    var remaining2;
    second, remaining2 := file.LookupSegment(image, area2, event2, ignoreFileSizing);
    var remaining3;
    third, remaining3 := file.LookupSegment(image, area3, event3, ignoreFileSizing);
  }

  /**
   * A failed build wakes the caller queued behind it, and that caller's
   * recheck finds the slot empty and publishes its own area.
   */
  method FailedBuildHandsOver(file: SectionObjectPointers, image: bool, builder: ControlArea,
                              waiterArea: ControlArea, waiterEvent: EventCounter, ignoreFileSizing: bool)
      returns (waited: Lookup, recheck: Lookup)
    requires file.Slot(image) == null
    requires waiterArea != builder
    requires builder.View() == AreaView(false, false, 0, 0, null, false, false, false, 0)
    requires waiterArea.View() == AreaView(false, false, 0, 0, null, false, false, false, 0)
    modifies file, builder, waiterArea, waiterEvent
    ensures waited == Wait(waiterEvent) && waiterEvent.signalled
    ensures recheck == Publish(waiterArea) && file.Slot(image) == waiterArea && waiterArea.beingCreated
    ensures builder.filePointerNull && !builder.beingCreated && builder.waitingForDeletion == null
  {
    var first, spare := file.LookupSegment(image, builder, waiterEvent, ignoreFileSizing);
    var remaining;
    waited, remaining := file.LookupSegment(image, waiterArea, waiterEvent, ignoreFileSizing);
    var woken := file.AbandonCreation(image, builder);
    recheck, remaining := file.LookupSegment(image, waiterArea, waiterEvent, ignoreFileSizing);
  }
}
