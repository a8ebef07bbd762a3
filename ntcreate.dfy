/**
 * NtCreateSection: the checks on the allocation attributes and the page
 * protection, and the bounded retry of MmCreateSection while the file
 * system reports a lock conflict.
 */
module CreateSection {
  import opened Common

  const SEC_BASED: bv32 := 0x0020_0000
  const SEC_NO_CHANGE: bv32 := 0x0040_0000
  const SEC_FILE: bv32 := 0x0080_0000
  const SEC_IMAGE: bv32 := 0x0100_0000
  const SEC_RESERVE: bv32 := 0x0400_0000
  const SEC_COMMIT: bv32 := 0x0800_0000
  const SEC_NOCACHE: bv32 := 0x1000_0000

  const PAGE_NOACCESS: bv32 := 0x01
  const PAGE_READONLY: bv32 := 0x02
  const PAGE_READWRITE: bv32 := 0x04
  const PAGE_WRITECOPY: bv32 := 0x08
  const PAGE_EXECUTE: bv32 := 0x10
  const PAGE_EXECUTE_READ: bv32 := 0x20
  const PAGE_EXECUTE_READWRITE: bv32 := 0x40
  const PAGE_EXECUTE_WRITECOPY: bv32 := 0x80
  const PAGE_GUARD: bv32 := 0x100
  const PAGE_NOCACHE: bv32 := 0x200

  /** The attribute bits NtCreateSection accepts at all. */
  const SEC_ALLOWED: bv32 := SEC_COMMIT | SEC_RESERVE | SEC_BASED | SEC_IMAGE | SEC_NOCACHE | SEC_NO_CHANGE

  /** How many times a lock conflict is retried before it is returned. */
  const MAX_LOCK_CONFLICT_RETRIES: nat := 3

  predicate Has(x: bv32, bits: bv32) { x & bits != 0 }

  /**
   * The argument checks, in source order; Success means MmCreateSection is
   * called. The protection is looked at only once the attributes pass.
   */
  function CheckArguments(attributes: bv32, protection: bv32): (r: Status)
    ensures r in {Success, InvalidParameter6, InvalidPageProtection}
    ensures r == InvalidPageProtection ==> AcceptedAttributes(attributes)
  {
    if attributes & !SEC_ALLOWED != 0 then InvalidParameter6
    else if !Has(attributes, SEC_COMMIT | SEC_RESERVE | SEC_IMAGE) then InvalidParameter6
    else if Has(attributes, SEC_IMAGE) && Has(attributes, SEC_COMMIT | SEC_RESERVE | SEC_NOCACHE | SEC_NO_CHANGE) then InvalidParameter6
    else if Has(attributes, SEC_COMMIT) && Has(attributes, SEC_RESERVE) then InvalidParameter6
    else if Has(protection, PAGE_NOCACHE) || Has(protection, PAGE_GUARD) || Has(protection, PAGE_NOACCESS) then InvalidPageProtection
    else Success
  }

  /**
   * The attributes NtCreateSection lets through, stated independently of
   * the cascade: only known bits, exactly one of COMMIT, RESERVE and IMAGE,
   * and IMAGE alone apart from BASED.
   */
  predicate AcceptedAttributes(a: bv32)
  {
    && a & !SEC_ALLOWED == 0
    && (if Has(a, SEC_IMAGE) then a & !(SEC_IMAGE | SEC_BASED) == 0
        else Has(a, SEC_COMMIT) != Has(a, SEC_RESERVE))
  }

  lemma ArgumentsAcceptedIff(attributes: bv32, protection: bv32)
    ensures CheckArguments(attributes, protection) == Success <==>
      AcceptedAttributes(attributes) && protection & (PAGE_NOCACHE | PAGE_GUARD | PAGE_NOACCESS) == 0
  {
  }

  /** Each of the four attribute faults gives STATUS_INVALID_PARAMETER_6, whatever the protection. */
  lemma AttributeFaults(attributes: bv32, protection: bv32)
    requires || attributes & !SEC_ALLOWED != 0
             || attributes & (SEC_COMMIT | SEC_RESERVE | SEC_IMAGE) == 0
             || (Has(attributes, SEC_IMAGE) && Has(attributes, SEC_COMMIT | SEC_RESERVE | SEC_NOCACHE | SEC_NO_CHANGE))
             || (Has(attributes, SEC_COMMIT) && Has(attributes, SEC_RESERVE))
    ensures CheckArguments(attributes, protection) == InvalidParameter6
  {
  }

  /** With good attributes, NOCACHE, GUARD or NOACCESS in the protection gives STATUS_INVALID_PAGE_PROTECTION. */
  lemma ProtectionFaults(attributes: bv32, protection: bv32)
    requires AcceptedAttributes(attributes)
    requires Has(protection, PAGE_NOCACHE) || Has(protection, PAGE_GUARD) || Has(protection, PAGE_NOACCESS)
    ensures CheckArguments(attributes, protection) == InvalidPageProtection
  {
  }

  /**
   * NtCreateSection up to the object insert. mmCreate(k) is the status of
   * the k-th call of MmCreateSection; calls is how many were made.
   */
  method NtCreateSection(attributes: bv32, protection: bv32, mmCreate: nat -> Status)
      returns (status: Status, calls: nat)
    ensures CheckArguments(attributes, protection) != Success ==>
      status == CheckArguments(attributes, protection) && calls == 0
    ensures CheckArguments(attributes, protection) == Success ==>
      && 1 <= calls <= MAX_LOCK_CONFLICT_RETRIES + 1
      && status == mmCreate(calls - 1)
      && (forall k :: 0 <= k < calls - 1 ==> mmCreate(k) == FileLockConflict)
      && (calls <= MAX_LOCK_CONFLICT_RETRIES ==> status != FileLockConflict)
  {
    status := CheckArguments(attributes, protection);
    calls := 0;
    if status != Success {
      return;
    }
    var retryCount := 0;
    status := mmCreate(0);
    calls := 1;
    while !status.IsSuccess() && status == FileLockConflict && retryCount < MAX_LOCK_CONFLICT_RETRIES
      invariant retryCount <= MAX_LOCK_CONFLICT_RETRIES && calls == retryCount + 1
      invariant status == mmCreate(retryCount)
      invariant forall k :: 0 <= k < retryCount ==> mmCreate(k) == FileLockConflict
      decreases MAX_LOCK_CONFLICT_RETRIES - retryCount
    {
      retryCount := retryCount + 1;
      status := mmCreate(retryCount);
      calls := calls + 1;
    }
  }

  /** A conflict on every attempt is returned after the fourth call. */
  method PersistentConflict(attributes: bv32, protection: bv32) returns (status: Status, calls: nat)
    requires CheckArguments(attributes, protection) == Success
    ensures status == FileLockConflict && calls == MAX_LOCK_CONFLICT_RETRIES + 1
  {
    status, calls := NtCreateSection(attributes, protection, _ => FileLockConflict);
  }

  /** Any other failure of the first call is returned at once. */
  method FirstFailureReturned(attributes: bv32, protection: bv32, failure: Status) returns (status: Status, calls: nat)
    requires CheckArguments(attributes, protection) == Success
    requires failure != FileLockConflict
    ensures status == failure && calls == 1
  {
    var mmCreate: nat -> Status := _ => failure;
    status, calls := NtCreateSection(attributes, protection, mmCreate);
    assert mmCreate(0) == failure;
  }
}
