/**
 * The table and counter setters of the kernel: the system service
 * descriptor tables and KeAddSystemServiceTable, the clock increment
 * globals and KeSetTimeIncrement / KeQueryTimeIncrement, and the
 * per-thread kernel APC disable count of KeEnterCriticalRegion.
 */
module KernelMisc {
  import opened Common

  const NUMBER_SERVICE_TABLES: nat := 4

  /** The Win32 service table slot: only the shadow table receives it. */
  const WIN32_SERVICE_INDEX: nat := 1

  /** Pointers are modelled as addresses; 0 is NULL. */
  datatype ServiceDescriptor = ServiceDescriptor(base: nat, count: nat, limit: u32, number: nat)

  const EmptyDescriptor: ServiceDescriptor := ServiceDescriptor(0, 0, 0, 0)

  /** KeServiceDescriptorTable and KeServiceDescriptorTableShadow. */
  class ServiceTables {
    var table: array<ServiceDescriptor>
    var shadow: array<ServiceDescriptor>

    ghost predicate Valid()
      reads this
    {
      table.Length == NUMBER_SERVICE_TABLES && shadow.Length == NUMBER_SERVICE_TABLES && table != shadow
    }

    /** Both tables start with every slot unbound. */
    constructor ()
      ensures Valid() && fresh(table) && fresh(shadow)
      ensures forall i :: 0 <= i < NUMBER_SERVICE_TABLES ==> table[i] == EmptyDescriptor && shadow[i] == EmptyDescriptor
    {
      table := new ServiceDescriptor[NUMBER_SERVICE_TABLES](_ => EmptyDescriptor);
      shadow := new ServiceDescriptor[NUMBER_SERVICE_TABLES](_ => EmptyDescriptor);
    }

    /** A slot that a new table may be bound to: in range and unbound in both tables. */
    predicate Free(index: nat)
      reads this, table, shadow
      requires Valid()
    {
      index < NUMBER_SERVICE_TABLES && table[index].base == 0 && shadow[index].base == 0
    }

    /**
     * Bind (base, count, limit, number) at index: always into the shadow
     * table, and into the static table unless index is the Win32 slot.
     * Nothing else changes, and nothing at all changes on failure.
     */
    method KeAddSystemServiceTable(base: nat, count: nat, limit: u32, number: nat, index: u32) returns (added: bool)
      requires Valid()
      modifies table, shadow
      ensures Valid()
      ensures added <==> old(Free(index))
      ensures var d := ServiceDescriptor(base, count, limit, number);
        added ==> (&& shadow[..] == old(shadow[..])[index := d]
                   && table[..] == (if index != WIN32_SERVICE_INDEX then old(table[..])[index := d] else old(table[..])))
      ensures !added ==> shadow[..] == old(shadow[..]) && table[..] == old(table[..])
      ensures added && base != 0 ==> !Free(index)
    {
      if index > NUMBER_SERVICE_TABLES - 1 || table[index].base != 0 || shadow[index].base != 0 {
        return false;
      }
      var d := ServiceDescriptor(base, count, limit, number);
      shadow[index] := d;
      if index != WIN32_SERVICE_INDEX {
        table[index] := d;
      }
      return true;
    }
  }

  /** The clock increment globals. */
  class ClockIncrements {
    var keMaximumIncrement: u32
    var keMinimumIncrement: u32
    var keTimeAdjustment: u32
    var keTimeIncrement: u32
    var kiTickOffset: u32

    constructor ()
      ensures keMaximumIncrement == 0 && keMinimumIncrement == 0 && keTimeAdjustment == 0
      ensures keTimeIncrement == 0 && kiTickOffset == 0
    {
      keMaximumIncrement, keMinimumIncrement, keTimeAdjustment := 0, 0, 0;
      keTimeIncrement, kiTickOffset := 0, 0;
    }

    /** The minimum increment never drops below one millisecond (10000 units of 100ns). */
    method KeSetTimeIncrement(maximumIncrement: u32, minimumIncrement: u32)
      modifies this
      ensures keMaximumIncrement == maximumIncrement && keTimeAdjustment == maximumIncrement
      ensures keTimeIncrement == maximumIncrement && kiTickOffset == maximumIncrement
      ensures keMinimumIncrement >= 10000 && keMinimumIncrement >= minimumIncrement
      ensures keMinimumIncrement == minimumIncrement || keMinimumIncrement == 10000
    {
      keMaximumIncrement := maximumIncrement;
      keMinimumIncrement := if minimumIncrement > 10 * 1000 then minimumIncrement else 10 * 1000;
      keTimeAdjustment := maximumIncrement;
      keTimeIncrement := maximumIncrement;
      kiTickOffset := maximumIncrement;
    }

    /** The increment reported is the maximum increment last set. */
    method KeQueryTimeIncrement() returns (increment: u32)
      ensures increment == keMaximumIncrement
    {
      return keMaximumIncrement;
    }
  }

  /** The one thread field KeEnterCriticalRegion touches. */
  class KThread {
    var kernelApcDisable: u32

    constructor ()
      ensures kernelApcDisable == 0
    {
      kernelApcDisable := 0;
    }

    /** Disable kernel APCs: one decrement of the ULONG count, wrapping from 0. */
    method KeEnterCriticalRegion()
      modifies this
      ensures kernelApcDisable == Sub32(old(kernelApcDisable), 1)
      ensures old(kernelApcDisable) > 0 ==> kernelApcDisable == old(kernelApcDisable) - 1
      ensures old(kernelApcDisable) == 0 ==> kernelApcDisable == U32_LIMIT - 1
    {
      kernelApcDisable := Sub32(kernelApcDisable, 1);
    }
  }

  /** Set then query: the reported increment is the maximum just set. */
  method SetThenQuery(clock: ClockIncrements, maximumIncrement: u32, minimumIncrement: u32) returns (increment: u32)
    modifies clock
    ensures increment == maximumIncrement
  {
    clock.KeSetTimeIncrement(maximumIncrement, minimumIncrement);
    increment := clock.KeQueryTimeIncrement();
  }

  /**
   * With a non-NULL base a second add at the same index always fails: either
   * the first bound the slot, or the slot was out of range or taken already.
   */
  method AddTwice(tables: ServiceTables, base: nat, limit: u32, index: u32) returns (first: bool, second: bool)
    requires tables.Valid() && base != 0
    modifies tables.table, tables.shadow
    ensures !second
  {
    first := tables.KeAddSystemServiceTable(base, 0, limit, 0, index);
    second := tables.KeAddSystemServiceTable(base, 0, limit, 0, index);
  }
}
