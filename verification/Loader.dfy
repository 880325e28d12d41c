/** Starting the kernel: mapping, protection, load options and the entry address, composed. */
module Loader {
  import opened Wrappers
  import opened Bytes
  import opened Kernel
  import opened Mapping
  import opened Protection
  import opened ImagePages
  import opened Entry
  import opened Cmdline

  datatype StartError =
    | MappingFailed(fault: MapError)
    | CmdlineFailed(encode: EncodeError)
    | EntryOverflow

  /** The fields of the loaded-image protocol that the loader changes. */
  class LoadedImage {
    var imageBase: u64
    var imageSize: u64
    var loadOptions: Buffer

    constructor ()
      ensures imageBase == 0 && imageSize == 0 && loadOptions == Null
    {
      imageBase, imageSize, loadOptions := 0, 0, Null;
    }
  }

  /** Whether starting fails, and with which of its errors first. */
  function StartFault(kernel: Image, cmdline: Option<seq<u8>>, allocation: Allocation, poolGrants: bool): Option<StartError>
  {
    if allocation.Refused? then Some(MappingFailed(MapError.AllocationFailed))
    else if GoodPrefix(kernel) < |kernel.sections| then Some(MappingFailed(Fault(kernel, GoodPrefix(kernel))))
    else if cmdline.Some? && EncodeFault(cmdline.value, poolGrants).Some? then
      Some(CmdlineFailed(EncodeFault(cmdline.value, poolGrants).value))
    else if allocation.base + kernel.entryPoint >= USIZE_LIMIT then Some(EntryOverflow)
    else None
  }

  /** When starting succeeds, and when it fails in which way: pages refused, a section that does not
      fit, a command line whose encoding does not fit in 32 bits or gets no memory, an entry address
      that overflows; in this order. */
  lemma StartFaultCases(kernel: Image, cmdline: Option<seq<u8>>, allocation: Allocation, poolGrants: bool)
    ensures var fault, mapped := StartFault(kernel, cmdline, allocation, poolGrants),
                                 allocation.Granted? && GoodPrefix(kernel) == |kernel.sections|;
            var n := if cmdline.Some? then |Strip(cmdline.value)| else 0;
            var encoded := n == 0 || (2 * n + 2 <= 0xFFFF_FFFF && poolGrants);
            && (fault == Some(MappingFailed(MapError.AllocationFailed)) <==> allocation.Refused?)
            && (fault.Some? && fault.value.MappingFailed? <==> !mapped)
            && (allocation.Granted? && !mapped ==> fault == Some(MappingFailed(Fault(kernel, GoodPrefix(kernel)))))
            && (fault.Some? && fault.value.CmdlineFailed? <==> mapped && !encoded)
            && (fault == Some(EntryOverflow) <==>
                  mapped && encoded && allocation.base + kernel.entryPoint > 0xFFFF_FFFF_FFFF_FFFF)
            && (fault == None <==> mapped && encoded && allocation.base + kernel.entryPoint <= 0xFFFF_FFFF_FFFF_FFFF)
  {
    if cmdline.Some? {
      EncodeFaultCases(cmdline.value, poolGrants);
    }
  }

  /** Everything up to the jump; the result is the address jumped to. */
  method Start(kernel: Image, cmdline: Option<seq<u8>>, loaded: LoadedImage, allocation: Allocation,
               firmware: Firmware?, poolGrants: bool) returns (r: Result<u64, StartError>)
    requires Allocated(kernel, allocation)
    modifies loaded, firmware, if allocation.Granted? then {allocation.memory} else {}
    ensures r.Failure? <==> StartFault(kernel, cmdline, allocation, poolGrants).Some?
    ensures r.Failure? ==> Some(r.error) == StartFault(kernel, cmdline, allocation, poolGrants)
    ensures r.Success? ==> allocation.Granted? && r.value == allocation.base + kernel.entryPoint
    // Memory holds the leading sections that fit, whether or not all do.
    ensures allocation.Granted? ==>
              allocation.memory[..] == Mapped(kernel, GoodPrefix(kernel), old(allocation.memory[..]))
    // Attributes change only once everything is mapped.
    ensures firmware != null && allocation.Granted? && GoodPrefix(kernel) == |kernel.sections| ==>
              firmware.State() == ProtectedState(kernel, allocation.base, firmware.granted, old(firmware.State()))
    ensures firmware != null && !(allocation.Granted? && GoodPrefix(kernel) == |kernel.sections|) ==>
              firmware.State() == old(firmware.State())
    // Without NX_COMPAT the firmware is left alone; with it, exactly the code pages are sealed if every
    // call is granted.
    ensures firmware != null && !kernel.nxCompat ==> firmware.State() == old(firmware.State())
    ensures firmware != null && allocation.Granted? && GoodPrefix(kernel) == |kernel.sections| ==>
              PagesSealed(kernel, allocation.base, firmware.granted, old(firmware.State()), firmware.State())
    // No firmware call makes a page writable and executable, if none was to begin with.
    ensures firmware != null && allocation.Granted? ==>
              KeptSafe(kernel, allocation.base, old(firmware.State()), firmware.State())
    // Where the jump goes, and on which page.
    ensures r.Success? ==> JumpsTo(kernel, allocation.base, r.value, allocation.memory[..])
    ensures r.Success? && firmware != null ==>
              EntrySealed(kernel, allocation.base, firmware.granted, old(firmware.State()), firmware.State())
    // The loaded image is described once everything is mapped, and given the command line if it has
    // one that can be encoded; otherwise its fields stay.
    ensures var mapped := allocation.Granted? && GoodPrefix(kernel) == |kernel.sections|;
            var optioned := mapped && cmdline.Some? && Strip(cmdline.value) != [] && EncodeFault(cmdline.value, poolGrants).None?;
            && (mapped ==> loaded.imageBase == allocation.base && loaded.imageSize == kernel.size)
            && (!mapped ==> loaded.imageBase == old(loaded.imageBase) && loaded.imageSize == old(loaded.imageSize))
            && (optioned ==>
                  && loaded.loadOptions.Pool?
                  && fresh(loaded.loadOptions.bytes)
                  && loaded.loadOptions.size == loaded.loadOptions.bytes.Length
                  && loaded.loadOptions.bytes[..] == LoadOptions(Strip(cmdline.value)))
            && (!optioned ==> loaded.loadOptions == old(loaded.loadOptions))
  {
    var mapped := MapSections(kernel, allocation);
    if mapped.Failure? {
      return Failure(MappingFailed(mapped.error));
    }
    var loadedBase := mapped.value;
    if kernel.nxCompat {
      if firmware != null {
        Apply(firmware, loadedBase, kernel);
      }
    }
    MappedKernelJumps(kernel, loadedBase, old(allocation.memory[..]));
    if firmware != null {
      SealsPages(kernel, loadedBase, firmware.granted, old(firmware.State()));
      ProtectionKeepsSafe(kernel, loadedBase, firmware.granted, old(firmware.State()));
      ProtectedKernelSealed(kernel, loadedBase, firmware.granted, old(firmware.State()));
    }
    loaded.imageBase, loaded.imageSize := loadedBase, kernel.size;

    if cmdline.Some? {
      var encoded := EncodeUcs2(cmdline.value, poolGrants);
      if encoded.Failure? {
        return Failure(CmdlineFailed(encoded.error));
      }
      if encoded.value.Pool? {
        loaded.loadOptions := encoded.value;
      }
    }

    var entryAddr := loadedBase + kernel.entryPoint;
    if entryAddr >= USIZE_LIMIT {
      return Failure(EntryOverflow);
    }
    return Success(entryAddr);
  }
}
