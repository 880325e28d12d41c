/** The stub's run from the kernel image to the jump. */
module Boot {
  import opened Wrappers
  import opened Bytes
  import Kernel
  import Mapping
  import Protection
  import Cmdline
  import Base64
  import Luks
  import LoadFile2
  import ImagePages
  import Entry
  import Loader

  datatype BootError =
    | ParseFailed(parse: Kernel.ParseError)
    | InstallFailed
    | PolicyFailed(inject: Luks.InjectError)
    | StartFailed(start: Loader.StartError)

  /** What the world outside answers: the allocators, protocol installation, TPM and key file. */
  datatype World = World(
    allocation: Mapping.Allocation,
    poolGrants: bool,
    installs: bool,
    tpmAvailable: bool,
    keyFile: Luks.KeyFile)

  /** The units from number `n` on spell the option's name. */
  ghost predicate NamedAt(options: seq<u8>, n: nat) {
    && 2 * (n + 10) <= |options|
    && forall i :: 0 <= i < 10 ==>
         options[2 * (n + i)] == " luks.key="[i] as int && options[2 * (n + i) + 1] == 0
  }

  /** The command line, option name and key that the load options must carry, if there is a key to
      inject. */
  ghost predicate CarriesKey(options: seq<u8>, cmdline: Option<seq<u8>>, key: seq<u8>) {
    var base := Cmdline.Strip(if cmdline.Some? then cmdline.value else []);
    NamedAt(options, |base|) && Luks.RecoverKey(options) == Some((base, key))
  }

  lemma InjectedOptionsCarryKey(cmdline: Option<seq<u8>>, key: seq<u8>)
    requires key != []
    ensures var injected := Luks.Injected(if cmdline.Some? then cmdline.value else [], key);
            Cmdline.Strip(injected) != [] && CarriesKey(Cmdline.LoadOptions(Cmdline.Strip(injected)), cmdline, key)
  {
    var base := if cmdline.Some? then cmdline.value else [];
    Luks.KeyComesBack(base, key);
    Luks.SecondStripKeeps(base, key);
    InjectedName(base, key);
  }

  lemma InjectedName(base: seq<u8>, key: seq<u8>)
    ensures NamedAt(Cmdline.LoadOptions(Luks.Injected(base, key)), |Cmdline.Strip(base)|)
  {
    Luks.InjectedText(base, key);
    NameInOptions(Luks.Injected(base, key), |Cmdline.Strip(base)|);
  }

  lemma NameInOptions(c: seq<u8>, n: nat)
    requires n + 10 <= |c| && forall i :: 0 <= i < 10 ==> c[n + i] == " luks.key="[i] as int
    ensures NamedAt(Cmdline.LoadOptions(c), n)
  {
  }

  /** Whether the boot policy injects a key. */
  predicate Injects(world: World) {
    !world.tpmAvailable && world.keyFile.Contents? && world.keyFile.bytes != []
  }

  /** The command line to boot with, or why choosing it fails. */
  function Chosen(cmdline: Option<seq<u8>>, world: World): Result<Option<seq<u8>>, Luks.InjectError> {
    if world.tpmAvailable then Success(cmdline)
    else
      var injected := Luks.Injection(world.keyFile, if cmdline.Some? then cmdline.value else []);
      if injected == Success(None) then Success(cmdline) else injected
  }

  /** Whether choosing the command line and starting fails, and with which error first. */
  function PolicyFault(kernel: Kernel.Image, cmdline: Option<seq<u8>>, world: World): Option<BootError> {
    var chosen := Chosen(cmdline, world);
    if chosen.Failure? then Some(PolicyFailed(chosen.error))
    else
      var fault := Loader.StartFault(kernel, chosen.value, world.allocation, world.poolGrants);
      if fault.Some? then Some(StartFailed(fault.value)) else None
  }

  /** The same for the whole run. */
  function BootFault(p: Kernel.Platform, file: seq<u8>, hasInitrd: bool, cmdline: Option<seq<u8>>, world: World)
    : Option<BootError>
  {
    var kernel := Kernel.Parse(p, file);
    if kernel.Failure? then Some(ParseFailed(kernel.error))
    else if hasInitrd && !world.installs then Some(InstallFailed)
    else PolicyFault(kernel.value, cmdline, world)
  }

  /** Exactly when a run boots: the kernel parses; the initrd, if any, is installed; a key file that is
      needed can be read; pages are granted and all sections fit; the command line, with option name
      and encoded key if there is a key to inject, is empty or its UCS-2 form with a NUL fits in 32
      bits and in memory; and the entry address fits in 64 bits. */
  lemma BootsExactly(p: Kernel.Platform, file: seq<u8>, hasInitrd: bool, cmdline: Option<seq<u8>>, world: World)
    ensures BootFault(p, file, hasInitrd, cmdline, world) == None <==>
            && Kernel.Parse(p, file).Success?
            && (hasInitrd ==> world.installs)
            && (world.tpmAvailable || !world.keyFile.Unreadable?)
            && world.allocation.Granted?
            && var kernel := Kernel.Parse(p, file).value;
            && Mapping.GoodPrefix(kernel) == |kernel.sections|
            && world.allocation.base + kernel.entryPoint <= 0xFFFF_FFFF_FFFF_FFFF
            && var n := |Cmdline.Strip(if cmdline.Some? then cmdline.value else [])|
                        + if !world.tpmAvailable && world.keyFile.Contents? && world.keyFile.bytes != [] then
                            10 + (4 * |world.keyFile.bytes| + 2) / 3
                          else 0;
               n == 0 || (2 * n + 2 <= 0xFFFF_FFFF && world.poolGrants)
  {
    ChosenLength(cmdline, world);
    var chosen := Chosen(cmdline, world);
    if Kernel.Parse(p, file).Success? && chosen.Success? {
      Loader.StartFaultCases(Kernel.Parse(p, file).value, chosen.value, world.allocation, world.poolGrants);
    }
  }

  /** How long the chosen command line is, stripped; choosing fails only for an unreadable key file or
      a length far beyond what can be encoded. */
  lemma ChosenLength(cmdline: Option<seq<u8>>, world: World)
    ensures var c := Chosen(cmdline, world);
            var n := |Cmdline.Strip(if cmdline.Some? then cmdline.value else [])|
                     + if !world.tpmAvailable && world.keyFile.Contents? && world.keyFile.bytes != [] then
                         10 + (4 * |world.keyFile.bytes| + 2) / 3
                       else 0;
            && (!world.tpmAvailable && world.keyFile.Unreadable? ==> c.Failure?)
            && (c.Failure? ==> (!world.tpmAvailable && world.keyFile.Unreadable?) || 2 * n + 2 > 0xFFFF_FFFF)
            && (c.Success? ==> n == if c.value.Some? then |Cmdline.Strip(c.value.value)| else 0)
  {
    var base := if cmdline.Some? then cmdline.value else [];
    Luks.InjectionCases(world.keyFile, base);
    if Injects(world) {
      Luks.SecondStripKeeps(base, world.keyFile.bytes);
      Base64.EncodeLength(world.keyFile.bytes);
    }
  }

  /** And why it does not, where nothing has been touched yet. */
  lemma RefusedBecause(p: Kernel.Platform, file: seq<u8>, hasInitrd: bool, cmdline: Option<seq<u8>>, world: World)
    ensures var fault, parsed := BootFault(p, file, hasInitrd, cmdline, world), Kernel.Parse(p, file);
            && (forall e :: fault == Some(ParseFailed(e)) <==> parsed == Failure(e))
            && (fault == Some(InstallFailed) <==> parsed.Success? && hasInitrd && !world.installs)
            && (fault == Some(PolicyFailed(Luks.KeyUnreadable)) <==>
                  && parsed.Success? && (hasInitrd ==> world.installs)
                  && !world.tpmAvailable && world.keyFile.Unreadable?)
  {
    Luks.InjectionCases(world.keyFile, if cmdline.Some? then cmdline.value else []);
  }

  /** There are pages, and every section can be mapped into them. */
  predicate MapsAll(kernel: Kernel.Image, world: World) {
    world.allocation.Granted? && Mapping.GoodPrefix(kernel) == |kernel.sections|
  }

  /** The load options of a started kernel: the stripped command line and the key if one is injected,
      else the stripped command line if it is not empty, else what they were. */
  ghost predicate OptionsSet(cmdline: Option<seq<u8>>, world: World, before: Cmdline.Buffer,
                             after: Cmdline.Buffer, bytes: seq<u8>)
  {
    var base := Cmdline.Strip(if cmdline.Some? then cmdline.value else []);
    if Injects(world) then
      after.Pool? && after.size == |bytes| && CarriesKey(bytes, cmdline, world.keyFile.bytes)
    else if base != [] then
      after.Pool? && after.size == |bytes| && Luks.ReadOptions(bytes) == Some(base)
    else
      after == before
  }

  ghost function OptionBytes(options: Cmdline.Buffer): seq<u8>
    reads if options.Pool? then {options.bytes} else {}
  {
    if options.Pool? then options.bytes[..] else []
  }

  /** What the encoder stores for the chosen command line is what `OptionsSet` asks for. */
  lemma ChosenOptions(cmdline: Option<seq<u8>>, world: World, before: Cmdline.Buffer, after: Cmdline.Buffer, bytes: seq<u8>)
    requires Chosen(cmdline, world).Success?
    requires var c := Chosen(cmdline, world).value;
             if c.Some? && Cmdline.Strip(c.value) != [] then
               after.Pool? && after.size == |bytes| && bytes == Cmdline.LoadOptions(Cmdline.Strip(c.value))
             else after == before
    ensures OptionsSet(cmdline, world, before, after, bytes)
  {
    if Injects(world) {
      InjectedOptionsCarryKey(cmdline, world.keyFile.bytes);
    } else if cmdline.Some? {
      Luks.ReadsWhatWasEncoded(Cmdline.Strip(cmdline.value));
    }
  }

  /** Choosing the command line and starting the kernel with it. */
  method StartWithPolicy(kernel: Kernel.Image, cmdline: Option<seq<u8>>, world: World,
                         loaded: Loader.LoadedImage, firmware: Protection.Firmware?)
    returns (r: Result<u64, BootError>)
    requires Mapping.Allocated(kernel, world.allocation)
    modifies loaded, firmware, if world.allocation.Granted? then {world.allocation.memory} else {}
    ensures r.Failure? <==> PolicyFault(kernel, cmdline, world).Some?
    ensures r.Failure? ==> Some(r.error) == PolicyFault(kernel, cmdline, world)
    // A policy failure comes before anything is touched.
    ensures r.Failure? && r.error.PolicyFailed? ==>
              && unchanged(loaded)
              && (firmware != null ==> firmware.State() == old(firmware.State()))
              && (world.allocation.Granted? ==> world.allocation.memory[..] == old(world.allocation.memory[..]))
    ensures r.Success? ==>
              && MapsAll(kernel, world)
              && r.value == world.allocation.base + kernel.entryPoint
              && Entry.JumpsTo(kernel, world.allocation.base, r.value, world.allocation.memory[..])
    // Once the command line is chosen, memory, attributes and fields change as far as starting gets.
    ensures (r.Success? || r.error.StartFailed?) && world.allocation.Granted? ==>
              world.allocation.memory[..] ==
              Mapping.Mapped(kernel, Mapping.GoodPrefix(kernel), old(world.allocation.memory[..]))
    ensures (r.Success? || r.error.StartFailed?) && firmware != null ==>
              firmware.State() ==
              if MapsAll(kernel, world) then
                ImagePages.ProtectedState(kernel, world.allocation.base, firmware.granted, old(firmware.State()))
              else old(firmware.State())
    ensures r.Success? || r.error.StartFailed? ==>
              if MapsAll(kernel, world) then
                loaded.imageBase == world.allocation.base && loaded.imageSize == kernel.size
              else loaded.imageBase == old(loaded.imageBase) && loaded.imageSize == old(loaded.imageSize)
    ensures if r.Success? || r.error == StartFailed(Loader.EntryOverflow) then
              OptionsSet(cmdline, world, old(loaded.loadOptions), loaded.loadOptions, OptionBytes(loaded.loadOptions))
            else loaded.loadOptions == old(loaded.loadOptions)
    // Without NX_COMPAT the firmware is left alone; with it, exactly the code pages are sealed if every
    // call is granted; and it is kept safe either way.
    ensures firmware != null && !kernel.nxCompat ==> firmware.State() == old(firmware.State())
    ensures (r.Success? || r.error.StartFailed?) && firmware != null && MapsAll(kernel, world) ==>
              ImagePages.PagesSealed(kernel, world.allocation.base, firmware.granted, old(firmware.State()), firmware.State())
    ensures firmware != null && world.allocation.Granted? ==>
              ImagePages.KeptSafe(kernel, world.allocation.base, old(firmware.State()), firmware.State())
  {
    var chosen := Luks.ChooseCmdline(world.tpmAvailable, world.keyFile, cmdline);
    assert chosen == Chosen(cmdline, world);
    if chosen.Failure? {
      return Failure(PolicyFailed(chosen.error));
    }
    var started := Loader.Start(kernel, chosen.value, loaded, world.allocation, firmware, world.poolGrants);
    assert started.Failure? ==> Some(StartFailed(started.error)) == PolicyFault(kernel, cmdline, world);
    if started.Success? || started.error == Loader.EntryOverflow {
      ChosenOptions(cmdline, world, old(loaded.loadOptions), loaded.loadOptions, OptionBytes(loaded.loadOptions));
    }
    if started.Failure? {
      return Failure(StartFailed(started.error));
    }
    return Success(started.value);
  }

  /** The command line is embedded in the boot image, the key in a file: what the kernel then finds in
      its load options is the one, stripped, and the other, exactly. */
  method Run(p: Kernel.Platform, file: seq<u8>, initrd: array?<u8>, cmdline: Option<seq<u8>>, world: World,
             provider: LoadFile2.Provider, loaded: Loader.LoadedImage, firmware: Protection.Firmware?)
    returns (r: Result<u64, BootError>)
    requires Kernel.Parse(p, file).Success? ==> Mapping.Allocated(Kernel.Parse(p, file).value, world.allocation)
    modifies provider, loaded, firmware, if world.allocation.Granted? then {world.allocation.memory} else {}
    ensures r.Failure? <==> BootFault(p, file, initrd != null, cmdline, world).Some?
    ensures r.Failure? ==> Some(r.error) == BootFault(p, file, initrd != null, cmdline, world)
    ensures Kernel.Parse(p, file).Failure? ==> r == Failure(ParseFailed(Kernel.Parse(p, file).error))
    ensures r == Failure(InstallFailed) <==> Kernel.Parse(p, file).Success? && initrd != null && !world.installs
    ensures r == Failure(PolicyFailed(Luks.KeyUnreadable)) <==>
              && Kernel.Parse(p, file).Success? && (initrd != null ==> world.installs)
              && !world.tpmAvailable && world.keyFile.Unreadable?
    // A kernel that is refused, or an initrd that cannot be installed, leaves the rest untouched.
    ensures r.Failure? && !r.error.StartFailed? ==>
              && unchanged(loaded)
              && (firmware != null ==> firmware.State() == old(firmware.State()))
              && (world.allocation.Granted? ==> world.allocation.memory[..] == old(world.allocation.memory[..]))
    ensures initrd == null || Kernel.Parse(p, file).Failure? ==> unchanged(provider)
    ensures initrd != null && Kernel.Parse(p, file).Success? ==>
              provider.Valid() && provider.filePtr == initrd && provider.fileLen == initrd.Length
    ensures r.Success? ==>
              && Kernel.Parse(p, file).Success?
              && var kernel := Kernel.Parse(p, file).value;
              && MapsAll(kernel, world)
              && r.value == world.allocation.base + kernel.entryPoint
              && Entry.JumpsTo(kernel, world.allocation.base, r.value, world.allocation.memory[..])
    // Otherwise memory, attributes and fields change as far as starting gets.
    ensures (r.Success? || r.error.StartFailed?) && world.allocation.Granted? ==>
              && Kernel.Parse(p, file).Success?
              && var kernel := Kernel.Parse(p, file).value;
              world.allocation.memory[..] ==
              Mapping.Mapped(kernel, Mapping.GoodPrefix(kernel), old(world.allocation.memory[..]))
    ensures (r.Success? || r.error.StartFailed?) && firmware != null ==>
              && Kernel.Parse(p, file).Success?
              && var kernel := Kernel.Parse(p, file).value;
              firmware.State() ==
              if MapsAll(kernel, world) then
                ImagePages.ProtectedState(kernel, world.allocation.base, firmware.granted, old(firmware.State()))
              else old(firmware.State())
    ensures r.Success? || r.error.StartFailed? ==>
              && Kernel.Parse(p, file).Success?
              && var kernel := Kernel.Parse(p, file).value;
              if MapsAll(kernel, world) then
                loaded.imageBase == world.allocation.base && loaded.imageSize == kernel.size
              else loaded.imageBase == old(loaded.imageBase) && loaded.imageSize == old(loaded.imageSize)
    ensures if r.Success? || r.error == StartFailed(Loader.EntryOverflow) then
              OptionsSet(cmdline, world, old(loaded.loadOptions), loaded.loadOptions, OptionBytes(loaded.loadOptions))
            else loaded.loadOptions == old(loaded.loadOptions)
    ensures firmware != null && Kernel.Parse(p, file).Success? && !Kernel.Parse(p, file).value.nxCompat ==>
              firmware.State() == old(firmware.State())
    ensures (r.Success? || r.error.StartFailed?) && firmware != null ==>
              && Kernel.Parse(p, file).Success?
              && var kernel := Kernel.Parse(p, file).value;
              MapsAll(kernel, world) ==>
                ImagePages.PagesSealed(kernel, world.allocation.base, firmware.granted,
                                       old(firmware.State()), firmware.State())
    ensures firmware != null && world.allocation.Granted? && Kernel.Parse(p, file).Success? ==>
              ImagePages.KeptSafe(Kernel.Parse(p, file).value, world.allocation.base,
                                  old(firmware.State()), firmware.State())
  {
    RefusedBecause(p, file, initrd != null, cmdline, world);
    var kernel := Kernel.Parse(p, file);
    if kernel.Failure? {
      return Failure(ParseFailed(kernel.error));
    }
    if initrd != null {
      provider.Install(initrd);
      if !world.installs {
        return Failure(InstallFailed);
      }
    }
    r := StartWithPolicy(kernel.value, cmdline, world, loaded, firmware);
  }
}
