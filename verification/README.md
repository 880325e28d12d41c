# Verified model of the UEFI stub

The stub parses a PE32+ kernel, maps its sections into fresh pages, makes the code sections read-only
and executable, hands the kernel a command line (with a LUKS key appended where policy asks for it) and
an initrd (through LoadFile2), and jumps to the entry point. This project models that path in Dafny and
proves what it does, function by function and end to end.

| file | models |
|---|---|
| `Wrappers.dfy`, `Bytes.dfy` | options and results; machine integers and little-endian fields |
| `Kernel.dfy` | `src/pe/kernel.rs`: header parsing and its acceptance rules |
| `Fixtures.dfy`, `FixturesModel.dfy` | `src/pe/fixtures.rs`: the PE builder, and what its bytes mean to the parser |
| `Mapping.dfy` | `src/pe/loader/mapping.rs`: copying and zero-filling sections |
| `Protection.dfy`, `WriteXorExecute.dfy` | `src/pe/loader/protection.rs`: the attribute calls, and what they guarantee |
| `Cmdline.dfy` | `src/pe/loader/cmdline.rs`: stripping and UCS-2 encoding |
| `Base64.dfy`, `Luks.dfy` | `src/policy/luks.rs`, `src/policy/mod.rs`: key injection and its inverse |
| `LoadFile2.dfy` | `src/loadfile2.rs`: the callback and its publication through two atomics |
| `ImagePages.dfy`, `Entry.dfy` | `src/pe/loader/mod.rs`: protection after mapping, and where the jump goes |
| `Loader.dfy`, `Boot.dfy` | `src/pe/loader/mod.rs`, `src/main.rs`: the composition |
| `Witnesses.dfy` | kernel files on which the entry leaves the image or section order matters |

Code that changes state in place is a class or a method over arrays, proved equal to a specification
function; what the source promises is then proved about that function.

## Main results

Besides the results below, what each operation computes is stated once more in the constants, offsets and
characters of the formats involved, without the model's own helper functions: `Kernel.ParseInOffsets`,
`Mapping.MappedInNumbers`, `Protection.PlannedForCode`, `ImagePages.SealsPages`, `Cmdline.StripOneMore`,
`Luks.InjectedText`, `Base64.EncodesInWords`, `FixturesModel.AddSectionInNumbers`, `Boot.BootsExactly`.

- **Mapping** leaves every byte as its pointwise specification says: the last section covering an offset
  decides, with its raw file byte or a zero, and uncovered bytes keep what the pages held. It succeeds
  exactly when all sections fit; on failure memory is what the sections before the first bad one make it.
  The order of the section table is irrelevant *if and only if* sections that overlap agree on the bytes
  they share.
- **Write-xor-execute** holds after every single firmware call, for every pattern of failures, *if and
  only if* the start is safe, code pages start non-executable, and no two code sections share a page. The
  rollback makes the last two necessary. A mapped kernel with disjoint sections meets the last, so starting
  it keeps the firmware safe at every step.
- **Builder and parser** are inverse: for every run of builder calls with up to four sections, parsing the
  bytes returns the fields last set, or the first complaint they deserve. With more sections the same holds
  of every fixed field and of the first four headers; the fifth header takes its relocation pointer and
  characteristics from the first section's content, so the file may be rejected, and exactly when is proved.
- **Key injection** is inverted exactly by a reader of the UCS-2 load options, for any base command line
  and any non-empty key; the Base64 decoder accepts exactly the encoder's outputs.
- **LoadFile2 publication** is linearizable at the granularity of single loads and stores, the
  linearization respects real time, and a client needs at most two calls.
- **End to end**: which error a boot fails with, what it leaves in memory, page attributes, load options and
  initrd, and where it jumps. The jump stays in the image's pages exactly when the entry RVA is below their
  size. With ImageBase 0 the byte jumped to is the file byte the section header designates, on a read-only
  executable page if the firmware cooperates.

## Assumptions and conventions

- `usize` is 64 bits wide on all three targets. Overflow branches that 32-bit header fields cannot reach
  are written as `assert false`, which is the proof that they are dead.
- Calls into the `object` crate are bounds-checked reads of the structures of the Microsoft PE Format
  ("COFF File Header", "Optional Header", "Section Table"). Whether its directory lookup treats an entry
  with a zero address as absent is a parameter (`Kernel.Platform.zeroAddressIsAbsent`), as is the machine
  value of the build target; all results hold for every value of both.
- The firmware follows EFI_MEMORY_ATTRIBUTE_PROTOCOL, section 37.7 of the UEFI Specification 2.10: an empty
  or unaligned range, or one with unmanaged pages, fails, and a failing call changes nothing. Which other
  calls fail is arbitrary: a set of call numbers that are granted.
- The page allocator answers with a page-aligned block of the requested size inside the address space,
  with arbitrary contents, or refuses. Pool allocation, protocol installation, TPM presence and the key
  file are inputs too.
- Base64 follows section 4 of RFC 4648 with padding omitted (section 3.2). Where computing the encoded length
  would overflow, which no key held in memory reaches, `encoded_len` is taken to be 0 and encoding to fail.
- LoadFile2 callers pass a buffer as long as they say, distinct from the file (section 13.2 of the UEFI
  Specification). The two atomics are sequentially consistent. `install` happens at most once
  (src/main.rs:107-109).
- The comment at src/pe/loader/mod.rs:73 says the entry address lies within the mapped image. The code does
  not ensure that. The address lies in the allocated pages if and only if `entryPoint` is below their size,
  and in the image if and only if it is below SizeOfImage (`Entry.JumpsTo`, ensured by `Loader.Start` and
  `Boot.Run`); nothing checks either. Moreover mapping subtracts ImageBase and the jump does not:
  `Entry.LandsExactly` says when the jump still lands on the byte the section table designates for the
  entry, and `Entry.LandsIffBaseZero` that this means ImageBase 0 when sections share no file bytes.
  `Witnesses.EntryCanLeaveImage` and `Witnesses.SectionEntryCanLeaveImage` give files that are parsed and
  mapped successfully and entered outside their pages.
- The documentation at src/loadfile2.rs:40-42 says the first call reports the size; for an empty file the
  code answers NOT_FOUND instead, and so does the model.

## Model

| member | source | states |
|---|---|---|
| Kernel.ParseExact | src/pe/kernel.rs:46-101 | on arbitrary bytes parsing succeeds iff all headers fit and all rules hold, and returns the fields at their file offsets |
| Kernel.ParseInOffsets | src/pe/kernel.rs:46-101 | verdict and fields in the offsets and numbers of the PE format alone, NX_COMPAT as bit 0x0100 included |
| Kernel.SectionInOffsets | src/pe/kernel.rs:51-53 | where each field of each section header lies |
| Kernel.ParsePrecedence | src/pe/kernel.rs:47-91 | for every error, exactly which files get it: those failing that check and no earlier one, with the offending value |
| Kernel.ParseReadsOnlyHeaders | src/pe/kernel.rs:46-101 | two files agreeing on the header bytes get the same verdict and metadata, whatever else they contain |
| Kernel.FirstRelocated | src/pe/kernel.rs:84-91 | the section reported is the first with a relocation pointer |
| Fixtures.Builder.constructor | src/pe/fixtures.rs:22-49 | a new builder holds the fresh header area |
| Fixtures.Builder.WriteBytes | src/pe/fixtures.rs:161-166 | the addressed bytes are replaced and nothing else changes |
| Fixtures.Builder.PlaceSection | src/pe/fixtures.rs:51-88 | content and section header are in place |
| Fixtures.Builder.AddSection | src/pe/fixtures.rs:51-108 | the whole new state is one `AddSection` step |
| Fixtures.Builder.SetMachine | src/pe/fixtures.rs:110-112 | the whole new state is one step of that setter, which replaces two bytes at 0x44 |
| Fixtures.Builder.SetLastPtrRelocs | src/pe/fixtures.rs:114-117 | the whole new state is one step of that setter, which replaces four bytes at 24 in the newest header |
| Fixtures.Builder.SetDllCharacteristics | src/pe/fixtures.rs:119-121 | the whole new state is one step of that setter, which replaces two bytes at 0x9E |
| Fixtures.Builder.SetMajorImageVersion | src/pe/fixtures.rs:123-125 | the whole new state is one step of that setter, which replaces two bytes at 0x84 |
| Fixtures.Builder.SetEntryPoint | src/pe/fixtures.rs:127-129 | the whole new state is one step of that setter, which replaces four bytes at 0x68 |
| Fixtures.Builder.SetBaseRelocDir | src/pe/fixtures.rs:131-138 | the whole new state is one step of that setter, which replaces eight bytes at 0xF0 |
| Fixtures.AlignUpIsLeast | src/pe/fixtures.rs:156-159 | raw sizes are the least multiple of 0x200 that holds the content |
| FixturesModel.EmptyRepresents | src/pe/fixtures.rs:22-49 | the fresh bytes mean the default fields and no sections |
| FixturesModel.FreshFileParses | src/pe/fixtures.rs:22-49 | a fresh file parses to entry 0x200, ImageBase 0x04000000, size 0x200, no NX_COMPAT, no sections |
| FixturesModel.SetterRepresents | src/pe/fixtures.rs:110-138 | a setter changes its own field and disturbs no other field, header or content |
| FixturesModel.WithSectionBytes | src/pe/fixtures.rs:51-88 | where content and header go, that they never reach an earlier header or each other, and every byte of the result from the old table on |
| FixturesModel.AddSectionAdds | src/pe/fixtures.rs:51-108 | after adding, the new header and content read back and the old table is untouched |
| FixturesModel.AddSectionInNumbers | src/pe/fixtures.rs:51-108 | the whole file after adding a section, byte for byte, in file offsets |
| FixturesModel.AddSectionRecounts | src/pe/fixtures.rs:90-107 | below the table, adding a section changes the section count and the image size and no other byte |
| FixturesModel.SetLastPtrRelocsRepresents | src/pe/fixtures.rs:114-117 | the newest section's pointer is set and everything else kept, content included |
| FixturesModel.StepRepresents | src/pe/fixtures.rs:51-138 | every builder call keeps bytes and meaning in step |
| FixturesModel.RunRepresents | src/pe/fixtures.rs:22-142 | after any run of calls the bytes represent the meaning of the run |
| FixturesModel.BuiltTableReads | src/pe/fixtures.rs:51-108 | for any number of sections, names, sizes, addresses and offsets read back, and sheltered contents survive |
| FixturesModel.BuiltFileParses | src/pe/fixtures.rs:22-142 | any number of sections: parsing gives the fields last set and the table, or its first complaint; the first four headers are exact, and where the fifth differs |
| FixturesModel.BuilderRoundTrip | src/pe/fixtures.rs:22-142 | up to four sections: parsing the built bytes gives exactly the fields last set, or the first applicable error |
| FixturesModel.FiveSectionsParse | src/pe/fixtures.rs:22-142 | five sections: the same, except for the two fields of the fifth header that bytes 0-4 and 12-16 of the first raw area decide |
| FixturesModel.FifthHeaderReadsContent | src/pe/fixtures.rs:64-70 | adding a fifth section to an accepted file gets it rejected iff the first section's raw area does not start with four zero bytes |
| Mapping.CopySectionData | src/pe/loader/mapping.rs:64-101 | copies exactly the raw bytes, or refuses and leaves memory alone; an empty copy skips the bound check |
| Mapping.ZeroSectionTail | src/pe/loader/mapping.rs:103-127 | zeroes exactly the bytes past the copied part; its overflow errors are unreachable |
| Mapping.MapSections | src/pe/loader/mapping.rs:14-62 | memory is the pointwise specification of the fitting prefix; success or the first fault |
| Mapping.LastCovering | src/pe/loader/mapping.rs:21-57 | the highest-numbered section covering an offset, or none |
| Mapping.LastCoveringDecides | src/pe/loader/mapping.rs:21-57 | that section decides the byte; an uncovered byte keeps its initial value |
| Mapping.SucceedsIffAllFit | src/pe/loader/mapping.rs:22-45 | given pages, success iff every section fits |
| Mapping.PagesHoldImage | src/pe/loader/mapping.rs:16-17 | the fewest pages that hold the image are asked for |
| Mapping.SucceedsInNumbers | src/pe/loader/mapping.rs:22-74 | the same in the numbers of the section headers |
| Mapping.FaultInNumbers | src/pe/loader/mapping.rs:30-85 | which section is refused, and with which error |
| Mapping.MappedInNumbers | src/pe/loader/mapping.rs:47-57 | file bytes below the raw size, zeros from there to the virtual size |
| Mapping.UnmappedInNumbers | src/pe/loader/mapping.rs:21-57 | a byte no section lies on is not written |
| Mapping.RearrangedFits | src/pe/loader/mapping.rs:22-45 | no rearrangement of the section table changes whether mapping succeeds |
| Mapping.OrderIrrelevantIffAgreeing | src/pe/loader/mapping.rs:21-57 | every rearrangement leaves the same memory iff sections that overlap want the same bytes there |
| Mapping.OrderDoesNotMatter | src/pe/loader/mapping.rs:21-57 | in particular for disjoint sections |
| Witnesses.OverlapDependsOnOrder | src/pe/loader/mapping.rs:21-57 | a file that is parsed and mapped, and whose section order changes the memory, whatever it was |
| Protection.Firmware.Perform | src/pe/loader/protection.rs:85-100 | one firmware call: effect, success and trace |
| Protection.Apply | src/pe/loader/protection.rs:52-119 | the loop makes exactly the specified calls with `continue` and rollback |
| Protection.PlannedForCode | src/pe/loader/protection.rs:54-80 | exactly sections with 0x20 or 0x20000000 among their characteristics and no address overflow are protected, and where |
| Protection.CallsForCode | src/pe/loader/protection.rs:53-112 | the run makes calls for exactly those sections |
| WriteXorExecute.ProtectOutcome | src/pe/loader/protection.rs:82-112 | which of four outcomes one section's three calls have, for all its pages |
| WriteXorExecute.ProtectPage | src/pe/loader/protection.rs:82-112 | the attributes of each page after each pattern of answers to the three calls, and how many calls are made |
| WriteXorExecute.ProtectSafe | src/pe/loader/protection.rs:82-112 | each call for one section keeps every page from being writable and executable |
| WriteXorExecute.SoundRunsAreSafe | src/pe/loader/protection.rs:53-118 | under the stated assumptions every state of every run is safe, from any earlier state of the firmware |
| WriteXorExecute.ExecutableStartFails | src/pe/loader/protection.rs:107-111 | if a code page starts executable, some failure pattern breaks safety |
| WriteXorExecute.SharedPageFails | src/pe/loader/protection.rs:107-111 | if two code sections share a page, some failure pattern breaks safety |
| WriteXorExecute.WriteXorExecuteExact | src/pe/loader/protection.rs:52-119 | safety under all failure patterns iff the assumptions hold, from any earlier state of the firmware |
| WriteXorExecute.UntouchedKept | src/pe/loader/protection.rs:53-118 | a page of no actionable code section keeps its attributes |
| WriteXorExecute.FinalAttributes | src/pe/loader/protection.rs:53-118 | with disjoint pages, the final attributes of a section are its own outcome's, uniformly |
| WriteXorExecute.ThreeFinalStates | src/pe/loader/protection.rs:53-118 | from writable, non-executable pages, at most three final states, uniform over a section |
| WriteXorExecute.EachFinalStateReached | src/pe/loader/protection.rs:53-118 | each of the three is reached for some pattern of failures |
| WriteXorExecute.GrantedRun | src/pe/loader/protection.rs:53-118 | if all calls are granted, exactly the code pages become read-only and executable |
| WriteXorExecute.GrantedOrderDoesNotMatter | src/pe/loader/protection.rs:53-118 | then the section order is irrelevant |
| WriteXorExecute.GrantedTwiceIsOnce | src/pe/loader/protection.rs:53-118 | then applying twice equals applying once |
| Cmdline.StrippedLength | src/pe/loader/cmdline.rs:43-50 | everything after is a terminator and the last byte kept is not |
| Cmdline.StripIsLongest | src/pe/loader/cmdline.rs:43-50 | the longest prefix ending in a non-terminator |
| Cmdline.StripKeeps | src/pe/loader/cmdline.rs:43-50 | stripping is idempotent |
| Cmdline.StripOneMore | src/pe/loader/cmdline.rs:43-50 | which trailing bytes vanish (NUL, tab, LF, FF, CR, space) and that any other byte stays with what precedes it |
| Cmdline.EncodeUcs2 | src/pe/loader/cmdline.rs:9-39 | null for an empty command line, otherwise a buffer of the reported size with the encoding, or the first fault |
| Cmdline.FailsIffTooLong | src/pe/loader/cmdline.rs:15-22 | given an allocation, failure iff twice the length plus two exceeds 32 bits |
| Cmdline.EncodeFaultCases | src/pe/loader/cmdline.rs:15-26 | which error, for every length and allocator answer |
| Cmdline.DecodesToCommandLine | src/pe/loader/cmdline.rs:28-38 | the buffer's units are the stripped bytes, interior NULs included, and one NUL |
| Base64.DecodesIffEncodes | src/policy/luks.rs:33 | the decoder accepts exactly the encoder's outputs and inverts them; encoding is injective |
| Base64.SymbolInAlphabet | src/policy/luks.rs:4 | the standard alphabet in its order |
| Base64.EncodesInWords | src/policy/luks.rs:33 | every four symbols are the base-64 digits of three bytes, most significant first, for every group and the short last one |
| Base64.EncodeLength | src/policy/luks.rs:17 | the encoded length is four thirds rounded up, and is what `encoded_len` computes |
| Base64.EncodeInto | src/policy/luks.rs:28-33 | the slice receives exactly the encoding and nothing else changes; when it fails |
| Luks.TryInject | src/policy/luks.rs:11-45 | no key for a missing or empty key file; otherwise stripped base, " luks.key=" and encoded key, nothing left over; or the first error |
| Luks.InjectedText | src/policy/luks.rs:8-35 | the stripped base, the ten characters " luks.key=", and text that decodes to the key |
| Luks.InjectionCases | src/policy/luks.rs:11-45 | when a key is injected, when there is none, and which error otherwise, in lengths |
| Luks.FilledExactly | src/policy/luks.rs:28-33 | the in-place fill covers the resized part exactly |
| Luks.ChooseCmdline | src/policy/mod.rs:36-45 | the TPM, then the key file, then the base command line |
| Luks.SecondStripKeeps | src/pe/loader/cmdline.rs:10 | the second strip removes nothing from an injected command line |
| Luks.KeyComesBack | src/policy/luks.rs:11-36 | decoding the load options gives back exactly the stripped base and the key |
| Luks.InjectionIsInjective | src/policy/luks.rs:11-36 | different keys or bases give different load options |
| LoadFile2.Provider.Install | src/loadfile2.rs:119-120 | pointer and length of the file are published |
| LoadFile2.Provider.Callback | src/loadfile2.rs:48-97 | status, size cell and buffer in each case, NOT_FOUND for an empty file included; the file is unchanged |
| LoadFile2.LinearizationSimulates | src/loadfile2.rs:62-68 | the state of every interleaving matches that of its linearization |
| LoadFile2.AtomicReplyCases | src/loadfile2.rs:57-96 | the same cases for the atomic reply that interleavings are compared with |
| LoadFile2.Linearizable | src/loadfile2.rs:62-120 | every interleaving's replies are those of an atomic order, in which nothing happens twice |
| LoadFile2.RespectsRealTime | src/loadfile2.rs:62-120 | that order agrees with real time, and install takes effect at its length store |
| LoadFile2.NoPartialFile | src/loadfile2.rs:62-68 | every reply is that of no file or of the whole file |
| LoadFile2.ServedAfterInstall | src/loadfile2.rs:119-120 | a callback invoked after install is served the whole file |
| LoadFile2.TwoCallsSuffice | src/loadfile2.rs:76-92 | a client whose first call fails and who retries with the reported size, or whose first call succeeds, gets the exact bytes, other bytes unchanged |
| Loader.Start | src/pe/loader/mod.rs:30-73 | result, memory, attributes and loaded-image fields on every path; the firmware left alone without NX_COMPAT, kept safe, code pages sealed; where the jump goes |
| Loader.StartFaultCases | src/pe/loader/mod.rs:30-67 | exactly when starting succeeds and when it fails in which way, in numbers |
| ImagePages.PlanMatchesMapping | src/pe/loader/protection.rs:60-80 | protection addresses the place mapping used, least whole pages, inside the allocation |
| ImagePages.ProtectionStaysInside | src/pe/loader/protection.rs:60-112 | no page outside the allocation changes attributes |
| ImagePages.SealsPages | src/pe/loader/mod.rs:38-42 | without NX_COMPAT no attribute changes; with it and all calls granted, exactly the pages of code sections become read-only and executable |
| ImagePages.ImageNeverWritableAndExecutable | src/pe/loader/mod.rs:36-45 | a mapped kernel with disjoint sections is never writable and executable on any page |
| ImagePages.ProtectionKeepsSafe | src/pe/loader/mod.rs:36-45 | protecting it keeps a safe firmware safe, at the end and after every call |
| Entry.EntryByteIsFileByte | src/pe/loader/mod.rs:36-67 | with ImageBase 0 the byte jumped to is the designated file byte |
| Entry.EntryByteOfFile | src/main.rs:101-113 | the same from the bytes of the kernel file: parsed, mapped, and the byte its own section table designates |
| Entry.EntryPageIsReadOnlyExecutable | src/pe/loader/mod.rs:38-67 | and lies on a read-only executable page if all calls are granted |
| Entry.LandsExactly | src/pe/loader/mod.rs:64-73 | for any ImageBase, the jump lands on the designated file byte iff the last section covering that offset takes it from there |
| Entry.LandsIffBaseZero | src/pe/loader/mod.rs:64-73 | for sections with file ranges of their own, it does so iff ImageBase is 0 |
| Entry.MappedKernelJumps | src/pe/loader/mod.rs:64-73 | the jump stays in the pages, or in the image, iff the entry RVA is below their size |
| Entry.ProtectedKernelSealed | src/pe/loader/mod.rs:38-73 | with page-aligned entry code and all calls granted, the page jumped to is read-only and executable |
| Witnesses.EntryCanLeaveImage | src/pe/loader/mod.rs:64-73 | a file that is parsed and mapped, and entered outside its pages |
| Witnesses.SectionEntryCanLeaveImage | src/pe/loader/mod.rs:64-73 | the same with a non-zero ImageBase and the entry inside a mapped section |
| Boot.InjectedOptionsCarryKey | src/policy/luks.rs:16-35 | the options encoded from an injected command line are not empty, spell " luks.key=" after the base, and give back base and key |
| Boot.ChosenOptions | src/policy/mod.rs:36-45 | with a key to inject the options carry it and the base; without one, the stripped base; without either, they stay |
| Boot.BootsExactly | src/main.rs:101-113 | exactly when a run reaches the jump, in terms of kernel, initrd, TPM, key file, lengths and allocators |
| Boot.RefusedBecause | src/main.rs:101-111 | exactly when a parse, install or key-file error ends the run |
| Boot.StartWithPolicy | src/main.rs:111-113 | which error it fails with, and on every path memory, attributes, fields and load options |
| Boot.Run | src/main.rs:101-113 | the same from the kernel's bytes, with the initrd published, and nothing else touched before starting |

## Left out

- Entry.EntryByteIsFileByte: assumes the entry lies in a section's raw part, because parsing checks neither that nor that it is below SizeOfImage.
- FixturesModel.BuilderRoundTrip: stops at four sections, because from the fifth header on the builder's unwritten header fields lie on content; FiveSectionsParse says what they then read, and BuiltFileParses leaves those of the sixth and later headers unspecified.
- FixturesModel.BuiltTableReads: content survival is stated for contents nothing later reaches, as a sufficient condition.
- Luks.TryInject: the growing vector is an array of its final capacity, so `Vec` reallocation and its capacity limit are not modelled.
- Base64.EncodeInto: the constant-time arithmetic of the Base64 crate is not modelled, only the bytes RFC 4648 prescribes.
- Protection.Firmware.Perform: attribute bits other than RO and XP, and concrete status codes, are not modelled.
- LoadFile2.Provider.Install: states the fields after both stores; their order shows in the interleavings, where the pointer is stored first.
- LoadFile2.Linearizable: weaker memory orders than sequential consistency are not modelled.
- Allocation, protocol lookup and installation, device paths, logging and the final jump are inputs or omitted.
- Section names and error texts beyond the error variants, `section_name`, and the UKI section parser.
- TPM measurement, Secure Boot state and EFI variables (src/tpm2.rs, src/security.rs, src/vars): thin wrappers over firmware calls.
