/** Reading a PE32+ kernel: DOS header, NT headers, data directories and section table. */
module Kernel {
  import opened Wrappers
  import opened Bytes

  const DOS_SIZE: nat := 64
  const NT_SIZE: nat := 136        // signature 4, file header 20, optional header 112
  const OPTIONAL_SIZE: nat := 112  // without its data directories
  // A data directory entry takes 8 bytes and a section header 40.

  const DOS_MAGIC: u16 := 0x5A4D
  const NT_SIGNATURE: u32 := 0x4550
  const OPTIONAL_MAGIC_64: u16 := 0x020B
  const BASERELOC: nat := 5        // IMAGE_DIRECTORY_ENTRY_BASERELOC
  const NX_COMPAT: u16 := 0x0100
  const MIN_IMAGE_VERSION: u16 := 1

  /** What parsing depends on besides the file: the machine value of the build target, and whether
      the directory lookup of the header library treats an entry with a zero address as absent. */
  datatype Platform = Platform(machine: u16, zeroAddressIsAbsent: bool)

  datatype SectionHeader = SectionHeader(
    name: seq<u8>,
    virtualSize: u32,
    virtualAddress: u32,
    rawSize: u32,
    rawPointer: u32,
    relocations: u32,
    characteristics: u32)

  datatype DataDirectory = DataDirectory(address: u32, size: u32)

  /** The NT headers: signature, the file header fields in use, the optional header fields in use. */
  datatype NtHeaders = NtHeaders(
    signature: u32,
    machine: u16,
    sectionCount: u16,
    optionalSize: u16,
    magic: u16,
    entryPoint: u32,
    imageBase: u64,
    imageVersion: u16,
    imageSize: u32,
    dllCharacteristics: u16,
    directoryCount: u32)

  datatype Image = Image(
    data: seq<u8>,
    entryPoint: u32,
    baseAddress: u64,
    size: u32,
    nxCompat: bool,
    sections: seq<SectionHeader>)

  datatype ParseError =
    | InvalidDosHeader
    | InvalidPeHeaders
    | InvalidSectionTable
    | WrongMachine(machine: u16)
    | NoEntryPoint
    | ImageVersionTooLow(version: u16)
    | BaseRelocations(size: u32)
    | SectionRelocations(index: nat, pointer: u32)

  // ---------- The structures as they lie in the file ----------

  function NtAt(d: seq<u8>, at: nat): NtHeaders
    requires at + NT_SIZE <= |d|
  {
    NtHeaders(U32At(d, at), U16At(d, at + 4), U16At(d, at + 6), U16At(d, at + 20),
              U16At(d, at + 24), U32At(d, at + 24 + 16), U64At(d, at + 24 + 24), U16At(d, at + 24 + 44),
              U32At(d, at + 24 + 56), U16At(d, at + 24 + 70), U32At(d, at + 24 + 108))
  }

  function SectionAt(d: seq<u8>, at: nat): SectionHeader
    requires at + 40 <= |d|
  {
    SectionHeader(d[at..at + 8], U32At(d, at + 8), U32At(d, at + 12), U32At(d, at + 16),
                  U32At(d, at + 20), U32At(d, at + 24), U32At(d, at + 36))
  }

  function SectionsAt(d: seq<u8>, at: nat, count: nat): seq<SectionHeader>
    requires at + 40 * count <= |d|
  {
    seq(count, i requires 0 <= i < count => SectionAt(d, at + 40 * i))
  }

  function DirectoriesAt(d: seq<u8>, at: nat, count: nat): seq<DataDirectory>
    requires at + 8 * count <= |d|
  {
    seq(count, i requires 0 <= i < count =>
      DataDirectory(U32At(d, at + 8 * i), U32At(d, at + 8 * i + 4)))
  }

  // ---------- The parser ----------

  /** The NT headers and their data directories, and the offset just past the optional header. */
  function ReadNtHeaders(data: seq<u8>, offset: nat): Option<(NtHeaders, seq<DataDirectory>, nat)>
  {
    if offset + NT_SIZE > |data| then None
    else
      var nt := NtAt(data, offset);
      if nt.signature != NT_SIGNATURE || nt.magic != OPTIONAL_MAGIC_64 || nt.optionalSize < OPTIONAL_SIZE then None
      else
        var at := offset + NT_SIZE;
        var size := nt.optionalSize - OPTIONAL_SIZE;
        if at + size > |data| || 8 * nt.directoryCount > size then None
        else Some((nt, DirectoriesAt(data, at, nt.directoryCount), at + size))
  }

  /** The size of directory `index`, or 0 when the lookup finds no such entry. */
  function DirectorySize(p: Platform, dirs: seq<DataDirectory>, index: nat): u32
  {
    if index >= |dirs| || (p.zeroAddressIsAbsent && dirs[index].address == 0) then 0 else dirs[index].size
  }

  /** The first section with a relocation table, or `|sections|`. */
  function FirstRelocated(sections: seq<SectionHeader>): (n: nat)
    ensures n <= |sections|
    ensures forall i :: 0 <= i < n ==> sections[i].relocations == 0
    ensures n < |sections| ==> sections[n].relocations != 0
  {
    if sections == [] || sections[0].relocations != 0 then 0 else 1 + FirstRelocated(sections[1..])
  }

  /** The checks made once all headers have been read. */
  function Validate(p: Platform, data: seq<u8>, nt: NtHeaders, dirs: seq<DataDirectory>,
                    sections: seq<SectionHeader>): Result<Image, ParseError>
  {
    if nt.machine != p.machine then Failure(WrongMachine(nt.machine))
    else if nt.entryPoint == 0 then Failure(NoEntryPoint)
    else if nt.imageVersion < MIN_IMAGE_VERSION then Failure(ImageVersionTooLow(nt.imageVersion))
    else
      var relocSize := DirectorySize(p, dirs, BASERELOC);
      if relocSize != 0 then Failure(BaseRelocations(relocSize))
      else
        var bad := FirstRelocated(sections);
        if bad < |sections| then Failure(SectionRelocations(bad, sections[bad].relocations))
        else
          Success(Image(data, nt.entryPoint, nt.imageBase, nt.imageSize,
                        HasBit(nt.dllCharacteristics, NX_COMPAT), sections))
  }

  function Parse(p: Platform, data: seq<u8>): Result<Image, ParseError> {
    if DOS_SIZE > |data| || U16At(data, 0) != DOS_MAGIC then Failure(InvalidDosHeader)
    else
      var (nt, dirs, end) :- ReadNtHeaders(data, U32At(data, 0x3C)).OrFail(InvalidPeHeaders);
      if end + 40 * nt.sectionCount > |data| then Failure(InvalidSectionTable)
      else Validate(p, data, nt, dirs, SectionsAt(data, end, nt.sectionCount))
  }

  // ---------- What an acceptable file looks like, in file offsets ----------

  predicate HasDosHeader(d: seq<u8>) {
    DOS_SIZE <= |d| && U16At(d, 0) == DOS_MAGIC
  }

  function NtOffset(d: seq<u8>): nat
    requires HasDosHeader(d)
  {
    U32At(d, 0x3C)
  }

  predicate HasNtHeaders(d: seq<u8>) {
    && HasDosHeader(d)
    && var nt := NtOffset(d);
    && nt + NT_SIZE <= |d|
    && U32At(d, nt) == NT_SIGNATURE
    && U16At(d, nt + 24) == OPTIONAL_MAGIC_64
    && OPTIONAL_SIZE + 8 * U32At(d, nt + 132) <= U16At(d, nt + 20)
    && nt + 24 + U16At(d, nt + 20) <= |d|
  }

  /** The section table starts right after the optional header, however long that is. */
  function TableOffset(d: seq<u8>): nat
    requires HasNtHeaders(d)
  {
    NtOffset(d) + 24 + U16At(d, NtOffset(d) + 20)
  }

  function SectionCount(d: seq<u8>): nat
    requires HasNtHeaders(d)
  {
    U16At(d, NtOffset(d) + 6)
  }

  predicate HasSectionTable(d: seq<u8>) {
    HasNtHeaders(d) && TableOffset(d) + 40 * SectionCount(d) <= |d|
  }

  function Table(d: seq<u8>): seq<SectionHeader>
    requires HasSectionTable(d)
  {
    SectionsAt(d, TableOffset(d), SectionCount(d))
  }

  /** The base-relocation size in effect: 0 if the directory table is too short to have the entry,
      or if the platform skips entries without an address. */
  function BaseRelocSize(p: Platform, d: seq<u8>): u32
    requires HasNtHeaders(d)
  {
    var entry := NtOffset(d) + NT_SIZE + 8 * BASERELOC;
    if U32At(d, NtOffset(d) + 132) <= BASERELOC then 0
    else if p.zeroAddressIsAbsent && U32At(d, entry) == 0 then 0
    else U32At(d, entry + 4)
  }

  // Each level includes the ones before it.
  predicate FitsMachine(p: Platform, d: seq<u8>) {
    HasSectionTable(d) && U16At(d, NtOffset(d) + 4) == p.machine
  }

  predicate HasEntry(p: Platform, d: seq<u8>) {
    FitsMachine(p, d) && U32At(d, NtOffset(d) + 40) != 0
  }

  predicate HasVersion(p: Platform, d: seq<u8>) {
    HasEntry(p, d) && U16At(d, NtOffset(d) + 68) >= MIN_IMAGE_VERSION
  }

  predicate HasNoBaseRelocs(p: Platform, d: seq<u8>) {
    HasVersion(p, d) && BaseRelocSize(p, d) == 0
  }

  predicate Acceptable(p: Platform, d: seq<u8>) {
    HasNoBaseRelocs(p, d) && forall s :: s in Table(d) ==> s.relocations == 0
  }

  /** The NT headers are read exactly when the file has them. */
  lemma NtHeadersRead(d: seq<u8>)
    requires HasDosHeader(d)
    ensures var nt := NtOffset(d);
            ReadNtHeaders(d, nt) ==
            if !HasNtHeaders(d) then None
            else Some((NtAt(d, nt), DirectoriesAt(d, nt + NT_SIZE, U32At(d, nt + 132)), TableOffset(d)))
  {
  }

  /** Parsing never leaves the file, succeeds exactly on acceptable files, and then returns the
      fields found at their documented offsets. */
  lemma ParseExact(p: Platform, d: seq<u8>)
    ensures Parse(p, d).Success? <==> Acceptable(p, d)
    ensures Acceptable(p, d) ==>
              var nt := NtOffset(d);
              Parse(p, d).value == Image(d, U32At(d, nt + 40), U64At(d, nt + 48), U32At(d, nt + 80),
                                         HasBit(U16At(d, nt + 94), NX_COMPAT), Table(d))
  {
    if HasDosHeader(d) {
      NtHeadersRead(d);
    }
  }

  /** The verdict in file offsets and numbers of the PE format: DOS header of 64 bytes starting "MZ"; at
      the offset it holds at 0x3C "PE", a 20-byte file header and an optional header of the PE32+ kind
      with its data directories; then the section table; and the rules in the order they are checked. */
  lemma ParseInOffsets(p: Platform, d: seq<u8>)
    ensures var r := Parse(p, d);
            if |d| < 64 || U16At(d, 0) != 0x5A4D then r == Failure(InvalidDosHeader) else
            var nt := U32At(d, 0x3C);
            if nt + 136 > |d| || U32At(d, nt) != 0x4550 || U16At(d, nt + 24) != 0x020B
               || U16At(d, nt + 20) < 112 + 8 * U32At(d, nt + 132) || nt + 24 + U16At(d, nt + 20) > |d| then
              r == Failure(InvalidPeHeaders) else
            var n, table := U16At(d, nt + 6), nt + 24 + U16At(d, nt + 20);
            if table + 40 * n > |d| then r == Failure(InvalidSectionTable) else
            var sections := SectionsAt(d, table, n);
            if U16At(d, nt + 4) != p.machine then r == Failure(WrongMachine(U16At(d, nt + 4)))
            else if U32At(d, nt + 40) == 0 then r == Failure(NoEntryPoint)
            else if U16At(d, nt + 68) == 0 then r == Failure(ImageVersionTooLow(0))
            else if && U32At(d, nt + 132) > 5 && U32At(d, nt + 180) != 0
                    && !(p.zeroAddressIsAbsent && U32At(d, nt + 176) == 0) then
              r == Failure(BaseRelocations(U32At(d, nt + 180)))
            else if exists s :: s in sections && s.relocations != 0 then
              exists i: nat ::
                && i < n && sections[i].relocations != 0
                && (forall j :: 0 <= j < i ==> sections[j].relocations == 0)
                && r == Failure(SectionRelocations(i, sections[i].relocations))
            else
              && r.Success?
              && r.value.data == d
              && r.value.entryPoint == U32At(d, nt + 40)
              && r.value.baseAddress == U32At(d, nt + 48) + 0x1_0000_0000 * U32At(d, nt + 52)
              && r.value.size == U32At(d, nt + 80)
              && (r.value.nxCompat <==> (U16At(d, nt + 94) as bv16) & 0x0100 != 0)
              && r.value.sections == sections
  {
    if HasDosHeader(d) {
      NtHeadersRead(d);
      if HasSectionTable(d) {
        NxBit(U16At(d, NtOffset(d) + 94));
        RelocatedIsFound(Table(d));
      }
    }
  }

  lemma RelocatedIsFound(sections: seq<SectionHeader>)
    ensures FirstRelocated(sections) < |sections| <==> exists s :: s in sections && s.relocations != 0
  {
  }

  lemma NxBit(c: u16)
    ensures HasBit(c, NX_COMPAT) <==> (c as bv16) & 0x0100 != 0
  {
  }

  /** The fields of header `i` of the section table. */
  lemma SectionInOffsets(d: seq<u8>, table: nat, n: nat, i: nat)
    requires table + 40 * n <= |d| && i < n
    ensures var s, h := SectionsAt(d, table, n)[i], table + 40 * i;
            && s.name == d[h..h + 8]
            && s.virtualSize == U32At(d, h + 8)
            && s.virtualAddress == U32At(d, h + 12)
            && s.rawSize == U32At(d, h + 16)
            && s.rawPointer == U32At(d, h + 20)
            && s.relocations == U32At(d, h + 24)
            && s.characteristics == U32At(d, h + 36)
  {
  }

  /** Which error a rejected file gets: that of the first check, in this order, that it fails. */
  lemma ParsePrecedence(p: Platform, d: seq<u8>)
    ensures Parse(p, d) == Failure(InvalidDosHeader) <==> !HasDosHeader(d)
    ensures Parse(p, d) == Failure(InvalidPeHeaders) <==> HasDosHeader(d) && !HasNtHeaders(d)
    ensures Parse(p, d) == Failure(InvalidSectionTable) <==> HasNtHeaders(d) && !HasSectionTable(d)
    ensures forall m :: Parse(p, d) == Failure(WrongMachine(m)) <==>
              HasSectionTable(d) && !FitsMachine(p, d) && m == U16At(d, NtOffset(d) + 4)
    ensures Parse(p, d) == Failure(NoEntryPoint) <==> FitsMachine(p, d) && !HasEntry(p, d)
    ensures forall v :: Parse(p, d) == Failure(ImageVersionTooLow(v)) <==>
              HasEntry(p, d) && !HasVersion(p, d) && v == U16At(d, NtOffset(d) + 68)
    ensures forall s :: Parse(p, d) == Failure(BaseRelocations(s)) <==>
              HasVersion(p, d) && !HasNoBaseRelocs(p, d) && s == BaseRelocSize(p, d)
    ensures forall i: nat, ptr: u32 :: Parse(p, d) == Failure(SectionRelocations(i, ptr)) <==>
              && HasNoBaseRelocs(p, d)
              && i < SectionCount(d)
              && Table(d)[i].relocations == ptr != 0
              && forall j :: 0 <= j < i ==> Table(d)[j].relocations == 0
  {
    if HasDosHeader(d) {
      NtHeadersRead(d);
      if HasSectionTable(d) {
        FirstRelocatedIsFirst(Table(d));
      }
    }
  }

  lemma FirstRelocatedIsFirst(sections: seq<SectionHeader>)
    ensures forall i | 0 <= i < |sections| && sections[i].relocations != 0 ::
              (forall j :: 0 <= j < i ==> sections[j].relocations == 0) ==> i == FirstRelocated(sections)
  {
  }

  /** Both byte strings hold the same bytes at the offsets from `lo` up to `hi`. */
  predicate Agree(d: seq<u8>, e: seq<u8>, lo: nat, hi: nat) {
    lo <= hi <= |d| && hi <= |e| && forall k :: lo <= k < hi ==> d[k] == e[k]
  }

  lemma AgreeU32(d: seq<u8>, e: seq<u8>, lo: nat, hi: nat, at: nat)
    requires Agree(d, e, lo, hi) && lo <= at && at + 4 <= hi
    ensures U32At(d, at) == U32At(e, at)
  {
  }

  lemma AgreeNt(d: seq<u8>, e: seq<u8>, lo: nat, hi: nat, at: nat)
    requires Agree(d, e, lo, hi) && lo <= at && at + NT_SIZE <= hi
    ensures NtAt(d, at) == NtAt(e, at)
  {
  }

  lemma AgreeDirectories(d: seq<u8>, e: seq<u8>, lo: nat, hi: nat, at: nat, n: nat)
    requires Agree(d, e, lo, hi) && lo <= at && at + 8 * n <= hi
    ensures DirectoriesAt(d, at, n) == DirectoriesAt(e, at, n)
  {
  }

  lemma AgreeSection(d: seq<u8>, e: seq<u8>, lo: nat, hi: nat, at: nat)
    requires Agree(d, e, lo, hi) && lo <= at && at + 40 <= hi
    ensures SectionAt(d, at) == SectionAt(e, at)
  {
  }

  lemma AgreeSections(d: seq<u8>, e: seq<u8>, lo: nat, hi: nat, at: nat, n: nat)
    requires Agree(d, e, lo, hi) && lo <= at && at + 40 * n <= hi
    ensures SectionsAt(d, at, n) == SectionsAt(e, at, n)
  {
    forall i | 0 <= i < n
      ensures SectionsAt(d, at, n)[i] == SectionsAt(e, at, n)[i]
    {
      AgreeSection(d, e, lo, hi, at + 40 * i);
    }
  }

  /** A file that agrees on the DOS header and on the bytes from the NT headers to the end of the
      section table gets the same verdict and metadata, whatever its contents and its length. */
  lemma ParseReadsOnlyHeaders(p: Platform, d: seq<u8>, e: seq<u8>)
    requires HasSectionTable(d)
    requires Agree(d, e, 0, DOS_SIZE)
    requires Agree(d, e, NtOffset(d), TableOffset(d) + 40 * SectionCount(d))
    ensures Parse(p, e) ==
            match Parse(p, d)
            case Success(image) => Success(image.(data := e))
            case Failure(error) => Failure(error)
  {
    var nt, at, n := NtOffset(d), TableOffset(d), SectionCount(d);
    var hi := at + 40 * n;
    assert U16At(e, 0) == U16At(d, 0);
    AgreeU32(d, e, 0, DOS_SIZE, 0x3C);
    AgreeNt(d, e, nt, hi, nt);
    AgreeDirectories(d, e, nt, hi, nt + NT_SIZE, NtAt(d, nt).directoryCount);
    AgreeSections(d, e, nt, hi, at, n);
    assert ReadNtHeaders(e, nt) == ReadNtHeaders(d, nt);
  }
}
