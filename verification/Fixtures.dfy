/** The byte-level PE builder behind the parser's tests, and what its output means to the parser. */
module Fixtures {
  import opened Bytes
  import opened Kernel

  const FILE_ALIGN: nat := 0x200
  const NT_OFFSET: nat := 0x40
  const OPT_OFF: nat := NT_OFFSET + 4 + 20
  const DD_OFF: nat := OPT_OFF + 112
  const SHDR_OFF: nat := DD_OFF + 16 * 8
  const IMAGE_BASE: u64 := 0x0400_0000

  /** The least multiple of the file alignment that is at least `value`. */
  function AlignUp(value: nat): nat {
    (value + 0x1FF) / 0x200 * 0x200
  }

  lemma AlignUpIsLeast(value: nat, k: nat)
    ensures value <= AlignUp(value) < value + 0x200 && AlignUp(value) % 0x200 == 0
    ensures value <= k && k % 0x200 == 0 ==> AlignUp(value) <= k
  {
  }

  function SectionHeaderOffset(index: nat): nat {
    SHDR_OFF + 40 * index
  }

  function RawOffset(index: nat): nat {
    0x200 * (index + 1)
  }

  /** The builder's fields. */
  datatype File = File(data: seq<u8>, count: nat)

  /** Room for the fixed headers and for every section header written so far. */
  predicate Roomy(f: File) {
    FILE_ALIGN <= |f.data| && RawOffset(f.count) <= |f.data| + FILE_ALIGN && f.count < 0x1_0000
  }

  // What the builder's assertions demand of `add_section`.
  predicate CanAdd(f: File, name: seq<u8>, content: seq<u8>) {
    && |name| == 8
    && f.count + 1 < 0x1_0000
    && RawOffset(f.count) + AlignUp(|content|) < U32_LIMIT
  }

  function Grow(d: seq<u8>, needed: nat): (r: seq<u8>)
    ensures |r| == Max(|d|, needed)
    ensures forall i {:trigger r[i]} :: 0 <= i < |r| ==> r[i] == if i < |d| then d[i] else 0
  {
    if |d| < needed then d + Zeros(needed - |d|) else d
  }

  datatype Op =
    | AddSection(name: seq<u8>, content: seq<u8>)
    | SetMachine(machine: u16)
    | SetLastPtrRelocs(pointer: u32)
    | SetDllCharacteristics(dll: u16)
    | SetMajorImageVersion(version: u16)
    | SetEntryPoint(rva: u32)
    | SetBaseRelocDir(address: u32, size: u32)

  predicate Enabled(f: File, op: Op) {
    match op
    case AddSection(name, content) => CanAdd(f, name, content)
    case SetLastPtrRelocs(_) => f.count > 0
    case _ => true
  }

  /** The file after the content and the header of one more section have been put in. */
  function WithSection(f: File, name: seq<u8>, content: seq<u8>): (r: seq<u8>)
    requires Roomy(f) && CanAdd(f, name, content)
    ensures |r| == Max(|f.data|, RawOffset(f.count) + AlignUp(|content|))
  {
    var raw, size := RawOffset(f.count), AlignUp(|content|);
    WithHeader(Overwrite(Grow(f.data, raw + size), raw, content), SectionHeaderOffset(f.count),
               name, |content|, raw, size)
  }

  /** The part of a section header that adding a section writes. */
  function WithHeader(d: seq<u8>, h: nat, name: seq<u8>, virtualSize: u32, raw: u32, size: u32): (r: seq<u8>)
    requires |name| == 8 && h + 24 <= |d|
    ensures |r| == |d|
  {
    var d1 := Overwrite(d, h, name);
    var d2 := Overwrite(d1, h + 8, Le32(virtualSize));
    var d3 := Overwrite(d2, h + 12, Le32(raw));
    var d4 := Overwrite(d3, h + 16, Le32(size));
    Overwrite(d4, h + 20, Le32(raw))
  }

  function Step(f: File, op: Op): (r: File)
    requires Roomy(f) && Enabled(f, op)
    ensures Roomy(r) && |f.data| <= |r.data|
  {
    match op
    case AddSection(name, content) =>
      var raw, size := RawOffset(f.count), AlignUp(|content|);
      var d := WithSection(f, name, content);
      File(Overwrite(Overwrite(d, NT_OFFSET + 6, Le16(f.count + 1)), OPT_OFF + 56, Le32(raw + size)), f.count + 1)
    case SetMachine(v) => f.(data := Overwrite(f.data, NT_OFFSET + 4, Le16(v)))
    case SetLastPtrRelocs(v) => f.(data := Overwrite(f.data, SectionHeaderOffset(f.count - 1) + 24, Le32(v)))
    case SetDllCharacteristics(v) => f.(data := Overwrite(f.data, OPT_OFF + 70, Le16(v)))
    case SetMajorImageVersion(v) => f.(data := Overwrite(f.data, OPT_OFF + 44, Le16(v)))
    case SetEntryPoint(v) => f.(data := Overwrite(f.data, OPT_OFF + 16, Le32(v)))
    case SetBaseRelocDir(address, size) =>
      var at := DD_OFF + BASERELOC * 8;
      f.(data := Overwrite(Overwrite(f.data, at, Le32(address)), at + 4, Le32(size)))
  }

  // ---------- The builder itself ----------

  class Builder {
    var data: seq<u8>
    var numSections: nat

    function State(): File
      reads this
    {
      File(data, numSections)
    }

    predicate Valid()
      reads this
    {
      Roomy(State())
    }

    constructor (platform: Platform)
      ensures Valid() && State() == Empty(platform)
    {
      data, numSections := Zeros(FILE_ALIGN), 0;
      new;
      WriteBytes(0, [0x4D, 0x5A]);
      WriteU32(0x3C, NT_OFFSET);
      WriteBytes(NT_OFFSET, [0x50, 0x45]);
      var fileHeader := NT_OFFSET + 4;
      WriteU16(fileHeader, platform.machine);
      WriteU16(fileHeader + 16, 0xF0);
      WriteU16(fileHeader + 18, 0x0002);
      WriteU16(OPT_OFF, 0x020B);
      WriteU32(OPT_OFF + 16, FILE_ALIGN);
      WriteU64(OPT_OFF + 24, IMAGE_BASE);
      WriteU32(OPT_OFF + 32, FILE_ALIGN);
      WriteU32(OPT_OFF + 36, FILE_ALIGN);
      WriteU16(OPT_OFF + 44, 1);
      WriteU32(OPT_OFF + 56, FILE_ALIGN);
      WriteU32(OPT_OFF + 60, FILE_ALIGN);
      WriteU32(OPT_OFF + 108, 16);
    }

    method WriteBytes(offset: nat, value: seq<u8>)
      requires offset + |value| <= |data|
      modifies this
      ensures data == Overwrite(old(data), offset, value) && numSections == old(numSections)
    {
      data := data[..offset] + value + data[offset + |value|..];
    }

    method WriteU16(offset: nat, value: u16)
      requires offset + 2 <= |data|
      modifies this
      ensures data == Overwrite(old(data), offset, Le16(value)) && numSections == old(numSections)
    {
      WriteBytes(offset, Le16(value));
    }

    method WriteU32(offset: nat, value: u32)
      requires offset + 4 <= |data|
      modifies this
      ensures data == Overwrite(old(data), offset, Le32(value)) && numSections == old(numSections)
    {
      WriteBytes(offset, Le32(value));
    }

    method WriteU64(offset: nat, value: u64)
      requires offset + 8 <= |data|
      modifies this
      ensures data == Overwrite(old(data), offset, Le64(value)) && numSections == old(numSections)
    {
      WriteBytes(offset, Le64(value));
    }

    method AddSection(name: seq<u8>, content: seq<u8>)
      requires Valid() && CanAdd(State(), name, content)
      modifies this
      ensures Valid() && State() == Step(old(State()), Op.AddSection(name, content))
    {
      var rawOffset := 0x200 * (numSections + 1);
      var rawSize := AlignUp(|content|);
      PlaceSection(name, content, rawOffset, rawSize);
      numSections := numSections + 1;
      WriteU16(NT_OFFSET + 4 + 2, numSections);
      WriteU32(OPT_OFF + 56, rawOffset + rawSize);
    }

    /** The first half of adding a section: its content and its header. */
    method PlaceSection(name: seq<u8>, content: seq<u8>, rawOffset: u32, rawSize: u32)
      requires Valid() && CanAdd(State(), name, content)
      requires rawOffset == RawOffset(numSections) && rawSize == AlignUp(|content|)
      modifies this
      ensures data == WithSection(old(State()), name, content) && numSections == old(numSections)
    {
      data := Grow(data, Max(|data|, rawOffset + rawSize));
      WriteBytes(rawOffset, content);
      WriteHeader(SectionHeaderOffset(numSections), name, |content|, rawOffset, rawSize);
    }

    method WriteHeader(header: nat, name: seq<u8>, virtualSize: u32, rawOffset: u32, rawSize: u32)
      requires |name| == 8 && header + 24 <= |data|
      modifies this
      ensures data == WithHeader(old(data), header, name, virtualSize, rawOffset, rawSize)
      ensures numSections == old(numSections)
    {
      WriteBytes(header, name);
      WriteU32(header + 8, virtualSize);
      WriteU32(header + 12, rawOffset);
      WriteU32(header + 16, rawSize);
      WriteU32(header + 20, rawOffset);
    }

    method SetMachine(value: u16)
      requires Valid()
      modifies this
      ensures Valid() && State() == Step(old(State()), Op.SetMachine(value))
      ensures data == Overwrite(old(data), 0x44, Le16(value))
    {
      WriteU16(NT_OFFSET + 4, value);
    }

    method SetLastPtrRelocs(pointer: u32)
      requires Valid() && numSections > 0
      modifies this
      ensures Valid() && State() == Step(old(State()), Op.SetLastPtrRelocs(pointer))
      ensures data == Overwrite(old(data), 0x148 + 40 * (numSections - 1) + 24, Le32(pointer))
    {
      WriteU32(SectionHeaderOffset(numSections - 1) + 24, pointer);
    }

    method SetDllCharacteristics(value: u16)
      requires Valid()
      modifies this
      ensures Valid() && State() == Step(old(State()), Op.SetDllCharacteristics(value))
      ensures data == Overwrite(old(data), 0x9E, Le16(value))
    {
      WriteU16(OPT_OFF + 70, value);
    }

    method SetMajorImageVersion(value: u16)
      requires Valid()
      modifies this
      ensures Valid() && State() == Step(old(State()), Op.SetMajorImageVersion(value))
      ensures data == Overwrite(old(data), 0x84, Le16(value))
    {
      WriteU16(OPT_OFF + 44, value);
    }

    method SetEntryPoint(rva: u32)
      requires Valid()
      modifies this
      ensures Valid() && State() == Step(old(State()), Op.SetEntryPoint(rva))
      ensures data == Overwrite(old(data), 0x68, Le32(rva))
    {
      WriteU32(OPT_OFF + 16, rva);
    }

    method SetBaseRelocDir(address: u32, size: u32)
      requires Valid()
      modifies this
      ensures Valid() && State() == Step(old(State()), Op.SetBaseRelocDir(address, size))
      ensures data == Overwrite(Overwrite(old(data), 0xF0, Le32(address)), 0xF4, Le32(size))
    {
      var offset := DD_OFF + BASERELOC * 8;
      WriteU32(offset, address);
      WriteU32(offset + 4, size);
    }

    method Build() returns (bytes: seq<u8>)
      ensures bytes == data
    {
      bytes := data;
    }
  }

  /** A fresh builder's DOS header, signature and file header. */
  function EmptyUpToOptional(p: Platform): (d: seq<u8>)
    ensures |d| == FILE_ALIGN
  {
    var d := Overwrite(Zeros(FILE_ALIGN), 0, [0x4D, 0x5A]);
    var d := Overwrite(d, 0x3C, Le32(NT_OFFSET));
    var d := Overwrite(d, NT_OFFSET, [0x50, 0x45]);
    var d := Overwrite(d, NT_OFFSET + 4, Le16(p.machine));
    var d := Overwrite(d, NT_OFFSET + 20, Le16(0xF0));
    Overwrite(d, NT_OFFSET + 22, Le16(0x0002))
  }

  /** A fresh builder's file. */
  function Empty(p: Platform): (f: File)
    ensures Roomy(f) && |f.data| == 0x200
  {
    var d := Overwrite(EmptyUpToOptional(p), OPT_OFF, Le16(0x020B));
    var d := Overwrite(d, OPT_OFF + 16, Le32(FILE_ALIGN));
    var d := Overwrite(d, OPT_OFF + 24, Le64(IMAGE_BASE));
    var d := Overwrite(d, OPT_OFF + 32, Le32(FILE_ALIGN));
    var d := Overwrite(d, OPT_OFF + 36, Le32(FILE_ALIGN));
    var d := Overwrite(d, OPT_OFF + 44, Le16(1));
    var d := Overwrite(d, OPT_OFF + 56, Le32(FILE_ALIGN));
    var d := Overwrite(d, OPT_OFF + 60, Le32(FILE_ALIGN));
    File(Overwrite(d, OPT_OFF + 108, Le32(16)), 0)
  }
}
