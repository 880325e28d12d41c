/** Kernel files, built and parsed like any other, for which the loader does not do what one might
    expect: the entry leaves the image, and the order of overlapping sections matters. */
module Witnesses {
  import opened Wrappers
  import opened Bytes
  import opened Kernel
  import opened Fixtures
  import opened FixturesModel
  import opened Mapping
  import opened Entry

  // The ASCII bytes of ".text", padded.
  const TEXT: seq<u8> := [0x2E, 0x74, 0x65, 0x78, 0x74, 0, 0, 0]

  /** The kernel a file parses to is mapped in full. */
  predicate Mappable(p: Platform, file: seq<u8>) {
    Parse(p, file).Success? && GoodPrefix(Parse(p, file).value) == |Parse(p, file).value.sections|
  }

  lemma RunOne(p: Platform, ops: seq<Op>, op: Op)
    requires Run(p, ops).Some? && Enabled(Run(p, ops).value, op)
    ensures Run(p, ops + [op]) == Some(Step(Run(p, ops).value, op))
    ensures Meaning(p, ops + [op]) == Apply(Meaning(p, ops), op)
  {
    assert (ops + [op])[..|ops|] == ops;
  }

  /** A file without sections is mapped whatever its entry point, even one beyond the last page. */
  lemma EntryCanLeaveImage(p: Platform) returns (file: seq<u8>)
    ensures Mappable(p, file)
    ensures var kernel := Parse(p, file).value; kernel.entryPoint >= 0x1000 * PageCount(kernel.size)
  {
    RunOne(p, [], SetEntryPoint(0x2000));
    var ops := [] + [SetEntryPoint(0x2000)];
    BuilderRoundTrip(p, ops);
    file := Run(p, ops).value.data;
  }

  // ---------- Files with a section moved ----------

  /** A built file whose section `j` is given another virtual address. */
  function Moved(d: seq<u8>, j: nat, address: u32): seq<u8>
    requires SectionHeaderOffset(j) + 40 <= |d|
  {
    Overwrite(d, SectionHeaderOffset(j) + 12, Le32(address))
  }

  lemma MovedHeader(d: seq<u8>, j: nat, address: u32)
    requires SectionHeaderOffset(j) + 40 <= |d|
    ensures var h := SectionHeaderOffset(j);
            SectionAt(Moved(d, j, address), h) == SectionAt(d, h).(virtualAddress := address)
  {
    var h := SectionHeaderOffset(j);
    ReadBack32(d, h + 12, address);
    assert Moved(d, j, address)[h..h + 8] == d[h..h + 8];
  }

  /** Such a file still parses to the builder's fields and to the section table it now holds. */
  lemma PatchedParses(p: Platform, ops: seq<Op>, r: seq<u8>)
    requires Run(p, ops).Some? && |r| == |Run(p, ops).value.data|
    requires Agree(Run(p, ops).value.data, r, 0, SHDR_OFF)
    ensures SHDR_OFF + 40 * |Meaning(p, ops).sections| <= |r|
    ensures Parse(p, r) == Expected(p, Meaning(p, ops), r, SectionsAt(r, SHDR_OFF, |Meaning(p, ops).sections|))
  {
    var f, m := Run(p, ops).value, Meaning(p, ops);
    RunRepresents(p, ops);
    FixedKept(f.data, r, m, m);
    RepresentedNt(r, m);
    RepresentedParses(p, r, m);
  }

  /** A section of one byte, mapped at the start of an image of two pages or less. */
  function OneByte(raw: u32): SectionHeader {
    SectionHeader(TEXT, 1, IMAGE_BASE, 0x200, raw, 0, 0)
  }

  /** What building with one section gives, and the same with a second. */
  lemma BuiltOne(p: Platform) returns (ops: seq<Op>)
    ensures Run(p, ops).Some?
    ensures Meaning(p, ops) == Fresh(p).(sections := [Section(TEXT, [7], 0)], imageSize := 0x400, entry := IMAGE_BASE)
  {
    var add, enter := AddSection(TEXT, [7]), SetEntryPoint(IMAGE_BASE);
    RunOne(p, [], add);
    RunOne(p, [] + [add], enter);
    ops := [] + [add] + [enter];
  }

  lemma BuiltTwo(p: Platform) returns (ops: seq<Op>)
    ensures Run(p, ops).Some?
    ensures Meaning(p, ops) ==
            Fresh(p).(sections := [Section(TEXT, [1], 0), Section(TEXT, [2], 0)], imageSize := 0x600)
  {
    var one, two := AddSection(TEXT, [1]), AddSection(TEXT, [2]);
    RunOne(p, [], one);
    RunOne(p, [] + [one], two);
    ops := [] + [one] + [two];
  }

  /** The bytes of such a file: its headers and its contents. */
  lemma BuiltBytes(p: Platform, ops: seq<Op>, j: nat) returns (d: seq<u8>)
    requires Run(p, ops).Some?
    requires var s := Meaning(p, ops).sections;
             j < |s| <= 2 && forall i :: 0 <= i < |s| ==> s[i] == Section(TEXT, s[i].content, 0) && |s[i].content| == 1
    ensures d == Run(p, ops).value.data && RawOffset(j) < |d|
    ensures d[RawOffset(j)] == Meaning(p, ops).sections[j].content[0]
    ensures SectionAt(d, SectionHeaderOffset(j)) == SectionHeader(TEXT, 1, RawOffset(j), 0x200, RawOffset(j), 0, 0)
  {
    d := Run(p, ops).value.data;
    var m := Meaning(p, ops);
    BuiltContent(p, ops, j);
    BuiltHeader(p, ops, j);
    assert AlignUp(1) == 0x200;
  }

  lemma BuiltHeader(p: Platform, ops: seq<Op>, j: nat)
    requires Run(p, ops).Some? && j < |Meaning(p, ops).sections| && j < 4
    ensures var d, m := Run(p, ops).value.data, Meaning(p, ops);
            && SectionHeaderOffset(j) + 40 <= |d|
            && InRange(m)
            && SectionAt(d, SectionHeaderOffset(j)) == HeaderFor(j, m.sections[j])
  {
    var f, m := Run(p, ops).value, Meaning(p, ops);
    RunRepresents(p, ops);
    RepresentedBounds(f, m);
    RepresentedHeader(f.data, m, j);
  }

  lemma RepresentedHeader(d: seq<u8>, m: Model, j: nat)
    requires Headers(d, m) && Spare(d, m) && InRange(m) && SHDR_OFF + 40 * |m.sections| <= |d|
    requires j < |m.sections| && j < 4
    ensures SectionAt(d, SectionHeaderOffset(j)) == HeaderFor(j, m.sections[j])
  {
    RepresentedTable(d, m);
    assert SectionsAt(d, SHDR_OFF, |m.sections|)[j] == SectionAt(d, SectionHeaderOffset(j));
  }

  lemma BuiltContent(p: Platform, ops: seq<Op>, j: nat)
    requires Run(p, ops).Some?
    requires var s := Meaning(p, ops).sections; j < |s| <= 2 && forall i :: 0 <= i < |s| ==> |s[i].content| == 1
    ensures var d := Run(p, ops).value.data;
            RawOffset(j) < |d| && d[RawOffset(j)] == Meaning(p, ops).sections[j].content[0]
  {
    RunRepresents(p, ops);
    RepresentedContent(Run(p, ops).value.data, Meaning(p, ops), j);
  }

  lemma RepresentedContent(d: seq<u8>, m: Model, j: nat)
    requires Contents(d, m) && j < |m.sections| <= 2 && |m.sections[j].content| == 1
    ensures RawOffset(j) < |d| && d[RawOffset(j)] == m.sections[j].content[0]
  {
    assert Sheltered(m, j) && ContentAt(d, j, m.sections[j].content);
    assert d[RawOffset(j)] == d[RawOffset(j)..RawOffset(j) + 1][0];
  }

  /** With ImageBase 0x04000000, a section mapped at the start of the image and entered there: the jump
      goes to an address 0x04000000 beyond the first page. */
  lemma SectionEntryCanLeaveImage(p: Platform) returns (file: seq<u8>)
    ensures Mappable(p, file)
    ensures var kernel := Parse(p, file).value;
            && |kernel.sections| == 1 && EntryInRaw(kernel, 0)
            && kernel.baseAddress == IMAGE_BASE
            && kernel.entryPoint >= 0x1000 * PageCount(kernel.size)
  {
    var ops := BuiltOne(p);
    var d := BuiltBytes(p, ops, 0);
    file := Moved(d, 0, IMAGE_BASE);
    MovedHeader(d, 0, IMAGE_BASE);
    PatchedParses(p, ops, file);
    OneParses(p, Meaning(p, ops), file);
  }

  lemma OneParses(p: Platform, m: Model, file: seq<u8>)
    requires m == Fresh(p).(sections := [Section(TEXT, [7], 0)], imageSize := 0x400, entry := IMAGE_BASE)
    requires 0x201 <= |file| && SectionAt(file, SHDR_OFF) == OneByte(0x200)
    requires Parse(p, file) == Expected(p, m, file, SectionsAt(file, SHDR_OFF, 1))
    ensures Parse(p, file) == Success(Image(file, IMAGE_BASE, IMAGE_BASE, 0x400, false, [OneByte(0x200)]))
    ensures Mappable(p, file)
  {
    assert SectionsAt(file, SHDR_OFF, 1) == [OneByte(0x200)];
    PrefixEnds(Parse(p, file).value, 1);
  }

  /** Two sections mapped at the same place with different contents: their order in the table decides
      what is in memory. */
  lemma OverlapDependsOnOrder(p: Platform, initial: seq<u8>) returns (file: seq<u8>)
    requires initial != []
    ensures Mappable(p, file)
    ensures !OrderIrrelevant(Parse(p, file).value, initial)
  {
    var ops := BuiltTwo(p);
    var d := BuiltBytes(p, ops, 0);
    var _ := BuiltBytes(p, ops, 1);
    var d1 := MoveFirst(d);
    file := MoveSecond(d1);
    PatchedParses(p, ops, file);
    TwoParse(p, Meaning(p, ops), file);
    BothWant(Parse(p, file).value, initial);
  }

  lemma TwoParse(p: Platform, m: Model, file: seq<u8>)
    requires m == Fresh(p).(sections := [Section(TEXT, [1], 0), Section(TEXT, [2], 0)], imageSize := 0x600)
    requires 0x401 <= |file|
    requires SectionAt(file, SHDR_OFF) == OneByte(0x200) && SectionAt(file, SHDR_OFF + 40) == OneByte(0x400)
    requires Parse(p, file) == Expected(p, m, file, SectionsAt(file, SHDR_OFF, 2))
    ensures Parse(p, file) ==
            Success(Image(file, 0x200, IMAGE_BASE, 0x600, false, [OneByte(0x200), OneByte(0x400)]))
    ensures Mappable(p, file)
  {
    assert SectionsAt(file, SHDR_OFF, 2) == [OneByte(0x200), OneByte(0x400)];
    PrefixEnds(Parse(p, file).value, 2);
  }

  lemma BothWant(kernel: Image, initial: seq<u8>)
    requires kernel.sections == [OneByte(0x200), OneByte(0x400)] && GoodPrefix(kernel) == 2
    requires kernel.baseAddress == IMAGE_BASE && 0x401 <= |kernel.data| && initial != []
    requires kernel.data[0x200] != kernel.data[0x400]
    ensures !OrderIrrelevant(kernel, initial)
  {
    var a, b := OneByte(0x200), OneByte(0x400);
    assert a == kernel.sections[0] && b == kernel.sections[1];
    assert Covers(kernel, a, 0) && Covers(kernel, b, 0);
    assert SectionByte(kernel, a, 0) != SectionByte(kernel, b, 0);
    OrderIrrelevantIffAgreeing(kernel, initial);
  }

  /** The first section moved, then the second; headers otherwise, and contents, stay as they were. */
  lemma MoveFirst(d: seq<u8>) returns (r: seq<u8>)
    requires 0x401 <= |d|
    ensures |r| == |d| && Agree(d, r, 0, SHDR_OFF) && r[0x200] == d[0x200] && r[0x400] == d[0x400]
    ensures SectionAt(r, SHDR_OFF) == SectionAt(d, SHDR_OFF).(virtualAddress := IMAGE_BASE)
    ensures SectionAt(r, SHDR_OFF + 40) == SectionAt(d, SHDR_OFF + 40)
  {
    r := Moved(d, 0, IMAGE_BASE);
    MovedHeader(d, 0, IMAGE_BASE);
    assert Agree(d, r, SHDR_OFF + 40, SHDR_OFF + 80);
    AgreeSection(d, r, SHDR_OFF + 40, SHDR_OFF + 80, SHDR_OFF + 40);
  }

  lemma MoveSecond(d: seq<u8>) returns (r: seq<u8>)
    requires 0x401 <= |d|
    ensures |r| == |d| && Agree(d, r, 0, SHDR_OFF) && r[0x200] == d[0x200] && r[0x400] == d[0x400]
    ensures SectionAt(r, SHDR_OFF) == SectionAt(d, SHDR_OFF)
    ensures SectionAt(r, SHDR_OFF + 40) == SectionAt(d, SHDR_OFF + 40).(virtualAddress := IMAGE_BASE)
  {
    r := Moved(d, 1, IMAGE_BASE);
    MovedHeader(d, 1, IMAGE_BASE);
    assert Agree(d, r, SHDR_OFF, SHDR_OFF + 40);
    AgreeSection(d, r, SHDR_OFF, SHDR_OFF + 40, SHDR_OFF);
  }
}
