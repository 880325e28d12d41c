/** What a builder run means: the fields last set and the sections in order, and the proof that the
    bytes the builder produces say exactly that to the parser. */
module FixturesModel {
  import opened Wrappers
  import opened Bytes
  import opened Kernel
  import opened Fixtures

  datatype Section = Section(name: seq<u8>, content: seq<u8>, pointer: u32)

  datatype Model = Model(
    machine: u16,
    entry: u32,
    version: u16,
    imageSize: u32,
    dll: u16,
    relocAddress: u32,
    relocSize: u32,
    sections: seq<Section>)

  function Fresh(p: Platform): Model {
    Model(p.machine, 0x200, 1, 0x200, 0, 0, 0, [])
  }

  /** The meaning of one builder call: it changes the fields it names and nothing else. */
  function Apply(m: Model, op: Op): Model
    requires op.SetLastPtrRelocs? ==> m.sections != []
    requires op.AddSection? ==> RawOffset(|m.sections|) + AlignUp(|op.content|) < U32_LIMIT
  {
    var n := |m.sections|;
    match op
    case AddSection(name, content) =>
      m.(sections := m.sections + [Section(name, content, 0)], imageSize := RawOffset(n) + AlignUp(|content|))
    case SetMachine(v) => m.(machine := v)
    case SetLastPtrRelocs(v) => m.(sections := m.sections[n - 1 := m.sections[n - 1].(pointer := v)])
    case SetDllCharacteristics(v) => m.(dll := v)
    case SetMajorImageVersion(v) => m.(version := v)
    case SetEntryPoint(v) => m.(entry := v)
    case SetBaseRelocDir(address, size) => m.(relocAddress := address, relocSize := size)
  }

  // ---------- What it means for bytes to represent a model ----------

  predicate Fixed(d: seq<u8>, m: Model) {
    && SHDR_OFF <= |d|
    && |m.sections| < 0x1_0000
    && U16At(d, 0) == DOS_MAGIC
    && U32At(d, 0x3C) == NT_OFFSET
    && NtAt(d, NT_OFFSET) == NtHeaders(NT_SIGNATURE, m.machine, |m.sections|, 0xF0, OPTIONAL_MAGIC_64, m.entry,
                                       IMAGE_BASE, m.version, m.imageSize, m.dll, 16)
    && U32At(d, DD_OFF + 40) == m.relocAddress
    && U32At(d, DD_OFF + 44) == m.relocSize
  }

  /** The part of header `j` that the builder writes when it adds the section. */
  predicate HeaderOf(d: seq<u8>, j: nat, s: Section) {
    var h := SectionHeaderOffset(j);
    && h + 24 <= |d|
    && RawOffset(j) + AlignUp(|s.content|) < U32_LIMIT
    && d[h..h + 8] == s.name
    && U32At(d, h + 8) == |s.content|
    && U32At(d, h + 12) == RawOffset(j)
    && U32At(d, h + 16) == AlignUp(|s.content|)
    && U32At(d, h + 20) == RawOffset(j)
  }

  predicate Headers(d: seq<u8>, m: Model) {
    forall j :: 0 <= j < |m.sections| ==> HeaderOf(d, j, m.sections[j])
  }

  /** In the four headers that lie inside the header area, the relocation pointer is the one last set
      and the fields the builder does not write are zero, as is the rest of the area. */
  predicate Spare(d: seq<u8>, m: Model) {
    && FILE_ALIGN <= |d|
    && (forall j :: 0 <= j < |m.sections| && j < 4 ==>
         && U32At(d, SectionHeaderOffset(j) + 24) == m.sections[j].pointer
         && U32At(d, SectionHeaderOffset(j) + 36) == 0)
    && forall k :: SectionHeaderOffset(|m.sections|) <= k < 0x200 ==> d[k] == 0
  }

  /** Nothing written later reaches section `j`: it is the newest, or it keeps to its own 0x200 bytes
      and the header table ends before it. */
  predicate Sheltered(m: Model, j: nat)
    requires j < |m.sections|
  {
    || j == |m.sections| - 1
    || (|m.sections[j].content| <= 0x200 && SectionHeaderOffset(|m.sections|) <= RawOffset(j))
  }

  predicate ContentAt(d: seq<u8>, j: nat, content: seq<u8>) {
    RawOffset(j) + |content| <= |d| && d[RawOffset(j)..RawOffset(j) + |content|] == content
  }

  predicate Contents(d: seq<u8>, m: Model) {
    forall j :: 0 <= j < |m.sections| && Sheltered(m, j) ==> ContentAt(d, j, m.sections[j].content)
  }

  predicate Represents(f: File, m: Model) {
    && Roomy(f)
    && f.count == |m.sections|
    && Fixed(f.data, m)
    && Headers(f.data, m)
    && Spare(f.data, m)
    && Contents(f.data, m)
  }

  // ---------- Runs ----------

  /** The file after a run of builder calls, if none of them trips the builder's assertions. */
  function Run(p: Platform, ops: seq<Op>): (r: Option<File>)
    ensures r.Some? ==> Roomy(r.value)
  {
    if ops == [] then Some(Empty(p))
    else
      var f := Run(p, ops[..|ops| - 1]);
      if f.Some? && Enabled(f.value, ops[|ops| - 1]) then Some(Step(f.value, ops[|ops| - 1])) else None
  }

  function Meaning(p: Platform, ops: seq<Op>): (m: Model)
    requires Run(p, ops).Some?
    ensures |m.sections| == Run(p, ops).value.count
  {
    if ops == [] then Fresh(p) else Apply(Meaning(p, ops[..|ops| - 1]), ops[|ops| - 1])
  }

  // ---------- The fresh builder ----------

  /** Byte `k` of a fresh builder's header area. */
  function HeaderByte(p: Platform, k: nat): u8 {
    match k
    case 0 => 0x4D
    case 1 => 0x5A
    case 0x3C => 0x40
    case 0x40 => 0x50
    case 0x41 => 0x45
    case 0x44 => p.machine % 0x100
    case 0x45 => p.machine / 0x100
    case 0x54 => 0xF0
    case 0x56 => 2
    case 88 => 0x0B
    case 89 => 2
    case 105 => 2
    case 115 => 4
    case 121 => 2
    case 125 => 2
    case 132 => 1
    case 145 => 2
    case 149 => 2
    case 196 => 16
    case _ => 0
  }

  lemma EmptyLowBytes(p: Platform, k: nat)
    requires k < 0x200
    ensures EmptyUpToOptional(p)[k] == if k < OPT_OFF then HeaderByte(p, k) else 0
  {
    assert Le32(NT_OFFSET) == [0x40, 0, 0, 0];
    assert Le16(0xF0) == [0xF0, 0];
    assert Le16(2) == [2, 0];
  }

  lemma EmptyBytes(p: Platform, k: nat)
    requires k < 0x200
    ensures Empty(p).data[k] == HeaderByte(p, k)
  {
    EmptyLowBytes(p, k);
    assert Le32(FILE_ALIGN) == [0, 2, 0, 0];
    assert Le16(1) == [1, 0];
    assert Le16(0x020B) == [0x0B, 2];
    assert Le32(16) == [16, 0, 0, 0];
    assert Le64(IMAGE_BASE) == [0, 0, 0, 4, 0, 0, 0, 0];
  }

  lemma HeaderAreaMeaning(p: Platform, d: seq<u8>)
    requires |d| == 0x200
    requires forall k :: 0 <= k < 0x200 ==> d[k] == HeaderByte(p, k)
    ensures Represents(File(d, 0), Fresh(p))
  {
  }

  lemma {:induction false} EmptyRepresents(p: Platform)
    ensures Represents(Empty(p), Fresh(p))
  {
    forall k | 0 <= k < 0x200
      ensures Empty(p).data[k] == HeaderByte(p, k)
    {
      EmptyBytes(p, k);
    }
    HeaderAreaMeaning(p, Empty(p).data);
  }

  // ---------- Setters disturb nothing but their own field ----------

  lemma HeaderKept(d: seq<u8>, r: seq<u8>, lo: nat, hi: nat, j: nat, s: Section)
    requires Agree(d, r, lo, hi) && lo <= SectionHeaderOffset(j) && SectionHeaderOffset(j) + 24 <= hi
    requires HeaderOf(d, j, s)
    ensures HeaderOf(r, j, s)
  {
  }

  lemma ContentKept(d: seq<u8>, r: seq<u8>, lo: nat, hi: nat, j: nat, content: seq<u8>)
    requires Agree(d, r, lo, hi) && lo <= RawOffset(j) && RawOffset(j) + |content| <= hi
    requires ContentAt(d, j, content)
    ensures ContentAt(r, j, content)
  {
  }

  /** A write below the section table leaves table and contents as they were. */
  lemma TableKept(f: File, r: seq<u8>, m: Model, m': Model)
    requires Represents(f, m) && m'.sections == m.sections
    requires |r| == |f.data| && Agree(f.data, r, SHDR_OFF, |f.data|)
    ensures Headers(r, m') && Spare(r, m') && Contents(r, m')
  {
    var d, hi := f.data, |f.data|;
    forall j | 0 <= j < |m.sections|
      ensures HeaderOf(r, j, m.sections[j])
    {
      assert HeaderOf(d, j, m.sections[j]);
      HeaderKept(d, r, SHDR_OFF, hi, j, m.sections[j]);
    }
    forall j | 0 <= j < |m.sections| && j < 4
      ensures U32At(r, SectionHeaderOffset(j) + 24) == m.sections[j].pointer
      ensures U32At(r, SectionHeaderOffset(j) + 36) == 0
    {
      AgreeU32(d, r, SHDR_OFF, hi, SectionHeaderOffset(j) + 24);
      AgreeU32(d, r, SHDR_OFF, hi, SectionHeaderOffset(j) + 36);
    }
    forall j | 0 <= j < |m.sections| && Sheltered(m', j)
      ensures ContentAt(r, j, m.sections[j].content)
    {
      assert Sheltered(m, j);
      ContentKept(d, r, SHDR_OFF, hi, j, m.sections[j].content);
    }
  }

  /** Every setter of a fixed field writes that field and keeps all the others. */
  lemma SetterRepresents(f: File, m: Model, op: Op)
    requires Represents(f, m) && !op.AddSection? && !op.SetLastPtrRelocs?
    ensures Represents(Step(f, op), Apply(m, op))
  {
    var r := Step(f, op).data;
    assert Agree(f.data, r, SHDR_OFF, |f.data|);
    TableKept(f, r, m, Apply(m, op));
    SetterFixed(f, m, op);
  }

  lemma SetterFixed(f: File, m: Model, op: Op)
    requires Represents(f, m) && !op.AddSection? && !op.SetLastPtrRelocs?
    ensures Fixed(Step(f, op).data, Apply(m, op))
  {
    match op
    case SetMachine(v) => WriteHalf(f.data, m, NT_OFFSET + 4, v);
    case SetDllCharacteristics(v) => WriteHalf(f.data, m, OPT_OFF + 70, v);
    case SetMajorImageVersion(v) => WriteHalf(f.data, m, OPT_OFF + 44, v);
    case SetEntryPoint(v) => WriteWord(f.data, m, OPT_OFF + 16, v);
    case SetBaseRelocDir(address, size) =>
      WriteWord(f.data, m, DD_OFF + 40, address);
      WriteWord(Overwrite(f.data, DD_OFF + 40, Le32(address)), m.(relocAddress := address), DD_OFF + 44, size);
  }

  /** A two-byte write at one of the places the builder writes fields to. */
  lemma WriteHalf(d: seq<u8>, m: Model, at: nat, v: u16)
    requires Fixed(d, m)
    requires at == 68 || at == 132 || at == 158
    ensures Fixed(Overwrite(d, at, Le16(v)),
                  if at == 68 then m.(machine := v)
                  else if at == 132 then m.(version := v)
                  else m.(dll := v))
  {
  }

  /** A four-byte write at one of the places the builder writes fields to. */
  lemma WriteWord(d: seq<u8>, m: Model, at: nat, v: u32)
    requires Fixed(d, m)
    requires at == 104 || at == 144 || at == 240 || at == 244
    ensures Fixed(Overwrite(d, at, Le32(v)),
                  if at == 104 then m.(entry := v)
                  else if at == 144 then m.(imageSize := v)
                  else if at == 240 then m.(relocAddress := v)
                  else m.(relocSize := v))
  {
    ReadBack32(d, at, v);
  }

  lemma FixedKept(d: seq<u8>, r: seq<u8>, m: Model, m': Model)
    requires Fixed(d, m) && Agree(d, r, 0, SHDR_OFF)
    requires m' == m.(sections := m'.sections) && |m'.sections| == |m.sections|
    ensures Fixed(r, m')
  {
    AgreeNt(d, r, 0, SHDR_OFF, NT_OFFSET);
  }

  // ---------- The relocation pointer of the newest section ----------

  lemma PointerHeaders(d: seq<u8>, r: seq<u8>, m: Model, m': Model, h: nat)
    requires m.sections != [] && |m'.sections| == |m.sections| && h == SectionHeaderOffset(|m.sections| - 1)
    requires forall j :: 0 <= j < |m.sections| ==> m'.sections[j] == m.sections[j].(pointer := m'.sections[j].pointer)
    requires Headers(d, m) && Agree(d, r, 0, h + 24)
    ensures Headers(r, m')
  {
  }

  lemma PointerSpare(d: seq<u8>, r: seq<u8>, m: Model, m': Model, h: nat, v: u32)
    requires m.sections != [] && h == SectionHeaderOffset(|m.sections| - 1)
    requires m'.sections == m.sections[|m.sections| - 1 := m.sections[|m.sections| - 1].(pointer := v)]
    requires Spare(d, m) && |d| == |r|
    requires Agree(d, r, 0, h + 24) && h + 28 <= |d| && Agree(d, r, h + 28, |d|) && U32At(r, h + 24) == v
    ensures Spare(r, m')
  {
  }

  lemma PointerContents(d: seq<u8>, r: seq<u8>, m: Model, m': Model, h: nat)
    requires m.sections != [] && |m'.sections| == |m.sections| && h == SectionHeaderOffset(|m.sections| - 1)
    requires forall j :: 0 <= j < |m.sections| ==> m'.sections[j] == m.sections[j].(pointer := m'.sections[j].pointer)
    requires Contents(d, m) && |d| == |r| && h + 28 <= |d| && Agree(d, r, h + 28, |d|)
    ensures Contents(r, m')
  {
  }

  lemma SetLastPtrRelocsBytes(f: File, v: u32)
    requires Roomy(f) && f.count > 0
    ensures var d, r, h := f.data, Step(f, SetLastPtrRelocs(v)).data, SectionHeaderOffset(f.count - 1);
            && |d| == |r| && SHDR_OFF <= h && h + 28 <= |d| && U32At(r, h + 24) == v
            && Agree(d, r, 0, SHDR_OFF) && Agree(d, r, 0, h + 24) && Agree(d, r, h + 28, |d|)
  {
  }

  lemma PointerRepresents(d: seq<u8>, r: seq<u8>, m: Model, m': Model, h: nat, v: u32)
    requires m.sections != [] && h == SectionHeaderOffset(|m.sections| - 1)
    requires m' == m.(sections := m'.sections)
    requires m'.sections == m.sections[|m.sections| - 1 := m.sections[|m.sections| - 1].(pointer := v)]
    requires Fixed(d, m) && Headers(d, m) && Spare(d, m) && Contents(d, m)
    requires |d| == |r| && h + 28 <= |d| && U32At(r, h + 24) == v
    requires Agree(d, r, 0, SHDR_OFF) && Agree(d, r, 0, h + 24) && Agree(d, r, h + 28, |d|)
    ensures Fixed(r, m') && Headers(r, m') && Spare(r, m') && Contents(r, m')
  {
    FixedKept(d, r, m, m');
    PointerHeaders(d, r, m, m', h);
    PointerSpare(d, r, m, m', h, v);
    PointerContents(d, r, m, m', h);
  }

  lemma SetLastPtrRelocsRepresents(f: File, m: Model, v: u32)
    requires Represents(f, m) && m.sections != []
    ensures Represents(Step(f, SetLastPtrRelocs(v)), Apply(m, SetLastPtrRelocs(v)))
  {
    SetLastPtrRelocsBytes(f, v);
    var r, m' := Step(f, SetLastPtrRelocs(v)).data, Apply(m, SetLastPtrRelocs(v));
    PointerRepresents(f.data, r, m, m', SectionHeaderOffset(f.count - 1), v);
  }

  // ---------- One more section ----------

  /** What adding a section's content and header does to the file, byte range by byte range. */
  lemma WithSectionBytes(f: File, name: seq<u8>, content: seq<u8>)
    requires Roomy(f) && CanAdd(f, name, content)
    ensures var h, raw, r := SectionHeaderOffset(f.count), RawOffset(f.count), WithSection(f, name, content);
            && h + 40 <= raw && raw + |content| <= |r|
            && Agree(f.data, r, 0, h)
            && r[h..h + 8] == name
            && r[h + 8..h + 24] == Le32(|content|) + Le32(raw) + Le32(AlignUp(|content|)) + Le32(raw)
            && r[raw..raw + |content|] == content
            && forall k :: h + 24 <= k < |r| && !(raw <= k < raw + |content|) ==>
                 r[k] == if k < |f.data| then f.data[k] else 0
  {
    var h, raw, r := SectionHeaderOffset(f.count), RawOffset(f.count), WithSection(f, name, content);
    assert h + 40 <= raw && h <= |f.data|;
  }

  lemma WithSectionHeader(f: File, name: seq<u8>, content: seq<u8>)
    requires Roomy(f) && CanAdd(f, name, content)
    ensures HeaderOf(WithSection(f, name, content), f.count, Section(name, content, 0))
  {
  }

  /** What the new bytes `r` must be, given the old bytes `d`, when section `n` is added. */
  predicate Added(d: seq<u8>, r: seq<u8>, n: nat, s: Section) {
    var h, raw := SectionHeaderOffset(n), RawOffset(n);
    && h + 40 <= raw <= |d| + 0x200
    && SHDR_OFF <= |d| <= |r|
    && Agree(d, r, SHDR_OFF, h)
    && HeaderOf(r, n, s)
    && ContentAt(r, n, s.content)
    && forall k :: h + 24 <= k < |r| && !(raw <= k < raw + |s.content|) ==> r[k] == if k < |d| then d[k] else 0
  }

  lemma AddSectionAdds(f: File, name: seq<u8>, content: seq<u8>)
    requires Roomy(f) && CanAdd(f, name, content)
    ensures Added(f.data, Step(f, AddSection(name, content)).data, f.count, Section(name, content, 0))
  {
    var r := Step(f, AddSection(name, content)).data;
    WithSectionAdds(f, name, content);
    RecountAgrees(f, name, content);
    AddedKept(f.data, WithSection(f, name, content), r, f.count, Section(name, content, 0));
  }

  lemma WithSectionAdds(f: File, name: seq<u8>, content: seq<u8>)
    requires Roomy(f) && CanAdd(f, name, content)
    ensures Added(f.data, WithSection(f, name, content), f.count, Section(name, content, 0))
  {
    WithSectionBytes(f, name, content);
    WithSectionHeader(f, name, content);
  }

  /** The recounting that follows stays below the section table. */
  lemma RecountAgrees(f: File, name: seq<u8>, content: seq<u8>)
    requires Roomy(f) && CanAdd(f, name, content)
    ensures var r1, r := WithSection(f, name, content), Step(f, AddSection(name, content)).data;
            |r| == |r1| && Agree(r1, r, SHDR_OFF, |r|)
  {
  }

  lemma AddedKept(d: seq<u8>, r1: seq<u8>, r: seq<u8>, n: nat, s: Section)
    requires Added(d, r1, n, s) && |r| == |r1| && Agree(r1, r, SHDR_OFF, |r|)
    ensures Added(d, r, n, s)
  {
    HeaderKept(r1, r, SHDR_OFF, |r|, n, s);
    ContentKept(r1, r, SHDR_OFF, |r|, n, s.content);
  }

  /** Adding section `n`, byte for byte: the content at 0x200 * (n + 1), header `n` in the table at 0x148
      with name, sizes, address and file offset, the section count, the image size; zeros in whatever
      is new; and no other byte changes. */
  lemma AddSectionInNumbers(f: File, name: seq<u8>, content: seq<u8>)
    requires Roomy(f) && CanAdd(f, name, content)
    ensures var d, r, n := f.data, Step(f, AddSection(name, content)).data, f.count;
            var h, raw, size := 0x148 + 40 * n, 0x200 * (n + 1), AlignUp(|content|);
            && h + 40 <= raw && raw + |content| <= |r|
            && |r| == (if |d| < raw + size then raw + size else |d|)
            && r[raw..raw + |content|] == content
            && r[h..h + 8] == name
            && U32At(r, h + 8) == |content| && U32At(r, h + 12) == raw
            && U32At(r, h + 16) == size && U32At(r, h + 20) == raw
            && U16At(r, 0x46) == n + 1
            && U32At(r, 0x90) == raw + size
            && forall k | 0 <= k < |r| && !(h <= k < h + 24) && !(raw <= k < raw + |content|)
                   && k !in [0x46, 0x47, 0x90, 0x91, 0x92, 0x93] ::
                 r[k] == if k < |d| then d[k] else 0
  {
    AddSectionAdds(f, name, content);
    AddSectionRecounts(f, name, content);
    AddSectionFrame(f, name, content);
  }

  lemma AddSectionFrame(f: File, name: seq<u8>, content: seq<u8>)
    requires Roomy(f) && CanAdd(f, name, content)
    ensures var d, r, h, raw := f.data, Step(f, AddSection(name, content)).data, 0x148 + 40 * f.count, 0x200 * (f.count + 1);
            && h + 40 <= raw
            && |r| == (if |d| < raw + AlignUp(|content|) then raw + AlignUp(|content|) else |d|)
            && forall k | 0 <= k < |r| && !(h <= k < h + 24) && !(raw <= k < raw + |content|)
                   && k !in [0x46, 0x47, 0x90, 0x91, 0x92, 0x93] ::
                 r[k] == if k < |d| then d[k] else 0
  {
    var r1, r := WithSection(f, name, content), Step(f, AddSection(name, content)).data;
    WithSectionBytes(f, name, content);
    assert forall k | 0 <= k < |r| && k !in [0x46, 0x47, 0x90, 0x91, 0x92, 0x93] :: r[k] == r1[k];
  }

  /** Below the section table only the section count and the image size differ. */
  predicate Recounted(d: seq<u8>, r: seq<u8>, count: u16, imageSize: u32) {
    && Agree(d, r, 0, 70)
    && Agree(d, r, 72, 144)
    && Agree(d, r, 148, SHDR_OFF)
    && U16At(r, 70) == count
    && U32At(r, 144) == imageSize
  }

  lemma AddSectionRecounts(f: File, name: seq<u8>, content: seq<u8>)
    requires Roomy(f) && CanAdd(f, name, content)
    ensures Recounted(f.data, Step(f, AddSection(name, content)).data, f.count + 1,
                      RawOffset(f.count) + AlignUp(|content|))
  {
    WithSectionBytes(f, name, content);
  }

  lemma AddedFixed(d: seq<u8>, r: seq<u8>, m: Model, m': Model)
    requires Fixed(d, m) && |m'.sections| < 0x1_0000 && Recounted(d, r, |m'.sections|, m'.imageSize)
    requires m' == m.(sections := m'.sections, imageSize := m'.imageSize)
    ensures Fixed(r, m')
  {
  }

  lemma AddedHeaders(d: seq<u8>, r: seq<u8>, m: Model, m': Model, s: Section)
    requires Headers(d, m) && m'.sections == m.sections + [s] && Added(d, r, |m.sections|, s)
    ensures Headers(r, m')
  {
    forall j | 0 <= j < |m.sections|
      ensures HeaderOf(r, j, m.sections[j])
    {
      assert HeaderOf(d, j, m.sections[j]);
      HeaderKept(d, r, SHDR_OFF, SectionHeaderOffset(|m.sections|), j, m.sections[j]);
    }
  }

  lemma AddedSpare(d: seq<u8>, r: seq<u8>, m: Model, m': Model, s: Section)
    requires Spare(d, m) && m'.sections == m.sections + [s] && Added(d, r, |m.sections|, s) && s.pointer == 0
    requires FILE_ALIGN <= |d|
    ensures Spare(r, m')
  {
    var n := |m.sections|;
    var h := SectionHeaderOffset(n);
    assert forall k :: h + 24 <= k < 0x200 ==> r[k] == d[k] == 0;
    forall j | 0 <= j < n && j < 4
      ensures U32At(r, SectionHeaderOffset(j) + 24) == m.sections[j].pointer
      ensures U32At(r, SectionHeaderOffset(j) + 36) == 0
    {
      AgreeU32(d, r, SHDR_OFF, h, SectionHeaderOffset(j) + 24);
      AgreeU32(d, r, SHDR_OFF, h, SectionHeaderOffset(j) + 36);
    }
    assert n < 4 ==> U32At(r, h + 24) == 0 && U32At(r, h + 36) == 0;
  }

  lemma AddedContents(d: seq<u8>, r: seq<u8>, m: Model, m': Model, s: Section)
    requires Contents(d, m) && m'.sections == m.sections + [s] && Added(d, r, |m.sections|, s)
    ensures Contents(r, m')
  {
    var n := |m.sections|;
    forall j | 0 <= j < n && Sheltered(m', j)
      ensures ContentAt(r, j, m.sections[j].content)
    {
      var c := m.sections[j].content;
      assert Sheltered(m, j) && ContentAt(d, j, c);
      var lo, hi := RawOffset(j), RawOffset(j) + |c|;
      assert SectionHeaderOffset(n) + 24 <= lo && hi <= RawOffset(n);
      assert Agree(d, r, lo, hi);
      ContentKept(d, r, lo, hi, j, c);
    }
  }

  lemma AddedRepresents(d: seq<u8>, r: seq<u8>, m: Model, name: seq<u8>, content: seq<u8>)
    requires FILE_ALIGN <= |d| && Fixed(d, m) && Headers(d, m) && Spare(d, m) && Contents(d, m)
    requires |m.sections| + 1 < 0x1_0000 && Added(d, r, |m.sections|, Section(name, content, 0))
    requires Recounted(d, r, |m.sections| + 1, RawOffset(|m.sections|) + AlignUp(|content|))
    ensures var m' := Apply(m, AddSection(name, content));
            Fixed(r, m') && Headers(r, m') && Spare(r, m') && Contents(r, m')
  {
    var m', s := Apply(m, AddSection(name, content)), Section(name, content, 0);
    AddedFixed(d, r, m, m');
    AddedHeaders(d, r, m, m', s);
    AddedSpare(d, r, m, m', s);
    AddedContents(d, r, m, m', s);
  }

  lemma AddSectionRepresents(f: File, m: Model, name: seq<u8>, content: seq<u8>)
    requires Represents(f, m) && CanAdd(f, name, content)
    ensures Represents(Step(f, AddSection(name, content)), Apply(m, AddSection(name, content)))
  {
    AddSectionRecounts(f, name, content);
    AddSectionAdds(f, name, content);
    AddedRepresents(f.data, Step(f, AddSection(name, content)).data, m, name, content);
  }

  lemma {:induction false} StepRepresents(f: File, m: Model, op: Op)
    requires Represents(f, m) && Enabled(f, op)
    ensures Represents(Step(f, op), Apply(m, op))
  {
    match op
    case AddSection(name, content) => AddSectionRepresents(f, m, name, content);
    case SetLastPtrRelocs(v) => SetLastPtrRelocsRepresents(f, m, v);
    case _ => SetterRepresents(f, m, op);
  }

  /** Whatever the builder is told, its bytes say what the calls mean: every fixed field is the one
      last set, all sections' names, sizes and offsets read back, the first four relocation pointers
      are those last set, and sheltered contents survive. */
  lemma {:induction false} RunRepresents(p: Platform, ops: seq<Op>)
    requires Run(p, ops).Some?
    ensures Represents(Run(p, ops).value, Meaning(p, ops))
  {
    if ops == [] {
      EmptyRepresents(p);
    } else {
      var front := ops[..|ops| - 1];
      RunRepresents(p, front);
      StepRepresents(Run(p, front).value, Meaning(p, front), ops[|ops| - 1]);
    }
  }

  // ---------- The parser's view of a built file ----------

  predicate FitsAt(j: nat, s: Section) {
    RawOffset(j) + AlignUp(|s.content|) < U32_LIMIT
  }

  predicate InRange(m: Model) {
    forall j :: 0 <= j < |m.sections| ==> FitsAt(j, m.sections[j])
  }

  /** The header the parser should see for section `j`. */
  function HeaderFor(j: nat, s: Section): SectionHeader
    requires FitsAt(j, s)
  {
    SectionHeader(s.name, |s.content|, RawOffset(j), AlignUp(|s.content|), RawOffset(j), s.pointer, 0)
  }

  function SectionHeaders(m: Model): seq<SectionHeader>
    requires InRange(m)
  {
    seq(|m.sections|, j requires 0 <= j < |m.sections| => HeaderFor(j, m.sections[j]))
  }

  /** What parsing should say: the first complaint that applies to the fields and to the headers of
      the section table, or the fields and the table. */
  function Expected(p: Platform, m: Model, bytes: seq<u8>, headers: seq<SectionHeader>): Result<Image, ParseError> {
    var relocated := FirstRelocated(headers);
    if m.machine != p.machine then Failure(WrongMachine(m.machine))
    else if m.entry == 0 then Failure(NoEntryPoint)
    else if m.version == 0 then Failure(ImageVersionTooLow(0))
    else if m.relocSize != 0 && !(p.zeroAddressIsAbsent && m.relocAddress == 0) then
      Failure(BaseRelocations(m.relocSize))
    else if relocated < |headers| then
      Failure(SectionRelocations(relocated, headers[relocated].relocations))
    else
      Success(Image(bytes, m.entry, IMAGE_BASE, m.imageSize, HasBit(m.dll, NX_COMPAT), headers))
  }

  lemma RepresentedBounds(f: File, m: Model)
    requires Represents(f, m)
    ensures InRange(m)
  {
  }

  lemma RepresentedNt(d: seq<u8>, m: Model)
    requires Fixed(d, m) && SectionHeaderOffset(|m.sections|) <= |d|
    ensures HasSectionTable(d) && NtOffset(d) == NT_OFFSET
    ensures TableOffset(d) == SHDR_OFF && SectionCount(d) == |m.sections|
    ensures U32At(d, NT_OFFSET + 132) == 16
  {
  }

  /** Header `j` as parsed is section `j`, and its content, if sheltered, lies where it points. */
  predicate ReadsBack(d: seq<u8>, m: Model, j: nat, h: SectionHeader)
    requires j < |m.sections|
  {
    var s := m.sections[j];
    && h.name == s.name
    && h.virtualSize == |s.content|
    && h.virtualAddress == h.rawPointer == RawOffset(j)
    && h.rawSize == AlignUp(|s.content|)
    && (Sheltered(m, j) ==>
          h.rawPointer + h.virtualSize <= |d| && d[h.rawPointer..h.rawPointer + h.virtualSize] == s.content)
  }

  lemma HeaderReadsBack(d: seq<u8>, m: Model, j: nat)
    requires j < |m.sections| && SectionHeaderOffset(j) + 40 <= |d|
    requires HeaderOf(d, j, m.sections[j])
    requires Sheltered(m, j) ==> ContentAt(d, j, m.sections[j].content)
    ensures ReadsBack(d, m, j, SectionAt(d, SHDR_OFF + 40 * j))
  {
  }

  lemma AllReadBack(d: seq<u8>, m: Model)
    requires Headers(d, m) && Contents(d, m) && SHDR_OFF + 40 * |m.sections| <= |d|
    ensures forall j :: 0 <= j < |m.sections| ==> ReadsBack(d, m, j, SectionsAt(d, SHDR_OFF, |m.sections|)[j])
  {
    forall j | 0 <= j < |m.sections|
      ensures ReadsBack(d, m, j, SectionsAt(d, SHDR_OFF, |m.sections|)[j])
    {
      HeaderReadsBack(d, m, j);
    }
  }

  /** For any number of sections, the parser finds the section table, and in it every section's
      name, sizes, address and file offset; and every sheltered content lies at its file offset. */
  lemma {:induction false} BuiltTableReads(p: Platform, ops: seq<Op>)
    requires Run(p, ops).Some?
    ensures var d, m := Run(p, ops).value.data, Meaning(p, ops);
            && HasSectionTable(d)
            && SectionCount(d) == |m.sections|
            && forall j :: 0 <= j < |m.sections| ==> ReadsBack(d, m, j, Table(d)[j])
  {
    var f, m := Run(p, ops).value, Meaning(p, ops);
    RunRepresents(p, ops);
    RepresentedNt(f.data, m);
    AllReadBack(f.data, m);
  }

  /** The first four headers are exactly the sections; the fifth takes its unwritten fields from the
      first bytes of the first section's raw area. */
  lemma RepresentedTable(d: seq<u8>, m: Model)
    requires Headers(d, m) && Spare(d, m) && InRange(m) && SHDR_OFF + 40 * |m.sections| <= |d|
    ensures forall j :: 0 <= j < |m.sections| && j < 4 ==>
              SectionsAt(d, SHDR_OFF, |m.sections|)[j] == HeaderFor(j, m.sections[j])
    ensures |m.sections| > 4 && 0x210 <= |d| ==>
              SectionsAt(d, SHDR_OFF, |m.sections|)[4] ==
              HeaderFor(4, m.sections[4]).(relocations := U32At(d, 0x200), characteristics := U32At(d, 0x20C))
  {
    forall j | 0 <= j < |m.sections| && j < 4
      ensures SectionsAt(d, SHDR_OFF, |m.sections|)[j] == HeaderFor(j, m.sections[j])
    {
      assert HeaderOf(d, j, m.sections[j]);
    }
    if |m.sections| > 4 {
      assert HeaderOf(d, 4, m.sections[4]);
    }
  }

  lemma RepresentedParses(p: Platform, d: seq<u8>, m: Model)
    requires Fixed(d, m) && SectionHeaderOffset(|m.sections|) <= |d|
    ensures HasSectionTable(d) && Parse(p, d) == Expected(p, m, d, Table(d))
  {
    RepresentedNt(d, m);
    NtHeadersRead(d);
    var dirs := DirectoriesAt(d, DD_OFF, 16);
    assert dirs[BASERELOC] == DataDirectory(m.relocAddress, m.relocSize);
  }

  /** For any number of sections, parsing what the builder built returns the fields last set and the
      section table, or the first complaint they give rise to; and the first four headers in that
      table are exactly the first four sections. */
  lemma {:induction false} BuiltFileParses(p: Platform, ops: seq<Op>)
    requires Run(p, ops).Some?
    ensures var d, m := Run(p, ops).value.data, Meaning(p, ops);
            && HasSectionTable(d)
            && SectionCount(d) == |m.sections|
            && InRange(m)
            && Parse(p, d) == Expected(p, m, d, Table(d))
            && (forall j :: 0 <= j < |m.sections| && j < 4 ==> Table(d)[j] == HeaderFor(j, m.sections[j]))
            && (|m.sections| > 4 ==>
                  && 0x210 <= |d|
                  && Table(d)[4] == HeaderFor(4, m.sections[4]).(relocations := U32At(d, 0x200),
                                                                 characteristics := U32At(d, 0x20C)))
  {
    var f, m := Run(p, ops).value, Meaning(p, ops);
    RunRepresents(p, ops);
    RepresentedBounds(f, m);
    RepresentedNt(f.data, m);
    RepresentedParses(p, f.data, m);
    RepresentedTable(f.data, m);
  }

  /** The round trip. While the section headers fit in the header area, parsing what the builder
      built returns exactly the fields last set and the sections in order, or the first complaint
      they give rise to. */
  lemma {:induction false} BuilderRoundTrip(p: Platform, ops: seq<Op>)
    requires Run(p, ops).Some? && Run(p, ops).value.count <= 4
    ensures var d, m := Run(p, ops).value.data, Meaning(p, ops);
            && InRange(m)
            && Parse(p, d) == Expected(p, m, d, SectionHeaders(m))
  {
    BuiltFileParses(p, ops);
    assert Table(Run(p, ops).value.data) == SectionHeaders(Meaning(p, ops));
  }

  /** A fresh builder's file is accepted on every platform: entry 0x200, ImageBase 0x04000000, one file
      alignment in size, not NX_COMPAT, no sections. */
  lemma FreshFileParses(p: Platform)
    ensures var d := Empty(p).data;
            |d| == 0x200 && Parse(p, d) == Success(Image(d, 0x200, 0x0400_0000, 0x200, false, []))
  {
    BuilderRoundTrip(p, []);
    FreshExpected(p, Empty(p).data);
  }

  lemma FreshExpected(p: Platform, d: seq<u8>)
    ensures Expected(p, Fresh(p), d, SectionHeaders(Fresh(p))) ==
            Success(Image(d, 0x200, 0x0400_0000, 0x200, false, []))
  {
    assert SectionHeaders(Fresh(p)) == [];
  }

  /** With a fifth section the round trip holds except for what the fifth header's unwritten fields
      pick up: bytes 0 to 4 and 12 to 16 of the first section's raw area. */
  lemma {:induction false} FiveSectionsParse(p: Platform, ops: seq<Op>)
    requires Run(p, ops).Some? && Run(p, ops).value.count == 5
    ensures var d, m := Run(p, ops).value.data, Meaning(p, ops);
            && InRange(m)
            && 0x210 <= |d|
            && var fifth := HeaderFor(4, m.sections[4]);
               Parse(p, d) ==
               Expected(p, m, d, SectionHeaders(m)[4 := fifth.(relocations := U32At(d, 0x200),
                                                               characteristics := U32At(d, 0x20C))])
  {
    BuiltFileParses(p, ops);
    var d, m := Run(p, ops).value.data, Meaning(p, ops);
    var fifth := HeaderFor(4, m.sections[4]);
    assert Table(d) == SectionHeaders(m)[4 := fifth.(relocations := U32At(d, 0x200), characteristics := U32At(d, 0x20C))];
  }

  /** Four is the limit: the fifth header's relocation pointer lies on the first section's raw area. A
      file the parser accepts is rejected once a fifth section is added, although no relocation
      pointer was ever set, unless that area starts with four zero bytes. */
  lemma {:induction false} FifthHeaderReadsContent(p: Platform, ops: seq<Op>, name: seq<u8>, content: seq<u8>)
    requires Run(p, ops).Some? && Run(p, ops).value.count == 4 && CanAdd(Run(p, ops).value, name, content)
    ensures var d, r := Run(p, ops).value.data, Step(Run(p, ops).value, AddSection(name, content)).data;
            && var first, pointer := Meaning(p, ops).sections[0].content, U32At(d, 0x200);
            && (4 <= |first| <= 0x200 ==> pointer == U32At(first, 0))
            && HasSectionTable(r) && SectionCount(r) == 5
            && Table(r)[4].relocations == pointer
            && (Parse(p, d).Success? ==>
                  && (pointer == 0 ==> Parse(p, r).Success?)
                  && (pointer != 0 ==> Parse(p, r) == Failure(SectionRelocations(4, pointer))))
  {
    var f, m := Run(p, ops).value, Meaning(p, ops);
    var more := ops + [AddSection(name, content)];
    assert more[..|more| - 1] == ops;
    BuiltFileParses(p, ops);
    BuiltFileParses(p, more);
    RunRepresents(p, ops);
    FirstContent(f.data, m);
    AddSectionAdds(f, name, content);
    var r := Run(p, more).value.data;
    RawStays(f.data, r, Section(name, content, 0));
    FifthDecides(p, f.data, r, m, Meaning(p, more), Table(f.data), Table(r));
  }

  lemma FirstContent(d: seq<u8>, m: Model)
    requires Contents(d, m) && |m.sections| == 4
    ensures var c := m.sections[0].content;
            4 <= |c| <= 0x200 ==> 0x204 <= |d| && U32At(d, 0x200) == U32At(c, 0)
  {
    var c := m.sections[0].content;
    if 4 <= |c| <= 0x200 {
      assert Sheltered(m, 0) && ContentAt(d, 0, c);
    }
  }

  lemma RawStays(d: seq<u8>, r: seq<u8>, s: Section)
    requires Added(d, r, 4, s)
    ensures 0x204 <= |d| <= |r| && U32At(r, 0x200) == U32At(d, 0x200)
  {
  }

  lemma FifthDecides(p: Platform, d: seq<u8>, r: seq<u8>, m: Model, m': Model, t: seq<SectionHeader>, t': seq<SectionHeader>)
    requires InRange(m) && InRange(m') && |t| == |m.sections| == 4 && |t'| == |m'.sections| == 5
    requires m' == m.(sections := m'.sections, imageSize := m'.imageSize) && m'.sections[..4] == m.sections
    requires forall j :: 0 <= j < 4 ==> t[j] == HeaderFor(j, m.sections[j]) && t'[j] == HeaderFor(j, m'.sections[j])
    ensures Expected(p, m, d, t).Success? ==>
              && (t'[4].relocations == 0 ==> Expected(p, m', r, t').Success?)
              && (t'[4].relocations != 0 ==>
                    Expected(p, m', r, t') == Failure(SectionRelocations(4, t'[4].relocations)))
  {
    SameRelocations(t, t', m, m');
    OneMoreRelocated(t, t');
  }

  lemma SameRelocations(t: seq<SectionHeader>, t': seq<SectionHeader>, m: Model, m': Model)
    requires InRange(m) && InRange(m') && |t| == |m.sections| == 4 && |t'| == |m'.sections| == 5
    requires m'.sections[..4] == m.sections
    requires forall j :: 0 <= j < 4 ==> t[j] == HeaderFor(j, m.sections[j]) && t'[j] == HeaderFor(j, m'.sections[j])
    ensures forall j :: 0 <= j < 4 ==> t'[j].relocations == t[j].relocations
  {
    forall j | 0 <= j < 4
      ensures t'[j].relocations == t[j].relocations
    {
      assert m'.sections[j] == m'.sections[..4][j];
    }
  }

  lemma OneMoreRelocated(t: seq<SectionHeader>, t': seq<SectionHeader>)
    requires |t'| == |t| + 1 && forall j :: 0 <= j < |t| ==> t'[j].relocations == t[j].relocations
    ensures FirstRelocated(t) == |t| ==> FirstRelocated(t') == if t'[|t|].relocations == 0 then |t'| else |t|
  {
    FirstRelocatedIsFirst(t');
  }
}
