/** The entry point: which byte the jump lands on, on which page, and when it stays in the image. */
module Entry {
  import opened Wrappers
  import opened Bytes
  import opened Kernel
  import opened Mapping
  import opened Protection
  import opened WriteXorExecute
  import opened ImagePages

  /** The entry RVA lies in section `i`, on bytes that the file provides. */
  predicate EntryInRaw(kernel: Image, i: nat) {
    && i < |kernel.sections|
    && var s := kernel.sections[i];
       s.virtualAddress <= kernel.entryPoint < s.virtualAddress + CopySize(s)
  }

  /** The file offset that section `i`'s header designates for the entry. */
  function EntryOffset(kernel: Image, i: nat): nat
    requires EntryInRaw(kernel, i)
  {
    kernel.sections[i].rawPointer + (kernel.entryPoint - kernel.sections[i].virtualAddress)
  }

  /** And no later section covers that place. */
  predicate EntryIn(kernel: Image, i: nat) {
    && EntryInRaw(kernel, i)
    && forall j :: i < j < |kernel.sections| ==> !Covers(kernel, kernel.sections[j], kernel.entryPoint)
  }

  // ---------- The byte jumped to ----------

  /** The file offset that decides the mapped byte at offset `o`, unless it is a zero or untouched. */
  function FileOffsetAt(kernel: Image, o: nat): (r: Option<nat>)
    requires FitsPrefix(kernel, |kernel.sections|)
    ensures r.Some? ==> r.value < |kernel.data| && o < kernel.size
  {
    var j := LastCovering(kernel, |kernel.sections|, o);
    if j.None? then None
    else
      var s := kernel.sections[j.value];
      var k := o - OffsetOf(kernel, s);
      if k < CopySize(s) then Some(s.rawPointer + k) else None
  }

  /** The byte mapped at offset `o` when the file's content is `data`. */
  ghost function ByteThere(kernel: Image, data: seq<u8>, o: nat, initial: u8): u8
    requires FitsPrefix(kernel, |kernel.sections|) && |data| == |kernel.data|
  {
    SameFits(kernel, data);
    MappedByte(kernel.(data := data), |kernel.sections|, o, initial)
  }

  lemma SameFits(kernel: Image, data: seq<u8>)
    requires FitsPrefix(kernel, |kernel.sections|) && |data| == |kernel.data|
    ensures FitsPrefix(kernel.(data := data), |kernel.sections|)
  {
    assert forall s :: Fits(kernel.(data := data), s) <==> Fits(kernel, s);
  }

  lemma ByteThereIs(kernel: Image, data: seq<u8>, o: nat, initial: u8)
    requires FitsPrefix(kernel, |kernel.sections|) && |data| == |kernel.data|
    ensures ByteThere(kernel, data, o, initial) ==
            if FileOffsetAt(kernel, o).Some? then data[FileOffsetAt(kernel, o).value]
            else if LastCovering(kernel, |kernel.sections|, o).Some? then 0
            else initial
  {
    var k' := kernel.(data := data);
    SameFits(kernel, data);
    LastCoveringDecides(k', |k'.sections|, o, initial);
    SameCovering(kernel, k', |kernel.sections|, o);
  }

  lemma SameCovering(kernel: Image, k': Image, n: nat, o: nat)
    requires k' == kernel.(data := k'.data) && n <= |kernel.sections|
    ensures LastCovering(k', n, o) == LastCovering(kernel, n, o)
  {
  }

  /** Whatever the file contains, the jump lands on the byte its header designates for the entry. */
  ghost predicate LandsOnEntryByte(kernel: Image, i: nat, initial: seq<u8>)
    requires FitsPrefix(kernel, |kernel.sections|) && EntryInRaw(kernel, i)
  {
    && kernel.entryPoint < |initial|
    && EntryOffset(kernel, i) < |kernel.data|
    && forall data: seq<u8> | |data| == |kernel.data| ::
         ByteThere(kernel, data, kernel.entryPoint, initial[kernel.entryPoint]) == data[EntryOffset(kernel, i)]
  }

  /** It does so exactly when the section that decides the byte at image offset `entryPoint` takes it
      from that file offset. */
  lemma LandsExactly(kernel: Image, i: nat, initial: seq<u8>)
    requires FitsPrefix(kernel, |kernel.sections|) && EntryInRaw(kernel, i)
    requires |initial| == 0x1000 * PageCount(kernel.size)
    ensures LandsOnEntryByte(kernel, i, initial) <==>
            FileOffsetAt(kernel, kernel.entryPoint) == Some(EntryOffset(kernel, i))
  {
    var e, x := kernel.entryPoint, EntryOffset(kernel, i);
    assert Fits(kernel, kernel.sections[i]);
    if FileOffsetAt(kernel, e) == Some(x) {
      forall data: seq<u8> | |data| == |kernel.data|
        ensures ByteThere(kernel, data, e, initial[e]) == data[x]
      {
        ByteThereIs(kernel, data, e, initial[e]);
      }
    } else if e < |initial| {
      var y := FileOffsetAt(kernel, e);
      var other: u8 := if y.Some? then kernel.data[y.value]
                       else if LastCovering(kernel, |kernel.sections|, e).Some? then 0 else initial[e];
      var data := kernel.data[x := if other == 0 then 1 else 0];
      ByteThereIs(kernel, data, e, initial[e]);
      assert ByteThere(kernel, data, e, initial[e]) == other != data[x];
    }
  }

  /** No two sections are copied from the same byte of the file. */
  predicate RawDisjoint(kernel: Image) {
    forall i, j :: 0 <= i < j < |kernel.sections| ==>
      var a, b := kernel.sections[i], kernel.sections[j];
      a.rawPointer + CopySize(a) <= b.rawPointer || b.rawPointer + CopySize(b) <= a.rawPointer
        || CopySize(a) == 0 || CopySize(b) == 0
  }

  /** The mapper subtracts ImageBase from addresses and the jump does not. So for a mapped kernel whose
      sections have file ranges of their own, and whose entry byte is not covered where it was mapped,
      the jump lands on the entry byte if and only if ImageBase is 0. */
  lemma LandsIffBaseZero(kernel: Image, i: nat, initial: seq<u8>)
    requires FitsPrefix(kernel, |kernel.sections|) && EntryInRaw(kernel, i) && RawDisjoint(kernel)
    requires Fits(kernel, kernel.sections[i])
    requires forall j :: i < j < |kernel.sections| ==>
               !Covers(kernel, kernel.sections[j], kernel.entryPoint - kernel.baseAddress)
    requires |initial| == 0x1000 * PageCount(kernel.size)
    ensures LandsOnEntryByte(kernel, i, initial) <==> kernel.baseAddress == 0
  {
    LandsExactly(kernel, i, initial);
    var e, s := kernel.entryPoint, kernel.sections[i];
    var last := LastCovering(kernel, |kernel.sections|, e);
    if kernel.baseAddress == 0 {
      assert Covers(kernel, s, e);
      assert last == Some(i);
    }
  }

  // ---------- With ImageBase 0 ----------

  /** The byte at the address jumped to is the file byte that the entry's section header designates. */
  predicate EntryByteFrom(kernel: Image, i: nat, memory: seq<u8>)
    requires EntryInRaw(kernel, i)
  {
    && kernel.entryPoint < |memory|
    && EntryOffset(kernel, i) < |kernel.data|
    && memory[kernel.entryPoint] == kernel.data[EntryOffset(kernel, i)]
  }

  lemma EntryByteIsFileByte(kernel: Image, i: nat, initial: seq<u8>)
    requires kernel.baseAddress == 0 && GoodPrefix(kernel) == |kernel.sections| && EntryIn(kernel, i)
    requires |initial| == 0x1000 * PageCount(kernel.size)
    ensures EntryByteFrom(kernel, i, Mapped(kernel, |kernel.sections|, initial))
  {
    var s := kernel.sections[i];
    assert Fits(kernel, s);
    assert Covers(kernel, s, kernel.entryPoint);
    LastCoveringDecides(kernel, |kernel.sections|, kernel.entryPoint, initial[kernel.entryPoint]);
  }

  /** End to end, from the kernel's bytes: what is parsed, mapped and jumped to is a byte of the file,
      at the place the section header found in the file names. */
  lemma EntryByteOfFile(p: Platform, file: seq<u8>, i: nat, initial: seq<u8>)
    requires Parse(p, file).Success?
    requires var kernel := Parse(p, file).value;
             && kernel.baseAddress == 0 && GoodPrefix(kernel) == |kernel.sections| && EntryIn(kernel, i)
             && |initial| == 0x1000 * PageCount(kernel.size)
    ensures Acceptable(p, file) && Parse(p, file).value.sections == Table(file)
    ensures var kernel := Parse(p, file).value;
            var s, memory := Table(file)[i], Mapped(kernel, |kernel.sections|, initial);
            && kernel.entryPoint == U32At(file, NtOffset(file) + 40) < |memory|
            && s.rawPointer + (kernel.entryPoint - s.virtualAddress) < |file|
            && memory[kernel.entryPoint] == file[s.rawPointer + (kernel.entryPoint - s.virtualAddress)]
  {
    ParseExact(p, file);
    EntryByteIsFileByte(Parse(p, file).value, i, initial);
  }

  /** The entry lies in section `i`, which is page-aligned code. */
  predicate CodeEntry(kernel: Image, i: nat) {
    EntryIn(kernel, i) && IsCode(kernel.sections[i]) && kernel.sections[i].virtualAddress % 0x1000 == 0
  }

  /** If the image's pages are managed and the firmware grants every call, the byte jumped to lies on
      a read-only executable page. */
  lemma EntryPageIsReadOnlyExecutable(kernel: Image, base: u64, i: nat, granted: set<nat>, m: Machine)
    requires kernel.nxCompat && kernel.baseAddress == 0 && GoodPrefix(kernel) == |kernel.sections| && CodeEntry(kernel, i)
    requires base % 0x1000 == 0 && base + 0x1000 * PageCount(kernel.size) <= USIZE_LIMIT
    requires forall p: nat :: PageOfImage(kernel, base, p) ==> p in m.attrs
    requires GrantsAll(granted, |m.trace|, |kernel.sections|)
    ensures base + kernel.entryPoint < USIZE_LIMIT
    ensures var page := (base + kernel.entryPoint) / 0x1000;
            page in m.attrs && ProtectedState(kernel, base, granted, m).attrs[page] == Attr(true, false)
  {
    var s, page := kernel.sections[i], (base + kernel.entryPoint) / 0x1000;
    var plans := Plans(base, kernel.baseAddress, kernel.sections);
    assert Fits(kernel, s);
    PlanMatchesMapping(kernel, base, s, 0);
    PageUpIsLeast(s.virtualSize, 0);
    assert plans[i] == Some(Range(base + s.virtualAddress, PageUp(s.virtualSize)));
    assert plans[i].value.Has(page);
    assert forall q: nat :: plans[i].value.Has(q) ==> PageOfImage(kernel, base, q);
    assert Touches(m.attrs.Keys, plans, i, page);
    GrantedRun(granted, m, plans, |plans|, page);
    assert TouchedByAny(m.attrs.Keys, plans, |plans|, page);
  }

  // ---------- What a started kernel finds ----------

  /** Where the jump goes: inside the allocated pages, and inside the image, exactly when the entry RVA
      is below the respective size; and with ImageBase 0 on the designated file byte. */
  ghost predicate JumpsTo(kernel: Image, base: u64, address: nat, memory: seq<u8>) {
    && (base <= address < base + |memory| <==> kernel.entryPoint < 0x1000 * PageCount(kernel.size))
    && (base <= address < base + kernel.size <==> kernel.entryPoint < kernel.size)
    && (kernel.baseAddress == 0 ==> forall i: nat :: EntryIn(kernel, i) ==> EntryByteFrom(kernel, i, memory))
  }

  /** And on which page: for page-aligned code, with all calls granted, a read-only executable one. */
  ghost predicate EntrySealed(kernel: Image, base: u64, granted: set<nat>, before: Machine, after: Machine) {
    && kernel.nxCompat && kernel.baseAddress == 0
    && (exists i: nat :: CodeEntry(kernel, i))
    && (forall p: nat :: PageOfImage(kernel, base, p) ==> p in before.attrs)
    && GrantsAll(granted, |before.trace|, |kernel.sections|) ==>
         var page := (base + kernel.entryPoint) / 0x1000;
         page in after.attrs && after.attrs[page] == Attr(true, false)
  }

  lemma MappedKernelJumps(kernel: Image, base: u64, initial: seq<u8>)
    requires GoodPrefix(kernel) == |kernel.sections| && |initial| == 0x1000 * PageCount(kernel.size)
    ensures JumpsTo(kernel, base, base + kernel.entryPoint, Mapped(kernel, |kernel.sections|, initial))
  {
    if kernel.baseAddress == 0 {
      forall i: nat | EntryIn(kernel, i)
        ensures EntryByteFrom(kernel, i, Mapped(kernel, |kernel.sections|, initial))
      {
        EntryByteIsFileByte(kernel, i, initial);
      }
    }
  }

  lemma ProtectedKernelSealed(kernel: Image, base: u64, granted: set<nat>, m: Machine)
    requires GoodPrefix(kernel) == |kernel.sections|
    requires base % 0x1000 == 0 && base + 0x1000 * PageCount(kernel.size) <= USIZE_LIMIT
    ensures EntrySealed(kernel, base, granted, m, ProtectedState(kernel, base, granted, m))
  {
    if && kernel.nxCompat && kernel.baseAddress == 0
       && (exists i: nat :: CodeEntry(kernel, i))
       && (forall p: nat :: PageOfImage(kernel, base, p) ==> p in m.attrs)
       && GrantsAll(granted, |m.trace|, |kernel.sections|) {
      var i: nat :| CodeEntry(kernel, i);
      EntryPageIsReadOnlyExecutable(kernel, base, i, granted, m);
    }
  }
}
