/** Mapping the sections of a parsed kernel into the pages allocated for it. */
module Mapping {
  import opened Wrappers
  import opened Bytes
  import opened Kernel

  datatype MapError =
    | AllocationFailed
    | BelowImageBase(index: nat)
    | OutsideImage(index: nat)
    | RawOutOfBounds(index: nat)

  /** What the page allocator answers: nothing, or the address and the memory of fresh pages, whose
      contents are whatever was there before. */
  datatype Allocation = Refused | Granted(base: u64, memory: array<u8>)

  function PageCount(size: u32): nat {
    (size + 0xFFF) / 0x1000
  }

  /** The allocator's contract: page-aligned, of the size asked for, inside the address space. */
  ghost predicate Allocated(kernel: Image, a: Allocation) {
    a.Granted? ==>
      && a.base % 0x1000 == 0
      && a.memory.Length == 0x1000 * PageCount(kernel.size)
      && a.base + a.memory.Length <= USIZE_LIMIT
  }

  /** The pages asked for are the fewest that hold the image. */
  lemma PagesHoldImage(size: u32)
    ensures size <= 0x1000 * PageCount(size) < size + 0x1000
  {
  }

  // ---------- The pointwise specification ----------

  function CopySize(s: SectionHeader): nat {
    Min(s.rawSize, s.virtualSize)
  }

  /** The section lies inside the image, and the part to be copied, if any, inside the file. */
  predicate Fits(kernel: Image, s: SectionHeader) {
    && kernel.baseAddress <= s.virtualAddress
    && s.virtualAddress - kernel.baseAddress + s.virtualSize <= kernel.size
    && (CopySize(s) == 0 || s.rawPointer + CopySize(s) <= |kernel.data|)
  }

  predicate FitsPrefix(kernel: Image, n: nat) {
    n <= |kernel.sections| && forall i :: 0 <= i < n ==> Fits(kernel, kernel.sections[i])
  }

  /** The number of leading sections that fit. */
  function GoodPrefix(kernel: Image): (n: nat)
    ensures FitsPrefix(kernel, n)
    ensures n < |kernel.sections| ==> !Fits(kernel, kernel.sections[n])
  {
    GoodPrefixFrom(kernel, 0)
  }

  function GoodPrefixFrom(kernel: Image, from: nat): (n: nat)
    requires FitsPrefix(kernel, from)
    ensures FitsPrefix(kernel, n)
    ensures n < |kernel.sections| ==> !Fits(kernel, kernel.sections[n])
    decreases |kernel.sections| - from
  {
    if from < |kernel.sections| && Fits(kernel, kernel.sections[from]) then GoodPrefixFrom(kernel, from + 1)
    else from
  }

  /** Why a section that does not fit is refused. */
  function Fault(kernel: Image, i: nat): MapError
    requires i < |kernel.sections| && !Fits(kernel, kernel.sections[i])
  {
    var s := kernel.sections[i];
    if s.virtualAddress < kernel.baseAddress then BelowImageBase(i)
    else if s.virtualAddress - kernel.baseAddress + s.virtualSize > kernel.size then OutsideImage(i)
    else RawOutOfBounds(i)
  }

  /** Whether the section occupies offset `o` of the image. */
  predicate Covers(kernel: Image, s: SectionHeader, o: nat) {
    kernel.baseAddress <= s.virtualAddress &&
    s.virtualAddress - kernel.baseAddress <= o < s.virtualAddress - kernel.baseAddress + s.virtualSize
  }

  /** The byte a section wants at offset `o`: its raw file byte, or zero past its raw data. */
  function SectionByte(kernel: Image, s: SectionHeader, o: nat): u8
    requires Fits(kernel, s) && Covers(kernel, s, o)
  {
    var k := o - (s.virtualAddress - kernel.baseAddress);
    if k < CopySize(s) then kernel.data[s.rawPointer + k] else 0
  }

  /** Byte `o` after the first `n` sections: the last of them that covers `o` decides. */
  function MappedByte(kernel: Image, n: nat, o: nat, initial: u8): u8
    requires FitsPrefix(kernel, n)
  {
    if n == 0 then initial
    else if Covers(kernel, kernel.sections[n - 1], o) then SectionByte(kernel, kernel.sections[n - 1], o)
    else MappedByte(kernel, n - 1, o, initial)
  }

  function Mapped(kernel: Image, n: nat, initial: seq<u8>): seq<u8>
    requires FitsPrefix(kernel, n)
  {
    seq(|initial|, o requires 0 <= o < |initial| => MappedByte(kernel, n, o, initial[o]))
  }

  // ---------- The mapper ----------

  method CopySectionData(kernel: Image, i: nat, memory: array<u8>, rawOffset: nat, destOffset: nat, copySize: nat)
    returns (r: Option<MapError>)
    requires i < |kernel.sections| && rawOffset < U32_LIMIT && copySize < U32_LIMIT
    requires destOffset + copySize <= memory.Length
    modifies memory
    ensures r == if copySize == 0 || rawOffset + copySize <= |kernel.data| then None else Some(RawOutOfBounds(i))
    ensures r.Some? ==> memory[..] == old(memory[..])
    ensures r.None? && copySize > 0 ==> memory[..] == Overwrite(old(memory[..]), destOffset, kernel.data[rawOffset..rawOffset + copySize])
    ensures r.None? && copySize == 0 ==> memory[..] == old(memory[..])
  {
    if copySize == 0 {
      return None;
    }
    var rawEnd := rawOffset + copySize;
    if rawEnd >= USIZE_LIMIT {
      assert false;  // the overflow error: never taken for 32-bit header fields
    }
    if rawEnd > |kernel.data| {
      return Some(RawOutOfBounds(i));
    }
    var source := kernel.data[rawOffset..rawEnd];
    forall k | 0 <= k < copySize {
      memory[destOffset + k] := source[k];
    }
    return None;
  }

  method ZeroSectionTail(memory: array<u8>, destOffset: nat, virtSize: nat, copySize: nat)
    requires destOffset + virtSize <= memory.Length && destOffset + virtSize < USIZE_LIMIT
    modifies memory
    ensures copySize >= virtSize ==> memory[..] == old(memory[..])
    ensures copySize < virtSize ==>
              memory[..] == Overwrite(old(memory[..]), destOffset + copySize, Zeros(virtSize - copySize))
  {
    if virtSize <= copySize {
      return;
    }
    var zeroOffset := destOffset + copySize;
    if zeroOffset >= USIZE_LIMIT || virtSize < copySize {
      assert false;  // neither the overflow nor the underflow error can arise here
    }
    var zeroLen := virtSize - copySize;
    forall k | 0 <= k < zeroLen {
      memory[zeroOffset + k] := 0;
    }
  }

  method MapSections(kernel: Image, allocation: Allocation) returns (r: Result<u64, MapError>)
    requires Allocated(kernel, allocation)
    modifies if allocation.Granted? then {allocation.memory} else {}
    ensures allocation.Refused? ==> r == Failure(AllocationFailed)
    ensures allocation.Granted? ==>
              && allocation.memory[..] == Mapped(kernel, GoodPrefix(kernel), old(allocation.memory[..]))
              && r == if GoodPrefix(kernel) == |kernel.sections| then Success(allocation.base)
                      else Failure(Fault(kernel, GoodPrefix(kernel)))
  {
    var imageSize := kernel.size;
    if allocation.Refused? {
      return Failure(AllocationFailed);
    }
    var memory := allocation.memory;
    ghost var initial := memory[..];
    assert memory[..] == Mapped(kernel, 0, initial);

    for i := 0 to |kernel.sections|
      invariant FitsPrefix(kernel, i)
      invariant memory[..] == Mapped(kernel, i, initial)
    {
      var section := kernel.sections[i];
      if section.virtualAddress < kernel.baseAddress {
        PrefixEnds(kernel, i);
        return Failure(BelowImageBase(i));
      }
      var destOffset := section.virtualAddress - kernel.baseAddress;
      var destEnd := destOffset + section.virtualSize;
      if destEnd >= USIZE_LIMIT {
        assert false;  // the overflow error: never taken for 32-bit header fields
      }
      if destEnd > imageSize {
        PrefixEnds(kernel, i);
        return Failure(OutsideImage(i));
      }

      var copySize := Min(section.rawSize, section.virtualSize);
      ghost var before := memory[..];
      var copied := CopySectionData(kernel, i, memory, section.rawPointer, destOffset, copySize);
      if copied.Some? {
        PrefixEnds(kernel, i);
        return Failure(copied.value);
      }
      ZeroSectionTail(memory, destOffset, section.virtualSize, copySize);
      SectionMapped(kernel, i, initial, before, memory[..]);
    }

    PrefixEnds(kernel, |kernel.sections|);
    return Success(allocation.base);
  }

  lemma PrefixEnds(kernel: Image, n: nat)
    requires FitsPrefix(kernel, n)
    requires n < |kernel.sections| ==> !Fits(kernel, kernel.sections[n])
    ensures GoodPrefix(kernel) == n
  {
  }

  /** Copying the raw part and zeroing the rest is what the specification asks of one section. */
  lemma SectionMapped(kernel: Image, i: nat, initial: seq<u8>, before: seq<u8>, after: seq<u8>)
    requires i < |kernel.sections| && FitsPrefix(kernel, i + 1)
    requires before == Mapped(kernel, i, initial)
    requires var s := kernel.sections[i];
             var dest, copy := s.virtualAddress - kernel.baseAddress, CopySize(s);
             && dest + s.virtualSize <= |initial|
             && |after| == |initial|
             && forall o :: 0 <= o < |after| ==>
                  after[o] == if dest <= o < dest + copy then kernel.data[s.rawPointer + (o - dest)]
                              else if dest + copy <= o < dest + s.virtualSize then 0
                              else before[o]
    ensures after == Mapped(kernel, i + 1, initial)
  {
  }

  // ---------- What mapping promises ----------

  /** The highest-numbered of the first `n` sections that covers offset `o`, if any does. */
  function LastCovering(kernel: Image, n: nat, o: nat): (r: Option<nat>)
    requires n <= |kernel.sections|
    ensures r.Some? ==>
              && r.value < n
              && Covers(kernel, kernel.sections[r.value], o)
              && forall k :: r.value < k < n ==> !Covers(kernel, kernel.sections[k], o)
    ensures r.None? ==> forall k :: 0 <= k < n ==> !Covers(kernel, kernel.sections[k], o)
  {
    if n == 0 then None
    else if Covers(kernel, kernel.sections[n - 1], o) then Some(n - 1)
    else LastCovering(kernel, n - 1, o)
  }

  /** The highest-numbered section covering an offset decides its byte, and an offset no section
      covers keeps what it held. */
  lemma {:induction false} LastCoveringDecides(kernel: Image, n: nat, o: nat, initial: u8)
    requires FitsPrefix(kernel, n)
    ensures MappedByte(kernel, n, o, initial) ==
            match LastCovering(kernel, n, o)
            case Some(j) => SectionByte(kernel, kernel.sections[j], o)
            case None => initial
  {
    if n > 0 && !Covers(kernel, kernel.sections[n - 1], o) {
      LastCoveringDecides(kernel, n - 1, o, initial);
    }
  }

  /** Given its pages, mapping succeeds exactly when every section fits. */
  lemma SucceedsIffAllFit(kernel: Image)
    ensures GoodPrefix(kernel) == |kernel.sections| <==> forall s :: s in kernel.sections ==> Fits(kernel, s)
  {
  }

  // ---------- The same in the numbers of the headers ----------

  /** Mapping succeeds exactly when every section starts at or above ImageBase, ends inside the image,
      and has its file bytes, or as many of them as its size in memory asks for, inside the file. */
  lemma SucceedsInNumbers(kernel: Image)
    ensures GoodPrefix(kernel) == |kernel.sections| <==>
            forall s :: s in kernel.sections ==>
              && kernel.baseAddress <= s.virtualAddress
              && s.virtualAddress - kernel.baseAddress + s.virtualSize <= kernel.size
              && (s.rawSize == 0 || s.virtualSize == 0
                  || s.rawPointer + s.rawSize <= |kernel.data| || s.rawPointer + s.virtualSize <= |kernel.data|)
  {
    SucceedsIffAllFit(kernel);
  }

  /** Otherwise the first section that fails one of these conditions is refused, for the first of them
      that it fails. */
  lemma FaultInNumbers(kernel: Image, i: nat)
    requires i < |kernel.sections|
    ensures GoodPrefix(kernel) >= i <==>
            forall j | 0 <= j < i ::
              var s := kernel.sections[j];
              && kernel.baseAddress <= s.virtualAddress
              && s.virtualAddress - kernel.baseAddress + s.virtualSize <= kernel.size
              && (s.rawSize == 0 || s.virtualSize == 0
                  || s.rawPointer + s.rawSize <= |kernel.data| || s.rawPointer + s.virtualSize <= |kernel.data|)
    ensures GoodPrefix(kernel) == i ==>
              var s, fault := kernel.sections[i], Fault(kernel, i);
              if s.virtualAddress < kernel.baseAddress then fault == BelowImageBase(i)
              else if s.virtualAddress - kernel.baseAddress + s.virtualSize > kernel.size then fault == OutsideImage(i)
              else
                && fault == RawOutOfBounds(i)
                && s.rawSize > 0 && s.virtualSize > 0
                && s.rawPointer + s.rawSize > |kernel.data| && s.rawPointer + s.virtualSize > |kernel.data|
  {
    if GoodPrefix(kernel) < i {
      assert !Fits(kernel, kernel.sections[GoodPrefix(kernel)]);
    }
  }

  /** Byte `k` of section `j`, where no later section lies: the file's byte while `k` is below the raw
      size, and zero from there up to the virtual size. */
  lemma MappedInNumbers(kernel: Image, j: nat, k: nat, initial: seq<u8>)
    requires GoodPrefix(kernel) == |kernel.sections| && j < |kernel.sections| && k < kernel.sections[j].virtualSize
    requires var o := kernel.sections[j].virtualAddress - kernel.baseAddress + k;
             forall i | j < i < |kernel.sections| ::
               var at := kernel.sections[i].virtualAddress - kernel.baseAddress;
               !(at <= o < at + kernel.sections[i].virtualSize)
    requires |initial| >= kernel.size
    ensures var s, memory := kernel.sections[j], Mapped(kernel, |kernel.sections|, initial);
            var o := s.virtualAddress - kernel.baseAddress + k;
            && 0 <= o < |memory|
            && (k < s.rawSize ==> s.rawPointer + k < |kernel.data| && memory[o] == kernel.data[s.rawPointer + k])
            && (s.rawSize <= k ==> memory[o] == 0)
  {
    var s := kernel.sections[j];
    assert Fits(kernel, s);
    var o := s.virtualAddress - kernel.baseAddress + k;
    assert Covers(kernel, s, o);
    forall i | j < i < |kernel.sections|
      ensures !Covers(kernel, kernel.sections[i], o)
    {
    }
    assert LastCovering(kernel, |kernel.sections|, o) == Some(j);
    LastCoveringDecides(kernel, |kernel.sections|, o, initial[o]);
  }

  /** A byte where no section lies keeps what the pages held. */
  lemma UnmappedInNumbers(kernel: Image, o: nat, initial: seq<u8>)
    requires GoodPrefix(kernel) == |kernel.sections| && o < |initial|
    requires forall s | s in kernel.sections ::
               var at := s.virtualAddress - kernel.baseAddress; !(at <= o < at + s.virtualSize)
    ensures Mapped(kernel, |kernel.sections|, initial)[o] == initial[o]
  {
    LastCoveringDecides(kernel, |kernel.sections|, o, initial[o]);
  }

  // ---------- Section order ----------

  /** Rearranging the section table never changes whether mapping succeeds. */
  lemma RearrangedFits(kernel: Image, shuffled: seq<SectionHeader>)
    requires multiset(shuffled) == multiset(kernel.sections)
    ensures |shuffled| == |kernel.sections|
    ensures forall s :: s in shuffled <==> s in kernel.sections
    ensures GoodPrefix(kernel.(sections := shuffled)) == |shuffled| <==> GoodPrefix(kernel) == |kernel.sections|
    ensures FitsPrefix(kernel, |kernel.sections|) ==> FitsPrefix(kernel.(sections := shuffled), |shuffled|)
  {
    var k' := kernel.(sections := shuffled);
    assert |shuffled| == |multiset(shuffled)| == |kernel.sections|;
    assert forall s :: s in shuffled <==> s in multiset(shuffled);
    assert forall s :: s in kernel.sections <==> s in multiset(kernel.sections);
    assert forall s :: Fits(k', s) <==> Fits(kernel, s);
    SucceedsIffAllFit(kernel);
    SucceedsIffAllFit(k');
  }

  /** Sections that share an offset below `size` want the same byte there. */
  ghost predicate Agreeing(kernel: Image, size: nat)
    requires FitsPrefix(kernel, |kernel.sections|)
  {
    forall s, t, o: nat | s in kernel.sections && t in kernel.sections && o < size
        && Covers(kernel, s, o) && Covers(kernel, t, o) ::
      SectionByte(kernel, s, o) == SectionByte(kernel, t, o)
  }

  /** Every rearrangement of the section table leaves the same memory. */
  ghost predicate OrderIrrelevant(kernel: Image, initial: seq<u8>)
    requires FitsPrefix(kernel, |kernel.sections|)
  {
    forall shuffled: seq<SectionHeader> | multiset(shuffled) == multiset(kernel.sections) ::
      MappedAs(kernel, shuffled, initial) == Mapped(kernel, |kernel.sections|, initial)
  }

  /** The memory left by a rearranged section table. */
  ghost function MappedAs(kernel: Image, shuffled: seq<SectionHeader>, initial: seq<u8>): seq<u8>
    requires FitsPrefix(kernel, |kernel.sections|) && multiset(shuffled) == multiset(kernel.sections)
  {
    RearrangedFits(kernel, shuffled);
    Mapped(kernel.(sections := shuffled), |shuffled|, initial)
  }

  /** Exactly when the order of the section table does not matter: when sections that overlap agree
      on the bytes they share. */
  lemma OrderIrrelevantIffAgreeing(kernel: Image, initial: seq<u8>)
    requires FitsPrefix(kernel, |kernel.sections|)
    ensures OrderIrrelevant(kernel, initial) <==> Agreeing(kernel, |initial|)
  {
    if Agreeing(kernel, |initial|) {
      forall shuffled: seq<SectionHeader> | multiset(shuffled) == multiset(kernel.sections)
        ensures MappedAs(kernel, shuffled, initial) == Mapped(kernel, |kernel.sections|, initial)
      {
        RearrangedFits(kernel, shuffled);
        forall o | 0 <= o < |initial|
          ensures MappedAs(kernel, shuffled, initial)[o] == Mapped(kernel, |kernel.sections|, initial)[o]
        {
          SameByte(kernel, kernel.(sections := shuffled), |initial|, o, initial[o]);
        }
      }
    }
    if OrderIrrelevant(kernel, initial) {
      forall s, t, o: nat | s in kernel.sections && t in kernel.sections && o < |initial|
          && Covers(kernel, s, o) && Covers(kernel, t, o)
        ensures SectionByte(kernel, s, o) == SectionByte(kernel, t, o)
      {
        LastOneDecides(kernel, s, initial, o);
        LastOneDecides(kernel, t, initial, o);
      }
    }
  }

  lemma SameByte(kernel: Image, k': Image, size: nat, o: nat, initial: u8)
    requires k' == kernel.(sections := k'.sections)
    requires forall s :: s in k'.sections <==> s in kernel.sections
    requires FitsPrefix(kernel, |kernel.sections|) && FitsPrefix(k', |k'.sections|)
    requires Agreeing(kernel, size) && o < size
    ensures MappedByte(k', |k'.sections|, o, initial) == MappedByte(kernel, |kernel.sections|, o, initial)
  {
    LastCoveringDecides(kernel, |kernel.sections|, o, initial);
    LastCoveringDecides(k', |k'.sections|, o, initial);
    CoveredToo(kernel, k', o);
    CoveredToo(k', kernel, o);
    var r, r' := LastCovering(kernel, |kernel.sections|, o), LastCovering(k', |k'.sections|, o);
    if r.Some? {
      WantSame(kernel, k', size, o, kernel.sections[r.value], k'.sections[r'.value]);
    }
  }

  lemma WantSame(kernel: Image, k': Image, size: nat, o: nat, s: SectionHeader, t: SectionHeader)
    requires k' == kernel.(sections := k'.sections)
    requires FitsPrefix(kernel, |kernel.sections|) && Agreeing(kernel, size) && o < size
    requires s in kernel.sections && t in kernel.sections && Fits(k', t) && Covers(kernel, s, o) && Covers(k', t, o)
    ensures SectionByte(k', t, o) == SectionByte(kernel, s, o)
  {
    assert Fits(kernel, t) && Covers(kernel, t, o) && SectionByte(k', t, o) == SectionByte(kernel, t, o);
  }

  lemma CoveredToo(kernel: Image, k': Image, o: nat)
    requires k' == kernel.(sections := k'.sections)
    requires forall s :: s in kernel.sections ==> s in k'.sections
    ensures LastCovering(kernel, |kernel.sections|, o).Some? ==> LastCovering(k', |k'.sections|, o).Some?
  {
    var r := LastCovering(kernel, |kernel.sections|, o);
    if r.Some? {
      var s := kernel.sections[r.value];
      assert s in k'.sections;
      var i :| 0 <= i < |k'.sections| && k'.sections[i] == s;
      assert Covers(k', k'.sections[i], o);
    }
  }

  /** If the order is irrelevant, every section covering an offset decides it: put it last. */
  lemma LastOneDecides(kernel: Image, s: SectionHeader, initial: seq<u8>, o: nat)
    requires FitsPrefix(kernel, |kernel.sections|) && OrderIrrelevant(kernel, initial)
    requires s in kernel.sections && o < |initial| && Covers(kernel, s, o)
    ensures Mapped(kernel, |kernel.sections|, initial)[o] == SectionByte(kernel, s, o)
  {
    var shuffled := MovedLast(kernel.sections, s);
    var k' := kernel.(sections := shuffled);
    RearrangedFits(kernel, shuffled);
    assert MappedAs(kernel, shuffled, initial) == Mapped(kernel, |kernel.sections|, initial);
    assert MappedByte(k', |shuffled|, o, initial[o]) == SectionByte(k', s, o);
  }

  function MovedLast(sections: seq<SectionHeader>, s: SectionHeader): (r: seq<SectionHeader>)
    requires s in sections
    ensures multiset(r) == multiset(sections)
    ensures r != [] && r[|r| - 1] == s
  {
    if sections[0] == s then
      assert sections == [s] + sections[1..];
      sections[1..] + [s]
    else
      assert sections == [sections[0]] + sections[1..];
      [sections[0]] + MovedLast(sections[1..], s)
  }

  /** Sections are disjoint when no offset is covered twice. */
  ghost predicate Disjoint(kernel: Image) {
    forall i, j, o: nat | 0 <= i < j < |kernel.sections| && Covers(kernel, kernel.sections[i], o) ::
      !Covers(kernel, kernel.sections[j], o)
  }

  /** In particular, for disjoint sections any rearrangement of the section table succeeds or fails
      alike, and on success leaves the same memory. */
  lemma OrderDoesNotMatter(kernel: Image, shuffled: seq<SectionHeader>, initial: seq<u8>)
    requires Disjoint(kernel) && multiset(shuffled) == multiset(kernel.sections)
    ensures var k', n := kernel.(sections := shuffled), |kernel.sections|;
            && |shuffled| == n
            && (GoodPrefix(k') == n <==> GoodPrefix(kernel) == n)
            && (GoodPrefix(kernel) == n ==> Mapped(k', n, initial) == Mapped(kernel, n, initial))
  {
    RearrangedFits(kernel, shuffled);
    if GoodPrefix(kernel) == |kernel.sections| {
      forall s, t, o: nat | s in kernel.sections && t in kernel.sections && o < |initial|
          && Covers(kernel, s, o) && Covers(kernel, t, o)
        ensures SectionByte(kernel, s, o) == SectionByte(kernel, t, o)
      {
        var i :| 0 <= i < |kernel.sections| && kernel.sections[i] == s;
        var j :| 0 <= j < |kernel.sections| && kernel.sections[j] == t;
        assert i == j;
      }
      OrderIrrelevantIffAgreeing(kernel, initial);
      assert MappedAs(kernel, shuffled, initial) == Mapped(kernel, |kernel.sections|, initial);
    }
  }
}
