/** Protection after mapping: the pages of the image, and what happens to their attributes. */
module ImagePages {
  import opened Wrappers
  import opened Bytes
  import opened Kernel
  import opened Mapping
  import opened Protection
  import opened WriteXorExecute

  /** Attributes after the protection step, which is skipped without NX_COMPAT or the protocol. */
  ghost function ProtectedState(kernel: Image, base: u64, granted: set<nat>, m: Machine): Machine {
    if kernel.nxCompat then
      ProtectAll(granted, m, Plans(base, kernel.baseAddress, kernel.sections), |kernel.sections|)
    else m
  }

  // ---------- Whole pages ----------

  lemma PageUpIsLeast(size: nat, k: nat)
    ensures size <= PageUp(size) < size + 0x1000 && PageUp(size) % 0x1000 == 0
    ensures size <= k && k % 0x1000 == 0 ==> PageUp(size) <= k
  {
  }

  lemma AlignedSum(x: nat, y: nat)
    requires x % 0x1000 == 0
    ensures (x + y) % 0x1000 == y % 0x1000
  {
  }

  lemma PageUpShift(x: nat, size: nat)
    requires x % 0x1000 == 0
    ensures PageUp(x + size) == x + PageUp(size)
  {
    assert x + size + 0xFFF == x / 0x1000 * 0x1000 + (size + 0xFFF);
  }

  lemma PageUpMonotone(x: nat, y: nat)
    requires x <= y
    ensures PageUp(x) <= PageUp(y)
  {
  }

  // ---------- Where protection acts ----------

  /** Where a section lies in the image. */
  function OffsetOf(kernel: Image, s: SectionHeader): nat
    requires Fits(kernel, s)
  {
    s.virtualAddress - kernel.baseAddress
  }

  /** For a mapped, non-empty code section, the saturating and checked arithmetic of the protection
      step arrives at the place the mapper put it, rounded up to the least number of whole pages; and
      a range the firmware accepts lies inside the allocation. */
  lemma PlanMatchesMapping(kernel: Image, base: u64, s: SectionHeader, k: nat)
    requires Fits(kernel, s) && IsCode(s) && s.virtualSize > 0
    requires base % 0x1000 == 0 && base + 0x1000 * PageCount(kernel.size) <= USIZE_LIMIT
    ensures var plan := Plan(base, kernel.baseAddress, s);
            && plan == Some(Range(base + OffsetOf(kernel, s), PageUp(s.virtualSize)))
            && (s.virtualSize <= k && k % 0x1000 == 0 ==> plan.value.length <= k)
            && (plan.value.start % 0x1000 == 0 <==> OffsetOf(kernel, s) % 0x1000 == 0)
            && (plan.value.start % 0x1000 == 0 ==>
                  base <= plan.value.start &&
                  plan.value.start + plan.value.length <= base + 0x1000 * PageCount(kernel.size))
  {
    PageUpIsLeast(s.virtualSize, k);
    AlignedSum(base, OffsetOf(kernel, s));
    if OffsetOf(kernel, s) % 0x1000 == 0 {
      PageUpShift(OffsetOf(kernel, s), s.virtualSize);
      PageUpMonotone(OffsetOf(kernel, s) + s.virtualSize, kernel.size);
    }
  }

  predicate PageOfImage(kernel: Image, base: u64, p: nat) {
    base <= 0x1000 * p < base + 0x1000 * PageCount(kernel.size)
  }

  /** Protection never reaches outside the allocation: whatever the firmware does, a page that is not
      the image's keeps its attributes. */
  lemma ProtectionStaysInside(kernel: Image, base: u64, granted: set<nat>, m: Machine, p: nat)
    requires GoodPrefix(kernel) == |kernel.sections|
    requires base % 0x1000 == 0 && base + 0x1000 * PageCount(kernel.size) <= USIZE_LIMIT
    requires p in m.attrs && !PageOfImage(kernel, base, p)
    ensures ProtectedState(kernel, base, granted, m).attrs[p] == m.attrs[p]
  {
    var plans := Plans(base, kernel.baseAddress, kernel.sections);
    forall j | 0 <= j < |plans|
      ensures !Touches(m.attrs.Keys, plans, j, p)
    {
      var s := kernel.sections[j];
      if IsCode(s) && s.virtualSize > 0 {
        PlanMatchesMapping(kernel, base, s, 0);
      }
    }
    UntouchedKept(granted, m, plans, |plans|, p);
  }

  /** A page the firmware acts on for section `i` comes from a page-aligned, non-empty section. */
  lemma TouchedPage(kernel: Image, base: u64, pages: set<nat>, i: nat, p: nat)
    requires i < |kernel.sections| && Fits(kernel, kernel.sections[i])
    requires base % 0x1000 == 0 && base + 0x1000 * PageCount(kernel.size) <= USIZE_LIMIT
    requires Touches(pages, Plans(base, kernel.baseAddress, kernel.sections), i, p)
    ensures var s := kernel.sections[i];
            && s.virtualSize > 0
            && OffsetOf(kernel, s) % 0x1000 == 0
            && base + OffsetOf(kernel, s) <= 0x1000 * p < base + OffsetOf(kernel, s) + PageUp(s.virtualSize)
            && PageOfImage(kernel, base, p)
  {
  }

  /** Page-aligned ranges that meet once rounded up to whole pages already met before. */
  lemma RoundingMeets(x: nat, y: nat, size: nat)
    requires x % 0x1000 == 0 && y % 0x1000 == 0
    requires y <= x < y + PageUp(size)
    ensures x < y + size
  {
    AlignedSum(y, x - y);
    PageUpIsLeast(size, x - y);
  }

  /** Two page-aligned sections with a page in common also have an offset in common. */
  lemma SharedPageSharedOffset(kernel: Image, a: SectionHeader, b: SectionHeader, x: nat) returns (o: nat)
    requires Fits(kernel, a) && Fits(kernel, b) && a.virtualSize > 0 && b.virtualSize > 0
    requires OffsetOf(kernel, a) % 0x1000 == 0 && OffsetOf(kernel, b) % 0x1000 == 0
    requires OffsetOf(kernel, a) <= x < OffsetOf(kernel, a) + PageUp(a.virtualSize)
    requires OffsetOf(kernel, b) <= x < OffsetOf(kernel, b) + PageUp(b.virtualSize)
    ensures Covers(kernel, a, o) && Covers(kernel, b, o)
  {
    var v, w := OffsetOf(kernel, a), OffsetOf(kernel, b);
    if v <= w {
      RoundingMeets(w, v, a.virtualSize);
      o := w;
    } else {
      RoundingMeets(v, w, b.virtualSize);
      o := v;
    }
  }

  lemma DisjointSectionsShareNoPage(kernel: Image, base: u64, pages: set<nat>, i: nat, j: nat, p: nat)
    requires GoodPrefix(kernel) == |kernel.sections| && Disjoint(kernel)
    requires base % 0x1000 == 0 && base + 0x1000 * PageCount(kernel.size) <= USIZE_LIMIT
    requires i < j < |kernel.sections|
    requires Touches(pages, Plans(base, kernel.baseAddress, kernel.sections), i, p)
    ensures !Touches(pages, Plans(base, kernel.baseAddress, kernel.sections), j, p)
  {
    if Touches(pages, Plans(base, kernel.baseAddress, kernel.sections), j, p) {
      TouchedPage(kernel, base, pages, i, p);
      TouchedPage(kernel, base, pages, j, p);
      var o := SharedPageSharedOffset(kernel, kernel.sections[i], kernel.sections[j], 0x1000 * p - base);
    }
  }

  /** The pages of the image that the firmware manages are not executable. */
  predicate NonExecutableImage(kernel: Image, base: u64, attrs: AttrMap) {
    forall p :: p in attrs && PageOfImage(kernel, base, p) ==> attrs[p].xp
  }

  /** Write-xor-execute for a mapped kernel: if its sections are disjoint and the pages it was given
      start non-executable, then for every pattern of firmware failures no page is both writable and
      executable after any single call. */
  lemma ImageNeverWritableAndExecutable(kernel: Image, base: u64, m: Machine)
    requires GoodPrefix(kernel) == |kernel.sections| && Disjoint(kernel)
    requires base % 0x1000 == 0 && base + 0x1000 * PageCount(kernel.size) <= USIZE_LIMIT
    requires Safe(m.attrs) && NonExecutableImage(kernel, base, m.attrs)
    ensures Sound(m.attrs, Plans(base, kernel.baseAddress, kernel.sections))
    ensures NeverWritableAndExecutable(m, Plans(base, kernel.baseAddress, kernel.sections))
  {
    var attrs, plans := m.attrs, Plans(base, kernel.baseAddress, kernel.sections);
    forall i, p | 0 <= i < |plans| && p in attrs && Touches(attrs.Keys, plans, i, p)
      ensures attrs[p].xp
    {
      TouchedPage(kernel, base, attrs.Keys, i, p);
    }
    forall i, j, p | 0 <= i < j < |plans| && p in attrs.Keys && Touches(attrs.Keys, plans, i, p)
      ensures !Touches(attrs.Keys, plans, j, p)
    {
      DisjointSectionsShareNoPage(kernel, base, attrs.Keys, i, j, p);
    }
    WriteXorExecuteExact(m, plans);
  }

  // ---------- Which pages become read-only and executable ----------

  /** Section `i` is code (0x20 or 0x20000000 is set), not empty, page-aligned, on managed pages only,
      and occupies part of page `p`. */
  ghost predicate OnCodePage(kernel: Image, base: u64, pages: set<nat>, i: nat, p: nat) {
    && i < |kernel.sections|
    && var s := kernel.sections[i];
       var first := base + s.virtualAddress - kernel.baseAddress;
    && (s.characteristics as bv32) & 0x2000_0020 != 0
    && first % 0x1000 == 0
    && first <= 0x1000 * p < first + s.virtualSize
    && forall q: nat :: first <= 0x1000 * q < first + s.virtualSize ==> q in pages
  }

  /** Without NX_COMPAT nothing happens; with it, if the firmware grants every call, the pages of code
      sections become read-only and executable and no other page changes. */
  ghost predicate PagesSealed(kernel: Image, base: u64, granted: set<nat>, before: Machine, after: Machine) {
    && (!kernel.nxCompat ==> after == before)
    && (kernel.nxCompat && (forall k :: |before.trace| <= k < |before.trace| + 3 * |kernel.sections| ==> k in granted) ==>
          && after.attrs.Keys == before.attrs.Keys
          && forall p :: p in before.attrs ==>
               after.attrs[p] == if exists i: nat :: OnCodePage(kernel, base, before.attrs.Keys, i, p) then Attr(true, false)
                                 else before.attrs[p])
  }

  lemma TouchesIsOnCodePage(kernel: Image, base: u64, pages: set<nat>, i: nat, p: nat)
    requires i < |kernel.sections| && Fits(kernel, kernel.sections[i])
    requires base % 0x1000 == 0 && base + 0x1000 * PageCount(kernel.size) <= USIZE_LIMIT
    ensures Touches(pages, Plans(base, kernel.baseAddress, kernel.sections), i, p) <==>
            OnCodePage(kernel, base, pages, i, p)
  {
    var s := kernel.sections[i];
    var first := base + s.virtualAddress - kernel.baseAddress;
    PlannedForCode(base, kernel.baseAddress, s);
    PageUpIsLeast(s.virtualSize, 0);
    if first % 0x1000 == 0 {
      forall q: nat
        ensures first <= 0x1000 * q < first + PageUp(s.virtualSize) <==> first <= 0x1000 * q < first + s.virtualSize
      {
        if first <= 0x1000 * q < first + PageUp(s.virtualSize) {
          RoundingMeets(0x1000 * q, first, s.virtualSize);
        }
      }
    }
  }

  lemma SealsPages(kernel: Image, base: u64, granted: set<nat>, m: Machine)
    requires GoodPrefix(kernel) == |kernel.sections|
    requires base % 0x1000 == 0 && base + 0x1000 * PageCount(kernel.size) <= USIZE_LIMIT
    ensures PagesSealed(kernel, base, granted, m, ProtectedState(kernel, base, granted, m))
  {
    var plans := Plans(base, kernel.baseAddress, kernel.sections);
    if kernel.nxCompat && GrantsAll(granted, |m.trace|, |kernel.sections|) {
      forall p | p in m.attrs
        ensures ProtectedState(kernel, base, granted, m).attrs[p] ==
                if exists i: nat :: OnCodePage(kernel, base, m.attrs.Keys, i, p) then Attr(true, false) else m.attrs[p]
      {
        GrantedRun(granted, m, plans, |plans|, p);
        forall i | 0 <= i < |plans|
          ensures Touches(m.attrs.Keys, plans, i, p) <==> OnCodePage(kernel, base, m.attrs.Keys, i, p)
        {
          TouchesIsOnCodePage(kernel, base, m.attrs.Keys, i, p);
        }
      }
    }
  }

  // ---------- Safety ----------

  /** What a run of the loader leaves of the firmware's safety: if the sections are disjoint and the
      firmware was safe and the image non-executable before, it is safe now and was at every step. */
  ghost predicate KeptSafe(kernel: Image, base: u64, before: Machine, after: Machine) {
    Disjoint(kernel) && Safe(before.attrs) && NonExecutableImage(kernel, base, before.attrs) ==>
      Safe(after.attrs) && SafeFrom(after, |before.trace|)
  }

  lemma ProtectionKeepsSafe(kernel: Image, base: u64, granted: set<nat>, m: Machine)
    requires GoodPrefix(kernel) == |kernel.sections|
    requires base % 0x1000 == 0 && base + 0x1000 * PageCount(kernel.size) <= USIZE_LIMIT
    ensures KeptSafe(kernel, base, m, ProtectedState(kernel, base, granted, m))
  {
    if Disjoint(kernel) && Safe(m.attrs) && NonExecutableImage(kernel, base, m.attrs) {
      ImageNeverWritableAndExecutable(kernel, base, m);
      SoundRunsAreSafe(granted, m, Plans(base, kernel.baseAddress, kernel.sections), |kernel.sections|);
    }
  }
}
