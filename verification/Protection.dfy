/** Making the code sections read-only and executable through EFI_MEMORY_ATTRIBUTE_PROTOCOL. */
module Protection {
  import opened Wrappers
  import opened Bytes
  import opened Kernel

  // ---------- The firmware ----------

  /** The two attribute bits in play, for one page: write-protected and execute-protected. */
  datatype Attr = Attr(ro: bool, xp: bool)

  /** Attributes of every page the firmware manages, by page number. */
  type AttrMap = map<nat, Attr>

  datatype Range = Range(start: nat, length: nat) {
    predicate Has(page: nat) {
      start <= 0x1000 * page < start + length
    }
  }

  datatype Call = SetRO(range: Range) | ClearXP(range: Range) | ClearRO(range: Range) {
    function Change(a: Attr): Attr {
      match this
      case SetRO(_) => a.(ro := true)
      case ClearXP(_) => a.(xp := false)
      case ClearRO(_) => a.(ro := false)
    }
  }

  /** A range the firmware can act on: not empty, page-aligned at both ends, all pages managed. */
  ghost predicate Actionable(pages: set<nat>, r: Range) {
    && r.length > 0
    && r.start % 0x1000 == 0
    && r.length % 0x1000 == 0
    && forall p: nat :: r.Has(p) ==> p in pages
  }

  /** The attributes now, and after each call so far. */
  datatype Machine = Machine(attrs: AttrMap, trace: seq<AttrMap>)

  function Effect(call: Call, attrs: AttrMap): (r: AttrMap)
    ensures r.Keys == attrs.Keys
  {
    map p | p in attrs :: if call.range.Has(p) then call.Change(attrs[p]) else attrs[p]
  }

  /** Call number `|trace|` succeeds if its range is acceptable and the firmware grants that call;
      a call that fails changes nothing. */
  ghost predicate Succeeds(granted: set<nat>, m: Machine, call: Call) {
    Actionable(m.attrs.Keys, call.range) && |m.trace| in granted
  }

  ghost function Invoke(granted: set<nat>, m: Machine, call: Call): (r: Machine)
    ensures |r.trace| == |m.trace| + 1 && m.trace <= r.trace
    ensures r.attrs.Keys == m.attrs.Keys
    ensures r.trace[|m.trace|] == r.attrs
  {
    var attrs := if Succeeds(granted, m, call) then Effect(call, m.attrs) else m.attrs;
    Machine(attrs, m.trace + [attrs])
  }

  // ---------- What the loader asks of it ----------

  /** IMAGE_SCN_CNT_CODE or IMAGE_SCN_MEM_EXECUTE is set. */
  predicate IsCode(s: SectionHeader) {
    HasBit(s.characteristics, 0x20) || HasBit(s.characteristics, 0x2000_0000)
  }

  /** Adding 0xFFF and clearing the low twelve bits. */
  function PageUp(size: nat): nat {
    (size + 0xFFF) / 0x1000 * 0x1000
  }

  /** The range to protect for a section, if it is code and its address does not overflow. */
  function Plan(base: u64, imageBase: u64, s: SectionHeader): Option<Range> {
    var offset := if s.virtualAddress < imageBase then 0 else s.virtualAddress - imageBase;
    if !IsCode(s) || base + offset >= USIZE_LIMIT then None
    else Some(Range(base + offset, PageUp(s.virtualSize)))
  }

  /** One section: set RO; if that worked clear XP; if that failed try to clear RO again. */
  ghost function Protect(granted: set<nat>, m: Machine, plan: Option<Range>): (r: Machine)
    ensures m.trace <= r.trace && r.attrs.Keys == m.attrs.Keys
  {
    if plan.None? then m
    else
      var m1 := Invoke(granted, m, SetRO(plan.value));
      if !Succeeds(granted, m, SetRO(plan.value)) then m1
      else
        var m2 := Invoke(granted, m1, ClearXP(plan.value));
        if Succeeds(granted, m1, ClearXP(plan.value)) then m2
        else Invoke(granted, m2, ClearRO(plan.value))
  }

  /** The machine after the first `n` plans. */
  ghost function ProtectAll(granted: set<nat>, m: Machine, plans: seq<Option<Range>>, n: nat): (r: Machine)
    requires n <= |plans|
    ensures m.trace <= r.trace && r.attrs.Keys == m.attrs.Keys
  {
    if n == 0 then m else Protect(granted, ProtectAll(granted, m, plans, n - 1), plans[n - 1])
  }

  function Plans(base: u64, imageBase: u64, sections: seq<SectionHeader>): seq<Option<Range>> {
    seq(|sections|, i requires 0 <= i < |sections| => Plan(base, imageBase, sections[i]))
  }

  /** Which sections get a plan, and what it is, in the numbers of the header: those with
      IMAGE_SCN_CNT_CODE (0x20) or IMAGE_SCN_MEM_EXECUTE (0x20000000) among their characteristics and
      an address that does not overflow; the length is the least number of whole pages. */
  lemma PlannedForCode(base: u64, imageBase: u64, s: SectionHeader)
    ensures var plan, start := Plan(base, imageBase, s),
                               if s.virtualAddress < imageBase then base else base + s.virtualAddress - imageBase;
            && (plan.Some? <==>
                  (s.characteristics as bv32) & 0x2000_0020 != 0 && start < 0x1_0000_0000_0000_0000)
            && (plan.Some? ==>
                  && plan.value.start == start
                  && plan.value.length % 0x1000 == 0
                  && s.virtualSize <= plan.value.length < s.virtualSize + 0x1000)
  {
    CodeBits(s.characteristics);
  }

  lemma CodeBits(c: u32)
    ensures HasBit(c, 0x20) || HasBit(c, 0x2000_0000) <==> (c as bv32) & 0x2000_0020 != 0
  {
  }

  /** So the run makes calls for section `i`, between one and three, exactly when it is such a section;
      for any other it leaves everything as it is. */
  lemma CallsForCode(granted: set<nat>, m: Machine, base: u64, imageBase: u64, sections: seq<SectionHeader>, i: nat)
    requires i < |sections|
    ensures var s, plans := sections[i], Plans(base, imageBase, sections);
            var before, after := ProtectAll(granted, m, plans, i), ProtectAll(granted, m, plans, i + 1);
            if (s.characteristics as bv32) & 0x2000_0020 != 0
               && (if s.virtualAddress < imageBase then base else base + s.virtualAddress - imageBase)
                  < 0x1_0000_0000_0000_0000 then
              |before.trace| + 1 <= |after.trace| <= |before.trace| + 3
            else
              after == before
  {
    PlannedForCode(base, imageBase, sections[i]);
    OneSectionCalls(granted, ProtectAll(granted, m, Plans(base, imageBase, sections), i), Plan(base, imageBase, sections[i]));
  }

  lemma OneSectionCalls(granted: set<nat>, m: Machine, plan: Option<Range>)
    ensures var r := Protect(granted, m, plan);
            if plan.Some? then |m.trace| + 1 <= |r.trace| <= |m.trace| + 3 else r == m
  {
  }

  /** The firmware as the loader meets it: each call answers only whether it succeeded. */
  class Firmware {
    var attrs: AttrMap
    var trace: seq<AttrMap>
    const granted: set<nat>

    constructor (attrs: AttrMap, granted: set<nat>)
      ensures State() == Machine(attrs, []) && this.granted == granted
    {
      this.attrs, this.trace, this.granted := attrs, [], granted;
    }

    function State(): Machine
      reads this
    {
      Machine(attrs, trace)
    }

    method Perform(call: Call) returns (ok: bool)
      modifies this
      ensures State() == Invoke(granted, old(State()), call)
      ensures ok == Succeeds(granted, old(State()), call)
    {
      var first, count := (call.range.start + 0xFFF) / 0x1000, call.range.length / 0x1000;
      ok := call.range.length > 0 && call.range.start % 0x1000 == 0 && call.range.length % 0x1000 == 0
         && |trace| in granted
         && forall p :: first <= p < first + count ==> p in attrs;
      assert forall p: nat :: call.range.start % 0x1000 == 0 && call.range.length % 0x1000 == 0 ==>
          (call.range.Has(p) <==> first <= p < first + count);
      if ok {
        attrs := Effect(call, attrs);
      }
      trace := trace + [attrs];
    }
  }

  method Apply(firmware: Firmware, base: u64, kernel: Image)
    modifies firmware
    ensures firmware.State() == ProtectAll(firmware.granted, old(firmware.State()),
                                           Plans(base, kernel.baseAddress, kernel.sections), |kernel.sections|)
  {
    ghost var plans := Plans(base, kernel.baseAddress, kernel.sections);
    for i := 0 to |kernel.sections|
      invariant firmware.State() == ProtectAll(firmware.granted, old(firmware.State()), plans, i)
    {
      var section := kernel.sections[i];
      if !IsCode(section) {
        continue;
      }
      var destOffset := Max(section.virtualAddress - kernel.baseAddress, 0);
      var sectionBase := base + destOffset;
      if sectionBase >= USIZE_LIMIT {
        continue;
      }
      var rounded := section.virtualSize + 0xFFF;
      if rounded >= USIZE_LIMIT {
        assert false;  // the size overflow: never taken for 32-bit section sizes
      }
      var range := Range(sectionBase, rounded / 0x1000 * 0x1000);

      var wasSet := firmware.Perform(SetRO(range));
      if !wasSet {
        continue;
      }
      var cleared := firmware.Perform(ClearXP(range));
      if !cleared {
        var rolledBack := firmware.Perform(ClearRO(range));
        continue;
      }
    }
  }
}
