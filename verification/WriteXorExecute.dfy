/** What the protection calls guarantee, for every pattern of firmware failures. */
module WriteXorExecute {
  import opened Wrappers
  import opened Protection

  /** Section `i` of the plans makes calls the firmware can act on, and they act on page `p`. */
  ghost predicate Touches(pages: set<nat>, plans: seq<Option<Range>>, i: nat, p: nat)
    requires i < |plans|
  {
    plans[i].Some? && Actionable(pages, plans[i].value) && plans[i].value.Has(p)
  }

  /** No page is both writable and executable. */
  predicate Safe(attrs: AttrMap) {
    forall p :: p in attrs ==> attrs[p].ro || attrs[p].xp
  }

  ghost predicate SafeFrom(m: Machine, from: nat) {
    forall k :: from <= k < |m.trace| ==> Safe(m.trace[k])
  }

  // ---------- One section ----------

  /** How the three calls of one section can end. */
  datatype Outcome = Untouched | ReadOnlyExecutable | RolledBack | StuckReadOnly {
    function After(a: Attr): Attr {
      match this
      case Untouched => a
      case ReadOnlyExecutable => Attr(true, false)
      case RolledBack => a.(ro := false)
      case StuckReadOnly => a.(ro := true)
    }
  }

  /** Which of them happens when the section's first call is call number `first`. */
  function OutcomeAt(granted: set<nat>, first: nat): Outcome {
    if first !in granted then Untouched
    else if first + 1 in granted then ReadOnlyExecutable
    else if first + 2 in granted then RolledBack
    else StuckReadOnly
  }

  lemma ProtectOutcome(granted: set<nat>, m: Machine, plan: Range)
    requires Actionable(m.attrs.Keys, plan)
    ensures var r := Protect(granted, m, Some(plan));
            && (forall p | p in m.attrs && plan.Has(p) ::
                 r.attrs[p] == OutcomeAt(granted, |m.trace|).After(m.attrs[p]))
            && (forall p | p in m.attrs && !plan.Has(p) :: r.attrs[p] == m.attrs[p])
  {
  }

  /** The same in full: setting RO refused, nothing happens; clearing XP granted too, the page is
      read-only and executable; clearing XP refused, RO is cleared again, or stays if that is refused. */
  lemma ProtectPage(granted: set<nat>, m: Machine, plan: Range, p: nat)
    requires Actionable(m.attrs.Keys, plan) && p in m.attrs && plan.start <= 0x1000 * p < plan.start + plan.length
    ensures var r, c := Protect(granted, m, Some(plan)), |m.trace|;
            && (c !in granted ==> |r.trace| == c + 1 && r.attrs[p] == m.attrs[p])
            && (c in granted && c + 1 in granted ==> |r.trace| == c + 2 && r.attrs[p] == Attr(true, false))
            && (c in granted && c + 1 !in granted ==>
                  |r.trace| == c + 3 && r.attrs[p] == Attr(c + 2 !in granted, m.attrs[p].xp))
  {
    ProtectOutcome(granted, m, plan);
  }

  lemma ProtectUnactionable(granted: set<nat>, m: Machine, plan: Option<Range>)
    requires plan.None? || !Actionable(m.attrs.Keys, plan.value)
    ensures Protect(granted, m, plan).attrs == m.attrs
    ensures |Protect(granted, m, plan).trace| == |m.trace| + if plan.Some? then 1 else 0
  {
  }

  /** One section keeps every state safe, provided its pages are not executable beforehand. */
  lemma ProtectSafe(granted: set<nat>, m: Machine, plan: Option<Range>)
    requires Safe(m.attrs)
    requires plan.Some? && Actionable(m.attrs.Keys, plan.value) ==>
               forall p :: p in m.attrs && plan.value.Has(p) ==> m.attrs[p].xp
    ensures Safe(Protect(granted, m, plan).attrs)
    ensures SafeFrom(Protect(granted, m, plan), |m.trace|)
  {
  }

  // ---------- All sections ----------

  /** What the loader relies on: a safe start, code pages that start non-executable, and no page
      belonging to two code sections. */
  ghost predicate Sound(attrs: AttrMap, plans: seq<Option<Range>>) {
    && Safe(attrs)
    && (forall i, p | 0 <= i < |plans| && p in attrs && Touches(attrs.Keys, plans, i, p) :: attrs[p].xp)
    && PagesDisjoint(attrs.Keys, plans)
  }

  ghost predicate PagesDisjoint(pages: set<nat>, plans: seq<Option<Range>>) {
    forall i, j, p | 0 <= i < j < |plans| && p in pages && Touches(pages, plans, i, p) :: !Touches(pages, plans, j, p)
  }

  lemma UntouchedByOne(granted: set<nat>, m: Machine, plans: seq<Option<Range>>, i: nat, p: nat)
    requires i < |plans| && p in m.attrs && !Touches(m.attrs.Keys, plans, i, p)
    ensures Protect(granted, m, plans[i]).attrs[p] == m.attrs[p]
  {
    if plans[i].Some? && Actionable(m.attrs.Keys, plans[i].value) {
      ProtectOutcome(granted, m, plans[i].value);
    } else {
      ProtectUnactionable(granted, m, plans[i]);
    }
  }

  /** A page none of the first `n` sections touches keeps its attributes. */
  lemma {:induction false} UntouchedKept(granted: set<nat>, m: Machine, plans: seq<Option<Range>>, n: nat, p: nat)
    requires n <= |plans| && p in m.attrs
    requires forall j :: 0 <= j < n ==> !Touches(m.attrs.Keys, plans, j, p)
    ensures ProtectAll(granted, m, plans, n).attrs[p] == m.attrs[p]
  {
    if n > 0 {
      UntouchedKept(granted, m, plans, n - 1, p);
      UntouchedByOne(granted, ProtectAll(granted, m, plans, n - 1), plans, n - 1, p);
    }
  }

  /** From any firmware state that is sound for the plans, every state the run adds is safe. */
  lemma {:induction false} SoundRunsAreSafe(granted: set<nat>, m: Machine, plans: seq<Option<Range>>, n: nat)
    requires Sound(m.attrs, plans) && n <= |plans|
    ensures var r := ProtectAll(granted, m, plans, n);
            Safe(r.attrs) && SafeFrom(r, |m.trace|)
  {
    if n > 0 {
      SoundRunsAreSafe(granted, m, plans, n - 1);
      var before := ProtectAll(granted, m, plans, n - 1);
      if plans[n - 1].Some? && Actionable(m.attrs.Keys, plans[n - 1].value) {
        forall p | p in m.attrs && plans[n - 1].value.Has(p)
          ensures before.attrs[p].xp
        {
          assert Touches(m.attrs.Keys, plans, n - 1, p);
          forall j | 0 <= j < n - 1
            ensures !Touches(m.attrs.Keys, plans, j, p)
          {
          }
          UntouchedKept(granted, m, plans, n - 1, p);
        }
      }
      ProtectSafe(granted, before, plans[n - 1]);
    }
  }

  /** The firmware's state is safe, and so is every state it goes through, whatever it grants. */
  ghost predicate NeverWritableAndExecutable(m: Machine, plans: seq<Option<Range>>) {
    Safe(m.attrs) &&
    forall granted: set<nat> :: SafeFrom(ProtectAll(granted, m, plans, |plans|), |m.trace|)
  }

  // ---------- Why the assumptions are needed ----------

  /** The calls made by the first `n` sections if the firmware refuses them all. */
  function Planned(plans: seq<Option<Range>>, n: nat): nat
    requires n <= |plans|
  {
    if n == 0 then 0 else Planned(plans, n - 1) + if plans[n - 1].Some? then 1 else 0
  }

  /** While everything is refused, sections `k` to `n` change nothing and make one call each. */
  lemma {:induction false} RefusedRun(granted: set<nat>, m: Machine, plans: seq<Option<Range>>, k: nat, n: nat)
    requires k <= n <= |plans|
    requires forall g :: g in granted ==>
               !(|ProtectAll(granted, m, plans, k).trace| <= g
                 < |ProtectAll(granted, m, plans, k).trace| + (Planned(plans, n) - Planned(plans, k)))
    ensures Planned(plans, k) <= Planned(plans, n)
    ensures var mk, mn := ProtectAll(granted, m, plans, k), ProtectAll(granted, m, plans, n);
            mn.attrs == mk.attrs && |mn.trace| == |mk.trace| + (Planned(plans, n) - Planned(plans, k))
    decreases n
  {
    if k < n {
      RefusedRun(granted, m, plans, k, n - 1);
    }
  }

  /** A state gone through stays in the trace. */
  lemma {:induction false} TraceGrows(granted: set<nat>, m: Machine, plans: seq<Option<Range>>, k: nat, n: nat, x: nat)
    requires k <= n <= |plans| && x < |ProtectAll(granted, m, plans, k).trace|
    ensures x < |ProtectAll(granted, m, plans, n).trace|
    ensures ProtectAll(granted, m, plans, n).trace[x] == ProtectAll(granted, m, plans, k).trace[x]
    decreases n
  {
    if k < n {
      TraceGrows(granted, m, plans, k, n - 1, x);
    }
  }

  /** A rollback on a page that is already executable leaves it writable and executable. */
  lemma RollbackExposes(granted: set<nat>, m: Machine, plans: seq<Option<Range>>, i: nat, p: nat)
    requires i < |plans| && p in m.attrs && Touches(m.attrs.Keys, plans, i, p) && !m.attrs[p].xp
    requires |m.trace| in granted && |m.trace| + 1 !in granted && |m.trace| + 2 in granted
    ensures var r := Protect(granted, m, plans[i]);
            |r.trace| == |m.trace| + 3 && !Safe(r.trace[|m.trace| + 2])
  {
    var r := Protect(granted, m, plans[i]);
    ProtectOutcome(granted, m, plans[i].value);
    assert r.trace[|m.trace| + 2] == r.attrs && r.attrs[p] == Attr(false, false);
  }

  /** If section `i` meets an executable page and only its clear call is refused, the run is unsafe. */
  lemma ExposedAt(granted: set<nat>, m: Machine, plans: seq<Option<Range>>, i: nat, p: nat)
    requires i < |plans| && p in m.attrs && Touches(m.attrs.Keys, plans, i, p)
    requires var mi := ProtectAll(granted, m, plans, i);
             && !mi.attrs[p].xp
             && |mi.trace| in granted && |mi.trace| + 1 !in granted && |mi.trace| + 2 in granted
    ensures !SafeFrom(ProtectAll(granted, m, plans, |plans|), |m.trace|)
  {
    var mi := ProtectAll(granted, m, plans, i);
    var x := |mi.trace| + 2;
    RollbackExposes(granted, mi, plans, i, p);
    TraceGrows(granted, m, plans, i + 1, |plans|, x);
    UnsafeAt(ProtectAll(granted, m, plans, |plans|), |m.trace|, x);
  }

  lemma UnsafeAt(m: Machine, from: nat, x: nat)
    requires from <= x < |m.trace| && !Safe(m.trace[x])
    ensures !SafeFrom(m, from)
  {
  }

  lemma ExecutableStartFails(m: Machine, plans: seq<Option<Range>>, i: nat, p: nat)
    requires i < |plans| && p in m.attrs && Touches(m.attrs.Keys, plans, i, p) && !m.attrs[p].xp
    ensures !NeverWritableAndExecutable(m, plans)
  {
    var c := |m.trace| + Planned(plans, i);
    var granted := {c, c + 2};
    RefusedRun(granted, m, plans, 0, i);
    ExposedAt(granted, m, plans, i, p);
  }

  /** Refuse every call before section `j`'s and grant both of those: its pages become executable. */
  lemma GrantedAt(granted: set<nat>, m: Machine, plans: seq<Option<Range>>, j: nat, p: nat)
    requires j < |plans| && p in m.attrs && Touches(m.attrs.Keys, plans, j, p)
    requires forall g :: g in granted ==> g >= |m.trace| + Planned(plans, j)
    requires |m.trace| + Planned(plans, j) in granted && |m.trace| + Planned(plans, j) + 1 in granted
    ensures var r := ProtectAll(granted, m, plans, j + 1);
            !r.attrs[p].xp && |r.trace| == |m.trace| + Planned(plans, j) + 2
  {
    RefusedRun(granted, m, plans, 0, j);
    ProtectOutcome(granted, ProtectAll(granted, m, plans, j), plans[j].value);
  }

  lemma SharedPageFails(m: Machine, plans: seq<Option<Range>>, j: nat, i: nat, p: nat)
    requires j < i < |plans| && p in m.attrs
    requires Touches(m.attrs.Keys, plans, j, p) && Touches(m.attrs.Keys, plans, i, p)
    ensures !NeverWritableAndExecutable(m, plans)
  {
    var cj, ci := |m.trace| + Planned(plans, j), |m.trace| + Planned(plans, i) + 1;
    PlannedGrows(plans, j + 1, i);
    var granted := {cj, cj + 1, ci, ci + 2};
    GrantedAt(granted, m, plans, j, p);
    RefusedRun(granted, m, plans, j + 1, i);
    ExposedAt(granted, m, plans, i, p);
  }

  lemma PlannedGrows(plans: seq<Option<Range>>, k: nat, n: nat)
    requires k <= n <= |plans|
    ensures Planned(plans, k) <= Planned(plans, n)
  {
  }

  /** The assumptions are exactly what is needed: no page is ever writable and executable, under
      every pattern of firmware failures, if and only if the start is safe, code pages start
      non-executable, and no two code sections share a page. */
  lemma WriteXorExecuteExact(m: Machine, plans: seq<Option<Range>>)
    ensures NeverWritableAndExecutable(m, plans) <==> Sound(m.attrs, plans)
  {
    if Sound(m.attrs, plans) {
      forall granted: set<nat>
        ensures SafeFrom(ProtectAll(granted, m, plans, |plans|), |m.trace|)
      {
        SoundRunsAreSafe(granted, m, plans, |plans|);
      }
    } else if Safe(m.attrs) {
      if i: nat, p :| 0 <= i < |plans| && p in m.attrs && Touches(m.attrs.Keys, plans, i, p) && !m.attrs[p].xp {
        ExecutableStartFails(m, plans, i, p);
      } else {
        var j: nat, i: nat, p :| 0 <= j < i < |plans| && p in m.attrs
          && Touches(m.attrs.Keys, plans, j, p) && Touches(m.attrs.Keys, plans, i, p);
        SharedPageFails(m, plans, j, i, p);
      }
    }
  }

  // ---------- Where the attributes end up ----------

  /** With no page shared, every page of section `i` ends in the state that section's three calls
      give it, uniformly, and every page of no section is left alone. */
  lemma {:induction false} FinalAttributes(granted: set<nat>, m: Machine, plans: seq<Option<Range>>, n: nat, i: nat, p: nat)
    requires PagesDisjoint(m.attrs.Keys, plans) && i < n <= |plans|
    requires p in m.attrs && Touches(m.attrs.Keys, plans, i, p)
    ensures ProtectAll(granted, m, plans, n).attrs[p]
         == OutcomeAt(granted, |ProtectAll(granted, m, plans, i).trace|).After(m.attrs[p])
  {
    if i == n - 1 {
      UntouchedKept(granted, m, plans, i, p);
      ProtectOutcome(granted, ProtectAll(granted, m, plans, i), plans[i].value);
    } else {
      FinalAttributes(granted, m, plans, n - 1, i, p);
      assert !Touches(m.attrs.Keys, plans, n - 1, p);
      UntouchedByOne(granted, ProtectAll(granted, m, plans, n - 1), plans, n - 1, p);
    }
  }

  /** From writable, non-executable pages, each code section ends in one of three states, the same
      for all its pages: read-only and executable, as it was, or read-only and still not executable. */
  lemma ThreeFinalStates(granted: set<nat>, m: Machine, plans: seq<Option<Range>>, i: nat) returns (final: Attr)
    requires PagesDisjoint(m.attrs.Keys, plans) && i < |plans|
    requires forall p | p in m.attrs && Touches(m.attrs.Keys, plans, i, p) :: m.attrs[p] == Attr(false, true)
    ensures final in {Attr(true, false), Attr(false, true), Attr(true, true)}
    ensures forall p | p in m.attrs && Touches(m.attrs.Keys, plans, i, p) ::
              ProtectAll(granted, m, plans, |plans|).attrs[p] == final
  {
    final := OutcomeAt(granted, |ProtectAll(granted, m, plans, i).trace|).After(Attr(false, true));
    forall p | p in m.attrs && Touches(m.attrs.Keys, plans, i, p)
      ensures ProtectAll(granted, m, plans, |plans|).attrs[p] == final
    {
      FinalAttributes(granted, m, plans, |plans|, i, p);
    }
  }

  /** And each of the three is reached, depending on what the firmware grants. */
  lemma EachFinalStateReached(m: Machine, plans: seq<Option<Range>>, i: nat, p: nat, final: Attr)
    returns (granted: set<nat>)
    requires PagesDisjoint(m.attrs.Keys, plans) && i < |plans|
    requires p in m.attrs && Touches(m.attrs.Keys, plans, i, p) && m.attrs[p] == Attr(false, true)
    requires final in {Attr(true, false), Attr(false, true), Attr(true, true)}
    ensures ProtectAll(granted, m, plans, |plans|).attrs[p] == final
  {
    var c := |m.trace| + Planned(plans, i);
    granted := if final == Attr(false, true) then {} else if final.xp then {c} else {c, c + 1};
    RefusedRun(granted, m, plans, 0, i);
    FinalAttributes(granted, m, plans, |plans|, i, p);
  }

  // ---------- When the firmware grants everything ----------

  /** Calls from number `from` on, as many as `sections` sections can make, are all granted. */
  ghost predicate GrantsAll(granted: set<nat>, from: nat, sections: nat) {
    forall k :: from <= k < from + 3 * sections ==> k in granted
  }

  ghost predicate TouchedByAny(pages: set<nat>, plans: seq<Option<Range>>, n: nat, p: nat)
    requires n <= |plans|
  {
    exists i :: 0 <= i < n && Touches(pages, plans, i, p)
  }

  lemma {:induction false} TraceBounded(granted: set<nat>, m: Machine, plans: seq<Option<Range>>, n: nat)
    requires n <= |plans|
    ensures |ProtectAll(granted, m, plans, n).trace| <= |m.trace| + 3 * n
  {
    if n > 0 {
      TraceBounded(granted, m, plans, n - 1);
    }
  }

  lemma GrantedStep(granted: set<nat>, m: Machine, plans: seq<Option<Range>>, i: nat, p: nat)
    requires i < |plans| && p in m.attrs && |m.trace| in granted && |m.trace| + 1 in granted
    ensures Protect(granted, m, plans[i]).attrs[p] ==
            if Touches(m.attrs.Keys, plans, i, p) then Attr(true, false) else m.attrs[p]
  {
    if Touches(m.attrs.Keys, plans, i, p) {
      ProtectOutcome(granted, m, plans[i].value);
    } else {
      UntouchedByOne(granted, m, plans, i, p);
    }
  }

  /** Then exactly the code pages become read-only and executable, shared or not. */
  lemma {:induction false} GrantedRun(granted: set<nat>, m: Machine, plans: seq<Option<Range>>, n: nat, p: nat)
    requires n <= |plans| && p in m.attrs && GrantsAll(granted, |m.trace|, |plans|)
    ensures ProtectAll(granted, m, plans, n).attrs[p] ==
            if TouchedByAny(m.attrs.Keys, plans, n, p) then Attr(true, false) else m.attrs[p]
  {
    if n > 0 {
      GrantedRun(granted, m, plans, n - 1, p);
      TraceBounded(granted, m, plans, n - 1);
      GrantedStep(granted, ProtectAll(granted, m, plans, n - 1), plans, n - 1, p);
      assert TouchedByAny(m.attrs.Keys, plans, n, p) <==>
             TouchedByAny(m.attrs.Keys, plans, n - 1, p) || Touches(m.attrs.Keys, plans, n - 1, p);
    }
  }

  /** So the order of the sections does not matter. */
  lemma GrantedOrderDoesNotMatter(granted: set<nat>, m: Machine, plans: seq<Option<Range>>, shuffled: seq<Option<Range>>)
    requires GrantsAll(granted, |m.trace|, |plans|) && multiset(plans) == multiset(shuffled)
    ensures |shuffled| == |plans|
    ensures ProtectAll(granted, m, shuffled, |shuffled|).attrs == ProtectAll(granted, m, plans, |plans|).attrs
  {
    assert |plans| == |multiset(plans)| == |shuffled|;
    forall p | p in m.attrs
      ensures ProtectAll(granted, m, shuffled, |plans|).attrs[p] == ProtectAll(granted, m, plans, |plans|).attrs[p]
    {
      GrantedRun(granted, m, plans, |plans|, p);
      GrantedRun(granted, m, shuffled, |plans|, p);
      SameTouches(m.attrs.Keys, plans, shuffled, p);
      SameTouches(m.attrs.Keys, shuffled, plans, p);
    }
  }

  lemma SameTouches(pages: set<nat>, plans: seq<Option<Range>>, shuffled: seq<Option<Range>>, p: nat)
    requires multiset(plans) == multiset(shuffled)
    ensures TouchedByAny(pages, plans, |plans|, p) ==> TouchedByAny(pages, shuffled, |shuffled|, p)
  {
    if i :| 0 <= i < |plans| && Touches(pages, plans, i, p) {
      assert plans[i] in multiset(shuffled);
      var j :| 0 <= j < |shuffled| && shuffled[j] == plans[i];
      assert Touches(pages, shuffled, j, p);
    }
  }

  /** And applying the protections twice is applying them once. */
  lemma GrantedTwiceIsOnce(granted: set<nat>, m: Machine, plans: seq<Option<Range>>)
    requires GrantsAll(granted, |m.trace|, |plans|)
    requires GrantsAll(granted, |ProtectAll(granted, m, plans, |plans|).trace|, |plans|)
    ensures var once := ProtectAll(granted, m, plans, |plans|);
            ProtectAll(granted, once, plans, |plans|).attrs == once.attrs
  {
    var once := ProtectAll(granted, m, plans, |plans|);
    forall p | p in m.attrs
      ensures ProtectAll(granted, once, plans, |plans|).attrs[p] == once.attrs[p]
    {
      GrantedRun(granted, m, plans, |plans|, p);
      GrantedRun(granted, once, plans, |plans|, p);
    }
  }
}
