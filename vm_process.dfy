/**
 * A demand-paged user process: its page table starts out empty, pages are
 * brought in on TLB misses, and frames are reclaimed with a second-chance
 * clock, dirty victims going to swap.
 */
module VMProcess {
  import opened Wrappers
  import opened Machine
  import opened VMKernel
  import opened PagingSpec
  import opened FaultSpec
  import UserSpec

  /** The page-table entry the demand-paging loader gives page `vpn`. */
  function InitialEntry(vpn: int, coffMap: map<int, CoffSection>): TranslationEntry
  {
    TranslationEntry(vpn, -1, false, vpn in coffMap && coffMap[vpn].readOnly, false, false)
  }

  /**
   * One step of unloadSections' frame pass can be taken: the frame has an
   * owner (the pass reads its page number without a null check), and an owner
   * held outside this page table names a page inside it (the pass indexes the
   * table with that number before comparing).
   */
  predicate FrameUnloadable(pf: PageFrame, ptLen: int)
  {
    pf.entry.Some? && (pf.entry.value.Detached? ==> 0 <= pf.entry.value.entry.vpn < ptLen)
  }

  /** The frame pass of unloadSections runs to the end. */
  predicate UnloadCompletes(ipt: seq<PageFrame>, ptLen: int)
  {
    forall f :: 0 <= f < |ipt| ==> FrameUnloadable(ipt[f], ptLen)
  }

  /** The frame at which the frame pass stops: the first it cannot take, or the end. */
  function UnloadStop(ipt: seq<PageFrame>, ptLen: int): (r: int)
    ensures 0 <= r <= |ipt|
    ensures forall f :: 0 <= f < r ==> FrameUnloadable(ipt[f], ptLen)
    ensures r < |ipt| ==> !FrameUnloadable(ipt[r], ptLen)
    ensures r == |ipt| <==> UnloadCompletes(ipt, ptLen)
  {
    if |ipt| == 0 then 0
    else if !FrameUnloadable(ipt[0], ptLen) then 0
    else 1 + UnloadStop(ipt[1..], ptLen)
  }

  /** A frame after the frame pass: freed when this page table owns it, kept otherwise. */
  function Unloaded(pf: PageFrame): (r: PageFrame)
    ensures r.pinCount == pf.pinCount
    ensures r.entry.None? <==> pf.entry.None? || pf.entry.value.Mapped?
    ensures r.entry.Some? ==> r.entry == pf.entry
  {
    if pf.entry.Some? && pf.entry.value.Mapped? then pf.(entry := None) else pf
  }

  /** The swap slots this process's pages occupy, for pages below `n`. */
  ghost function ReleasedSlots(swapTable: map<int, int>, n: int): set<int>
  {
    set v | v in swapTable && 0 <= v < n :: swapTable[v]
  }

  /** The frame pass as written dereferences a free frame's owner: with one free frame it cannot finish. */
  lemma UnloadFailsOnFreeFrame()
    ensures !UnloadCompletes([PageFrame(Some(Mapped(0)), 0), PageFrame(None, 0)], 1)
    ensures UnloadStop([PageFrame(Some(Mapped(0)), 0), PageFrame(None, 0)], 1) == 1
  {
    var ipt := [PageFrame(Some(Mapped(0)), 0), PageFrame(None, 0)];
    assert !FrameUnloadable(ipt[1], 1);
  }

  /** A placeholder owner, left by a fault in progress, names no page and stops the pass too. */
  lemma UnloadFailsOnPlaceholder()
    ensures !UnloadCompletes([PageFrame(Some(Detached(Placeholder)), 0)], 4)
  {
    var ipt := [PageFrame(Some(Detached(Placeholder)), 0)];
    assert !FrameUnloadable(ipt[0], 4);
  }

  /** Recording one more page in the right operand of a union is recording it in the union. */
  lemma MapUnionUpdate<K, V>(a: map<K, V>, b: map<K, V>, k: K, x: V)
    ensures (a + b)[k := x] == a + b[k := x]
  {
  }

  lemma SectionPagesStep(section: CoffSection, j: int)
    requires 0 <= j
    ensures SectionPages(section, j)[section.firstVPN + j := section] == SectionPages(section, j + 1)
  {
  }

  /** Map union regrouped; kept as a lemma so the loop in MarkSections does not reason about map union itself. */
  lemma MapUnionAssoc<K, V>(a: map<K, V>, b: map<K, V>, c: map<K, V>)
    ensures a + b + c == a + (b + c)
  {
  }

  /** Every page below the first `k` sections' total lies in one of those sections. */
  lemma {:induction false} PageInSomeSection(sections: seq<CoffSection>, k: int, v: int)
    requires UserSpec.LengthsNonNegative(sections) && UserSpec.SectionsContiguous(sections)
    requires 0 <= k <= |sections| && 0 <= v < UserSpec.SectionPageCount(sections, k)
    ensures exists s :: 0 <= s < k && Covers(sections[s], v)
  {
    if v >= UserSpec.SectionPageCount(sections, k - 1) {
      assert Covers(sections[k - 1], v);
    } else {
      PageInSomeSection(sections, k - 1, v);
    }
  }

  predicate PageBelow(v: int, n: int)
  {
    0 <= v < n
  }

  /** The pages 0 up to `n` are `n` of them. */
  lemma {:induction false} RangeSize(n: nat)
    ensures |set v | 0 <= v < n && PageBelow(v, n)| == n
  {
    if n > 0 {
      var m := n - 1;
      RangeSize(m);
      assert (set v | 0 <= v < n && PageBelow(v, n)) == (set v | 0 <= v < m && PageBelow(v, m)) + {m};
    }
  }

  /**
   * With contiguous sections of non-negative length, the section map holds
   * exactly the pages from 0 up to the sections' total, so every page below
   * its size is in it.
   */
  lemma CoffMapDense(sections: seq<CoffSection>)
    requires UserSpec.LengthsNonNegative(sections) && UserSpec.SectionsContiguous(sections)
    ensures forall v :: v in CoffMap(sections) <==> 0 <= v < UserSpec.SectionPageCount(sections, |sections|)
    ensures |CoffMap(sections)| == UserSpec.SectionPageCount(sections, |sections|)
  {
    var n := UserSpec.SectionPageCount(sections, |sections|);
    forall v ensures v in CoffMap(sections) <==> 0 <= v < n {
      CoffMapCovers(sections, v);
      if v in CoffMap(sections) {
        var s :| 0 <= s < |sections| && Covers(sections[s], v);
        UserSpec.SectionWithinPages(sections, s, |sections|);
      } else if 0 <= v < n {
        PageInSomeSection(sections, |sections|, v);
      }
    }
    UserSpec.SectionPageCountNonNegative(sections, |sections|);
    RangeSize(n);
    assert CoffMap(sections).Keys == set v | 0 <= v < n && PageBelow(v, n);
  }

  /** A section laid over a map decides the read-only flag of the pages it covers and no other. */
  lemma InitialEntryOverride(v: int, before: map<int, CoffSection>, section: CoffSection)
    ensures InitialEntry(v, before + SectionPages(section, section.length)) ==
      if Covers(section, v) then InitialEntry(v, before).(readOnly := section.readOnly) else InitialEntry(v, before)
  {
  }

  /**
   * The kernel and machine a new process starts on: memory and frame table
   * agree in size, memory, TLB and frame table are three arrays, no frame is
   * held through the new process's page table, swap slots hold whole pages,
   * the clock hand is inside the frame table, and the TLB holds no valid
   * translation (saveState flushes it at every switch).
   */
  ghost predicate MachineReady(kernel: VMKernel, machine: Processor)
    reads kernel, kernel.ipt, machine.tlb
  {
    && machine.memory.Length == kernel.ipt.Length * PageSize
    && machine.memory as object != kernel.ipt && machine.memory as object != machine.tlb
    && machine.tlb as object != kernel.ipt
    && (forall f :: 0 <= f < kernel.ipt.Length && kernel.ipt[f].entry.Some? ==> kernel.ipt[f].entry.value.Detached?)
    && (forall s :: s in kernel.swap ==> |kernel.swap[s]| == PageSize)
    && 0 <= kernel.victim && (kernel.victim < kernel.ipt.Length || kernel.ipt.Length == 0)
    && (forall i :: 0 <= i < machine.tlb.Length ==> !machine.tlb[i].valid)
  }

  class VMProcess {
    const kernel: VMKernel
    const machine: Processor
    var pageTable: array<TranslationEntry>
    var numPages: int
    /** VPN to the COFF section holding that page. */
    var vpnCoffMap: map<int, CoffSection>
    /** VPN to the swap slot holding that page's evicted contents. */
    var swapTable: map<int, int>

    ghost predicate Valid()
      reads this, kernel, kernel.ipt, pageTable
    {
      && machine.memory.Length == kernel.ipt.Length * PageSize
      && ArraysDistinct()
      && (forall v :: 0 <= v < pageTable.Length ==> pageTable[v].vpn == v)
      && RefsInRange(kernel.ipt[..], pageTable.Length)
      && (forall v :: v in swapTable ==> 0 <= swapTable[v] < |kernel.freeSwapPages|)
      && (forall s :: s in kernel.swap ==> |kernel.swap[s]| == PageSize)
      && 0 <= kernel.victim && (kernel.victim < kernel.ipt.Length || kernel.ipt.Length == 0)
    }

    /** The memory, the TLB, the frame table and the page table are four different arrays. */
    ghost predicate ArraysDistinct()
      reads this
    {
      && machine.tlb != pageTable
      && machine.memory as object != pageTable
      && machine.memory as object != kernel.ipt
      && machine.memory as object != machine.tlb
      && machine.tlb as object != kernel.ipt
      && pageTable as object != kernel.ipt
    }

    /**
     * Every valid TLB slot translates a page of this table into an owned
     * frame, and a read-only one a page with a section; every valid
     * page-table entry names an owned frame.
     */
    ghost predicate TranslationsOwned()
      reads this, kernel.ipt, machine.tlb, pageTable
    {
      && (forall i :: 0 <= i < machine.tlb.Length && machine.tlb[i].valid ==>
        && 0 <= machine.tlb[i].vpn < pageTable.Length && Owned(kernel.ipt[..], machine.tlb[i].ppn)
        && (machine.tlb[i].readOnly ==> machine.tlb[i].vpn in vpnCoffMap))
      && (forall v :: 0 <= v < pageTable.Length && pageTable[v].valid ==> Owned(kernel.ipt[..], pageTable[v].ppn))
    }

    /** The section lookups of the populate step find a section. */
    ghost predicate CoffLookupsDefined()
      reads this, pageTable
    {
      && (forall v :: 0 <= v < |vpnCoffMap| ==> v in vpnCoffMap)
      && (forall v :: 0 <= v < pageTable.Length && pageTable[v].readOnly ==> v in vpnCoffMap)
    }

    /** The paging state as values. */
    ghost function Snap(): (s: PagingState)
      reads this, kernel, kernel.ipt, pageTable, machine.tlb, machine.memory
      ensures Valid() && TranslationsOwned() ==> StateOk(s)
    {
      PagingState(kernel.ipt[..], pageTable[..], machine.tlb[..], machine.memory[..],
        kernel.victim, kernel.freeSwapPages, kernel.swap, swapTable)
    }

    /** A process on a ready machine that has recorded no section and no swap slot yet. */
    ghost predicate ReadyToLoad()
      reads this, kernel, kernel.ipt, machine.tlb
    {
      MachineReady(kernel, machine) && vpnCoffMap == map[] && swapTable == map[]
    }

    constructor (kernel: VMKernel, machine: Processor)
      ensures this.kernel == kernel && this.machine == machine
      ensures fresh(pageTable) && pageTable.Length == 0 && numPages == 0
      ensures vpnCoffMap == map[] && swapTable == map[]
      ensures ReadyToLoad() <==> MachineReady(kernel, machine)
    {
      this.kernel := kernel;
      this.machine := machine;
      pageTable := new TranslationEntry[0];
      numPages := 0;
      vpnCoffMap := map[];
      swapTable := map[];
    }

    /** Builds an all-invalid page table and records which section holds each page. */
    method LoadSections(sections: seq<CoffSection>) returns (ok: bool)
      requires numPages >= 0
      requires forall s :: 0 <= s < |sections| ==>
        0 <= sections[s].firstVPN && sections[s].firstVPN + sections[s].length <= numPages
      modifies this
      ensures ok && fresh(pageTable) && pageTable.Length == numPages == old(numPages)
      ensures vpnCoffMap == old(vpnCoffMap) + CoffMap(sections)
      ensures forall v :: 0 <= v < pageTable.Length ==> pageTable[v] == InitialEntry(v, CoffMap(sections))
      ensures swapTable == old(swapTable)
      ensures old(ReadyToLoad()) && UserSpec.LengthsNonNegative(sections) && UserSpec.SectionsContiguous(sections) ==>
        Valid() && TranslationsOwned() && CoffLookupsDefined()
    {
      ghost var ready := MachineReady(kernel, machine) && vpnCoffMap == map[] && swapTable == map[];
      pageTable := new TranslationEntry[numPages](v => InitialEntry(v, map[]));
      MarkSections(sections);
      if ready && UserSpec.LengthsNonNegative(sections) && UserSpec.SectionsContiguous(sections) {
        assert MachineReady(kernel, machine);
        LoadedInvariants(sections);
      }
      ok := true;
    }

    /** The section loop of loadSections over a page table of initial entries with no sections marked yet. */
    method MarkSections(sections: seq<CoffSection>)
      requires forall s :: 0 <= s < |sections| ==>
        0 <= sections[s].firstVPN && sections[s].firstVPN + sections[s].length <= pageTable.Length
      requires forall v :: 0 <= v < pageTable.Length ==> pageTable[v] == InitialEntry(v, map[])
      modifies this`vpnCoffMap, pageTable
      ensures vpnCoffMap == old(vpnCoffMap) + CoffMap(sections)
      ensures forall v :: 0 <= v < pageTable.Length ==> pageTable[v] == InitialEntry(v, CoffMap(sections))
    {
      ghost var base := vpnCoffMap;
      var s := 0;
      while s < |sections|
        invariant 0 <= s <= |sections|
        invariant vpnCoffMap == base + CoffMap(sections[..s])
        invariant forall v :: 0 <= v < pageTable.Length ==> pageTable[v] == InitialEntry(v, CoffMap(sections[..s]))
      {
        ghost var before := CoffMap(sections[..s]);
        MarkSection(sections[s]);
        assert sections[..s + 1][..s] == sections[..s];
        assert CoffMap(sections[..s + 1]) == before + SectionPages(sections[s], sections[s].length);
        forall v | 0 <= v < pageTable.Length
          ensures pageTable[v] == InitialEntry(v, CoffMap(sections[..s + 1]))
        {
          InitialEntryOverride(v, before, sections[s]);
        }
        MapUnionAssoc(base, before, SectionPages(sections[s], sections[s].length));
        s := s + 1;
      }
      assert sections[..|sections|] == sections;
    }

    /**
     * A page table of initial entries over contiguous sections, on a ready
     * machine with nothing swapped, satisfies the paging invariants.
     */
    lemma LoadedInvariants(sections: seq<CoffSection>)
      requires MachineReady(kernel, machine) && swapTable == map[]
      requires UserSpec.LengthsNonNegative(sections) && UserSpec.SectionsContiguous(sections)
      requires vpnCoffMap == CoffMap(sections)
      requires pageTable as object != kernel.ipt && machine.tlb != pageTable && machine.memory as object != pageTable
      requires forall v :: 0 <= v < pageTable.Length ==> pageTable[v] == InitialEntry(v, CoffMap(sections))
      ensures Valid() && TranslationsOwned() && CoffLookupsDefined()
    {
      CoffMapDense(sections);
    }

    /** Marks the pages of one section with its read-only flag and records the section for each. */
    method MarkSection(section: CoffSection)
      requires 0 <= section.firstVPN && section.firstVPN + section.length <= pageTable.Length
      modifies this`vpnCoffMap, pageTable
      ensures vpnCoffMap == old(vpnCoffMap) + SectionPages(section, section.length)
      ensures forall v :: 0 <= v < pageTable.Length ==>
        pageTable[v] == if Covers(section, v) then old(pageTable[v]).(readOnly := section.readOnly) else old(pageTable[v])
    {
      var coffMap := vpnCoffMap;
      var j := 0;
      while j < section.length
        invariant 0 <= j && (j <= section.length || j == 0)
        invariant coffMap == old(vpnCoffMap) + SectionPages(section, j)
        invariant forall v :: 0 <= v < pageTable.Length ==>
          pageTable[v] == if section.firstVPN <= v < section.firstVPN + j then old(pageTable[v]).(readOnly := section.readOnly) else old(pageTable[v])
      {
        var vpn := section.firstVPN + j;
        pageTable[vpn] := pageTable[vpn].(readOnly := section.readOnly);
        MapUnionUpdate(old(vpnCoffMap), SectionPages(section, j), vpn, section);
        SectionPagesStep(section, j);
        coffMap := coffMap[vpn := section];
        j := j + 1;
      }
      assert SectionPages(section, j) == SectionPages(section, section.length);
      vpnCoffMap := coffMap;
    }

    /** Copies a TLB entry into its page-table slot and makes that slot the owner of its frame. */
    method SyncTLBEntry(e: TranslationEntry)
      requires 0 <= e.vpn < pageTable.Length && 0 <= e.ppn < kernel.ipt.Length
      modifies pageTable, kernel.ipt
      ensures pageTable[..] == old(pageTable[..])[e.vpn := e]
      ensures kernel.ipt[..] == old(kernel.ipt[..])[e.ppn := old(kernel.ipt[e.ppn]).(entry := Some(Mapped(e.vpn)))]
    {
      pageTable[e.vpn] := e;
      kernel.ipt[e.ppn] := kernel.ipt[e.ppn].(entry := Some(Mapped(e.vpn)));
    }

    /** Context switch away: every valid TLB entry is synchronised back and then invalidated. */
    method SaveState()
      requires Valid() && TranslationsOwned()
      modifies pageTable, kernel.ipt, machine.tlb
      ensures Valid() && TranslationsOwned() && (old(CoffLookupsDefined()) ==> CoffLookupsDefined())
      ensures forall i :: 0 <= i < machine.tlb.Length ==>
        machine.tlb[i] == old(machine.tlb[i]).(valid := false)
      ensures forall v :: 0 <= v < pageTable.Length ==>
        pageTable[v] == match LastValidSlotFor(old(machine.tlb[..]), v, machine.tlb.Length) {
          case Some(j) => old(machine.tlb[j])
          case None => old(pageTable[v])
        }
      ensures forall f :: 0 <= f < kernel.ipt.Length ==>
        kernel.ipt[f] == match LastValidSlotInFrame(old(machine.tlb[..]), f, machine.tlb.Length) {
          case Some(j) => old(kernel.ipt[f]).(entry := Some(Mapped(old(machine.tlb[j]).vpn)))
          case None => old(kernel.ipt[f])
        }
    {
      ghost var tlb0, pt0, ipt0 := machine.tlb[..], pageTable[..], kernel.ipt[..];
      var n := machine.tlb.Length;
      var i := 0;
      while i < n
        invariant 0 <= i <= n
        invariant forall j :: 0 <= j < i ==> machine.tlb[j] == tlb0[j].(valid := false)
        invariant forall j :: i <= j < n ==> machine.tlb[j] == tlb0[j]
        invariant (kernel.ipt[..], pageTable[..]) == SyncBack(ipt0, pt0, tlb0, i)
      {
        var entry := machine.tlb[i];
        if entry.valid {
          SyncTLBEntry(entry);
          machine.tlb[i] := entry.(valid := false);
        }
        i := i + 1;
      }
      SyncBackEffect(ipt0, pt0, tlb0, n);
      SyncBackShape(ipt0, pt0, tlb0, n);
    }

    /** Writes `e` into whichever entry object owns frame `f`. */
    method UpdateOwner(f: int, e: TranslationEntry)
      requires RefsInRange(kernel.ipt[..], pageTable.Length) && Owned(kernel.ipt[..], f)
      modifies pageTable, kernel.ipt
      ensures (kernel.ipt[..], pageTable[..]) == SetOwner(old(kernel.ipt[..]), old(pageTable[..]), f, e)
      ensures old(Valid()) && e.vpn == old(OwnerEntry(kernel.ipt[..], pageTable[..], f)).vpn ==> Valid()
      ensures old(TranslationsOwned()) && ArraysDistinct() && (e.valid ==> Owned(old(kernel.ipt[..]), e.ppn)) ==>
        TranslationsOwned()
    {
      match kernel.ipt[f].entry.value {
        case Mapped(v) =>
          pageTable[v] := e;
        case Detached(_) =>
          kernel.ipt[f] := kernel.ipt[f].(entry := Some(Detached(e)));
      }
    }

    /** Copies the used and dirty bits of every valid TLB slot into its frame's owner. */
    method WriteBackTLBBits()
      requires Valid() && TranslationsOwned() && CoffLookupsDefined()
      modifies pageTable, kernel.ipt
      ensures (kernel.ipt[..], pageTable[..]) ==
        WriteBack(old(kernel.ipt[..]), old(pageTable[..]), machine.tlb[..], machine.tlb.Length)
      ensures Valid() && TranslationsOwned() && CoffLookupsDefined()
    {
      ghost var ipt0, pt0 := kernel.ipt[..], pageTable[..];
      var i := 0;
      while i < machine.tlb.Length
        invariant 0 <= i <= machine.tlb.Length
        invariant (kernel.ipt[..], pageTable[..]) == WriteBack(ipt0, pt0, machine.tlb[..], i)
      {
        var t := machine.tlb[i];
        if t.valid {
          UpdateOwner(t.ppn, OwnerEntry(kernel.ipt[..], pageTable[..], t.ppn).(used := t.used, dirty := t.dirty));
        }
        i := i + 1;
      }
    }

    /** The lowest invalid TLB slot, or -1 when every slot is valid. */
    method FindInvalidSlot() returns (index: int)
      ensures index == match FirstInvalidSlot(machine.tlb[..]) { case Some(i) => i case None => -1 }
    {
      index := -1;
      var i := 0;
      while i < machine.tlb.Length
        invariant 0 <= i <= machine.tlb.Length
        invariant forall j :: 0 <= j < i ==> machine.tlb[j].valid
      {
        if !machine.tlb[i].valid {
          index := i;
          return;
        }
        i := i + 1;
      }
    }

    /** Claims the lowest free frame for a placeholder owner, so no other fault can take it; -1 when memory is full. */
    method ClaimFreeFrame() returns (f: int)
      modifies kernel.ipt
      ensures f == match FirstFreeFrame(old(kernel.ipt[..])) { case Some(i) => i case None => -1 }
      ensures f >= 0 ==>
        kernel.ipt[..] == old(kernel.ipt[..])[f := old(kernel.ipt[f]).(entry := Some(Detached(Placeholder)))]
      ensures f < 0 ==> kernel.ipt[..] == old(kernel.ipt[..])
    {
      f := -1;
      var i := 0;
      while i < kernel.ipt.Length
        invariant 0 <= i <= kernel.ipt.Length
        invariant forall j :: 0 <= j < i ==> kernel.ipt[j].entry.Some?
        invariant kernel.ipt[..] == old(kernel.ipt[..])
      {
        if kernel.ipt[i].entry.None? {
          f := i;
          kernel.ipt[i] := kernel.ipt[i].(entry := Some(Detached(Placeholder)));
          return;
        }
        i := i + 1;
      }
    }

    /** Gives the owner of frame `g` its second chance: clears its used bit and nothing else. */
    method ClearUsed(g: int)
      requires RefsInRange(kernel.ipt[..], pageTable.Length) && Owned(kernel.ipt[..], g)
      modifies kernel.ipt, pageTable
      ensures (kernel.ipt[..], pageTable[..]) ==
        SetOwner(old(kernel.ipt[..]), old(pageTable[..]), g, old(OwnerEntry(kernel.ipt[..], pageTable[..], g)).(used := false))
      ensures OnlyUsedCleared(old(kernel.ipt[..]), old(pageTable[..]), kernel.ipt[..], pageTable[..])
      ensures !OwnerUsed(kernel.ipt[..], pageTable[..], g)
    {
      UpdateOwner(g, OwnerEntry(kernel.ipt[..], pageTable[..], g).(used := false));
    }

    /** Clearing used bits and moving the clock hand within the frame table keep the process's invariant. */
    twostate lemma UsedClearingKeepsInvariants()
      requires old(Valid()) && old(TranslationsOwned()) && old(CoffLookupsDefined())
      requires OnlyUsedCleared(old(kernel.ipt[..]), old(pageTable[..]), kernel.ipt[..], pageTable[..])
      requires unchanged(this) && unchanged(machine.tlb)
      requires old(kernel.swap) == kernel.swap && old(kernel.freeSwapPages) == kernel.freeSwapPages
      requires 0 <= kernel.victim < kernel.ipt.Length
      ensures Valid() && TranslationsOwned() && CoffLookupsDefined()
    {
    }

    /**
     * The second-chance clock: from the current hand, skips pinned frames and
     * frame 0, clears the used bit of each candidate whose owner has it set,
     * and stops on the first candidate whose owner has it clear.
     */
    method RunClock() returns (f: int)
      requires Valid() && TranslationsOwned() && CoffLookupsDefined()
      requires forall g :: 0 <= g < kernel.ipt.Length ==> kernel.ipt[g].entry.Some?
      requires exists g :: Evictable(kernel.ipt[..], g)
      modifies kernel`victim, kernel.ipt, pageTable
      ensures Valid() && TranslationsOwned() && CoffLookupsDefined()
      ensures f == kernel.victim
      ensures ClockReady(old(kernel.ipt[..]), old(pageTable[..]), old(kernel.victim))
      ensures (kernel.ipt[..], pageTable[..], f) == Clock(old(kernel.ipt[..]), old(pageTable[..]), old(kernel.victim))
    {
      ClockReadyHere();
      f := SweepClock(kernel.victim);
      kernel.victim := f;
      UsedClearingKeepsInvariants();
    }

    /** The clock can run from the hand, as RunClock's preconditions say. */
    lemma ClockReadyHere()
      requires Valid() && TranslationsOwned() && CoffLookupsDefined()
      requires forall g :: 0 <= g < kernel.ipt.Length ==> kernel.ipt[g].entry.Some?
      requires exists g :: Evictable(kernel.ipt[..], g)
      ensures ClockReady(kernel.ipt[..], pageTable[..], kernel.victim)
    {
    }

    /** The loop of the clock, from hand `start`: returns the frame it stops on. */
    method SweepClock(start: int) returns (hand: int)
      requires ClockReady(kernel.ipt[..], pageTable[..], start)
      modifies kernel.ipt, pageTable
      ensures (kernel.ipt[..], pageTable[..], hand) == Clock(old(kernel.ipt[..]), old(pageTable[..]), start)
    {
      ghost var ipt0, pt0 := kernel.ipt[..], pageTable[..];
      hand := start;
      ghost var target :| Evictable(ipt0, target);
      var n := kernel.ipt.Length;
      while true
        invariant 0 <= hand < n
        invariant ClockReady(kernel.ipt[..], pageTable[..], hand) && Evictable(kernel.ipt[..], target)
        invariant Clock(kernel.ipt[..], pageTable[..], hand) == Clock(ipt0, pt0, start)
        decreases CountTrue(UsedBits(kernel.ipt[..], pageTable[..])),
          if target >= hand then target - hand else target - hand + n
      {
        NextCursor(hand, n);
        var stop := PassFrame(hand);
        if stop {
          return;
        }
        hand := (hand + 1) % n;
      }
    }

    /**
     * One step of the clock at frame `hand`: a pinned frame, or frame 0, is
     * passed; an evictable frame whose owner has its used bit set gets it
     * cleared and is passed; otherwise the clock stops here.
     */
    method PassFrame(hand: int) returns (stop: bool)
      requires ClockReady(kernel.ipt[..], pageTable[..], hand)
      modifies kernel.ipt, pageTable
      ensures SameShape(kernel.ipt[..], old(kernel.ipt[..]))
      ensures stop <==> Evictable(old(kernel.ipt[..]), hand) && !OwnerUsed(old(kernel.ipt[..]), old(pageTable[..]), hand)
      ensures stop ==> kernel.ipt[..] == old(kernel.ipt[..]) && pageTable[..] == old(pageTable[..])
      ensures stop ==> Clock(kernel.ipt[..], pageTable[..], hand) == (kernel.ipt[..], pageTable[..], hand)
      ensures !stop ==> var next := (hand + 1) % kernel.ipt.Length;
        && ClockReady(kernel.ipt[..], pageTable[..], next)
        && Clock(kernel.ipt[..], pageTable[..], next) == Clock(old(kernel.ipt[..]), old(pageTable[..]), hand)
      ensures !stop && Evictable(old(kernel.ipt[..]), hand) ==>
        CountTrue(UsedBits(kernel.ipt[..], pageTable[..])) < CountTrue(UsedBits(old(kernel.ipt[..]), old(pageTable[..])))
      ensures !Evictable(old(kernel.ipt[..]), hand) ==> kernel.ipt[..] == old(kernel.ipt[..]) && pageTable[..] == old(pageTable[..])
    {
      NextCursor(hand, kernel.ipt.Length);
      stop := false;
      if kernel.ipt[hand].pinCount == 0 && hand != 0 {
        if OwnerEntry(kernel.ipt[..], pageTable[..], hand).used {
          ghost var ipt1, pt1 := kernel.ipt[..], pageTable[..];
          ClearUsed(hand);
          ClearingStep(ipt1, pt1, hand);
        } else {
          stop := true;
        }
      }
    }

    /** Takes the first free swap slot, growing the list when none is free. */
    method AllocSwapSlot() returns (spn: int)
      modifies kernel`freeSwapPages
      ensures spn == FirstFreeSwapSlot(old(kernel.freeSwapPages))
      ensures kernel.freeSwapPages == AllocateSwapSlot(old(kernel.freeSwapPages))
    {
      spn := -1;
      var i := 0;
      while i < |kernel.freeSwapPages|
        invariant 0 <= i <= |kernel.freeSwapPages|
        invariant kernel.freeSwapPages == old(kernel.freeSwapPages)
        invariant forall j :: 0 <= j < i ==> kernel.freeSwapPages[j].Some?
      {
        if kernel.freeSwapPages[i].None? {
          spn := i;
          kernel.freeSwapPages := kernel.freeSwapPages[i := Some(i)];
          return;
        }
        i := i + 1;
      }
      spn := |kernel.freeSwapPages|;
      kernel.freeSwapPages := kernel.freeSwapPages + [Some(spn)];
    }

    /** Invalidates the first valid TLB slot translating `vpn`, if there is one. */
    method InvalidateTLBFor(vpn: int)
      modifies machine.tlb
      ensures old(TranslationsOwned()) && ArraysDistinct() ==> TranslationsOwned()
      ensures machine.tlb[..] == TLBWithout(old(machine.tlb[..]), vpn)
    {
      var i := 0;
      while i < machine.tlb.Length
        invariant 0 <= i <= machine.tlb.Length
        invariant machine.tlb[..] == old(machine.tlb[..])
        invariant forall j :: 0 <= j < i ==> !(machine.tlb[j].valid && machine.tlb[j].vpn == vpn)
      {
        var et := machine.tlb[i];
        if et.valid && et.vpn == vpn {
          machine.tlb[i] := InvalidTLBEntry;
          return;
        }
        i := i + 1;
      }
    }

    /** Fills frame `ppn` with zero bytes. */
    method ZeroFrame(ppn: int)
      requires 0 <= ppn && (ppn + 1) * PageSize <= machine.memory.Length
      modifies machine.memory
      ensures machine.memory[..] == WithFrame(old(machine.memory[..]), ppn, ZeroPage)
    {
      var i := 0;
      while i < PageSize
        invariant 0 <= i <= PageSize
        invariant forall k :: 0 <= k < machine.memory.Length ==>
          machine.memory[k] == if ppn * PageSize <= k < ppn * PageSize + i then 0 else old(machine.memory[k])
      {
        machine.memory[ppn * PageSize + i] := 0;
        i := i + 1;
      }
      assert machine.memory[..] == WithFrame(old(machine.memory[..]), ppn, ZeroPage);
    }

    /** Copies one page of bytes into frame `ppn`. */
    method FillFrame(ppn: int, content: seq<byte>)
      requires 0 <= ppn && (ppn + 1) * PageSize <= machine.memory.Length && |content| == PageSize
      modifies machine.memory
      ensures machine.memory[..] == WithFrame(old(machine.memory[..]), ppn, content)
    {
      forall i | 0 <= i < PageSize {
        machine.memory[ppn * PageSize + i] := content[i];
      }
      assert machine.memory[..] == WithFrame(old(machine.memory[..]), ppn, content);
    }

    /**
     * Evicts the owner of frame `f`: a dirty owner is written to a swap slot
     * and recorded in the swap table with ppn -2; the owner is then marked
     * invalid and the first TLB slot translating its page is invalidated.
     */
    method EvictFrame(f: int)
      requires Valid() && TranslationsOwned() && CoffLookupsDefined() && Owned(kernel.ipt[..], f)
      modifies kernel`freeSwapPages, kernel`swap, this`swapTable, kernel.ipt, pageTable, machine.tlb
      ensures NoneNewlyValid(old(pageTable[..]), pageTable[..])
      ensures Valid() && TranslationsOwned() && CoffLookupsDefined()
      ensures var o := OwnerEntry(old(kernel.ipt[..]), old(pageTable[..]), f);
        (kernel.ipt[..], pageTable[..]) ==
          SetOwner(old(kernel.ipt[..]), old(pageTable[..]), f, o.(ppn := if o.dirty then -2 else o.ppn, valid := false))
      ensures var o := OwnerEntry(old(kernel.ipt[..]), old(pageTable[..]), f);
        var spn := FirstFreeSwapSlot(old(kernel.freeSwapPages));
        if o.dirty then
          && kernel.freeSwapPages == AllocateSwapSlot(old(kernel.freeSwapPages))
          && kernel.swap == old(kernel.swap)[spn := FrameBytes(machine.memory[..], f)]
          && swapTable == old(swapTable)[o.vpn := spn]
        else
          && kernel.freeSwapPages == old(kernel.freeSwapPages)
          && kernel.swap == old(kernel.swap) && swapTable == old(swapTable)
      ensures machine.tlb[..] == TLBWithout(old(machine.tlb[..]), OwnerEntry(old(kernel.ipt[..]), old(pageTable[..]), f).vpn)
      ensures Snap() == Evicted(old(Snap()), f)
    {
      var toEvict := DetachOwner(f);
      InvalidateTLBFor(toEvict.vpn);
    }

    /** The memory half of an eviction: a dirty owner is swapped out, and the owner is marked invalid. */
    method DetachOwner(f: int) returns (toEvict: TranslationEntry)
      requires Valid() && TranslationsOwned() && CoffLookupsDefined() && Owned(kernel.ipt[..], f)
      modifies kernel`freeSwapPages, kernel`swap, this`swapTable, kernel.ipt, pageTable
      ensures Valid() && TranslationsOwned() && CoffLookupsDefined()
      ensures toEvict == OwnerEntry(old(kernel.ipt[..]), old(pageTable[..]), f)
      ensures (kernel.ipt[..], pageTable[..]) ==
        SetOwner(old(kernel.ipt[..]), old(pageTable[..]), f, toEvict.(ppn := if toEvict.dirty then -2 else toEvict.ppn, valid := false))
      ensures var spn := FirstFreeSwapSlot(old(kernel.freeSwapPages));
        if toEvict.dirty then
          && kernel.freeSwapPages == AllocateSwapSlot(old(kernel.freeSwapPages))
          && kernel.swap == old(kernel.swap)[spn := FrameBytes(machine.memory[..], f)]
          && swapTable == old(swapTable)[toEvict.vpn := spn]
        else
          && kernel.freeSwapPages == old(kernel.freeSwapPages)
          && kernel.swap == old(kernel.swap) && swapTable == old(swapTable)
    {
      toEvict := OwnerEntry(kernel.ipt[..], pageTable[..], f);
      var ppn := toEvict.ppn;
      if toEvict.dirty {
        SwapOut(f, toEvict.vpn);
        ppn := -2;
      }
      UpdateOwner(f, toEvict.(ppn := ppn, valid := false));
    }

    /** Writes frame `f` to the first free swap slot and records that slot as the home of page `vpn`. */
    method SwapOut(f: int, vpn: int)
      requires Valid() && 0 <= f < kernel.ipt.Length
      modifies kernel`freeSwapPages, kernel`swap, this`swapTable
      ensures Valid()
      ensures var spn := FirstFreeSwapSlot(old(kernel.freeSwapPages));
        && kernel.freeSwapPages == AllocateSwapSlot(old(kernel.freeSwapPages))
        && kernel.swap == old(kernel.swap)[spn := FrameBytes(machine.memory[..], f)]
        && swapTable == old(swapTable)[vpn := spn]
    {
      FrameInMemory(f, kernel.ipt.Length);
      var spn := AllocSwapSlot();
      kernel.swap := kernel.swap[spn := FrameBytes(machine.memory[..], f)];
      swapTable := swapTable[vpn := spn];
    }

    /**
     * The swap-out as the source writes it: a slot is taken, then one page is
     * copied from byte offset `ownerPpn * PageSize` of memory, `ownerPpn` being
     * the evicted owner's ppn field. A copy from outside memory fails: the slot
     * stays taken and neither the swap file nor the swap table changes.
     */
    method SwapOutAsWritten(ownerPpn: int, vpn: int) returns (ok: bool)
      requires Valid()
      modifies kernel`freeSwapPages, kernel`swap, this`swapTable
      ensures Valid()
      ensures ok <==> 0 <= ownerPpn < kernel.ipt.Length
      ensures kernel.freeSwapPages == AllocateSwapSlot(old(kernel.freeSwapPages))
      ensures var spn := FirstFreeSwapSlot(old(kernel.freeSwapPages));
        if ok then
          && kernel.swap == old(kernel.swap)[spn := FrameBytes(machine.memory[..], ownerPpn)]
          && swapTable == old(swapTable)[vpn := spn]
        else
          kernel.swap == old(kernel.swap) && swapTable == old(swapTable)
    {
      var spn := AllocSwapSlot();
      var offset := ownerPpn * PageSize;
      if offset < 0 || offset + PageSize > machine.memory.Length {
        return false;
      }
      kernel.swap := kernel.swap[spn := machine.memory[offset..offset + PageSize]];
      swapTable := swapTable[vpn := spn];
      ok := true;
    }

    /**
     * Brings the page into frame `ppn` from where FaultSource says; returns
     * whether the new translation starts dirty.
     */
    method Populate(vpn: int, ppn: int, loader: (CoffSection, int) -> seq<byte>) returns (dirty: bool)
      requires ArraysDistinct() && 0 <= vpn < pageTable.Length && pageTable[vpn].vpn == vpn
      requires SectionLookupOk(pageTable[vpn], vpnCoffMap)
      requires 0 <= ppn && (ppn + 1) * PageSize <= machine.memory.Length
      requires forall s, k :: |loader(s, k)| == PageSize
      requires forall v :: v in swapTable ==> 0 <= swapTable[v] < |kernel.freeSwapPages|
      requires forall s :: s in kernel.swap ==> |kernel.swap[s]| == PageSize
      modifies machine.memory, pageTable, kernel`freeSwapPages
      ensures var src := FaultSource(old(pageTable[vpn]), vpnCoffMap, swapTable);
        && machine.memory[..] ==
          WithFrame(old(machine.memory[..]), ppn,
            PageContent(src, loader, kernel.swap, FrameBytes(old(machine.memory[..]), ppn)))
        && dirty == (src == ZeroFill(true))
        && if src.FromSwap? then
            && kernel.freeSwapPages == old(kernel.freeSwapPages)[src.slot := None]
            && pageTable[..] == old(pageTable[..])[vpn := old(pageTable[vpn]).(dirty := false)]
          else
            && kernel.freeSwapPages == old(kernel.freeSwapPages)
            && pageTable[..] == old(pageTable[..])
    {
      var entry := pageTable[vpn];
      ghost var mem0 := machine.memory[..];
      dirty := false;
      if entry.ppn == -1 {
        if vpn < |vpnCoffMap| {
          var section := vpnCoffMap[vpn];
          FillFrame(ppn, loader(section, vpn - section.firstVPN));
        } else {
          ZeroFrame(ppn);
          dirty := true;
        }
      } else {
        if entry.readOnly {
          var section := vpnCoffMap[entry.vpn];
          FillFrame(ppn, loader(section, entry.vpn - section.firstVPN));
        } else if entry.vpn in swapTable {
          var slot := swapTable[entry.vpn];
          kernel.freeSwapPages := kernel.freeSwapPages[slot := None];
          if slot in kernel.swap {
            FillFrame(ppn, kernel.swap[slot]);
          } else {
            assert machine.memory[..] == WithFrame(mem0, ppn, FrameBytes(mem0, ppn));
          }
          pageTable[vpn] := entry.(dirty := false);
        } else {
          ZeroFrame(ppn);
        }
      }
    }

    /** Changing dirty bits of page-table entries, bytes of memory and the contents of the swap-slot list keeps the invariants. */
    twostate lemma DirtyOnlyKeepsInvariants()
      requires old(Valid()) && old(TranslationsOwned()) && old(CoffLookupsDefined())
      requires unchanged(this) && unchanged(kernel.ipt) && unchanged(machine.tlb)
      requires old(kernel.victim) == kernel.victim && old(kernel.swap) == kernel.swap
      requires |old(kernel.freeSwapPages)| == |kernel.freeSwapPages|
      requires forall v :: 0 <= v < pageTable.Length ==> pageTable[v] == old(pageTable[v]).(dirty := pageTable[v].dirty)
      ensures Valid() && TranslationsOwned() && CoffLookupsDefined()
    {
    }

    /**
     * Finds the frame a fault will fill: the lowest free frame, claimed for a
     * placeholder owner; or, when memory is full, the clock's victim, after
     * the TLB bits are written back, the hand is moved past it and its owner
     * is evicted.
     */
    method ReserveFrame() returns (f: int)
      requires Valid() && TranslationsOwned() && CoffLookupsDefined()
      requires FirstFreeFrame(kernel.ipt[..]).None? ==> exists g :: Evictable(kernel.ipt[..], g)
      modifies kernel`victim, kernel`freeSwapPages, kernel`swap, this`swapTable, kernel.ipt, pageTable, machine.tlb
      ensures NoneNewlyValid(old(pageTable[..]), pageTable[..])
      ensures Valid() && TranslationsOwned() && CoffLookupsDefined()
      ensures Owned(kernel.ipt[..], f)
      ensures forall g :: 0 <= g < kernel.ipt.Length ==> kernel.ipt[g].pinCount == old(kernel.ipt[g].pinCount)
      ensures (Snap(), f) == Reserved(old(Snap()))
    {
      ghost var s0 := Snap();
      f := ClaimFreeFrame();
      if f == -1 {
        f := ReplaceFrame();
      } else {
        assert Reserved(s0) == (Snap(), f);
      }
    }

    /** The full-memory half of ReserveFrame: write-back, clock, hand advance, eviction. */
    method ReplaceFrame() returns (f: int)
      requires Valid() && TranslationsOwned() && CoffLookupsDefined()
      requires forall g :: 0 <= g < kernel.ipt.Length ==> kernel.ipt[g].entry.Some?
      requires exists g :: Evictable(kernel.ipt[..], g)
      modifies kernel`victim, kernel`freeSwapPages, kernel`swap, this`swapTable, kernel.ipt, pageTable, machine.tlb
      ensures NoneNewlyValid(old(pageTable[..]), pageTable[..])
      ensures Valid() && TranslationsOwned() && CoffLookupsDefined()
      ensures Owned(kernel.ipt[..], f) && SameShape(kernel.ipt[..], old(kernel.ipt[..]))
      ensures Evictable(old(kernel.ipt[..]), f)
      ensures kernel.victim == (f + 1) % kernel.ipt.Length
      ensures machine.tlb[..] == TLBWithout(old(machine.tlb[..]), VictimOwner(old(Snap()), f).vpn)
      ensures var o := VictimOwner(old(Snap()), f);
        o.dirty ==>
          && o.vpn in swapTable && swapTable[o.vpn] in kernel.swap
          && kernel.swap[swapTable[o.vpn]] == FrameBytes(machine.memory[..], f)
      ensures (Snap(), f) == Reserved(old(Snap()))
    {
      ghost var s0 := Snap();
      ghost var ipt0 := kernel.ipt[..];
      f := SelectVictim();
      ghost var ipt1 := kernel.ipt[..];
      AdvanceHand();
      ghost var s1 := Snap();
      assert (s1, f) == Clocked(s0);
      EvictFrame(f);
      assert Reserved(s0) == (Evicted(s1, f), f);
      SameShapeTrans(kernel.ipt[..], ipt1, ipt0);
    }

    /** Writes the TLB bits back and runs the clock; the victim's owner keeps the page and dirty bit the write-back gave it. */
    method SelectVictim() returns (f: int)
      requires Valid() && TranslationsOwned() && CoffLookupsDefined()
      requires forall g :: 0 <= g < kernel.ipt.Length ==> kernel.ipt[g].entry.Some?
      requires exists g :: Evictable(kernel.ipt[..], g)
      modifies kernel`victim, kernel.ipt, pageTable
      ensures NoneNewlyValid(old(pageTable[..]), pageTable[..])
      ensures Valid() && TranslationsOwned() && CoffLookupsDefined()
      ensures SameShape(kernel.ipt[..], old(kernel.ipt[..]))
      ensures f == kernel.victim && Evictable(old(kernel.ipt[..]), f) && Owned(kernel.ipt[..], f)
      ensures var wb := WriteBack(old(kernel.ipt[..]), old(pageTable[..]), machine.tlb[..], machine.tlb.Length);
        var o := OwnerEntry(kernel.ipt[..], pageTable[..], f);
        o.dirty == OwnerEntry(wb.0, wb.1, f).dirty && o.vpn == OwnerEntry(wb.0, wb.1, f).vpn
      ensures var wb := WriteBack(old(kernel.ipt[..]), old(pageTable[..]), machine.tlb[..], machine.tlb.Length);
        && ClockReady(wb.0, wb.1, old(kernel.victim))
        && (kernel.ipt[..], pageTable[..], f) == Clock(wb.0, wb.1, old(kernel.victim))
    {
      ghost var g :| Evictable(kernel.ipt[..], g);
      ghost var ipt0 := kernel.ipt[..];
      WriteBackTLBBits();
      assert Evictable(kernel.ipt[..], g);
      ghost var ipt1 := kernel.ipt[..];
      f := RunClock();
      SameShapeTrans(kernel.ipt[..], ipt1, ipt0);
    }

    /** Moves the clock hand one frame on, wrapping at the end of the frame table. */
    method AdvanceHand()
      requires Valid() && kernel.ipt.Length > 0
      modifies kernel`victim
      ensures Valid() && kernel.victim == (old(kernel.victim) + 1) % kernel.ipt.Length
    {
      kernel.victim := (kernel.victim + 1) % kernel.ipt.Length;
    }

    /**
     * Services a fault on page `vpn`: reserves a frame, fills it from where
     * FaultSource says, and records the new translation's used and dirty bits
     * in the frame's owner. The new translation names the reserved frame
     * itself (the source names the owner's ppn field instead: see
     * EvictionPpnAsWritten).
     */
    method HandlePageFault(vpn: int, loader: (CoffSection, int) -> seq<byte>) returns (tlbEntry: TranslationEntry)
      requires Valid() && TranslationsOwned() && CoffLookupsDefined()
      requires 0 <= vpn < pageTable.Length
      requires FirstFreeFrame(kernel.ipt[..]).None? ==> exists g :: Evictable(kernel.ipt[..], g)
      requires forall s, k :: |loader(s, k)| == PageSize
      modifies kernel`victim, kernel`freeSwapPages, kernel`swap, this`swapTable, kernel.ipt, pageTable,
        machine.tlb, machine.memory
      ensures NoneNewlyValid(old(pageTable[..]), pageTable[..])
      ensures Valid() && TranslationsOwned() && CoffLookupsDefined()
      ensures Owned(kernel.ipt[..], tlbEntry.ppn)
      ensures forall g :: 0 <= g < kernel.ipt.Length ==> kernel.ipt[g].pinCount == old(kernel.ipt[g].pinCount)
      ensures (Snap(), tlbEntry) == Fault(old(Snap()), vpnCoffMap, vpn, loader)
      ensures machine.tlb[..] == FaultTLB(old(Snap()), tlbEntry.ppn)
      ensures FirstFreeFrame(old(kernel.ipt[..])).Some? ==>
        kernel.ipt[tlbEntry.ppn].entry == Some(Detached(Placeholder.(dirty := tlbEntry.dirty)))
    {
      ghost var s0 := Snap();
      var f := ReserveFrame();
      ReservedEffect(s0);
      tlbEntry := LoadReservedFrame(vpn, f, loader);
    }

    /** Fills the reserved frame `f` for page `vpn` and builds the translation that maps it. */
    method LoadReservedFrame(vpn: int, f: int, loader: (CoffSection, int) -> seq<byte>) returns (tlbEntry: TranslationEntry)
      requires Valid() && TranslationsOwned() && CoffLookupsDefined()
      requires 0 <= vpn < pageTable.Length && Owned(kernel.ipt[..], f)
      requires forall s, k :: |loader(s, k)| == PageSize
      modifies kernel`freeSwapPages, kernel.ipt, pageTable, machine.memory
      ensures NoneNewlyValid(old(pageTable[..]), pageTable[..])
      ensures Valid() && TranslationsOwned() && CoffLookupsDefined()
      ensures tlbEntry == TranslationEntry(vpn, f, true, false, false, tlbEntry.dirty)
      ensures SameShape(kernel.ipt[..], old(kernel.ipt[..]))
      ensures FaultSource(pageTable[vpn], vpnCoffMap, swapTable) == FaultSource(old(pageTable[vpn]), vpnCoffMap, swapTable)
      ensures var src := FaultSource(old(pageTable[vpn]), vpnCoffMap, swapTable);
        && FrameBytes(machine.memory[..], f) ==
             PageContent(src, loader, kernel.swap, FrameBytes(old(machine.memory[..]), f))
        && tlbEntry.dirty == (src == ZeroFill(true))
      ensures forall g :: 0 <= g < kernel.ipt.Length && g != f ==>
        FrameBytes(machine.memory[..], g) == FrameBytes(old(machine.memory[..]), g)
      ensures old(kernel.ipt[f].entry) == Some(Detached(Placeholder)) ==>
        kernel.ipt[f].entry == Some(Detached(Placeholder.(dirty := tlbEntry.dirty)))
      ensures var p := Populated(old(Snap()), vpnCoffMap, vpn, f, loader);
        Snap() == Recorded(p.0, f, p.1) && tlbEntry.dirty == p.1
    {
      var dirty := FillFrameFor(vpn, f, loader);
      tlbEntry := TranslationEntry(vpn, f, true, false, false, dirty);
      RecordFaultBits(f, dirty);
    }

    /** Records a fresh translation's bits (never used, `dirty` as loaded) in the owner of frame `f`. */
    method RecordFaultBits(f: int, dirty: bool)
      requires Valid() && TranslationsOwned() && CoffLookupsDefined() && Owned(kernel.ipt[..], f)
      modifies pageTable, kernel.ipt
      ensures Valid() && TranslationsOwned() && CoffLookupsDefined()
      ensures SameShape(kernel.ipt[..], old(kernel.ipt[..]))
      ensures OwnerEntry(kernel.ipt[..], pageTable[..], f) ==
        old(OwnerEntry(kernel.ipt[..], pageTable[..], f)).(used := false, dirty := dirty)
      ensures old(kernel.ipt[f].entry.value.Detached?) ==>
        kernel.ipt[f].entry == Some(Detached(old(OwnerEntry(kernel.ipt[..], pageTable[..], f)).(used := false, dirty := dirty)))
      ensures forall v :: 0 <= v < pageTable.Length ==>
        pageTable[v] == old(pageTable[v]).(used := pageTable[v].used, dirty := pageTable[v].dirty)
      ensures Snap() == Recorded(old(Snap()), f, dirty)
    {
      UpdateOwner(f, OwnerEntry(kernel.ipt[..], pageTable[..], f).(used := false, dirty := dirty));
    }

    /** Populate, with the process invariants carried across it. */
    method FillFrameFor(vpn: int, f: int, loader: (CoffSection, int) -> seq<byte>) returns (dirty: bool)
      requires Valid() && TranslationsOwned() && CoffLookupsDefined()
      requires 0 <= vpn < pageTable.Length && Owned(kernel.ipt[..], f)
      requires forall s, k :: |loader(s, k)| == PageSize
      modifies machine.memory, pageTable, kernel`freeSwapPages
      ensures Valid() && TranslationsOwned() && CoffLookupsDefined()
      ensures forall v :: 0 <= v < pageTable.Length ==> pageTable[v] == old(pageTable[v]).(dirty := pageTable[v].dirty)
      ensures var src := FaultSource(old(pageTable[vpn]), vpnCoffMap, swapTable);
        && FrameBytes(machine.memory[..], f) ==
             PageContent(src, loader, kernel.swap, FrameBytes(old(machine.memory[..]), f))
        && dirty == (src == ZeroFill(true))
      ensures forall g :: 0 <= g < kernel.ipt.Length && g != f ==>
        FrameBytes(machine.memory[..], g) == FrameBytes(old(machine.memory[..]), g)
      ensures (Snap(), dirty) == Populated(old(Snap()), vpnCoffMap, vpn, f, loader)
    {
      FrameInMemory(f, kernel.ipt.Length);
      ghost var mem0 := machine.memory[..];
      dirty := Populate(vpn, f, loader);
      DirtyOnlyKeepsInvariants();
      forall g | 0 <= g < kernel.ipt.Length
        ensures FrameBytes(machine.memory[..], g) ==
          if g == f then PageContent(FaultSource(old(pageTable[vpn]), vpnCoffMap, swapTable), loader, kernel.swap, FrameBytes(mem0, f))
          else FrameBytes(mem0, g)
      {
        FrameInMemory(g, kernel.ipt.Length);
        WithFrameReads(mem0, f, PageContent(FaultSource(old(pageTable[vpn]), vpnCoffMap, swapTable), loader, kernel.swap, FrameBytes(mem0, f)), g);
      }
    }

    /**
     * The TLB-miss handler as the source writes it. The used and dirty bits of
     * every valid TLB slot are copied to their owners. The lowest invalid slot
     * is picked, or else slot `randomIndex` (the source draws it at random),
     * whose bits are copied back again before it is invalidated. The slot then
     * receives the page-table entry of the missing page when that entry is
     * valid, and the result of a page fault otherwise. The handler indexes the
     * page table with the faulting page number unchecked: `None` is the
     * out-of-bounds exception raised for a page beyond the table. The register
     * holding the faulting address is read as an unsigned word.
     *
     * The fault's translation is never stored in the page table: a faulted page
     * stays invalid there, so once its TLB slot is recycled the next miss
     * faults again (see HandleTLBMissAndSync for the corrected handler).
     */
    method HandleTLBMiss(badVAddr: int, randomIndex: int, loader: (CoffSection, int) -> seq<byte>)
      returns (slot: Option<int>)
      requires Valid() && TranslationsOwned() && CoffLookupsDefined()
      requires 0 <= badVAddr && 0 <= randomIndex < machine.tlb.Length
      requires FirstFreeFrame(kernel.ipt[..]).None? ==> exists g :: Evictable(kernel.ipt[..], g)
      requires forall s, k :: |loader(s, k)| == PageSize
      modifies kernel`victim, kernel`freeSwapPages, kernel`swap, this`swapTable, kernel.ipt, pageTable,
        machine.tlb, machine.memory
      ensures Valid() && TranslationsOwned() && CoffLookupsDefined()
      ensures (Snap(), slot) == Miss(old(Snap()), vpnCoffMap, badVAddr, randomIndex, loader)
    {
      ghost var ipt0 := kernel.ipt[..];
      var index := PickSlot(randomIndex);
      var vpn := PageFromAddress(badVAddr);
      if vpn >= pageTable.Length {
        return None;
      }
      SameShapeKeepsReplaceable(ipt0, kernel.ipt[..]);
      var e := FillSlot(index, vpn, loader);
      slot := Some(index);
    }

    /** The second half of a miss: writes the translation ResolveEntry gives for page `vpn` into the invalid slot `index`. */
    method FillSlot(index: int, vpn: int, loader: (CoffSection, int) -> seq<byte>) returns (e: TranslationEntry)
      requires Valid() && TranslationsOwned() && CoffLookupsDefined()
      requires 0 <= index < machine.tlb.Length && !machine.tlb[index].valid && 0 <= vpn < pageTable.Length
      requires FirstFreeFrame(kernel.ipt[..]).None? ==> exists g :: Evictable(kernel.ipt[..], g)
      requires forall s, k :: |loader(s, k)| == PageSize
      modifies kernel`victim, kernel`freeSwapPages, kernel`swap, this`swapTable, kernel.ipt, pageTable,
        machine.tlb, machine.memory
      ensures Valid() && TranslationsOwned() && CoffLookupsDefined()
      ensures Snap() == Filled(old(Snap()), vpnCoffMap, index, vpn, loader)
    {
      ghost var s0 := Snap();
      assert CanFault(s0, vpnCoffMap, loader);
      e := ResolveEntry(vpn, loader);
      ghost var s1 := Snap();
      SetSlot(index, e);
      assert Snap() == s1.(tlb := s1.tlb[index := e]);
    }

    /** Writes the valid translation `e` into TLB slot `index`. */
    method SetSlot(index: int, e: TranslationEntry)
      requires Valid() && TranslationsOwned() && CoffLookupsDefined() && 0 <= index < machine.tlb.Length
      requires e.valid && 0 <= e.vpn < pageTable.Length && Owned(kernel.ipt[..], e.ppn)
      requires e.readOnly ==> e.vpn in vpnCoffMap
      modifies machine.tlb
      ensures Valid() && TranslationsOwned() && CoffLookupsDefined()
      ensures machine.tlb[..] == old(machine.tlb[..])[index := e]
    {
      machine.tlb[index] := e;
    }

    /**
     * The first half of a miss: writes every valid slot's bits back, then
     * returns the lowest invalid slot, or retires slot `randomIndex`.
     */
    method PickSlot(randomIndex: int) returns (index: int)
      requires Valid() && TranslationsOwned() && CoffLookupsDefined()
      requires 0 <= randomIndex < machine.tlb.Length
      modifies kernel.ipt, pageTable, machine.tlb
      ensures Valid() && TranslationsOwned() && CoffLookupsDefined()
      ensures index == match FirstInvalidSlot(old(machine.tlb[..])) { case Some(i) => i case None => randomIndex }
      ensures 0 <= index < machine.tlb.Length && !machine.tlb[index].valid
      ensures SameShape(kernel.ipt[..], old(kernel.ipt[..]))
      ensures forall v :: 0 <= v < pageTable.Length ==> pageTable[v].valid == old(pageTable[v].valid)
      ensures Snap() == Picked(old(Snap()), randomIndex)
    {
      WriteBackTLBBits();
      ghost var ipt1 := kernel.ipt[..];
      index := ChooseSlot(randomIndex);
      SameShapeTrans(kernel.ipt[..], ipt1, old(kernel.ipt[..]));
    }

    /** The lowest invalid TLB slot, or else slot `randomIndex`, retired. */
    method ChooseSlot(randomIndex: int) returns (index: int)
      requires Valid() && TranslationsOwned() && CoffLookupsDefined()
      requires 0 <= randomIndex < machine.tlb.Length
      modifies kernel.ipt, pageTable, machine.tlb
      ensures Valid() && TranslationsOwned() && CoffLookupsDefined()
      ensures index == match FirstInvalidSlot(old(machine.tlb[..])) { case Some(i) => i case None => randomIndex }
      ensures 0 <= index < machine.tlb.Length && !machine.tlb[index].valid
      ensures SameShape(kernel.ipt[..], old(kernel.ipt[..]))
      ensures forall v :: 0 <= v < pageTable.Length ==> pageTable[v].valid == old(pageTable[v].valid)
      ensures (kernel.ipt[..], pageTable[..], machine.tlb[..]) ==
        RetireIfFull(old(kernel.ipt[..]), old(pageTable[..]), old(machine.tlb[..]), randomIndex)
    {
      index := FindInvalidSlot();
      if index == -1 {
        index := randomIndex;
        RetireSlot(index);
      }
    }

    /**
     * The second half of a miss: the translation for page `vpn`, which is its
     * page-table entry when that is valid and a fresh fault's entry otherwise.
     */
    method ResolveEntry(vpn: int, loader: (CoffSection, int) -> seq<byte>) returns (e: TranslationEntry)
      requires Valid() && TranslationsOwned() && CoffLookupsDefined()
      requires 0 <= vpn < pageTable.Length
      requires FirstFreeFrame(kernel.ipt[..]).None? ==> exists g :: Evictable(kernel.ipt[..], g)
      requires forall s, k :: |loader(s, k)| == PageSize
      modifies kernel`victim, kernel`freeSwapPages, kernel`swap, this`swapTable, kernel.ipt, pageTable,
        machine.tlb, machine.memory
      ensures Valid() && TranslationsOwned() && CoffLookupsDefined()
      ensures e.valid && e.vpn == vpn && Owned(kernel.ipt[..], e.ppn)
      ensures e.readOnly ==> vpn in vpnCoffMap
      ensures (Snap(), e) == Resolved(old(Snap()), vpnCoffMap, vpn, loader)
    {
      e := pageTable[vpn];
      if !e.valid {
        e := HandlePageFault(vpn, loader);
      }
    }

    /** Copies TLB slot `index`'s bits to its owner and invalidates the slot. */
    method RetireSlot(index: int)
      requires Valid() && TranslationsOwned() && CoffLookupsDefined()
      requires 0 <= index < machine.tlb.Length && machine.tlb[index].valid
      modifies pageTable, kernel.ipt, machine.tlb
      ensures Valid() && TranslationsOwned() && CoffLookupsDefined()
      ensures var t := old(machine.tlb[index]);
        (kernel.ipt[..], pageTable[..]) == SetOwner(old(kernel.ipt[..]), old(pageTable[..]), t.ppn,
          OwnerEntry(old(kernel.ipt[..]), old(pageTable[..]), t.ppn).(used := t.used, dirty := t.dirty))
      ensures machine.tlb[..] == old(machine.tlb[..])[index := old(machine.tlb[index]).(valid := false)]
      ensures !machine.tlb[index].valid && SameShape(kernel.ipt[..], old(kernel.ipt[..]))
      ensures forall v :: 0 <= v < pageTable.Length ==>
        pageTable[v] == old(pageTable[v]).(used := pageTable[v].used, dirty := pageTable[v].dirty)
    {
      var t := machine.tlb[index];
      UpdateOwner(t.ppn, OwnerEntry(kernel.ipt[..], pageTable[..], t.ppn).(used := t.used, dirty := t.dirty));
      machine.tlb[index] := t.(valid := false);
    }

    /**
     * The TLB-miss handler with the page fault's translation committed: the new
     * entry becomes the page's page-table entry and the owner of its frame, so
     * a later miss on the page finds it valid.
     */
    method HandleTLBMissAndSync(badVAddr: int, randomIndex: int, loader: (CoffSection, int) -> seq<byte>)
      returns (slot: Option<int>)
      requires Valid() && TranslationsOwned() && CoffLookupsDefined()
      requires 0 <= badVAddr && 0 <= randomIndex < machine.tlb.Length
      requires FirstFreeFrame(kernel.ipt[..]).None? ==> exists g :: Evictable(kernel.ipt[..], g)
      requires forall s, k :: |loader(s, k)| == PageSize
      modifies kernel`victim, kernel`freeSwapPages, kernel`swap, this`swapTable, kernel.ipt, pageTable,
        machine.tlb, machine.memory
      ensures Valid() && TranslationsOwned() && CoffLookupsDefined()
      ensures var m := Miss(old(Snap()), vpnCoffMap, badVAddr, randomIndex, loader);
        && slot == m.1
        && Snap() == if slot.Some? then Committed(m.0, m.0.tlb[slot.value]) else m.0
    {
      ghost var s0 := Snap();
      slot := HandleTLBMiss(badVAddr, randomIndex, loader);
      ghost var s1 := Snap();
      if slot.Some? {
        var t := machine.tlb[slot.value];
        CommitTranslation(t);
      }
    }

    /** Makes the valid translation `e` page `e.vpn`'s page-table entry and the owner of frame `e.ppn`. */
    method CommitTranslation(e: TranslationEntry)
      requires Valid() && TranslationsOwned() && CoffLookupsDefined()
      requires e.valid && 0 <= e.vpn < pageTable.Length && Owned(kernel.ipt[..], e.ppn)
      requires e.readOnly ==> e.vpn in vpnCoffMap
      modifies pageTable, kernel.ipt
      ensures Valid() && TranslationsOwned() && CoffLookupsDefined()
      ensures pageTable[..] == old(pageTable[..])[e.vpn := e]
      ensures kernel.ipt[..] == old(kernel.ipt[..])[e.ppn := old(kernel.ipt[e.ppn]).(entry := Some(Mapped(e.vpn)))]
      ensures Snap() == Committed(old(Snap()), e)
    {
      SyncTLBEntry(e);
    }

    /**
     * unloadSections as written: the frame pass frees every frame this page
     * table owns, and fails (a null dereference or an out-of-bounds index)
     * at the first frame it cannot take; only when it completes does the swap
     * pass release this process's swap slots.
     */
    method UnloadSections() returns (completed: bool)
      requires Valid()
      modifies kernel.ipt, kernel`freeSwapPages, this`swapTable
      ensures completed == UnloadCompletes(old(kernel.ipt[..]), pageTable.Length)
      ensures var stop := UnloadStop(old(kernel.ipt[..]), pageTable.Length);
        forall f :: 0 <= f < kernel.ipt.Length ==>
          kernel.ipt[f] == if f < stop then Unloaded(old(kernel.ipt[f])) else old(kernel.ipt[f])
      ensures completed ==> SwapReleased(old(swapTable), old(kernel.freeSwapPages))
      ensures !completed ==> swapTable == old(swapTable) && kernel.freeSwapPages == old(kernel.freeSwapPages)
    {
      completed := FreeOwnFrames();
      if completed {
        ReleaseSwap();
      }
    }

    /** The swap pass has run: the slots of pages in this table are free and those pages leave the swap map. */
    ghost predicate SwapReleased(swapTable0: map<int, int>, slots0: seq<Option<int>>)
      reads this, kernel, pageTable
    {
      && |kernel.freeSwapPages| == |slots0|
      && (forall s :: 0 <= s < |slots0| ==>
           kernel.freeSwapPages[s] == if s in ReleasedSlots(swapTable0, pageTable.Length) then None else slots0[s])
      && (forall v :: v in swapTable <==> v in swapTable0 && !(0 <= v < pageTable.Length))
      && (forall v :: v in swapTable ==> swapTable[v] == swapTable0[v])
    }

    /** The frame pass of unloadSections, with its two ways of failing. */
    method FreeOwnFrames() returns (completed: bool)
      requires Valid()
      modifies kernel.ipt
      ensures completed == UnloadCompletes(old(kernel.ipt[..]), pageTable.Length)
      ensures var stop := UnloadStop(old(kernel.ipt[..]), pageTable.Length);
        forall f :: 0 <= f < kernel.ipt.Length ==>
          kernel.ipt[f] == if f < stop then Unloaded(old(kernel.ipt[f])) else old(kernel.ipt[f])
    {
      ghost var stop := UnloadStop(kernel.ipt[..], pageTable.Length);
      var i := 0;
      while i < kernel.ipt.Length
        invariant 0 <= i <= stop
        invariant forall f :: 0 <= f < kernel.ipt.Length ==>
          kernel.ipt[f] == if f < i then Unloaded(old(kernel.ipt[f])) else old(kernel.ipt[f])
      {
        var pf := kernel.ipt[i];
        if pf.entry.None? {
          return false;
        }
        match pf.entry.value {
          case Mapped(v) =>
            kernel.ipt[i] := pf.(entry := None);
          case Detached(e) =>
            if !(0 <= e.vpn < pageTable.Length) {
              return false;
            }
        }
        i := i + 1;
      }
      completed := true;
    }

    /** The swap pass of unloadSections: frees the swap slot of every page of this table that has one. */
    method ReleaseSwap()
      requires forall v :: v in swapTable ==> 0 <= swapTable[v] < |kernel.freeSwapPages|
      modifies kernel`freeSwapPages, this`swapTable
      ensures SwapReleased(old(swapTable), old(kernel.freeSwapPages))
    {
      ghost var st0 := swapTable;
      var i := 0;
      while i < pageTable.Length
        invariant 0 <= i <= pageTable.Length
        invariant |kernel.freeSwapPages| == |old(kernel.freeSwapPages)|
        invariant forall s :: 0 <= s < |kernel.freeSwapPages| ==>
          kernel.freeSwapPages[s] == if s in ReleasedSlots(st0, i) then None else old(kernel.freeSwapPages[s])
        invariant forall v :: v in swapTable <==> v in st0 && !(0 <= v < i)
        invariant forall v :: v in swapTable ==> swapTable[v] == st0[v]
      {
        if i in swapTable {
          kernel.freeSwapPages := kernel.freeSwapPages[swapTable[i] := None];
          swapTable := swapTable - {i};
        }
        i := i + 1;
      }
    }

    /**
     * unloadSections with the frame pass guarded: free frames and owners from
     * outside this table are skipped, so the pass always completes, and the
     * swap pass always runs.
     */
    method UnloadSectionsSafe()
      requires Valid()
      modifies kernel.ipt, kernel`freeSwapPages, this`swapTable
      ensures forall f :: 0 <= f < kernel.ipt.Length ==> kernel.ipt[f] == Unloaded(old(kernel.ipt[f]))
      ensures forall f :: 0 <= f < kernel.ipt.Length ==>
        kernel.ipt[f].entry.Some? ==> kernel.ipt[f].entry.value.Detached?
      ensures SwapReleased(old(swapTable), old(kernel.freeSwapPages))
    {
      var i := 0;
      while i < kernel.ipt.Length
        invariant 0 <= i <= kernel.ipt.Length
        invariant forall f :: 0 <= f < kernel.ipt.Length ==>
          kernel.ipt[f] == if f < i then Unloaded(old(kernel.ipt[f])) else old(kernel.ipt[f])
        invariant swapTable == old(swapTable) && kernel.freeSwapPages == old(kernel.freeSwapPages)
      {
        var pf := kernel.ipt[i];
        if pf.entry.Some? && pf.entry.value.Mapped? {
          kernel.ipt[i] := pf.(entry := None);
        }
        i := i + 1;
      }
      ReleaseSwap();
    }
  }
}
