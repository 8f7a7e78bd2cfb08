/**
 * The kernel-wide tables of the demand-paging kernel: the inverted page table
 * (one record per physical frame: its owning translation entry and a pin count),
 * the clock hand, the pinned-page counter and the swap-slot list.
 */
module VMKernel {
  import opened Wrappers
  import opened Machine

  /**
   * The owner of a frame. The source stores a reference to a mutable
   * translation-entry object; here the reference is an index when the object
   * is an entry of the modelled process's page table (Mapped(vpn) stands for
   * pageTable[vpn]), and the entry itself when the object lives nowhere else
   * the model can see (the placeholder a free-frame claim installs, or an
   * entry of another process's page table).
   */
  datatype EntryRef = Mapped(vpn: int) | Detached(entry: TranslationEntry)

  /** One record of the inverted page table. */
  datatype PageFrame = PageFrame(entry: Option<EntryRef>, pinCount: int)

  /** The PageFrame constructor: a record owned by `entry` and not pinned. */
  function NewPageFrame(entry: Option<EntryRef>): (f: PageFrame)
    ensures f.entry == entry && f.pinCount == 0
  {
    PageFrame(entry, 0)
  }

  /** Hands frame `f` to a new owner; whatever pins `f` carried are dropped. */
  function ModifyPageFrame(f: PageFrame, entry: Option<EntryRef>): (g: PageFrame)
    ensures g.entry == entry && g.pinCount == 0
    ensures g == NewPageFrame(entry)
  {
    f.(entry := entry, pinCount := 0)
  }

  /** Sum of the pin counts of all frames. */
  function SumPins(frames: seq<PageFrame>): int
  {
    if frames == [] then 0 else SumPins(frames[..|frames| - 1]) + frames[|frames| - 1].pinCount
  }

  lemma {:induction false} SumPinsUnpinned(frames: seq<PageFrame>)
    requires forall i :: 0 <= i < |frames| ==> frames[i].pinCount == 0
    ensures SumPins(frames) == 0
  {
    if frames != [] {
      SumPinsUnpinned(frames[..|frames| - 1]);
    }
  }

  /** Replacing one frame record changes the pin sum by the difference of the two pin counts. */
  lemma {:induction false} SumPinsUpdate(frames: seq<PageFrame>, i: int, x: PageFrame)
    requires 0 <= i < |frames|
    ensures SumPins(frames[i := x]) == SumPins(frames) - frames[i].pinCount + x.pinCount
  {
    var n := |frames|;
    var updated := frames[i := x];
    if i < n - 1 {
      assert updated[..n - 1] == frames[..n - 1][i := x];
      SumPinsUpdate(frames[..n - 1], i, x);
    } else {
      assert updated[..n - 1] == frames[..n - 1];
    }
  }

  datatype PinOp = Pin(ppn: int) | Unpin(ppn: int)

  class VMKernel {
    /** The inverted page table, one record per physical frame. */
    const ipt: array<PageFrame>
    /** The clock hand of the second-chance victim search. */
    var victim: int
    var numOfPinnedPages: int
    /** Swap-slot list: None is a free slot, Some(i) an occupied slot i. */
    var freeSwapPages: seq<Option<int>>
    /** Contents of the swap file, by slot (slot i is bytes [i*PageSize, (i+1)*PageSize)). */
    var swap: map<int, seq<byte>>

    /** The pinned-page counter agrees with the frames' pin counts. */
    ghost predicate PinsBalanced()
      reads this, ipt
    {
      numOfPinnedPages == SumPins(ipt[..])
    }

    /** VMKernel.initialize: every frame free and unpinned, hand at frame 0, no swap slots. */
    constructor Initialize(numPhysPages: nat)
      ensures fresh(ipt) && ipt.Length == numPhysPages
      ensures forall i :: 0 <= i < ipt.Length ==> ipt[i] == PageFrame(None, 0)
      ensures victim == 0 && numOfPinnedPages == 0
      ensures freeSwapPages == [] && swap == map[]
      ensures PinsBalanced()
    {
      freeSwapPages := [];
      victim := 0;
      numOfPinnedPages := 0;
      var frames := new PageFrame[numPhysPages](_ => NewPageFrame(None));
      var i := 0;
      while i < frames.Length
        invariant 0 <= i <= frames.Length
        invariant forall j :: 0 <= j < i ==> frames[j] == PageFrame(None, 0)
      {
        frames[i] := NewPageFrame(None);
        i := i + 1;
      }
      ipt := frames;
      swap := map[];
      new;
      SumPinsUnpinned(ipt[..]);
    }

    method PinPage(ppn: int)
      requires 0 <= ppn < ipt.Length
      modifies this, ipt
      ensures ipt[..] == old(ipt[..])[ppn := old(ipt[ppn]).(pinCount := old(ipt[ppn].pinCount) + 1)]
      ensures numOfPinnedPages == old(numOfPinnedPages) + 1
      ensures victim == old(victim) && freeSwapPages == old(freeSwapPages) && swap == old(swap)
      ensures old(PinsBalanced()) ==> PinsBalanced()
    {
      SumPinsUpdate(ipt[..], ppn, ipt[ppn].(pinCount := ipt[ppn].pinCount + 1));
      numOfPinnedPages := numOfPinnedPages + 1;
      ipt[ppn] := ipt[ppn].(pinCount := ipt[ppn].pinCount + 1);
    }

    method UnpinPage(ppn: int)
      requires 0 <= ppn < ipt.Length
      modifies this, ipt
      ensures ipt[..] == old(ipt[..])[ppn := old(ipt[ppn]).(pinCount := old(ipt[ppn].pinCount) - 1)]
      ensures numOfPinnedPages == old(numOfPinnedPages) - 1
      ensures victim == old(victim) && freeSwapPages == old(freeSwapPages) && swap == old(swap)
      ensures old(PinsBalanced()) ==> PinsBalanced()
    {
      SumPinsUpdate(ipt[..], ppn, ipt[ppn].(pinCount := ipt[ppn].pinCount - 1));
      numOfPinnedPages := numOfPinnedPages - 1;
      ipt[ppn] := ipt[ppn].(pinCount := ipt[ppn].pinCount - 1);
    }

    /** Pinning a frame and unpinning it again leaves the kernel as it was. */
    method PinThenUnpin(ppn: int)
      requires 0 <= ppn < ipt.Length
      modifies this, ipt
      ensures ipt[..] == old(ipt[..]) && numOfPinnedPages == old(numOfPinnedPages)
      ensures victim == old(victim) && freeSwapPages == old(freeSwapPages) && swap == old(swap)
    {
      PinPage(ppn);
      UnpinPage(ppn);
    }

    /** Any sequence of pins and unpins keeps the counter equal to the sum of pin counts. */
    method ApplyPinOps(ops: seq<PinOp>)
      requires PinsBalanced()
      requires forall k :: 0 <= k < |ops| ==> 0 <= ops[k].ppn < ipt.Length
      modifies this, ipt
      ensures PinsBalanced()
      ensures forall i :: 0 <= i < ipt.Length ==> ipt[i].entry == old(ipt[i].entry)
      ensures victim == old(victim) && freeSwapPages == old(freeSwapPages) && swap == old(swap)
    {
      var k := 0;
      while k < |ops|
        invariant 0 <= k <= |ops|
        invariant PinsBalanced()
        invariant forall i :: 0 <= i < ipt.Length ==> ipt[i].entry == old(ipt[i].entry)
        invariant victim == old(victim) && freeSwapPages == old(freeSwapPages) && swap == old(swap)
      {
        match ops[k] {
          case Pin(p) => PinPage(p);
          case Unpin(p) => UnpinPage(p);
        }
        k := k + 1;
      }
    }
  }
}
