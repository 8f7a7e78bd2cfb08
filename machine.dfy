/**
 * The simulated MIPS machine as the kernel sees it: page geometry, translation
 * entries, COFF section descriptors, and the processor's physical memory and TLB.
 */
module Machine {
  /** An 8-bit byte of memory, as its unsigned bit pattern. */
  newtype byte = b: int | 0 <= b < 0x100

  /** Size of a page and of a physical frame, in bytes (Processor.pageSize, 0x400). */
  const PageSize: int := 1024

  /** A virtual-to-physical mapping, as held by page tables, the TLB and the frame registry. */
  datatype TranslationEntry = TranslationEntry(
    vpn: int, ppn: int, valid: bool, readOnly: bool, used: bool, dirty: bool)

  /** The blank entry the fault handler writes into a TLB slot it invalidates. */
  const InvalidTLBEntry: TranslationEntry := TranslationEntry(0, -1, false, false, false, false)

  /** One section of a COFF executable: the pages [firstVPN, firstVPN + length). */
  datatype CoffSection = CoffSection(firstVPN: int, length: int, readOnly: bool)

  predicate Covers(s: CoffSection, vpn: int) {
    s.firstVPN <= vpn < s.firstVPN + s.length
  }

  function PageFromAddress(vaddr: int): int
    requires vaddr >= 0
  {
    vaddr / PageSize
  }

  function OffsetFromAddress(vaddr: int): int
    requires vaddr >= 0
  {
    vaddr % PageSize
  }

  /** A page-aligned address is its page number times the page size, and the next page is aligned too. */
  lemma AlignedAddress(a: int)
    requires 0 <= a && a % PageSize == 0
    ensures a == PageFromAddress(a) * PageSize
    ensures (a + PageSize) % PageSize == 0
  {
  }

  /** Copying to the end of the page holding `vaddr` stops at the next page boundary. */
  lemma PageRemainder(vaddr: int)
    requires 0 <= vaddr
    ensures vaddr + (PageSize - OffsetFromAddress(vaddr)) == (PageFromAddress(vaddr) + 1) * PageSize
    ensures (vaddr + (PageSize - OffsetFromAddress(vaddr))) % PageSize == 0
  {
  }

  /** The bytes of physical frame `ppn`. */
  function FrameBytes(mem: seq<byte>, ppn: int): (r: seq<byte>)
    requires 0 <= ppn && (ppn + 1) * PageSize <= |mem|
    ensures |r| == PageSize
  {
    mem[ppn * PageSize .. (ppn + 1) * PageSize]
  }

  /** Frame `f` of an `n`-frame memory lies inside it. */
  lemma FrameInMemory(f: int, n: int)
    requires 0 <= f < n
    ensures 0 <= f * PageSize && (f + 1) * PageSize <= n * PageSize
  {
  }

  const ZeroPage: seq<byte> := seq(PageSize, _ => 0 as byte)

  /** Memory `mem` with frame `ppn` replaced by `content`. */
  function WithFrame(mem: seq<byte>, ppn: int, content: seq<byte>): (r: seq<byte>)
    requires 0 <= ppn && (ppn + 1) * PageSize <= |mem| && |content| == PageSize
    ensures |r| == |mem|
    ensures forall i :: 0 <= i < |r| ==>
      r[i] == if ppn * PageSize <= i < (ppn + 1) * PageSize then content[i - ppn * PageSize] else mem[i]
  {
    mem[..ppn * PageSize] + content + mem[(ppn + 1) * PageSize..]
  }

  /** Writing a frame puts exactly `content` in it and leaves every other frame as it was. */
  lemma WithFrameReads(mem: seq<byte>, ppn: int, content: seq<byte>, g: int)
    requires 0 <= ppn && (ppn + 1) * PageSize <= |mem| && |content| == PageSize
    requires 0 <= g && (g + 1) * PageSize <= |mem|
    ensures FrameBytes(WithFrame(mem, ppn, content), g) == if g == ppn then content else FrameBytes(mem, g)
  {
    var r := WithFrame(mem, ppn, content);
    if g == ppn {
      assert forall i :: 0 <= i < PageSize ==> FrameBytes(r, g)[i] == r[g * PageSize + i];
    } else {
      assert forall i :: 0 <= i < PageSize ==> FrameBytes(r, g)[i] == r[g * PageSize + i];
      assert forall i :: 0 <= i < PageSize ==> FrameBytes(mem, g)[i] == mem[g * PageSize + i];
    }
  }

  /** The machine: one flat byte array of physical memory and a fixed-size TLB. */
  class Processor {
    const memory: array<byte>
    const tlb: array<TranslationEntry>

    constructor (numPhysPages: nat, tlbSize: nat)
      ensures memory.Length == numPhysPages * PageSize && tlb.Length == tlbSize
      ensures fresh(memory) && fresh(tlb)
      ensures forall i :: 0 <= i < tlb.Length ==> !tlb[i].valid
    {
      memory := new byte[numPhysPages * PageSize];
      tlb := new TranslationEntry[tlbSize](_ => InvalidTLBEntry);
    }
  }
}
