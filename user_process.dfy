/**
 * A user process with an eagerly loaded address space: every page gets a
 * frame from the kernel's free-page stack when the program is loaded, and
 * system calls copy bytes between the process's virtual memory and kernel
 * buffers through its page table.
 */
module UserProcess {
  import opened Wrappers
  import opened Machine
  import opened UserSpec

  /** An open file as a descriptor-table slot holds it; the file system behind it is not modelled. */
  datatype OpenFile = ConsoleReader | ConsoleWriter | FileOf(name: seq<byte>)

  /** The entry loadSections gives page `v`: the v-th popped free frame, valid, read-only as `ro` says. */
  function EagerEntry(free: seq<int>, v: int, ro: bool): TranslationEntry
    requires 0 <= v < |free|
  {
    TranslationEntry(v, free[v], true, ro, false, false)
  }

  /** One of the first `k` sections is read-only and covers page `v`. */
  predicate ReadOnlyIn(sections: seq<CoffSection>, k: int, v: int)
    requires 0 <= k <= |sections|
  {
    k > 0 && (ReadOnlyIn(sections, k - 1, v) || (sections[k - 1].readOnly && Covers(sections[k - 1], v)))
  }

  /** The scan over the first `k` sections marks page `v` read-only exactly when some read-only one of them covers it. */
  lemma {:induction false} ReadOnlyInIff(sections: seq<CoffSection>, k: int, v: int)
    requires 0 <= k <= |sections|
    ensures ReadOnlyIn(sections, k, v) <==> exists s :: 0 <= s < k && sections[s].readOnly && Covers(sections[s], v)
  {
    if k > 0 {
      ReadOnlyInIff(sections, k - 1, v);
      if sections[k - 1].readOnly && Covers(sections[k - 1], v) {
        assert exists s :: 0 <= s < k && sections[s].readOnly && Covers(sections[s], v) by {
          assert 0 <= k - 1 < k && sections[k - 1].readOnly && Covers(sections[k - 1], v);
        }
      }
    }
  }

  /** The page table loadSections builds from free-page stack `free` for an `n`-page process. */
  function EagerTable(free: seq<int>, n: int, sections: seq<CoffSection>): (r: seq<TranslationEntry>)
    requires 0 <= n <= |free|
    ensures |r| == n
    ensures forall v :: 0 <= v < n ==> r[v].vpn == v && r[v].ppn == free[v] && r[v].valid
  {
    seq(n, v requires 0 <= v < n => EagerEntry(free, v, ReadOnlyIn(sections, |sections|, v)))
  }

  /** Every frame on the free-page stack lies inside a memory of `memLen` bytes. */
  ghost predicate FreeFramesFit(free: seq<int>, memLen: int)
  {
    forall i :: 0 <= i < |free| ==> 0 <= free[i] && (free[i] + 1) * PageSize <= memLen
  }

  /** A table built from frames that fit in memory maps every page inside memory. */
  lemma EagerTableMapped(free: seq<int>, n: int, sections: seq<CoffSection>, memLen: int)
    requires 0 <= n <= |free| && FreeFramesFit(free, memLen)
    ensures FramesInMemory(EagerTable(free, n, sections), memLen)
  {
    var t := EagerTable(free, n, sections);
    forall v | 0 <= v < n
      ensures FrameFits(t[v], memLen)
    {
      assert t[v].ppn == free[v];
    }
  }

  /** The stack after pushing `xs` in order onto `stack` (the top is the front). */
  function Pushed(xs: seq<int>, stack: seq<int>): (r: seq<int>)
    ensures |r| == |xs| + |stack|
  {
    if |xs| == 0 then stack else Pushed(xs[1..], [xs[0]] + stack)
  }

  /** Pushing moves the pushed values onto the stack and loses nothing. */
  lemma {:induction false} PushedKeepsAll(xs: seq<int>, stack: seq<int>)
    ensures multiset(Pushed(xs, stack)) == multiset(xs) + multiset(stack)
  {
    if |xs| > 0 {
      PushedKeepsAll(xs[1..], [xs[0]] + stack);
      assert xs == [xs[0]] + xs[1..];
    }
  }

  /** Pushing one more value puts it on top of the rest. */
  lemma {:induction false} PushedSnoc(xs: seq<int>, x: int, stack: seq<int>)
    ensures Pushed(xs + [x], stack) == [x] + Pushed(xs, stack)
    decreases |xs|
  {
    if |xs| == 0 {
      assert xs + [x] == [x];
    } else {
      assert (xs + [x])[1..] == xs[1..] + [x];
      PushedSnoc(xs[1..], x, [xs[0]] + stack);
    }
  }

  function PageNumbers(pt: seq<TranslationEntry>): (r: seq<int>)
    ensures |r| == |pt| && forall v :: 0 <= v < |pt| ==> r[v] == pt[v].vpn
  {
    seq(|pt|, v requires 0 <= v < |pt| => pt[v].vpn)
  }

  function FrameNumbers(pt: seq<TranslationEntry>): (r: seq<int>)
    ensures |r| == |pt| && forall v :: 0 <= v < |pt| ==> r[v] == pt[v].ppn
  {
    seq(|pt|, v requires 0 <= v < |pt| => pt[v].ppn)
  }

  /** Returning the frames of the page table loadSections built restores the free-page multiset. */
  lemma LoadThenUnloadRestoresFreePages(free: seq<int>, n: int, sections: seq<CoffSection>)
    requires 0 <= n <= |free|
    ensures multiset(Pushed(FrameNumbers(EagerTable(free, n, sections)), free[n..])) == multiset(free)
  {
    PushedKeepsAll(FrameNumbers(EagerTable(free, n, sections)), free[n..]);
    assert FrameNumbers(EagerTable(free, n, sections)) == free[..n];
    assert free[..n] + free[n..] == free;
  }

  /**
   * Returning page numbers instead: a one-page process loaded from the free
   * list [5] holds frame 5, and unloading it as written leaves [0] on the
   * list, losing frame 5 and offering frame 0, which may be in use.
   */
  lemma UnloadReturnsPageNumbers()
    ensures EagerTable([5], 1, [])[0].ppn == 5
    ensures Pushed(PageNumbers(EagerTable([5], 1, [])), []) == [0]
  {
    assert PageNumbers(EagerTable([5], 1, [])) == [0];
  }

  /** A 3-byte read into a 10-byte request stores 10 bytes: 7 zeros the file never supplied. */
  lemma ShortReadPadsWithZeros()
    ensures var b := PaddedBuffer([1, 2, 3], 10); |b| == 10 && b[3..] == seq(7, _ => 0 as byte)
  {
  }

  /**
   * After a short read (fewer bytes than requested), writing the padded
   * buffer puts a zero at the address just past the delivered bytes, where
   * writing only the delivered bytes leaves memory as it was.
   */
  lemma ShortReadOverwrites(mem: seq<byte>, pt: seq<TranslationEntry>, vaddr: int, got: seq<byte>, count: int)
    requires FramesInMemory(pt, |mem|) && PagesDistinct(pt)
    requires 0 <= vaddr && |got| < count && vaddr + count <= |pt| * PageSize
    ensures 0 <= Translate(pt, vaddr + |got|) < |mem|
    ensures WriteSpec(mem, pt, vaddr, PaddedBuffer(got, count))[Translate(pt, vaddr + |got|)] == 0
    ensures WriteSpec(mem, pt, vaddr, got)[Translate(pt, vaddr + |got|)] == mem[Translate(pt, vaddr + |got|)]
  {
    var p := Translate(pt, vaddr + |got|);
    WriteSpecAt(mem, pt, vaddr, PaddedBuffer(got, count), vaddr + |got|);
    forall a | vaddr <= a < vaddr + |got|
      ensures Translate(pt, a) != p
    {
      if Translate(pt, a) == p {
        TranslateInjective(pt, a, vaddr + |got|);
      }
    }
    WriteSpecUntouched(mem, pt, vaddr, got, p);
  }


  /**
   * Copying the physical run that the `count` addresses after the first
   * `done` from `vaddr` translate to, into a buffer that holds the read of
   * those first `done` bytes, extends that read by `count` bytes.
   */
  lemma ReadExtends(mem: seq<byte>, pt: seq<TranslationEntry>, vaddr: int, done: int, count: int,
                    vpn: int, off: int, base: int, d0: seq<byte>, d1: seq<byte>, at: int)
    requires FramesInMemory(pt, |mem|) && 0 <= vaddr && 0 <= done && 0 <= count
    requires 0 <= vpn < |pt| && 0 <= off && off + count <= PageSize && vaddr + done == vpn * PageSize + off
    requires base == pt[vpn].ppn * PageSize + off && 0 <= base && base + count <= |mem|
    requires 0 <= at && at + done + count <= |d0| && d0[at..at + done] == ReadSpec(mem, pt, vaddr, done)
    requires d1 == d0[..at + done] + mem[base..base + count] + d0[at + done + count..]
    ensures vaddr + done + count <= |pt| * PageSize
    ensures d1[at..at + done + count] == ReadSpec(mem, pt, vaddr, done + count)
    ensures forall j :: 0 <= j < |d0| && !(at + done <= j < at + done + count) ==> d1[j] == d0[j]
  {
    TranslatePageRun(pt, vaddr + done, count, vpn, off, base);
    ReadSpecContiguous(mem, pt, vaddr + done, count, base);
    ReadSpecAppend(mem, pt, vaddr, done, count);
    Spliced(d0, d1, at, done, mem[base..base + count]);
  }

  /**
   * Storing the `count` bytes of `d` after the first `done` from `at` into
   * the physical run their addresses translate to, in a memory that holds
   * the write of those first `done` bytes, extends that write by `count` bytes.
   */
  lemma WriteExtends(mem0: seq<byte>, pt: seq<TranslationEntry>, vaddr: int, d: seq<byte>, at: int, done: int, count: int,
                     vpn: int, off: int, base: int)
    requires FramesInMemory(pt, |mem0|) && 0 <= vaddr && 0 <= done && 0 <= count
    requires 0 <= vpn < |pt| && 0 <= off && off + count <= PageSize && vaddr + done == vpn * PageSize + off
    requires base == pt[vpn].ppn * PageSize + off && 0 <= base && base + count <= |mem0|
    requires 0 <= at && at + done + count <= |d|
    ensures vaddr + done + count <= |pt| * PageSize
    ensures var m := WriteSpec(mem0, pt, vaddr, d[at..at + done]);
      WriteSpec(mem0, pt, vaddr, d[at..at + done + count]) == m[..base] + d[at + done..at + done + count] + m[base + count..]
  {
    var prefix := d[at..at + done];
    var chunk := d[at + done..at + done + count];
    assert prefix + chunk == d[at..at + done + count];
    TranslatePageRun(pt, vaddr + done, count, vpn, off, base);
    WriteSpecExtend(mem0, pt, vaddr, prefix, chunk, base);
  }

  /** Splicing `chunk` into `d0` right after `done` bytes from `at` extends that run and keeps every other byte. */
  lemma Spliced(d0: seq<byte>, d1: seq<byte>, at: int, done: int, chunk: seq<byte>)
    requires 0 <= at && 0 <= done && at + done + |chunk| <= |d0|
    requires d1 == d0[..at + done] + chunk + d0[at + done + |chunk|..]
    ensures d1[at..at + done + |chunk|] == d0[at..at + done] + chunk
    ensures forall j :: 0 <= j < |d0| && !(at + done <= j < at + done + |chunk|) ==> d1[j] == d0[j]
  {
    assert d1[at..at + done + |chunk|] == d1[at..at + done] + d1[at + done..at + done + |chunk|];
  }

  /** A sequence that agrees with `c` on `base..base + |c|` and with `m0` elsewhere is `c` spliced into `m0`. */
  lemma PointwiseSplice(m0: seq<byte>, m1: seq<byte>, base: int, c: seq<byte>)
    requires |m1| == |m0| && 0 <= base && base + |c| <= |m0|
    requires forall j :: 0 <= j < |m1| ==> m1[j] == if base <= j < base + |c| then c[j - base] else m0[j]
    ensures m1 == m0[..base] + c + m0[base + |c|..]
  {
    var spliced := m0[..base] + c + m0[base + |c|..];
    assert forall j :: 0 <= j < |m1| ==> m1[j] == spliced[j];
  }

  /**
   * Installing `file` in the lowest empty slot of a descriptor table: the
   * new descriptor and table, or -1 and the table unchanged when it is full.
   */
  function Install(table: seq<Option<OpenFile>>, file: OpenFile): (r: (int, seq<Option<OpenFile>>))
    ensures |r.1| == |table|
    ensures r.0 == -1 <==> forall j :: 0 <= j < |table| ==> table[j].Some?
    ensures r.0 == -1 ==> r.1 == table
    ensures r.0 != -1 ==> 0 <= r.0 < |table| && table[r.0].None? && forall j :: 0 <= j < r.0 ==> table[j].Some?
    ensures r.0 != -1 ==> r.1[r.0] == Some(file) && forall j :: 0 <= j < |table| && j != r.0 ==> r.1[j] == table[j]
  {
    match FirstEmptySlot(table)
    case None => (-1, table)
    case Some(i) => (i, table[i := Some(file)])
  }

  /** The kernel's stack of free physical frames (UserKernel.freePages); the top is the front. */
  class UserKernel {
    var freePages: seq<int>

    constructor (frames: seq<int>)
      ensures freePages == frames
    {
      freePages := frames;
    }
  }

  class UserProcess {
    const machine: Processor
    const kernel: UserKernel
    var pageTable: array<TranslationEntry>
    var numPages: int
    var initialSP: int
    var argc: int
    var argv: int
    const fileTable: array<Option<OpenFile>>

    /** The fixed-size descriptor table and the arrays the process touches are distinct. */
    ghost predicate Valid()
      reads this
    {
      && fileTable.Length == MaxOpenFiles
      && machine.memory as object != pageTable
      && machine.memory as object != fileTable
      && pageTable as object != fileTable
    }

    /** The current page table maps every page to a whole frame of physical memory. */
    ghost predicate Mapped()
      reads this, pageTable
    {
      FramesInMemory(pageTable[..], machine.memory.Length)
    }

    /** A new process: descriptors 0 and 1 are the console, the rest are free. */
    constructor (machine: Processor, kernel: UserKernel)
      ensures this.machine == machine && this.kernel == kernel && Valid()
      ensures fileTable[0] == Some(ConsoleReader) && fileTable[1] == Some(ConsoleWriter)
      ensures forall i :: 2 <= i < MaxOpenFiles ==> fileTable[i].None?
      ensures pageTable.Length == 0 && numPages == 0
    {
      this.machine := machine;
      this.kernel := kernel;
      var table := new Option<OpenFile>[MaxOpenFiles](_ => None);
      table[0] := Some(ConsoleReader);
      table[1] := Some(ConsoleWriter);
      fileTable := table;
      pageTable := new TranslationEntry[0];
      numPages := 0;
    }

    // -------------------------------------------------------------------
    // Copies between virtual memory and kernel buffers

    /**
     * readVirtualMemory: copies up to `length` bytes from virtual address
     * `vaddr` into `data` from `offset`, page by page: first to the end of
     * the first page, then whole pages, stopping early when the next page is
     * past the page table. Nothing is copied from an address outside the
     * process's pages.
     */
    method ReadVirtualMemory(vaddr: int, data: array<byte>, offset: int, length: int) returns (n: int)
      requires Valid() && Mapped()
      requires 0 <= offset && 0 <= length && offset + length <= data.Length && data != machine.memory && data as object != pageTable
      modifies data
      ensures n == TransferCount(vaddr, length, numPages, pageTable.Length)
      ensures data[offset..offset + n] == ReadSpec(machine.memory[..], pageTable[..], vaddr, n)
      ensures forall j :: 0 <= j < data.Length && !(offset <= j < offset + n) ==> data[j] == old(data[j])
    {
      if vaddr < 0 || vaddr >= numPages * PageSize {
        return 0;
      }
      var vpn := PageFromAddress(vaddr);
      var off := OffsetFromAddress(vaddr);
      if vpn >= pageTable.Length {
        return 0;
      }
      var transfer := if length < PageSize - off then length else PageSize - off;
      PageRemainder(vaddr);
      CopyOut(vaddr, data, offset, 0, transfer);
      n := ReadRemainingPages(vaddr, data, offset, transfer, length);
    }

    /**
     * readVirtualMemory's loop: with the first `n0` bytes from `vaddr` in
     * `data` at `offset`, copies page after page until `length` bytes are in
     * or the next page is past the page table.
     */
    method ReadRemainingPages(vaddr: int, data: array<byte>, offset: int, n0: int, length: int) returns (n: int)
      requires Valid() && Mapped()
      requires 0 <= vaddr && 0 <= n0 <= length && (n0 < length ==> (vaddr + n0) % PageSize == 0)
      requires vaddr + n0 <= pageTable.Length * PageSize
      requires 0 <= offset && offset + length <= data.Length && data != machine.memory && data as object != pageTable
      requires data[offset..offset + n0] == ReadSpec(machine.memory[..], pageTable[..], vaddr, n0)
      modifies data
      ensures n0 <= n <= length && vaddr + n <= pageTable.Length * PageSize
      ensures n == length || vaddr + n == pageTable.Length * PageSize
      ensures data[offset..offset + n] == ReadSpec(machine.memory[..], pageTable[..], vaddr, n)
      ensures forall j :: 0 <= j < data.Length && !(offset + n0 <= j < offset + n) ==> data[j] == old(data[j])
    {
      n := n0;
      while n < length
        invariant n0 <= n <= length
        invariant n < length ==> (vaddr + n) % PageSize == 0
        invariant vaddr + n <= pageTable.Length * PageSize
        invariant data[offset..offset + n] == ReadSpec(machine.memory[..], pageTable[..], vaddr, n)
        invariant forall j :: 0 <= j < data.Length && !(offset + n0 <= j < offset + n) ==> data[j] == old(data[j])
      {
        var next := CopyNextPage(vaddr, data, offset, n, length);
        if next == n {
          return;
        }
        n := next;
      }
    }

    /**
     * One turn of readVirtualMemory's loop: `n` bytes from `vaddr` are in
     * `data` at `offset` and `vaddr + n` starts a page; copies up to a page
     * more, or nothing when that page is past the page table.
     */
    method CopyNextPage(vaddr: int, data: array<byte>, offset: int, n: int, length: int) returns (next: int)
      requires Valid() && Mapped()
      requires 0 <= vaddr && 0 <= n < length && (vaddr + n) % PageSize == 0 && vaddr + n <= pageTable.Length * PageSize
      requires 0 <= offset && offset + length <= data.Length && data != machine.memory && data as object != pageTable
      requires data[offset..offset + n] == ReadSpec(machine.memory[..], pageTable[..], vaddr, n)
      modifies data
      ensures n <= next <= length
      ensures next == n <==> vaddr + n == pageTable.Length * PageSize
      ensures next < length ==> (vaddr + next) % PageSize == 0
      ensures vaddr + next <= pageTable.Length * PageSize
      ensures data[offset..offset + next] == ReadSpec(machine.memory[..], pageTable[..], vaddr, next)
      ensures forall j :: 0 <= j < data.Length && !(offset + n <= j < offset + next) ==> data[j] == old(data[j])
    {
      var vpn := PageFromAddress(vaddr + n);
      AlignedAddress(vaddr + n);
      if vpn >= pageTable.Length {
        return n;
      }
      var transfer := if length - n < PageSize then length - n else PageSize;
      CopyOut(vaddr, data, offset, n, transfer);
      next := n + transfer;
    }

    /**
     * One System.arraycopy out of memory: given the first `done` bytes from
     * `vaddr` already in `data` at `at`, copies the next `count`, which lie in
     * one page, right after them.
     */
    method CopyOut(vaddr: int, data: array<byte>, at: int, done: int, count: int)
      requires Valid() && Mapped()
      requires 0 <= vaddr && 0 <= done && (vaddr + done) / PageSize < pageTable.Length
      requires 0 <= count && (vaddr + done) % PageSize + count <= PageSize
      requires 0 <= at && at + done + count <= data.Length && data != machine.memory && data as object != pageTable
      requires data[at..at + done] == ReadSpec(machine.memory[..], pageTable[..], vaddr, done)
      modifies data
      ensures vaddr + done + count <= pageTable.Length * PageSize
      ensures data[at..at + (done + count)] == ReadSpec(machine.memory[..], pageTable[..], vaddr, done + count)
      ensures forall j :: 0 <= j < data.Length && !(at + done <= j < at + done + count) ==> data[j] == old(data[j])
    {
      var vpn := (vaddr + done) / PageSize;
      var off := (vaddr + done) % PageSize;
      var base := pageTable[vpn].ppn * PageSize + off;
      assert FrameFits(pageTable[..][vpn], machine.memory.Length);
      assert vaddr + done == vpn * PageSize + off;
      ghost var d0 := data[..];
      FetchRun(base, data, at + done, count);
      ReadExtends(machine.memory[..], pageTable[..], vaddr, done, count, vpn, off, base, d0, data[..], at);
    }

    /** The raw byte copy: physical bytes `base` onwards replace `count` bytes of `data` from `to`. */
    method FetchRun(base: int, data: array<byte>, to: int, count: int)
      requires 0 <= base && 0 <= count && base + count <= machine.memory.Length
      requires 0 <= to && to + count <= data.Length && data != machine.memory
      modifies data
      ensures data[..] == old(data[..to]) + machine.memory[base..base + count] + old(data[to + count..])
    {
      ghost var d0, chunk := data[..], machine.memory[base..base + count];
      forall j | to <= j < to + count {
        data[j] := machine.memory[base + (j - to)];
      }
      PointwiseSplice(d0, data[..], to, chunk);
    }

    /**
     * writeVirtualMemory: the mirror of ReadVirtualMemory, storing `data`
     * from `offset` at virtual address `vaddr` with the same bounds and early
     * stop.
     */
    method WriteVirtualMemory(vaddr: int, data: array<byte>, offset: int, length: int) returns (n: int)
      requires Valid() && Mapped()
      requires 0 <= offset && 0 <= length && offset + length <= data.Length && data != machine.memory
      modifies machine.memory
      ensures n == TransferCount(vaddr, length, numPages, pageTable.Length)
      ensures machine.memory[..] == WriteSpec(old(machine.memory[..]), pageTable[..], vaddr, data[offset..offset + n])
    {
      if vaddr < 0 || vaddr >= numPages * PageSize {
        return 0;
      }
      var vpn := PageFromAddress(vaddr);
      var off := OffsetFromAddress(vaddr);
      if vpn >= pageTable.Length {
        return 0;
      }
      ghost var mem0 := machine.memory[..];
      var transfer := if length < PageSize - off then length else PageSize - off;
      PageRemainder(vaddr);
      CopyIn(vaddr, data, offset, 0, transfer, mem0);
      n := WriteRemainingPages(vaddr, data, offset, transfer, length, mem0);
    }

    /**
     * writeVirtualMemory's loop: with memory `mem0` holding the first `n0`
     * bytes of `data` from `offset` stored from `vaddr`, stores page after
     * page until `length` bytes are stored or the next page is past the page
     * table.
     */
    method WriteRemainingPages(vaddr: int, data: array<byte>, offset: int, n0: int, length: int, ghost mem0: seq<byte>)
      returns (n: int)
      requires Valid() && Mapped() && |mem0| == machine.memory.Length
      requires 0 <= vaddr && 0 <= n0 <= length && (n0 < length ==> (vaddr + n0) % PageSize == 0)
      requires vaddr + n0 <= pageTable.Length * PageSize
      requires 0 <= offset && offset + length <= data.Length && data != machine.memory
      requires machine.memory[..] == WriteSpec(mem0, pageTable[..], vaddr, data[offset..offset + n0])
      modifies machine.memory
      ensures n0 <= n <= length && vaddr + n <= pageTable.Length * PageSize
      ensures n == length || vaddr + n == pageTable.Length * PageSize
      ensures machine.memory[..] == WriteSpec(mem0, pageTable[..], vaddr, data[offset..offset + n])
    {
      n := n0;
      while n < length
        invariant n0 <= n <= length
        invariant n < length ==> (vaddr + n) % PageSize == 0
        invariant vaddr + n <= pageTable.Length * PageSize
        invariant machine.memory[..] == WriteSpec(mem0, pageTable[..], vaddr, data[offset..offset + n])
      {
        var next := StoreNextPage(vaddr, data, offset, n, length, mem0);
        if next == n {
          return;
        }
        n := next;
      }
    }

    /**
     * One turn of writeVirtualMemory's loop: memory is `mem0` with `n` bytes
     * of `data` from `offset` stored from `vaddr`, and `vaddr + n` starts a
     * page; stores up to a page more, or nothing when that page is past the
     * page table.
     */
    method StoreNextPage(vaddr: int, data: array<byte>, offset: int, n: int, length: int, ghost mem0: seq<byte>)
      returns (next: int)
      requires Valid() && Mapped() && |mem0| == machine.memory.Length
      requires 0 <= vaddr && 0 <= n < length && (vaddr + n) % PageSize == 0 && vaddr + n <= pageTable.Length * PageSize
      requires 0 <= offset && offset + length <= data.Length && data != machine.memory
      requires machine.memory[..] == WriteSpec(mem0, pageTable[..], vaddr, data[offset..offset + n])
      modifies machine.memory
      ensures n <= next <= length
      ensures next == n <==> vaddr + n == pageTable.Length * PageSize
      ensures next < length ==> (vaddr + next) % PageSize == 0
      ensures vaddr + next <= pageTable.Length * PageSize
      ensures machine.memory[..] == WriteSpec(mem0, pageTable[..], vaddr, data[offset..offset + next])
    {
      var vpn := PageFromAddress(vaddr + n);
      AlignedAddress(vaddr + n);
      if vpn >= pageTable.Length {
        return n;
      }
      var transfer := if length - n < PageSize then length - n else PageSize;
      CopyIn(vaddr, data, offset, n, transfer, mem0);
      next := n + transfer;
    }

    /**
     * One System.arraycopy into memory: given that memory is `mem0` with the
     * first `done` bytes of `data` from `at` stored from `vaddr`, stores the
     * next `count`, which lie in one page, right after them.
     */
    method CopyIn(vaddr: int, data: array<byte>, at: int, done: int, count: int, ghost mem0: seq<byte>)
      requires Valid() && Mapped() && |mem0| == machine.memory.Length
      requires 0 <= vaddr && 0 <= done && (vaddr + done) / PageSize < pageTable.Length
      requires 0 <= count && (vaddr + done) % PageSize + count <= PageSize
      requires 0 <= at && at + done + count <= data.Length && data != machine.memory
      requires machine.memory[..] == WriteSpec(mem0, pageTable[..], vaddr, data[at..at + done])
      modifies machine.memory
      ensures vaddr + done + count <= pageTable.Length * PageSize
      ensures machine.memory[..] == WriteSpec(mem0, pageTable[..], vaddr, data[at..at + done + count])
    {
      var vpn := (vaddr + done) / PageSize;
      var off := (vaddr + done) % PageSize;
      var base := pageTable[vpn].ppn * PageSize + off;
      assert FrameFits(pageTable[..][vpn], machine.memory.Length);
      assert vaddr + done == vpn * PageSize + off;
      WriteExtends(mem0, pageTable[..], vaddr, data[..], at, done, count, vpn, off, base);
      StoreRun(base, data, at + done, count);
    }

    /** The raw byte copy: `count` bytes of `data` from `from` replace physical bytes `base` onwards. */
    method StoreRun(base: int, data: array<byte>, from: int, count: int)
      requires 0 <= base && 0 <= count && base + count <= machine.memory.Length
      requires 0 <= from && from + count <= data.Length && data != machine.memory
      modifies machine.memory
      ensures machine.memory[..] == old(machine.memory[..base]) + data[from..from + count] + old(machine.memory[base + count..])
    {
      ghost var m0, chunk := machine.memory[..], data[from..from + count];
      forall j | base <= j < base + count {
        machine.memory[j] := data[from + (j - base)];
      }
      PointwiseSplice(m0, machine.memory[..], base, chunk);
    }

    // -------------------------------------------------------------------
    // Allocating and releasing frames

    /**
     * loadSections: fails when the free-page stack holds fewer than
     * `numPages` frames; otherwise pops one frame per page into a fresh page
     * table and marks the pages of read-only sections read-only. Section
     * contents are not modelled.
     */
    method LoadSections(sections: seq<CoffSection>) returns (ok: bool)
      requires Valid() && 0 <= numPages && FreeFramesFit(kernel.freePages, machine.memory.Length)
      requires forall s :: 0 <= s < |sections| ==> 0 <= sections[s].firstVPN && sections[s].firstVPN + sections[s].length <= numPages
      modifies this`pageTable, kernel`freePages
      ensures Valid()
      ensures ok <==> numPages <= |old(kernel.freePages)|
      ensures !ok ==> kernel.freePages == old(kernel.freePages) && pageTable == old(pageTable)
      ensures ok ==> fresh(pageTable) && pageTable[..] == EagerTable(old(kernel.freePages), numPages, sections)
      ensures ok ==> kernel.freePages == old(kernel.freePages)[numPages..] && Mapped()
    {
      if numPages > |kernel.freePages| {
        return false;
      }
      ghost var free := kernel.freePages;
      var table := new TranslationEntry[numPages];
      var i := 0;
      while i < numPages
        invariant 0 <= i <= numPages && kernel.freePages == free[i..]
        invariant forall v :: 0 <= v < i ==> table[v] == EagerEntry(free, v, false)
      {
        table[i] := TranslationEntry(i, kernel.freePages[0], true, false, false, false);
        kernel.freePages := kernel.freePages[1..];
        i := i + 1;
      }
      pageTable := table;
      var s := 0;
      while s < |sections|
        invariant 0 <= s <= |sections| && pageTable == table && kernel.freePages == free[numPages..]
        invariant forall v :: 0 <= v < numPages ==> table[v] == EagerEntry(free, v, ReadOnlyIn(sections, s, v))
      {
        MarkSection(table, sections[s]);
        s := s + 1;
      }
      assert table[..] == EagerTable(free, numPages, sections);
      EagerTableMapped(free, numPages, sections, machine.memory.Length);
      return true;
    }

    /** loadSections' walk over one section's pages: each page of a read-only section becomes read-only. */
    static method MarkSection(table: array<TranslationEntry>, section: CoffSection)
      requires 0 <= section.firstVPN && section.firstVPN + section.length <= table.Length
      modifies table
      ensures forall v :: 0 <= v < table.Length ==>
        table[v] == if section.readOnly && Covers(section, v) then old(table[v]).(readOnly := true) else old(table[v])
    {
      var i := 0;
      while i < section.length
        invariant 0 <= i <= section.length || (section.length < 0 && i == 0)
        invariant forall v :: 0 <= v < table.Length ==>
          table[v] == if section.readOnly && section.firstVPN <= v < section.firstVPN + i then old(table[v]).(readOnly := true) else old(table[v])
      {
        var vpn := section.firstVPN + i;
        if section.readOnly {
          table[vpn] := table[vpn].(readOnly := true);
        }
        i := i + 1;
      }
    }

    /**
     * unloadSections as written: pushes each entry's virtual page number,
     * not its frame, back onto the free-page stack.
     */
    method UnloadSections()
      modifies kernel`freePages
      ensures kernel.freePages == Pushed(PageNumbers(pageTable[..]), old(kernel.freePages))
    {
      var i := 0;
      while i < pageTable.Length
        invariant 0 <= i <= pageTable.Length
        invariant kernel.freePages == Pushed(PageNumbers(pageTable[..i]), old(kernel.freePages))
      {
        assert PageNumbers(pageTable[..i + 1]) == PageNumbers(pageTable[..i]) + [pageTable[i].vpn];
        PushedSnoc(PageNumbers(pageTable[..i]), pageTable[i].vpn, old(kernel.freePages));
        kernel.freePages := [pageTable[i].vpn] + kernel.freePages;
        i := i + 1;
      }
      assert pageTable[..i] == pageTable[..];
    }

    /** unloadSections as intended: each entry's frame goes back onto the free-page stack. */
    method UnloadSectionsReturningFrames()
      modifies kernel`freePages
      ensures kernel.freePages == Pushed(FrameNumbers(pageTable[..]), old(kernel.freePages))
    {
      var i := 0;
      while i < pageTable.Length
        invariant 0 <= i <= pageTable.Length
        invariant kernel.freePages == Pushed(FrameNumbers(pageTable[..i]), old(kernel.freePages))
      {
        assert FrameNumbers(pageTable[..i + 1]) == FrameNumbers(pageTable[..i]) + [pageTable[i].ppn];
        PushedSnoc(FrameNumbers(pageTable[..i]), pageTable[i].ppn, old(kernel.freePages));
        kernel.freePages := [pageTable[i].ppn] + kernel.freePages;
        i := i + 1;
      }
      assert pageTable[..i] == pageTable[..];
    }

    // -------------------------------------------------------------------
    // Strings in virtual memory

    /** The string readVirtualMemoryString finds at `vaddr`: the bytes before the first zero among those readable. */
    ghost function StringAt(vaddr: int, maxLength: int): (r: Option<seq<byte>>)
      requires Mapped() && 0 <= maxLength
      reads this, pageTable, machine.memory
      ensures r.Some? ==> |r.value| <= maxLength && forall i :: 0 <= i < |r.value| ==> r.value[i] != 0
    {
      StringIn(machine.memory[..], pageTable[..], numPages, vaddr, maxLength)
    }

    /**
     * readVirtualMemoryString: reads up to `maxLength + 1` bytes from
     * `vaddr` into a fresh buffer and returns those before the first zero, or
     * None when no zero byte was read.
     */
    method ReadVirtualMemoryString(vaddr: int, maxLength: int) returns (r: Option<seq<byte>>)
      requires Valid() && Mapped() && 0 <= maxLength
      ensures r == StringAt(vaddr, maxLength)
    {
      ghost var mem, pt := machine.memory[..], pageTable[..];
      var bytes := new byte[maxLength + 1];
      var bytesRead := ReadVirtualMemory(vaddr, bytes, 0, maxLength + 1);
      assert bytes[..bytesRead] == ReadSpec(mem, pt, vaddr, TransferCount(vaddr, maxLength + 1, numPages, |pt|));
      r := FindTerminator(bytes, bytesRead);
      assert r == StringIn(mem, pt, numPages, vaddr, maxLength);
    }

    /** readVirtualMemoryString's scan: the bytes of `bytes[..n]` before its first zero, or None when it has none. */
    static method FindTerminator(bytes: array<byte>, n: int) returns (r: Option<seq<byte>>)
      requires 0 <= n <= bytes.Length
      ensures r == UntilTerminator(bytes[..n])
    {
      var length := 0;
      while length < n
        invariant 0 <= length <= n
        invariant forall i :: 0 <= i < length ==> bytes[i] != 0
      {
        if bytes[length] == 0 {
          UntilTerminatorAt(bytes[..n], length);
          assert bytes[..n][..length] == bytes[..length];
          return Some(bytes[..length]);
        }
        length := length + 1;
      }
      assert forall i :: 0 <= i < n ==> bytes[..n][i] != 0;
      return None;
    }

    // -------------------------------------------------------------------
    // The file-descriptor table

    /** The loop shared by creat and open: `file` goes into the lowest empty slot, whose index is returned, or -1 when none is empty. */
    method InstallFile(file: OpenFile) returns (fd: int)
      requires Valid()
      modifies fileTable
      ensures (fd, fileTable[..]) == Install(old(fileTable[..]), file)
    {
      var i := 0;
      while i < fileTable.Length
        invariant 0 <= i <= fileTable.Length && fileTable[..] == old(fileTable[..])
        invariant forall j :: 0 <= j < i ==> fileTable[j].Some?
      {
        if fileTable[i].None? {
          fileTable[i] := Some(file);
          return i;
        }
        i := i + 1;
      }
      return -1;
    }

    /**
     * creat and open: reads the file name at `nameAddress`, asks the file
     * system to open it (creating it when `create` is set) and installs the
     * file; -1 when the name is unreadable, the file system refuses or the
     * table is full. The file system is the function `fileSystem`.
     */
    method OpenNamed(nameAddress: int, fileSystem: (seq<byte>, bool) -> Option<OpenFile>, create: bool) returns (fd: int)
      requires Valid() && Mapped()
      modifies fileTable
      ensures var name := StringAt(nameAddress, MaxNameLength);
        if name.None? || fileSystem(name.value, create).None? then fd == -1 && fileTable[..] == old(fileTable[..])
        else (fd, fileTable[..]) == Install(old(fileTable[..]), fileSystem(name.value, create).value)
    {
      var filename := ReadVirtualMemoryString(nameAddress, MaxNameLength);
      if filename.None? {
        return -1;
      }
      var file := fileSystem(filename.value, create);
      if file.None? {
        return -1;
      }
      fd := InstallFile(file.value);
    }

    /** handleCreat: open with creation. */
    method HandleCreat(nameAddress: int, fileSystem: (seq<byte>, bool) -> Option<OpenFile>) returns (fd: int)
      requires Valid() && Mapped()
      modifies fileTable
      ensures var name := StringAt(nameAddress, MaxNameLength);
        if name.None? || fileSystem(name.value, true).None? then fd == -1 && fileTable[..] == old(fileTable[..])
        else (fd, fileTable[..]) == Install(old(fileTable[..]), fileSystem(name.value, true).value)
    {
      fd := OpenNamed(nameAddress, fileSystem, true);
    }

    /** handleOpen: open an existing file only. */
    method HandleOpen(nameAddress: int, fileSystem: (seq<byte>, bool) -> Option<OpenFile>) returns (fd: int)
      requires Valid() && Mapped()
      modifies fileTable
      ensures var name := StringAt(nameAddress, MaxNameLength);
        if name.None? || fileSystem(name.value, false).None? then fd == -1 && fileTable[..] == old(fileTable[..])
        else (fd, fileTable[..]) == Install(old(fileTable[..]), fileSystem(name.value, false).value)
    {
      fd := OpenNamed(nameAddress, fileSystem, false);
    }

    /** handleClose: -1 for a descriptor out of range or not open; otherwise frees exactly that slot and returns 0. */
    method HandleClose(descriptor: int) returns (r: int)
      requires Valid()
      modifies fileTable
      ensures r == -1 <==> descriptor < 0 || descriptor > MaxOpenFiles - 1 || old(fileTable[descriptor]).None?
      ensures r == -1 ==> fileTable[..] == old(fileTable[..])
      ensures r != -1 ==> r == 0 && fileTable[..] == old(fileTable[..])[descriptor := None]
    {
      if descriptor < 0 || descriptor > fileTable.Length - 1 {
        return -1;
      }
      if fileTable[descriptor].None? {
        return -1;
      }
      fileTable[descriptor] := None;
      return 0;
    }

    // -------------------------------------------------------------------
    // read and write

    /** The argument checks read and write share: a descriptor outside the table or not open, a negative count, or a buffer ending past the address space. */
    ghost predicate Rejected(descriptor: int, bufferAddress: int, count: int)
      reads this, fileTable
    {
      || descriptor < 0 || descriptor > fileTable.Length - 1 || count < 0
      || fileTable[descriptor].None?
      || Add32(count, bufferAddress) > numPages * PageSize
    }

    /** The file's answer to a read: its bytes go to the front of `data`, and their number is returned. */
    static method Deliver(data: array<byte>, got: seq<byte>) returns (n: int)
      requires |got| <= data.Length
      modifies data
      ensures n == |got| && data[..] == got + old(data[|got|..])
    {
      forall j | 0 <= j < |got| {
        data[j] := got[j];
      }
      n := |got|;
    }

    /**
     * handleRead as written: after the argument checks, reads from the file
     * into a zeroed buffer of `count` bytes (the file delivers `got`), then
     * writes the whole buffer, not just the bytes read, to `bufferAddress`,
     * and returns how many of those were written, or -1.
     */
    method HandleRead(descriptor: int, bufferAddress: int, count: int, got: seq<byte>) returns (r: int)
      requires Valid() && Mapped()
      requires 0 <= count ==> |got| <= count
      modifies machine.memory
      ensures Rejected(descriptor, bufferAddress, count) || |got| == 0 ==>
        r == -1 && machine.memory[..] == old(machine.memory[..])
      ensures !Rejected(descriptor, bufferAddress, count) && |got| > 0 ==>
        var n := TransferCount(bufferAddress, count, numPages, pageTable.Length);
        && r == (if n == 0 then -1 else n)
        && machine.memory[..] == WriteSpec(old(machine.memory[..]), pageTable[..], bufferAddress, PaddedBuffer(got, count)[..n])
    {
      if descriptor < 0 || descriptor > fileTable.Length - 1 || count < 0 {
        return -1;
      }
      if fileTable[descriptor].None? {
        return -1;
      }
      if Add32(count, bufferAddress) > numPages * PageSize {
        return -1;
      }
      var data := new byte[count](_ => 0);
      var bytesRead := Deliver(data, got);
      if bytesRead <= 0 {
        return -1;
      }
      assert data[..] == PaddedBuffer(got, count);
      var bytesWritten := WriteVirtualMemory(bufferAddress, data, 0, count);
      return if bytesWritten <= 0 then -1 else bytesWritten;
    }

    /** handleRead as intended: only the bytes the file delivered are written, and their count returned. */
    method HandleReadCorrected(descriptor: int, bufferAddress: int, count: int, got: seq<byte>) returns (r: int)
      requires Valid() && Mapped()
      requires 0 <= count ==> |got| <= count
      modifies machine.memory
      ensures Rejected(descriptor, bufferAddress, count) || |got| == 0 ==>
        r == -1 && machine.memory[..] == old(machine.memory[..])
      ensures !Rejected(descriptor, bufferAddress, count) && |got| > 0 ==>
        var n := TransferCount(bufferAddress, |got|, numPages, pageTable.Length);
        && r == (if n == 0 then -1 else n)
        && machine.memory[..] == WriteSpec(old(machine.memory[..]), pageTable[..], bufferAddress, got[..n])
    {
      if descriptor < 0 || descriptor > fileTable.Length - 1 || count < 0 {
        return -1;
      }
      if fileTable[descriptor].None? {
        return -1;
      }
      if Add32(count, bufferAddress) > numPages * PageSize {
        return -1;
      }
      var data := new byte[count](_ => 0);
      var bytesRead := Deliver(data, got);
      if bytesRead <= 0 {
        return -1;
      }
      assert data[..bytesRead] == got;
      var bytesWritten := WriteVirtualMemory(bufferAddress, data, 0, bytesRead);
      assert data[0..bytesWritten] == got[..bytesWritten];
      return if bytesWritten <= 0 then -1 else bytesWritten;
    }

    /**
     * handleWrite: after the argument checks, reads `count` bytes from
     * `bufferAddress` and hands them to the file (whose answer is
     * `fileWrite`); -1 unless all `count` bytes were read and written.
     */
    method HandleWrite(descriptor: int, bufferAddress: int, count: int, fileWrite: seq<byte> -> int) returns (r: int)
      requires Valid() && Mapped()
      ensures r == -1 || r == count
      ensures r != -1 <==>
        && !Rejected(descriptor, bufferAddress, count)
        && TransferCount(bufferAddress, count, numPages, pageTable.Length) == count
        && fileWrite(ReadSpec(machine.memory[..], pageTable[..], bufferAddress, count)) == count
    {
      if descriptor < 0 || descriptor > fileTable.Length - 1 || count < 0 {
        return -1;
      }
      if fileTable[descriptor].None? {
        return -1;
      }
      if Add32(count, bufferAddress) > numPages * PageSize {
        return -1;
      }
      var data := new byte[count](_ => 0);
      var bytesTransferred := ReadVirtualMemory(bufferAddress, data, 0, count);
      if bytesTransferred != count {
        return -1;
      }
      bytesTransferred := fileWrite(data[..bytesTransferred]);
      return if bytesTransferred != count then -1 else bytesTransferred;
    }

    // -------------------------------------------------------------------
    // exec

    /** The word exec reads at `vaddr`, or None when not one of its bytes is readable. */
    ghost function PointerAt(vaddr: int): (r: Option<int>)
      requires Mapped()
      reads this, pageTable, machine.memory
      ensures r.Some? ==> -0x8000_0000 <= r.value < 0x8000_0000
    {
      WordIn(machine.memory[..], pageTable[..], numPages, vaddr)
    }

    /**
     * The four-byte read exec makes: readVirtualMemory into a zeroed buffer
     * of four bytes, then Lib.bytesToInt; None when nothing was copied.
     */
    method ReadWord(vaddr: int) returns (w: Option<int>)
      requires Valid() && Mapped()
      ensures w == PointerAt(vaddr)
      ensures w.None? <==> TransferCount(vaddr, 4, numPages, pageTable.Length) == 0
    {
      var data := new byte[4](_ => 0);
      var n := ReadVirtualMemory(vaddr, data, 0, 4);
      if n == 0 {
        return None;
      }
      assert data[..] == PaddedBuffer(ReadSpec(machine.memory[..], pageTable[..], vaddr, n), 4);
      return Some(BytesToInt(data[..]));
    }

    /**
     * handleExec as written: reads the file name (at most 256 bytes) and
     * rejects a missing name, a negative argc, or a name whose text after
     * its last '.' is not "coff"; reads one word at `argv` (rejecting when
     * nothing could be read) and then reads argument `i` as the string at
     * that word plus 4i. The request is what goes to the new process; None
     * stands for -1.
     */
    method HandleExec(coffName: int, argc: int, argv: int) returns (r: Option<ExecRequest>)
      requires Valid() && Mapped()
      ensures var name := StringAt(coffName, MaxNameLength);
        r.None? <==> name.None? || argc < 0 || !HasCoffExtension(name.value) || PointerAt(argv).None?
      ensures r.Some? ==>
        && StringAt(coffName, MaxNameLength) == Some(r.value.name)
        && |r.value.args| == argc
        && forall i :: 0 <= i < argc ==> r.value.args[i] == StringAt(ArgSlot(PointerAt(argv).value, i), MaxArgLength)
    {
      var filename := ReadVirtualMemoryString(coffName, MaxNameLength);
      if filename.None? || argc < 0 {
        return None;
      }
      if !HasCoffExtension(filename.value) {
        return None;
      }
      var pointer := ReadWord(argv);
      if pointer.None? {
        return None;
      }
      var arguments := ReadArgumentsAsWritten(argc, pointer.value);
      return Some(ExecRequest(filename.value, arguments));
    }

    /** The argument loop as written: argument `i` is the string at `pointer + 4i`. */
    method ReadArgumentsAsWritten(argc: int, pointer: int) returns (arguments: seq<Option<seq<byte>>>)
      requires Valid() && Mapped() && 0 <= argc
      ensures |arguments| == argc
      ensures forall i :: 0 <= i < argc ==> arguments[i] == StringAt(ArgSlot(pointer, i), MaxArgLength)
    {
      arguments := [];
      var i := 0;
      while i < argc
        invariant 0 <= i <= argc && |arguments| == i
        invariant forall j :: 0 <= j < i ==> arguments[j] == StringAt(ArgSlot(pointer, j), MaxArgLength)
      {
        var argument := ReadVirtualMemoryString(ArgSlot(pointer, i), MaxArgLength);
        arguments := arguments + [argument];
        i := i + 1;
      }
    }

    /** Every entry of the argument vector at `argv`, argc words long, can be read. */
    ghost predicate VectorReadable(argv: int, argc: int)
      requires Mapped()
      reads this, pageTable, machine.memory
    {
      forall i :: 0 <= i < argc ==> PointerAt(ArgSlot(argv, i)).Some?
    }

    /**
     * handleExec as intended: argument `i` is the string at the word stored
     * at argv + 4i, the i-th entry of the argument vector; a vector entry
     * that cannot be read rejects the call.
     */
    method HandleExecCorrected(coffName: int, argc: int, argv: int) returns (r: Option<ExecRequest>)
      requires Valid() && Mapped()
      ensures var name := StringAt(coffName, MaxNameLength);
        r.None? <==>
          name.None? || argc < 0 || !HasCoffExtension(name.value) || PointerAt(argv).None? || !VectorReadable(argv, argc)
      ensures r.Some? ==>
        && StringAt(coffName, MaxNameLength) == Some(r.value.name)
        && |r.value.args| == argc
        && forall i :: 0 <= i < argc ==> r.value.args[i] == StringAt(PointerAt(ArgSlot(argv, i)).value, MaxArgLength)
    {
      var filename := ReadVirtualMemoryString(coffName, MaxNameLength);
      if filename.None? || argc < 0 {
        return None;
      }
      if !HasCoffExtension(filename.value) {
        return None;
      }
      var first := ReadWord(argv);
      if first.None? {
        return None;
      }
      var arguments := ReadArgumentVector(argc, argv);
      if arguments.None? {
        return None;
      }
      return Some(ExecRequest(filename.value, arguments.value));
    }

    /** The corrected argument loop: reads entry `i` of the vector, then the string it points to. */
    method ReadArgumentVector(argc: int, argv: int) returns (r: Option<seq<Option<seq<byte>>>>)
      requires Valid() && Mapped() && 0 <= argc
      ensures r.None? <==> !VectorReadable(argv, argc)
      ensures r.Some? ==>
        && |r.value| == argc
        && forall i :: 0 <= i < argc ==> r.value[i] == StringAt(PointerAt(ArgSlot(argv, i)).value, MaxArgLength)
    {
      var arguments: seq<Option<seq<byte>>> := [];
      var i := 0;
      while i < argc
        invariant 0 <= i <= argc && |arguments| == i
        invariant forall j :: 0 <= j < i ==>
          PointerAt(ArgSlot(argv, j)).Some? && arguments[j] == StringAt(PointerAt(ArgSlot(argv, j)).value, MaxArgLength)
      {
        var pointer := ReadWord(ArgSlot(argv, i));
        if pointer.None? {
          return None;
        }
        var argument := ReadVirtualMemoryString(pointer.value, MaxArgLength);
        arguments := arguments + [argument];
        i := i + 1;
      }
      return Some(arguments);
    }

    // -------------------------------------------------------------------
    // Loading a program

    /**
     * The layout part of load: `coff` is the parsed executable (None when it
     * could not be opened or parsed). Rejects sections that are not
     * contiguous from page 0 and arguments that need more than a page; sets
     * the page count to the section pages plus the stack plus one argument
     * page, the initial stack pointer to the top of the stack, and argc/argv
     * to the argument count and the start of the last page; then allocates
     * frames with loadSections.
     */
    method Load(coff: Option<seq<CoffSection>>, args: seq<seq<byte>>) returns (ok: bool)
      requires Valid() && FreeFramesFit(kernel.freePages, machine.memory.Length)
      requires coff.Some? ==> LengthsNonNegative(coff.value)
      modifies this`numPages, this`initialSP, this`argc, this`argv, this`pageTable, kernel`freePages
      ensures Valid()
      ensures ok <==>
        && coff.Some? && SectionsContiguous(coff.value) && ArgsSize(args) <= PageSize
        && SectionPageCount(coff.value, |coff.value|) + StackPages + 1 <= |old(kernel.freePages)|
      ensures !ok ==> kernel.freePages == old(kernel.freePages) && pageTable == old(pageTable)
      ensures ok ==>
        var sectionPages := SectionPageCount(coff.value, |coff.value|);
        && numPages == sectionPages + StackPages + 1 && 0 <= numPages <= |old(kernel.freePages)|
        && initialSP == (sectionPages + StackPages) * PageSize
        && argc == |args| && argv == (numPages - 1) * PageSize
        && pageTable[..] == EagerTable(old(kernel.freePages), numPages, coff.value)
        && kernel.freePages == old(kernel.freePages)[numPages..] && Mapped()
    {
      if coff.None? {
        return false;
      }
      var sections := coff.value;
      var contiguous, sectionPages := CountSectionPages(sections);
      if !contiguous {
        return false;
      }
      numPages := sectionPages;
      var argsSize := ArgumentBytes(args);
      if argsSize > PageSize {
        return false;
      }
      numPages := numPages + StackPages;
      initialSP := numPages * PageSize;
      numPages := numPages + 1;
      SectionPageCountNonNegative(sections, |sections|);
      forall k | 0 <= k < |sections|
        ensures 0 <= sections[k].firstVPN && sections[k].firstVPN + sections[k].length <= numPages
      {
        SectionWithinPages(sections, k, |sections|);
      }
      ok := LoadSections(sections);
      if !ok {
        return false;
      }
      argc := |args|;
      argv := (numPages - 1) * PageSize;
    }

    /** load's first loop: the total page count of the sections, or false when a section does not start where the previous one ends. */
    static method CountSectionPages(sections: seq<CoffSection>) returns (contiguous: bool, pages: int)
      ensures contiguous <==> SectionsContiguous(sections)
      ensures contiguous ==> pages == SectionPageCount(sections, |sections|)
    {
      pages := 0;
      var s := 0;
      while s < |sections|
        invariant 0 <= s <= |sections| && pages == SectionPageCount(sections, s)
        invariant forall k :: 0 <= k < s ==> sections[k].firstVPN == SectionPageCount(sections, k)
      {
        if sections[s].firstVPN != pages {
          return false, pages;
        }
        pages := pages + sections[s].length;
        s := s + 1;
      }
      return true, pages;
    }

    /** load's second loop: the bytes the argument page needs. */
    static method ArgumentBytes(args: seq<seq<byte>>) returns (argsSize: int)
      ensures argsSize == ArgsSize(args)
    {
      argsSize := 0;
      var i := 0;
      while i < |args|
        invariant 0 <= i <= |args| && argsSize == ArgsSize(args[..i])
      {
        assert args[..i + 1][..i] == args[..i];
        argsSize := argsSize + 4 + |args[i]| + 1;
        i := i + 1;
      }
      assert args[..i] == args;
    }
  }
}
