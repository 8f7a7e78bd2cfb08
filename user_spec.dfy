/**
 * Specification functions for a process with an eagerly loaded page table:
 * how a virtual address translates, what a copy between virtual memory and a
 * byte array reads or stores, how strings end, how the address space is laid
 * out, and how the file-descriptor table and exec arguments are checked.
 */
module UserSpec {
  import opened Wrappers
  import opened Machine

  // ---------------------------------------------------------------------
  // Address translation

  /** Every page-table entry names a whole frame inside physical memory of `memLen` bytes. */
  ghost predicate FramesInMemory(pt: seq<TranslationEntry>, memLen: int)
  {
    forall v {:trigger FrameFits(pt[v], memLen)} :: 0 <= v < |pt| ==> FrameFits(pt[v], memLen)
  }

  /** The frame an entry maps lies wholly inside a memory of `memLen` bytes. */
  ghost predicate FrameFits(e: TranslationEntry, memLen: int)
  {
    0 <= e.ppn && (e.ppn + 1) * PageSize <= memLen
  }

  /** No two pages share a frame. */
  ghost predicate PagesDistinct(pt: seq<TranslationEntry>)
  {
    forall v, w :: 0 <= v < w < |pt| ==> pt[v].ppn != pt[w].ppn
  }

  /** The physical address of virtual address `a`: its page's frame, at its offset. */
  function Translate(pt: seq<TranslationEntry>, a: int): (p: int)
    requires 0 <= a && a / PageSize < |pt|
  {
    pt[a / PageSize].ppn * PageSize + a % PageSize
  }

  lemma TranslateInMemory(pt: seq<TranslationEntry>, memLen: int, a: int)
    requires FramesInMemory(pt, memLen) && 0 <= a && a / PageSize < |pt|
    ensures 0 <= Translate(pt, a) < memLen
  {
    var v := a / PageSize;
    assert FrameFits(pt[v], memLen);
  }

  /** Addresses inside one page translate to consecutive bytes of its frame. */
  lemma TranslateInPage(pt: seq<TranslationEntry>, vpn: int, o: int)
    requires 0 <= vpn < |pt| && 0 <= o < PageSize
    ensures (vpn * PageSize + o) / PageSize == vpn
    ensures Translate(pt, vpn * PageSize + o) == pt[vpn].ppn * PageSize + o
  {
  }

  /**
   * A run of `count` addresses from `start`, which lies at offset `off` of
   * page `vpn`, translates to a run of bytes of that page's frame from `base`.
   */
  lemma TranslatePageRun(pt: seq<TranslationEntry>, start: int, count: int, vpn: int, off: int, base: int)
    requires 0 <= vpn < |pt| && 0 <= off && 0 <= count && off + count <= PageSize && start == vpn * PageSize + off
    requires base == pt[vpn].ppn * PageSize + off
    ensures start + count <= |pt| * PageSize
    ensures forall a :: start <= a < start + count ==> Translate(pt, a) == base + (a - start)
  {
    forall a | start <= a < start + count
      ensures Translate(pt, a) == base + (a - start)
    {
      TranslateInPage(pt, vpn, a - vpn * PageSize);
    }
  }

  /** With distinct frames, translation is one-to-one. */
  lemma TranslateInjective(pt: seq<TranslationEntry>, a: int, b: int)
    requires PagesDistinct(pt)
    requires 0 <= a && a / PageSize < |pt| && 0 <= b && b / PageSize < |pt|
    requires Translate(pt, a) == Translate(pt, b)
    ensures a == b
  {
  }

  // ---------------------------------------------------------------------
  // Copies between virtual memory and byte arrays

  /**
   * How many bytes a copy of `length` bytes at `vaddr` transfers: none when
   * the address lies outside the process's `numPages` pages or its first page
   * is past the page table, and otherwise as many as fit before the end of
   * the page table.
   */
  function TransferCount(vaddr: int, length: int, numPages: int, ptLen: int): (n: int)
    requires 0 <= length
    ensures 0 <= n <= length
    ensures n > 0 ==> 0 <= vaddr && vaddr + n <= ptLen * PageSize
  {
    if vaddr < 0 || vaddr >= numPages * PageSize || vaddr / PageSize >= ptLen then 0
    else if length <= ptLen * PageSize - vaddr then length
    else ptLen * PageSize - vaddr
  }

  /** The `n` bytes of virtual memory from `vaddr`, read one by one through the page table. */
  function ReadSpec(mem: seq<byte>, pt: seq<TranslationEntry>, vaddr: int, n: int): (r: seq<byte>)
    requires FramesInMemory(pt, |mem|) && 0 <= n && (n == 0 || (0 <= vaddr && vaddr + n <= |pt| * PageSize))
    ensures |r| == n
    decreases n
  {
    if n == 0 then []
    else
      TranslateInMemory(pt, |mem|, vaddr);
      [mem[Translate(pt, vaddr)]] + ReadSpec(mem, pt, vaddr + 1, n - 1)
  }

  /** The byte a read returns for address `a` is the physical byte `a` translates to. */
  lemma {:induction false} ReadSpecAt(mem: seq<byte>, pt: seq<TranslationEntry>, vaddr: int, n: int, a: int)
    requires FramesInMemory(pt, |mem|) && 0 <= vaddr <= a < vaddr + n && vaddr + n <= |pt| * PageSize
    ensures 0 <= Translate(pt, a) < |mem|
    ensures ReadSpec(mem, pt, vaddr, n)[a - vaddr] == mem[Translate(pt, a)]
    decreases n
  {
    TranslateInMemory(pt, |mem|, a);
    if a > vaddr {
      ReadSpecAt(mem, pt, vaddr + 1, n - 1, a);
    }
  }

  /** Reading `n` bytes then `t` more right after them is reading `n + t`. */
  lemma {:induction false} ReadSpecAppend(mem: seq<byte>, pt: seq<TranslationEntry>, vaddr: int, n: int, t: int)
    requires FramesInMemory(pt, |mem|) && 0 <= vaddr && 0 <= n && 0 <= t && vaddr + n + t <= |pt| * PageSize
    ensures ReadSpec(mem, pt, vaddr, n) + ReadSpec(mem, pt, vaddr + n, t) == ReadSpec(mem, pt, vaddr, n + t)
    decreases n
  {
    if n > 0 {
      ReadSpecAppend(mem, pt, vaddr + 1, n - 1, t);
      assert vaddr + 1 + (n - 1) == vaddr + n;
    }
  }

  /** A read of `total` bytes is the read of its first `n` bytes followed by the read from `mid`, `n` bytes on. */
  lemma ReadSpecSplit(mem: seq<byte>, pt: seq<TranslationEntry>, vaddr: int, n: int, total: int, mid: int)
    requires FramesInMemory(pt, |mem|) && 0 <= vaddr && 0 <= n <= total && vaddr + total <= |pt| * PageSize
    requires mid == vaddr + n
    ensures ReadSpec(mem, pt, vaddr, n) + ReadSpec(mem, pt, mid, total - n) == ReadSpec(mem, pt, vaddr, total)
  {
    ReadSpecAppend(mem, pt, vaddr, n, total - n);
    assert n + (total - n) == total;
  }

  /** The first `n` bytes of a longer read are the read of `n` bytes. */
  lemma ReadPrefix(mem: seq<byte>, pt: seq<TranslationEntry>, vaddr: int, n: int, total: int)
    requires FramesInMemory(pt, |mem|) && 0 <= vaddr && 0 <= n <= total && vaddr + total <= |pt| * PageSize
    ensures ReadSpec(mem, pt, vaddr, n) == ReadSpec(mem, pt, vaddr, total)[..n]
  {
    ReadSpecSplit(mem, pt, vaddr, n, total, vaddr + n);
  }

  /** The bytes of a read after its first `n` are the read from `mid`, `n` bytes further on. */
  lemma ReadSuffix(mem: seq<byte>, pt: seq<TranslationEntry>, vaddr: int, n: int, total: int, mid: int)
    requires FramesInMemory(pt, |mem|) && 0 <= vaddr && 0 <= n <= total && vaddr + total <= |pt| * PageSize
    requires mid == vaddr + n
    ensures ReadSpec(mem, pt, mid, total - n) == ReadSpec(mem, pt, vaddr, total)[n..]
  {
    ReadSpecSplit(mem, pt, vaddr, n, total, mid);
  }

  /** Reading addresses that translate to one run of physical bytes reads that run. */
  lemma {:induction false} ReadSpecContiguous(mem: seq<byte>, pt: seq<TranslationEntry>, vaddr: int, n: int, base: int)
    requires FramesInMemory(pt, |mem|) && 0 <= vaddr && 0 <= n && vaddr + n <= |pt| * PageSize
    requires 0 <= base && base + n <= |mem|
    requires forall a :: vaddr <= a < vaddr + n ==> Translate(pt, a) == base + (a - vaddr)
    ensures ReadSpec(mem, pt, vaddr, n) == mem[base..base + n]
    decreases n
  {
    if n > 0 {
      assert Translate(pt, vaddr) == base;
      ReadSpecContiguous(mem, pt, vaddr + 1, n - 1, base + 1);
      assert mem[base..base + n] == [mem[base]] + mem[base + 1..base + n];
    }
  }

  /** Memory after `bytes` are stored one by one from virtual address `vaddr`. */
  function WriteSpec(mem: seq<byte>, pt: seq<TranslationEntry>, vaddr: int, bytes: seq<byte>): (r: seq<byte>)
    requires FramesInMemory(pt, |mem|) && (|bytes| == 0 || (0 <= vaddr && vaddr + |bytes| <= |pt| * PageSize))
    ensures |r| == |mem|
    decreases |bytes|
  {
    if |bytes| == 0 then mem
    else
      TranslateInMemory(pt, |mem|, vaddr);
      WriteSpec(mem[Translate(pt, vaddr) := bytes[0]], pt, vaddr + 1, bytes[1..])
  }

  /** Storing `x` then `y` right after it is storing `x + y`. */
  lemma {:induction false} WriteSpecAppend(mem: seq<byte>, pt: seq<TranslationEntry>, vaddr: int, x: seq<byte>, y: seq<byte>)
    requires FramesInMemory(pt, |mem|) && 0 <= vaddr && vaddr + |x| + |y| <= |pt| * PageSize
    ensures WriteSpec(mem, pt, vaddr, x + y) == WriteSpec(WriteSpec(mem, pt, vaddr, x), pt, vaddr + |x|, y)
    decreases |x|
  {
    if |x| > 0 {
      TranslateInMemory(pt, |mem|, vaddr);
      var m1 := mem[Translate(pt, vaddr) := x[0]];
      assert (x + y)[1..] == x[1..] + y;
      WriteSpecAppend(m1, pt, vaddr + 1, x[1..], y);
    } else {
      assert x + y == y;
    }
  }

  /** Storing bytes whose addresses translate to one run of physical bytes replaces that run. */
  lemma {:induction false} WriteSpecContiguous(mem: seq<byte>, pt: seq<TranslationEntry>, vaddr: int, c: seq<byte>, base: int)
    requires FramesInMemory(pt, |mem|) && 0 <= vaddr && vaddr + |c| <= |pt| * PageSize
    requires 0 <= base && base + |c| <= |mem|
    requires forall a :: vaddr <= a < vaddr + |c| ==> Translate(pt, a) == base + (a - vaddr)
    ensures WriteSpec(mem, pt, vaddr, c) == mem[..base] + c + mem[base + |c|..]
    decreases |c|
  {
    if |c| == 0 {
      assert mem[..base] + mem[base..] == mem;
    } else {
      assert Translate(pt, vaddr) == base;
      var m1 := mem[base := c[0]];
      assert WriteSpec(mem, pt, vaddr, c) == WriteSpec(m1, pt, vaddr + 1, c[1..]);
      WriteSpecContiguous(m1, pt, vaddr + 1, c[1..], base + 1);
      SpliceStep(mem, base, c);
    }
  }

  /** Storing the first byte of a run, then the rest after it, is storing the run. */
  lemma SpliceStep(mem: seq<byte>, base: int, c: seq<byte>)
    requires 0 <= base && base + |c| <= |mem| && |c| > 0
    ensures var m1 := mem[base := c[0]];
      m1[..base + 1] + c[1..] + m1[base + 1 + |c[1..]|..] == mem[..base] + c + mem[base + |c|..]
  {
    var m1 := mem[base := c[0]];
    assert m1[..base + 1] == mem[..base] + [c[0]];
    assert m1[base + 1 + |c[1..]|..] == mem[base + |c|..];
    assert [c[0]] + c[1..] == c;
  }

  /**
   * Storing a prefix, then a chunk whose addresses translate to one run of
   * physical bytes from `base`, is the prefix's store with that run replaced.
   */
  lemma {:induction false} WriteSpecExtend(mem: seq<byte>, pt: seq<TranslationEntry>, vaddr: int, prefix: seq<byte>, chunk: seq<byte>, base: int)
    requires FramesInMemory(pt, |mem|) && 0 <= vaddr && vaddr + |prefix| + |chunk| <= |pt| * PageSize
    requires 0 <= base && base + |chunk| <= |mem|
    requires forall a :: vaddr + |prefix| <= a < vaddr + |prefix| + |chunk| ==> Translate(pt, a) == base + (a - (vaddr + |prefix|))
    ensures var m := WriteSpec(mem, pt, vaddr, prefix);
      WriteSpec(mem, pt, vaddr, prefix + chunk) == m[..base] + chunk + m[base + |chunk|..]
    decreases |prefix|
  {
    if |prefix| == 0 {
      assert prefix + chunk == chunk;
      WriteSpecContiguous(mem, pt, vaddr, chunk, base);
    } else {
      TranslateInMemory(pt, |mem|, vaddr);
      var m1 := mem[Translate(pt, vaddr) := prefix[0]];
      assert (prefix + chunk)[1..] == prefix[1..] + chunk;
      WriteSpecExtend(m1, pt, vaddr + 1, prefix[1..], chunk, base);
    }
  }

  /** A physical byte no stored address translates to keeps its value. */
  lemma {:induction false} WriteSpecUntouched(mem: seq<byte>, pt: seq<TranslationEntry>, vaddr: int, bytes: seq<byte>, p: int)
    requires FramesInMemory(pt, |mem|) && 0 <= vaddr && vaddr + |bytes| <= |pt| * PageSize && 0 <= p < |mem|
    requires forall a :: vaddr <= a < vaddr + |bytes| ==> Translate(pt, a) != p
    ensures WriteSpec(mem, pt, vaddr, bytes)[p] == mem[p]
    decreases |bytes|
  {
    if |bytes| > 0 {
      TranslateInMemory(pt, |mem|, vaddr);
      assert Translate(pt, vaddr) != p;
      WriteSpecUntouched(mem[Translate(pt, vaddr) := bytes[0]], pt, vaddr + 1, bytes[1..], p);
    }
  }

  /** With distinct frames, each stored byte can be found at its own address. */
  lemma {:induction false} WriteSpecAt(mem: seq<byte>, pt: seq<TranslationEntry>, vaddr: int, bytes: seq<byte>, a: int)
    requires FramesInMemory(pt, |mem|) && PagesDistinct(pt)
    requires 0 <= vaddr <= a < vaddr + |bytes| && vaddr + |bytes| <= |pt| * PageSize
    ensures 0 <= Translate(pt, a) < |mem|
    ensures WriteSpec(mem, pt, vaddr, bytes)[Translate(pt, a)] == bytes[a - vaddr]
    decreases |bytes|
  {
    TranslateInMemory(pt, |mem|, a);
    TranslateInMemory(pt, |mem|, vaddr);
    var m1 := mem[Translate(pt, vaddr) := bytes[0]];
    if a == vaddr {
      forall b | vaddr + 1 <= b < vaddr + |bytes|
        ensures Translate(pt, b) != Translate(pt, vaddr)
      {
        if Translate(pt, b) == Translate(pt, vaddr) {
          TranslateInjective(pt, b, vaddr);
        }
      }
      WriteSpecUntouched(m1, pt, vaddr + 1, bytes[1..], Translate(pt, vaddr));
    } else {
      WriteSpecAt(m1, pt, vaddr + 1, bytes[1..], a);
    }
  }

  /** With distinct frames, reading back what was just written returns it. */
  lemma ReadAfterWrite(mem: seq<byte>, pt: seq<TranslationEntry>, vaddr: int, bytes: seq<byte>)
    requires FramesInMemory(pt, |mem|) && PagesDistinct(pt)
    requires 0 <= vaddr && vaddr + |bytes| <= |pt| * PageSize
    ensures ReadSpec(WriteSpec(mem, pt, vaddr, bytes), pt, vaddr, |bytes|) == bytes
  {
    var w := WriteSpec(mem, pt, vaddr, bytes);
    forall i | 0 <= i < |bytes|
      ensures ReadSpec(w, pt, vaddr, |bytes|)[i] == bytes[i]
    {
      WriteSpecAt(mem, pt, vaddr, bytes, vaddr + i);
      ReadSpecAt(w, pt, vaddr, |bytes|, vaddr + i);
    }
  }

  // ---------------------------------------------------------------------
  // Null-terminated strings

  /** The bytes before the first zero byte of `s`, or None when `s` holds no zero. */
  function UntilTerminator(s: seq<byte>): (r: Option<seq<byte>>)
    ensures r.Some? ==> |r.value| < |s| && s[|r.value|] == 0 && r.value == s[..|r.value|]
    ensures r.Some? ==> forall i :: 0 <= i < |r.value| ==> r.value[i] != 0
    ensures r.None? <==> forall i :: 0 <= i < |s| ==> s[i] != 0
  {
    if |s| == 0 then None
    else if s[0] == 0 then Some([])
    else match UntilTerminator(s[1..])
      case None => None
      case Some(t) => Some([s[0]] + t)
  }

  /** The first zero byte of `s` ends the string. */
  lemma UntilTerminatorAt(s: seq<byte>, k: int)
    requires 0 <= k < |s| && s[k] == 0 && forall i :: 0 <= i < k ==> s[i] != 0
    ensures UntilTerminator(s) == Some(s[..k])
  {
    var r := UntilTerminator(s);
    assert r.Some?;
  }

  // ---------------------------------------------------------------------
  // Address-space layout

  /** Pages of the stack, placed after the sections. */
  const StackPages: int := 8

  /** Total length, in pages, of the first `k` sections. */
  function SectionPageCount(sections: seq<CoffSection>, k: int): int
    requires 0 <= k <= |sections|
  {
    if k == 0 then 0 else SectionPageCount(sections, k - 1) + sections[k - 1].length
  }

  /** Each section starts where the previous one ends, the first at page 0. */
  predicate SectionsContiguous(sections: seq<CoffSection>)
  {
    forall s :: 0 <= s < |sections| ==> sections[s].firstVPN == SectionPageCount(sections, s)
  }

  /** Sections of a parsed COFF file have no negative length. */
  predicate LengthsNonNegative(sections: seq<CoffSection>)
  {
    forall s :: 0 <= s < |sections| ==> sections[s].length >= 0
  }

  /** With contiguous sections, section `s` spans pages inside the first `k` sections' total, for every later `k`. */
  lemma {:induction false} SectionWithinPages(sections: seq<CoffSection>, s: int, k: int)
    requires LengthsNonNegative(sections) && SectionsContiguous(sections) && 0 <= s < k <= |sections|
    ensures 0 <= sections[s].firstVPN && sections[s].firstVPN + sections[s].length <= SectionPageCount(sections, k)
    decreases k
  {
    if s < k - 1 {
      SectionWithinPages(sections, s, k - 1);
    } else {
      SectionPageCountNonNegative(sections, s);
    }
  }

  /** Section lengths that are never negative add up to a non-negative page count. */
  lemma {:induction false} SectionPageCountNonNegative(sections: seq<CoffSection>, k: int)
    requires LengthsNonNegative(sections) && 0 <= k <= |sections|
    ensures SectionPageCount(sections, k) >= 0
  {
    if k > 0 {
      SectionPageCountNonNegative(sections, k - 1);
    }
  }

  /** Bytes the argument page needs: a 4-byte pointer, the string and its terminator per argument. */
  function ArgsSize(args: seq<seq<byte>>): int
  {
    if |args| == 0 then 0 else ArgsSize(args[..|args| - 1]) + 4 + |args[|args| - 1]| + 1
  }

  /** The `k` low-order bytes of `u`, least significant first. */
  function LittleEndian(u: int, k: nat): (r: seq<byte>)
    requires 0 <= u
    ensures |r| == k
  {
    if k == 0 then [] else [(u % 0x100) as byte] + LittleEndian(u / 0x100, k - 1)
  }

  /** The 4-byte little-endian encoding of `x`, taken modulo 2^32 (Lib.bytesFromInt). */
  function IntBytes(x: int): (r: seq<byte>)
    ensures |r| == 4
  {
    LittleEndian(x % 0x1_0000_0000, 4)
  }

  /** Java's 32-bit int arithmetic: `x` wrapped into [-2^31, 2^31). */
  function Wrap32(x: int): (r: int)
    ensures -0x8000_0000 <= r < 0x8000_0000
    ensures -0x8000_0000 <= x < 0x8000_0000 ==> r == x
    ensures (r - x) % 0x1_0000_0000 == 0
  {
    (x + 0x8000_0000) % 0x1_0000_0000 - 0x8000_0000
  }

  /** Java's 32-bit int addition, wrapping on overflow. */
  function Add32(a: int, b: int): (r: int)
    ensures -0x8000_0000 <= r < 0x8000_0000
    ensures -0x8000_0000 <= a + b < 0x8000_0000 ==> r == a + b
  {
    Wrap32(a + b)
  }

  function Pow256(k: nat): (p: int)
    ensures p > 0
  {
    if k == 0 then 1 else 0x100 * Pow256(k - 1)
  }

  /** The unsigned value of little-endian bytes `bs`. */
  function FromLittleEndian(bs: seq<byte>): (u: int)
    ensures 0 <= u < Pow256(|bs|)
  {
    if |bs| == 0 then 0 else bs[0] as int + 0x100 * FromLittleEndian(bs[1..])
  }

  /** Decoding the `k` low-order bytes of a value below 256^k gives the value back. */
  lemma {:induction false} LittleEndianRoundTrip(u: int, k: nat)
    requires 0 <= u < Pow256(k)
    ensures FromLittleEndian(LittleEndian(u, k)) == u
  {
    if k > 0 {
      var le := LittleEndian(u, k);
      assert le[0] as int == u % 0x100;
      assert le[1..] == LittleEndian(u / 0x100, k - 1);
      assert u / 0x100 < Pow256(k - 1);
      LittleEndianRoundTrip(u / 0x100, k - 1);
    }
  }

  /** Four little-endian bytes as a signed 32-bit int (Lib.bytesToInt). */
  function BytesToInt(bs: seq<byte>): (x: int)
    requires |bs| == 4
    ensures -0x8000_0000 <= x < 0x8000_0000
  {
    var u := FromLittleEndian(bs);
    if u >= 0x8000_0000 then u - 0x1_0000_0000 else u
  }

  /** Lib.bytesToInt undoes Lib.bytesFromInt on every int. */
  lemma IntBytesRoundTrip(x: int)
    requires -0x8000_0000 <= x < 0x8000_0000
    ensures BytesToInt(IntBytes(x)) == x
  {
    var u := x % 0x1_0000_0000;
    assert u == if x >= 0 then x else x + 0x1_0000_0000;
    assert Pow256(4) == 0x1_0000_0000;
    LittleEndianRoundTrip(u, 4);
    assert FromLittleEndian(IntBytes(x)) == u;
  }

  /** The strings of `args`, each followed by a zero byte, back to back. */
  function ArgStrings(args: seq<seq<byte>>): (r: seq<byte>)
    ensures |r| == ArgsSize(args) - 4 * |args|
  {
    if |args| == 0 then [] else ArgStrings(args[..|args| - 1]) + args[|args| - 1] + [0]
  }

  /** Where each argument's string starts, strings starting at `strings`. */
  function ArgAddresses(args: seq<seq<byte>>, strings: int): (r: seq<int>)
    ensures |r| == |args|
  {
    if |args| == 0 then []
    else
      var n := |args| - 1;
      ArgAddresses(args[..n], strings) + [strings + |ArgStrings(args[..n])|]
  }

  /** Address `i` is `strings` plus the bytes the earlier strings and their terminators take. */
  lemma {:induction false} ArgAddressAt(args: seq<seq<byte>>, strings: int, i: int)
    requires 0 <= i < |args|
    ensures ArgAddresses(args, strings)[i] == strings + |ArgStrings(args[..i])|
    decreases |args|
  {
    var n := |args| - 1;
    if i < n {
      ArgAddressAt(args[..n], strings, i);
      assert args[..n][..i] == args[..i];
    } else {
      assert args[..n] == args[..i];
    }
  }

  /** The little-endian encodings of `vals`, back to back. */
  function EncodeInts(vals: seq<int>): (r: seq<byte>)
    ensures |r| == 4 * |vals|
  {
    if |vals| == 0 then [] else EncodeInts(vals[..|vals| - 1]) + IntBytes(vals[|vals| - 1])
  }

  /** Bytes 4i..4i+3 of the encoding are the encoding of value `i`. */
  lemma {:induction false} EncodeIntsAt(vals: seq<int>, i: int)
    requires 0 <= i < |vals|
    ensures EncodeInts(vals)[4 * i .. 4 * i + 4] == IntBytes(vals[i])
    decreases |vals|
  {
    var n := |vals| - 1;
    var prefix := EncodeInts(vals[..n]);
    var last := IntBytes(vals[n]);
    if i < n {
      EncodeIntsAt(vals[..n], i);
      assert (prefix + last)[4 * i .. 4 * i + 4] == prefix[4 * i .. 4 * i + 4];
    } else {
      assert (prefix + last)[4 * i .. 4 * i + 4] == last;
    }
  }

  /** The pointer table: for each argument, the address its string starts at. */
  function ArgPointers(args: seq<seq<byte>>, strings: int): (r: seq<byte>)
    ensures |r| == 4 * |args|
  {
    EncodeInts(ArgAddresses(args, strings))
  }

  /** The argument page image from address `entry`: the pointer table, then the strings right after it. */
  function ArgvImage(entry: int, args: seq<seq<byte>>): seq<byte>
  {
    ArgPointers(args, entry + 4 * |args|) + ArgStrings(args)
  }

  /** The argument page image is exactly as long as ArgsSize says, so it fits its page when load accepts. */
  lemma {:induction false} ArgvImageSize(entry: int, args: seq<seq<byte>>)
    ensures |ArgvImage(entry, args)| == ArgsSize(args)
    ensures ArgsSize(args) >= 5 * |args|
  {
    if |args| > 0 {
      ArgvImageSize(entry, args[..|args| - 1]);
    }
  }

  /** Pointer `i` of the image decodes to the address where argument `i`'s string starts. */
  lemma ArgPointerNamesString(entry: int, args: seq<seq<byte>>, i: int)
    requires 0 <= i < |args|
    requires -0x8000_0000 <= entry && entry + ArgsSize(args) < 0x8000_0000
    ensures BytesToInt(ArgPointers(args, entry + 4 * |args|)[4 * i .. 4 * i + 4])
      == entry + 4 * |args| + |ArgStrings(args[..i])|
  {
    ArgAddressFits(entry, args, i);
    EncodedWordDecodes(ArgAddresses(args, entry + 4 * |args|), i, entry + 4 * |args| + |ArgStrings(args[..i])|);
  }

  /** Address `i` of the pointer table fits a signed 32-bit word. */
  lemma ArgAddressFits(entry: int, args: seq<seq<byte>>, i: int)
    requires 0 <= i < |args|
    requires -0x8000_0000 <= entry && entry + ArgsSize(args) < 0x8000_0000
    ensures ArgAddresses(args, entry + 4 * |args|)[i] == entry + 4 * |args| + |ArgStrings(args[..i])|
    ensures -0x8000_0000 <= entry + 4 * |args| + |ArgStrings(args[..i])| < 0x8000_0000
  {
    ArgStringBound(args, i);
    ArgAddressAt(args, entry + 4 * |args|, i);
  }

  /** Word `i` of the encoding decodes to value `i` when that value fits 32 bits. */
  lemma EncodedWordDecodes(vals: seq<int>, i: int, v: int)
    requires 0 <= i < |vals| && vals[i] == v && -0x8000_0000 <= v < 0x8000_0000
    ensures BytesToInt(EncodeInts(vals)[4 * i .. 4 * i + 4]) == v
  {
    EncodeIntsAt(vals, i);
    IntBytesRoundTrip(v);
  }

  /** Argument `i`'s string and its terminator sit right where its pointer says. */
  lemma {:induction false} ArgStringAt(args: seq<seq<byte>>, i: int)
    requires 0 <= i < |args|
    ensures var at := |ArgStrings(args[..i])|;
      at + |args[i]| + 1 <= |ArgStrings(args)| && ArgStrings(args)[at .. at + |args[i]| + 1] == args[i] + [0]
    decreases |args|
  {
    var n := |args| - 1;
    var prefix := ArgStrings(args[..n]);
    var last := args[n] + [0];
    assert ArgStrings(args) == prefix + last;
    if i < n {
      ArgStringAt(args[..n], i);
      assert args[..n][..i] == args[..i];
      assert args[..n][i] == args[i];
      var at := |ArgStrings(args[..i])|;
      assert (prefix + last)[at .. at + |args[i]| + 1] == prefix[at .. at + |args[i]| + 1];
    } else {
      assert args[..n] == args[..i];
      assert (prefix + last)[|prefix|..] == last;
    }
  }

  /**
   * Reading the argument page the intended way gives the arguments back:
   * pointer `i`, decoded from bytes 4i..4i+3, is where argument `i`'s string
   * starts, and the string there, up to its terminator, is that argument.
   */
  lemma ArgvImageReadsBack(entry: int, args: seq<seq<byte>>, i: int)
    requires 0 <= i < |args| && forall j :: 0 <= j < |args[i]| ==> args[i][j] != 0
    requires -0x8000_0000 <= entry && entry + ArgsSize(args) < 0x8000_0000
    ensures 4 * |args| + |ArgStrings(args[..i])| < |ArgvImage(entry, args)|
    ensures BytesToInt(ArgvImage(entry, args)[4 * i .. 4 * i + 4]) == entry + 4 * |args| + |ArgStrings(args[..i])|
    ensures UntilTerminator(ArgvImage(entry, args)[4 * |args| + |ArgStrings(args[..i])|..]) == Some(args[i])
  {
    var tail := ArgvImageTail(entry, args, i);
    TerminatedString(tail, args[i]);
    ArgvImagePointer(entry, args, i);
  }

  /** Bytes 4i..4i+3 of the argument page decode to where argument `i`'s string starts, which lies inside the page. */
  lemma ArgvImagePointer(entry: int, args: seq<seq<byte>>, i: int)
    requires 0 <= i < |args|
    requires -0x8000_0000 <= entry && entry + ArgsSize(args) < 0x8000_0000
    ensures 4 * i + 4 <= |ArgvImage(entry, args)|
    ensures BytesToInt(ArgvImage(entry, args)[4 * i .. 4 * i + 4]) == entry + 4 * |args| + |ArgStrings(args[..i])|
  {
    ArgvWord(entry, args, i);
    ArgPointerNamesString(entry, args, i);
  }

  /** Argument `i`'s string and its terminator end inside the argument page. */
  lemma ArgStringBound(args: seq<seq<byte>>, i: int)
    requires 0 <= i < |args|
    ensures 4 * |args| + |ArgStrings(args[..i])| + |args[i]| + 1 <= ArgsSize(args)
  {
    ArgStringAt(args, i);
  }

  /** Word `i` of the argument page is word `i` of its pointer table. */
  lemma ArgvWord(entry: int, args: seq<seq<byte>>, i: int)
    requires 0 <= i < |args|
    ensures 4 * i + 4 <= |ArgvImage(entry, args)|
    ensures BytesToInt(ArgvImage(entry, args)[4 * i .. 4 * i + 4])
      == BytesToInt(ArgPointers(args, entry + 4 * |args|)[4 * i .. 4 * i + 4])
  {
    var pointers := ArgPointers(args, entry + 4 * |args|);
    assert (pointers + ArgStrings(args))[4 * i .. 4 * i + 4] == pointers[4 * i .. 4 * i + 4];
  }


  /** From where argument `i`'s string starts, the argument page holds that string and its terminator. */
  lemma ArgvImageTail(entry: int, args: seq<seq<byte>>, i: int) returns (tail: seq<byte>)
    requires 0 <= i < |args|
    ensures var at := |ArgStrings(args[..i])|;
      && 0 <= 4 * |args| + at <= |ArgvImage(entry, args)|
      && tail == ArgvImage(entry, args)[4 * |args| + at..]
      && |args[i]| < |tail| && tail[..|args[i]| + 1] == args[i] + [0]
  {
    var at := |ArgStrings(args[..i])|;
    var all := ArgStrings(args);
    ArgStringAt(args, i);
    tail := ArgvImage(entry, args)[4 * |args| + at..];
    assert tail == all[at..];
    assert tail[..|args[i]| + 1] == all[at .. at + |args[i]| + 1];
  }

  /** A string with no zero byte followed by a zero reads back as that string. */
  lemma TerminatedString(s: seq<byte>, word: seq<byte>)
    requires |word| < |s| && s[..|word| + 1] == word + [0]
    requires forall j :: 0 <= j < |word| ==> word[j] != 0
    ensures UntilTerminator(s) == Some(word)
  {
    TerminatedPrefix(s, word);
    UntilTerminatorAt(s, |word|);
  }

  lemma TerminatedPrefix(s: seq<byte>, word: seq<byte>)
    requires |word| < |s| && s[..|word| + 1] == word + [0]
    requires forall j :: 0 <= j < |word| ==> word[j] != 0
    ensures s[|word|] == 0 && s[..|word|] == word
    ensures forall j :: 0 <= j < |word| ==> s[j] != 0
  {
    assert s[|word|] == (word + [0])[|word|];
    forall j | 0 <= j < |word|
      ensures s[j] != 0
    {
      assert s[j] == (word + [0])[j];
    }
    assert s[..|word|] == s[..|word| + 1][..|word|];
  }

  /**
   * Reading argument `i` at the first pointer plus 4i instead: with
   * arguments "ab" and "cd" from `entry`, the first pointer is entry + 8
   * (past the two pointers) and the string 4 bytes further is "d", not "cd".
   */
  lemma FirstPointerPlusOffsetMisreads(entry: int, args: seq<seq<byte>>)
    requires args == [[0x61, 0x62], [0x63, 0x64]] && -0x8000_0000 <= entry && entry + 14 < 0x8000_0000
    ensures |ArgvImage(entry, args)| == 14
    ensures BytesToInt(ArgvImage(entry, args)[0..4]) == entry + 8
    ensures UntilTerminator(ArgvImage(entry, args)[8 + 4..]) == Some([0x64]) && args[1] != [0x64]
  {
    var strings := ArgStrings(args);
    assert args[..0] == [];
    assert args[..1] == [[0x61, 0x62]];
    assert args[..1][..0] == [];
    assert ArgsSize(args[..1]) == 7;
    assert ArgsSize(args) == 14;
    ArgvImageReadsBack(entry, args, 0);
    ArgvImageSize(entry, args);
    assert ArgStrings(args[..1]) == [0x61, 0x62, 0];
    assert strings == [0x61, 0x62, 0, 0x63, 0x64, 0];
    var tail := ArgvImage(entry, args)[12..];
    assert tail == strings[12 - |ArgPointers(args, entry + 8)|..];
    assert tail == [0x64, 0];
    UntilTerminatorAt(tail, 1);
    assert tail[..1] == [0x64];
  }

  // ---------------------------------------------------------------------
  // File descriptors and exec arguments

  /** Slots in a process's file-descriptor table. */
  const MaxOpenFiles: int := 16

  /** Longest file name a system call reads, terminator excluded. */
  const MaxNameLength: int := 256

  /** The lowest empty slot of `table`, or None when all are taken. */
  function FirstEmptySlot<T>(table: seq<Option<T>>): (r: Option<int>)
    ensures r.Some? ==> 0 <= r.value < |table| && table[r.value].None?
    ensures r.Some? ==> forall j :: 0 <= j < r.value ==> table[j].Some?
    ensures r.None? <==> forall j :: 0 <= j < |table| ==> table[j].Some?
  {
    if |table| == 0 then None
    else match FirstEmptySlot(table[..|table| - 1])
      case Some(i) => Some(i)
      case None => if table[|table| - 1].None? then Some(|table| - 1) else None
  }

  const Dot: byte := 0x2E
  /** The extension an executable must carry: "coff". */
  const CoffExtension: seq<byte> := [0x63, 0x6F, 0x66, 0x66]

  /** Index of the last occurrence of `c` in `s`, or -1. */
  function LastIndexOf(s: seq<byte>, c: byte): (r: int)
    ensures -1 <= r < |s|
    ensures r >= 0 ==> s[r] == c
    ensures forall j :: r < j < |s| ==> s[j] != c
  {
    if |s| == 0 then -1
    else if s[|s| - 1] == c then |s| - 1
    else LastIndexOf(s[..|s| - 1], c)
  }

  /** exec's test of a file name: the text after its last dot is exactly "coff". */
  predicate HasCoffExtension(name: seq<byte>)
  {
    var ind := LastIndexOf(name, Dot);
    ind != -1 && name[ind + 1..] == CoffExtension
  }

  /** The test accepts exactly the names ending in ".coff". */
  lemma CoffExtensionIff(name: seq<byte>)
    ensures HasCoffExtension(name) <==> |name| >= 5 && name[|name| - 5..] == [Dot] + CoffExtension
  {
    var ind := LastIndexOf(name, Dot);
    var n := |name|;
    if n >= 5 && name[n - 5..] == [Dot] + CoffExtension {
      assert name[n - 5] == ([Dot] + CoffExtension)[0] == Dot;
      forall j | n - 5 < j < n
        ensures name[j] != Dot
      {
        assert name[j] == ([Dot] + CoffExtension)[j - (n - 5)];
      }
      assert ind == n - 5;
      assert name[ind + 1..] == name[n - 5..][1..];
    }
    if HasCoffExtension(name) {
      assert |name[ind + 1..]| == 4;
      assert name[n - 5..] == [name[ind]] + name[ind + 1..];
    }
  }

  /** Longest argument string exec reads, terminator excluded. */
  const MaxArgLength: int := 256

  /**
   * Address `pointer + i * 4` in Java's 32-bit int arithmetic: where exec
   * looks for argument `i`. Wrapping the product and then the sum gives the
   * same int as wrapping the exact sum once.
   */
  function ArgSlot(pointer: int, i: int): (r: int)
    ensures -0x8000_0000 <= r < 0x8000_0000
    ensures -0x8000_0000 <= pointer + 4 * i < 0x8000_0000 ==> r == pointer + 4 * i
  {
    Wrap32(pointer + 4 * i)
  }

  /** What exec hands to the new process: the program's file name and its arguments, None where one was unreadable. */
  datatype ExecRequest = ExecRequest(name: seq<byte>, args: seq<Option<seq<byte>>>)

  // ---------------------------------------------------------------------
  // Words and strings in virtual memory

  /** The buffer read() hands to writeVirtualMemory: the bytes the file delivered, padded with zeros to `count`. */
  function PaddedBuffer(got: seq<byte>, count: int): (r: seq<byte>)
    requires |got| <= count
    ensures |r| == count && r[..|got|] == got
    ensures forall i :: |got| <= i < count ==> r[i] == 0
  {
    got + seq(count - |got|, _ => 0 as byte)
  }

  /**
   * The string readVirtualMemoryString finds at `vaddr` in a process with
   * `numPages` pages: the bytes before the first zero among the at most
   * `maxLength + 1` readable ones, or None when none of them is zero.
   */
  ghost function StringIn(mem: seq<byte>, pt: seq<TranslationEntry>, numPages: int, vaddr: int, maxLength: int): (r: Option<seq<byte>>)
    requires FramesInMemory(pt, |mem|) && 0 <= maxLength
    ensures r.Some? ==> |r.value| <= maxLength && forall i :: 0 <= i < |r.value| ==> r.value[i] != 0
  {
    UntilTerminator(ReadSpec(mem, pt, vaddr, TransferCount(vaddr, maxLength + 1, numPages, |pt|)))
  }

  /**
   * The word exec reads at `vaddr`: four bytes copied into a zeroed buffer and
   * decoded, or None when not one byte could be copied.
   */
  ghost function WordIn(mem: seq<byte>, pt: seq<TranslationEntry>, numPages: int, vaddr: int): (r: Option<int>)
    requires FramesInMemory(pt, |mem|)
    ensures r.None? <==> TransferCount(vaddr, 4, numPages, |pt|) == 0
    ensures TransferCount(vaddr, 4, numPages, |pt|) == 4 ==> r == Some(BytesToInt(ReadSpec(mem, pt, vaddr, 4)))
  {
    var n := TransferCount(vaddr, 4, numPages, |pt|);
    if n == 0 then None
    else
      var word := PaddedBuffer(ReadSpec(mem, pt, vaddr, n), 4);
      assert n == 4 ==> word == ReadSpec(mem, pt, vaddr, 4);
      Some(BytesToInt(word))
  }

  /** The `|img|` bytes from `vaddr` read as `img`, inside the process's pages and page table. */
  ghost predicate HoldsAt(mem: seq<byte>, pt: seq<TranslationEntry>, numPages: int, vaddr: int, img: seq<byte>)
  {
    && FramesInMemory(pt, |mem|)
    && 0 <= vaddr && vaddr + |img| <= numPages * PageSize && vaddr + |img| <= |pt| * PageSize
    && ReadSpec(mem, pt, vaddr, |img|) == img
  }

  /** A copy from `vaddr` whose first `t` bytes lie inside the pages and the page table transfers at least those. */
  lemma TransferReachesAll(vaddr: int, length: int, t: int, numPages: int, ptLen: int)
    requires 0 <= vaddr && 0 < t <= length && vaddr + t <= numPages * PageSize && vaddr + t <= ptLen * PageSize
    ensures t <= TransferCount(vaddr, length, numPages, ptLen)
    ensures t == length ==> TransferCount(vaddr, length, numPages, ptLen) == length
  {
    assert vaddr < ptLen * PageSize;
    assert vaddr / PageSize < ptLen;
  }

  /** Any `n` bytes inside an image held in memory, from `address`, `k` bytes into it, read as that part of the image. */
  lemma ReadInside(mem: seq<byte>, pt: seq<TranslationEntry>, numPages: int, vaddr: int, img: seq<byte>, k: int, address: int, n: int)
    requires HoldsAt(mem, pt, numPages, vaddr, img) && 0 <= k && 0 < n && k + n <= |img| && address == vaddr + k
    ensures TransferCount(address, n, numPages, |pt|) == n
    ensures ReadSpec(mem, pt, address, n) == img[k..k + n]
  {
    TransferReachesAll(address, n, n, numPages, |pt|);
    ReadSuffix(mem, pt, vaddr, k, |img|, address);
    ReadPrefix(mem, pt, address, n, |img| - k);
    assert ReadSpec(mem, pt, address, n) == img[k..][..n];
  }

  /** A word inside an image held in memory reads as the word the image holds there. */
  lemma WordInside(mem: seq<byte>, pt: seq<TranslationEntry>, numPages: int, vaddr: int, img: seq<byte>, k: int, address: int)
    requires HoldsAt(mem, pt, numPages, vaddr, img) && 0 <= k && k + 4 <= |img| && address == vaddr + k
    ensures WordIn(mem, pt, numPages, address) == Some(BytesToInt(img[k..k + 4]))
  {
    ReadInside(mem, pt, numPages, vaddr, img, k, address, 4);
  }

  /** A string that ends inside an image held in memory, and is short enough, reads back whole. */
  lemma StringInside(mem: seq<byte>, pt: seq<TranslationEntry>, numPages: int, vaddr: int, img: seq<byte>,
                     k: int, address: int, word: seq<byte>, maxLength: int)
    requires HoldsAt(mem, pt, numPages, vaddr, img) && 0 <= k < |img| && address == vaddr + k
    requires UntilTerminator(img[k..]) == Some(word) && 0 <= |word| <= maxLength
    ensures StringIn(mem, pt, numPages, address, maxLength) == Some(word)
  {
    var t := |word| + 1;
    var m := TransferCount(address, maxLength + 1, numPages, |pt|);
    ReadInside(mem, pt, numPages, vaddr, img, k, address, t);
    TransferReachesAll(address, maxLength + 1, t, numPages, |pt|);
    ReadPrefix(mem, pt, address, t, m);
    TerminatedRead(ReadSpec(mem, pt, address, m), img, k, word);
  }

  /** A read that starts with the terminated string found at `k` of `img` ends that string where the image does. */
  lemma TerminatedRead(s: seq<byte>, img: seq<byte>, k: int, word: seq<byte>)
    requires 0 <= k < |img| && UntilTerminator(img[k..]) == Some(word)
    requires |word| < |s| && s[..|word| + 1] == img[k..k + |word| + 1]
    ensures UntilTerminator(s) == Some(word)
  {
    var t := |word| + 1;
    TerminatedFound(img[k..], word);
    assert img[k..k + t] == img[k..][..t];
    TerminatedString(s, word);
  }

  /** The string found before the first zero byte, with that zero, starts `u`. */
  lemma TerminatedFound(u: seq<byte>, word: seq<byte>)
    requires UntilTerminator(u) == Some(word)
    ensures |word| < |u| && u[..|word| + 1] == word + [0]
  {
    var r := UntilTerminator(u);
    assert |r.value| < |u| && u[|r.value|] == 0 && r.value == u[..|r.value|];
    SliceWithNext(u, word);
  }

  lemma SliceWithNext(u: seq<byte>, word: seq<byte>)
    requires |word| < |u| && u[|word|] == 0 && word == u[..|word|]
    ensures u[..|word| + 1] == word + [0]
  {
    assert u[..|word| + 1] == u[..|word|] + [u[|word|]];
  }

  /**
   * Reading argument `i` at the first pointer plus 4i, through memory: with
   * arguments "ab" and "cd" held at `argv`, the first word is argv + 8 and
   * the string at argv + 8 + 1 * 4 reads as "d".
   */
  lemma ExecAsWrittenMisreads(mem: seq<byte>, pt: seq<TranslationEntry>, numPages: int, argv: int, args: seq<seq<byte>>)
    requires args == [[0x61, 0x62], [0x63, 0x64]]
    requires HoldsAt(mem, pt, numPages, argv, ArgvImage(argv, args)) && argv + 14 < 0x8000_0000
    ensures WordIn(mem, pt, numPages, argv) == Some(argv + 8)
    ensures StringIn(mem, pt, numPages, ArgSlot(argv + 8, 1), MaxArgLength) == Some([0x64]) && args[1] != [0x64]
  {
    var img := ArgvImage(argv, args);
    FirstPointerPlusOffsetMisreads(argv, args);
    WordInside(mem, pt, numPages, argv, img, 0, argv);
    StringInside(mem, pt, numPages, argv, img, 12, ArgSlot(argv + 8, 1), [0x64], MaxArgLength);
  }
}
