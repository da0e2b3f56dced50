/**
 * The boot loader's `download` (sd-boot/bootrom.c): it loads ELF segments into the RAM it is itself using
 * by diverting the low 32 KiB to a scratch area and copying that back just before the jump.
 */
module Loader {
  import opened Bytes

  /** Physical memory. */
  type Mem = nat -> byte

  /** The RAM of a build; the ROM's own variables and stack occupy [base, End()). */
  datatype Ram = Ram(base: nat, size: nat) {
    function End(): nat { base + 0x8000 }

    /** Where the low 32 KiB are collected: below an 8 KiB guard at the top. */
    function Alt(): int { base + size - 0xA000 }

    predicate Sane() { base + size < 0x1_0000_0000_0000_0000 && End() <= Alt() }
  }

  datatype Segment = Segment(offset: nat, vaddr: nat, filesz: nat, memsz: nat)

  datatype Outcome = Failed | Jump(entry: nat, dtb: nat)

  // ---------------------------------------------------------------- what the file says

  function ByteOf(c: seq<byte>, i: nat): byte { if i < |c| then c[i] else 0 }

  function Pow256(n: nat): (p: nat)
    ensures p > 0
  {
    if n == 0 then 1 else 256 * Pow256(n - 1)
  }

  /** The n-byte little-endian number at `at`. */
  function Number(c: seq<byte>, at: nat, n: nat): nat {
    if n == 0 then 0 else Number(c, at, n - 1) + Times(ByteOf(c, at + n - 1), Pow256(n - 1))
  }

  lemma {:induction false} NumberOfPart(c: seq<byte>, at: nat, n: nat, part: seq<byte>)
    requires at + |part| <= |c| && part == c[at..at + |part|] && n <= |part|
    ensures Number(part, 0, n) == Number(c, at, n)
  {
    if n > 0 {
      NumberOfPart(c, at, n - 1, part);
    }
  }

  lemma {:induction false} NumberFits(c: seq<byte>, at: nat, n: nat)
    ensures Number(c, at, n) < Pow256(n)
  {
    if n > 0 {
      NumberFits(c, at, n - 1);
      MulMono(Pow256(n - 1), ByteOf(c, at + n - 1), 255);
    }
  }

  lemma AddressFits(c: seq<byte>, at: nat)
    ensures Number(c, at, 8) < 0x1_0000_0000_0000_0000
  {
    NumberFits(c, at, 8);
    assert Pow256(4) == 0x1_0000_0000;
  }

  predicate IsElf(c: seq<byte>) {
    |c| >= 6 && c[0] == 0x7F && c[1] == 0x45 && c[2] == 0x4C && c[3] == 0x46 && c[4] == 2 && c[5] == 1
  }

  /** Elf64_Ehdr: e_entry, e_phoff, e_phentsize and e_phnum. */
  function Entry(c: seq<byte>): nat { Number(c, 24, 8) }
  function Phoff(c: seq<byte>): nat { Number(c, 32, 8) }
  function Phentsize(c: seq<byte>): nat { Number(c, 54, 2) }
  function Phnum(c: seq<byte>): nat { Number(c, 56, 2) }

  function HeaderAt(c: seq<byte>, i: nat): nat {
    (Phoff(c) + Times(i, Phentsize(c))) % 0x1_0000_0000_0000_0000
  }

  /** Elf64_Phdr: p_offset, p_vaddr, p_filesz and p_memsz. */
  function SegmentAt(c: seq<byte>, h: nat): Segment {
    Segment(Number(c, h + 8, 8), Number(c, h + 16, 8), Number(c, h + 32, 8), Number(c, h + 40, 8))
  }

  predicate IsLoad(c: seq<byte>, h: nat) { Number(c, h, 4) == 1 }

  /** The PT_LOAD segments among the first n program headers. */
  function Segments(c: seq<byte>, n: nat): seq<Segment> {
    if n == 0 then
      []
    else if IsLoad(c, HeaderAt(c, n - 1)) then
      Segments(c, n - 1) + [SegmentAt(c, HeaderAt(c, n - 1))]
    else
      Segments(c, n - 1)
  }

  lemma {:induction false} SegmentsGrow(c: seq<byte>, n: nat, m: nat)
    requires n <= m
    ensures Segments(c, n) <= Segments(c, m)
  {
    if n < m {
      SegmentsGrow(c, n, m - 1);
    }
  }

  predicate Covers(s: Segment, a: nat) { s.vaddr <= a < s.vaddr + s.memsz }

  ghost predicate Covered(segs: seq<Segment>, a: nat) { exists i | 0 <= i < |segs| :: Covers(segs[i], a) }

  /** Byte k of a segment in memory: its file byte, or zero past p_filesz. */
  function SegmentByte(c: seq<byte>, s: Segment, k: nat): byte {
    if k < s.filesz then ByteOf(c, s.offset + k) else 0
  }

  /** A loader with memory to itself: each segment in turn straight to its address. */
  function DirectLoad(init: Mem, c: seq<byte>, segs: seq<Segment>): Mem {
    if segs == [] then
      init
    else
      var s, before := segs[|segs| - 1], DirectLoad(init, c, segs[..|segs| - 1]);
      (a: nat) => if Covers(s, a) then SegmentByte(c, s, a - s.vaddr) else before(a)
  }

  /** Under a direct load the last segment covering an address decides its byte. */
  lemma {:induction false} LaterSegmentWins(init: Mem, c: seq<byte>, segs: seq<Segment>, i: nat, a: nat)
    requires i < |segs| && Covers(segs[i], a) && forall j | i < j < |segs| :: !Covers(segs[j], a)
    ensures DirectLoad(init, c, segs)(a) == SegmentByte(c, segs[i], a - segs[i].vaddr)
  {
    if i < |segs| - 1 {
      LaterSegmentWins(init, c, segs[..|segs| - 1], i, a);
    }
  }

  lemma {:induction false} UncoveredKept(init: Mem, c: seq<byte>, segs: seq<Segment>, a: nat)
    requires !Covered(segs, a)
    ensures DirectLoad(init, c, segs)(a) == init(a)
  {
    if segs != [] {
      var rest := segs[..|segs| - 1];
      assert forall i | 0 <= i < |rest| :: rest[i] == segs[i];
      UncoveredKept(init, c, rest, a);
    }
  }

  // ---------------------------------------------------------------- the segment check

  ghost predicate NoWrap(segs: seq<Segment>) {
    forall i | 0 <= i < |segs| :: segs[i].vaddr + segs[i].memsz < 0x1_0000_0000_0000_0000
  }

  lemma NoWrapBefore(c: seq<byte>, n: nat, m: nat)
    requires n <= m
    ensures NoWrap(Segments(c, m)) ==> NoWrap(Segments(c, n))
  {
    SegmentsGrow(c, n, m);
  }

  predicate InRam(ram: Ram, s: Segment) { ram.base <= s.vaddr && s.vaddr + s.memsz <= ram.base + ram.size }

  /** The test of `download`, whose sum is taken in 64 bits. */
  predicate Accepted(ram: Ram, s: Segment) {
    ram.base <= s.vaddr && (s.vaddr + s.memsz) % 0x1_0000_0000_0000_0000 <= ram.base + ram.size
  }

  /** The test means "inside RAM" for exactly the headers whose end does not wrap. */
  lemma CheckMeansInRam(ram: Ram, s: Segment)
    requires ram.Sane() && s.vaddr < 0x1_0000_0000_0000_0000 && s.memsz < 0x1_0000_0000_0000_0000
    requires Accepted(ram, s)
    ensures InRam(ram, s) <==> s.vaddr + s.memsz < 0x1_0000_0000_0000_0000
  {
    assert s.vaddr + s.memsz < 0x1_0000_0000_0000_0000 ==>
        (s.vaddr + s.memsz) % 0x1_0000_0000_0000_0000 == s.vaddr + s.memsz;
  }

  /** A header at the top of the address space that passes the test and lies wholly outside RAM up to the wrap. */
  lemma WrapPassesCheck(ram: Ram)
    requires ram.Sane()
    ensures var s := Segment(0, 0xFFFF_FFFF_FFFF_F000, 0x1000, 0x1000); Accepted(ram, s) && !InRam(ram, s)
  {
  }

  // ---------------------------------------------------------------- redirection

  /** Where logical address a of the image is kept until the copy-back. */
  function Phys(ram: Ram, a: nat): nat
    requires ram.Sane()
  {
    if ram.base <= a < ram.End() then a - ram.base + ram.Alt() else a
  }

  /** The destination and length of a chunk, as both loops of `download` choose them. */
  function Target(ram: Ram, addr: nat, size: nat): (nat, int)
    requires ram.Sane()
  {
    if (addr + size) % 0x1_0000_0000_0000_0000 > ram.base && addr < ram.End() then
      (addr - ram.base + ram.Alt(), if (addr + size) % 0x1_0000_0000_0000_0000 > ram.End() then ram.End() - addr else size)
    else
      (addr, size)
  }

  function Wrap(x: nat): nat { x % 0x1_0000_0000_0000_0000 }

  lemma WrapAdd(x: nat, n: nat)
    ensures Wrap(Wrap(x) + n) == Wrap(x + n)
  {
    var q, y := x / 0x1_0000_0000_0000_0000, Wrap(x) + n;
    DivIs(x + n, 0x1_0000_0000_0000_0000, q + y / 0x1_0000_0000_0000_0000);
  }

  /** Inside RAM no address of the loops wraps. */
  lemma InRamChunk(ram: Ram, s: Segment, done: nat, size: nat)
    requires ram.Sane() && done + size <= s.memsz && 0 < size
    ensures InRam(ram, s) ==> Wrap(s.vaddr + done) == s.vaddr + done
    ensures InRam(ram, s) ==> ram.End() <= Target(ram, s.vaddr + done, size).0
    ensures InRam(ram, s) ==> (Diverts(ram, s.vaddr + done, size) <==> s.vaddr + done < ram.End())
    ensures var n := Target(ram, Wrap(s.vaddr + done), size).1; 0 < n <= size
  {
    if InRam(ram, s) {
      TargetIsPhys(ram, s.vaddr + done, size);
    }
  }

  predicate Diverts(ram: Ram, addr: nat, size: nat) {
    (addr + size) % 0x1_0000_0000_0000_0000 > ram.base && addr < ram.End()
  }

  /** A chunk never reaches the ROM's low RAM and lands where its logical addresses are kept. */
  lemma TargetIsPhys(ram: Ram, addr: nat, size: nat)
    requires ram.Sane() && ram.base <= addr && addr + size < 0x1_0000_0000_0000_0000 && size > 0
    ensures var (p, n) := Target(ram, addr, size);
      && 0 < n <= size && ram.End() <= p
      && (forall a | addr <= a < addr + n :: Phys(ram, a) == p + (a - addr))
  {
    assert (addr + size) % 0x1_0000_0000_0000_0000 == addr + size;
  }

  /** m' is m with `data` stored at p. */
  ghost predicate Wrote(m: Mem, m': Mem, p: nat, data: seq<byte>) {
    forall x: nat :: m'(x) == if p <= x < p + |data| then data[x - p] else m(x)
  }

  function Zeros(n: nat): (z: seq<byte>)
    ensures |z| == n && forall i | 0 <= i < n :: z[i] == 0
  {
    seq(n, _ => 0)
  }

  function Store(m: Mem, p: nat, data: seq<byte>): Mem {
    (x: nat) => if p <= x < p + |data| then data[x - p] else m(x)
  }

  /** The logical image below the scratch area, after `done` bytes of s. */
  ghost predicate Placed(ram: Ram, m: Mem, was: Mem, c: seq<byte>, s: Segment, done: nat)
    requires ram.Sane()
  {
    forall a | ram.base <= a < ram.Alt() ::
      m(Phys(ram, a)) == if s.vaddr <= a < s.vaddr + done then SegmentByte(c, s, a - s.vaddr) else was(Phys(ram, a))
  }

  lemma ChunkPlaced(ram: Ram, m: Mem, m': Mem, was: Mem, c: seq<byte>, s: Segment, done: nat, size: nat, data: seq<byte>)
    requires ram.Sane() && ram.base <= s.vaddr && 0 < size && s.vaddr + done + size <= ram.Alt()
    requires Placed(ram, m, was, c, s, done)
    requires |data| <= Target(ram, s.vaddr + done, size).1
    requires Wrote(m, m', Target(ram, s.vaddr + done, size).0, data)
    requires forall k | 0 <= k < |data| :: data[k] == SegmentByte(c, s, done + k)
    ensures Placed(ram, m', was, c, s, done + |data|)
  {
    var addr := s.vaddr + done;
    var (p, n) := Target(ram, addr, size);
    TargetIsPhys(ram, addr, size);
    forall a | ram.base <= a < ram.Alt()
      ensures m'(Phys(ram, a)) ==
              if s.vaddr <= a < addr + |data| then SegmentByte(c, s, a - s.vaddr) else was(Phys(ram, a))
    {
      var x := Phys(ram, a);
      assert m(x) == if s.vaddr <= a < addr then SegmentByte(c, s, a - s.vaddr) else was(x);
      if addr <= a < addr + |data| {
        assert x == p + (a - addr);
      } else {
        PhysElsewhere(ram, addr, size, a, |data|);
      }
    }
  }

  /** Distinct logical addresses below the scratch area are kept apart. */
  lemma PhysElsewhere(ram: Ram, addr: nat, size: nat, a: nat, n: nat)
    requires ram.Sane() && ram.base <= addr && 0 < size && addr + size <= ram.Alt()
    requires ram.base <= a < ram.Alt() && n <= Target(ram, addr, size).1 && !(addr <= a < addr + n)
    ensures var p := Target(ram, addr, size).0; !(p <= Phys(ram, a) < p + n)
  {
    assert (addr + size) % 0x1_0000_0000_0000_0000 == addr + size;
  }

  /** The image so far agrees with a direct load wherever a segment put something. */
  ghost predicate Loaded(ram: Ram, m: Mem, init: Mem, c: seq<byte>, segs: seq<Segment>)
    requires ram.Sane()
  {
    forall a | ram.base <= a < ram.Alt() && Covered(segs, a) :: m(Phys(ram, a)) == DirectLoad(init, c, segs)(a)
  }

  lemma LoadedStep(ram: Ram, m: Mem, m': Mem, init: Mem, c: seq<byte>, segs: seq<Segment>, s: Segment)
    requires ram.Sane() && Loaded(ram, m, init, c, segs) && Placed(ram, m', m, c, s, s.memsz)
    ensures Loaded(ram, m', init, c, segs + [s])
  {
    var all := segs + [s];
    assert all[..|all| - 1] == segs && all[|all| - 1] == s;
    forall a | ram.base <= a < ram.Alt() && Covered(all, a)
      ensures m'(Phys(ram, a)) == DirectLoad(init, c, all)(a)
    {
      if !Covers(s, a) {
        var i :| 0 <= i < |all| && Covers(all[i], a);
        assert segs[i] == all[i];
      }
    }
  }

  /** What the segment loop maintains for headers that do not wrap. */
  ghost predicate Progress(ram: Ram, c: seq<byte>, m: Mem, alt: bool, segs: seq<Segment>, loadEnd: nat, init: Mem)
    requires ram.Sane()
  {
    && (forall i | 0 <= i < |segs| :: InRam(ram, segs[i]) && segs[i].vaddr + segs[i].memsz <= loadEnd)
    && (loadEnd <= ram.Alt() ==> Loaded(ram, m, init, c, segs))
    && (forall i | 0 <= i < |segs| :: segs[i].memsz > 0 && segs[i].vaddr < ram.End() ==> alt)
  }

  lemma ProgressStep(ram: Ram, c: seq<byte>, m: Mem, alt: bool, segs: seq<Segment>, loadEnd: nat, init: Mem,
                     m': Mem, alt': bool, s: Segment, loadEnd': nat)
    requires ram.Sane() && Progress(ram, c, m, alt, segs, loadEnd, init) && InRam(ram, s)
    requires loadEnd <= loadEnd' && s.vaddr + s.memsz <= loadEnd'
    requires s.vaddr + s.memsz <= ram.Alt() ==> Placed(ram, m', m, c, s, s.memsz)
    requires alt || (s.memsz > 0 && s.vaddr < ram.End()) ==> alt'
    ensures Progress(ram, c, m', alt', segs + [s], loadEnd', init)
  {
    if loadEnd' <= ram.Alt() {
      LoadedStep(ram, m, m', init, c, segs, s);
    }
  }

  /** Every segment's file bytes exist. */
  ghost predicate FromFile(c: seq<byte>, segs: seq<Segment>) {
    forall i | 0 <= i < |segs| && Min(segs[i].filesz, segs[i].memsz) > 0 ::
      segs[i].offset + Min(segs[i].filesz, segs[i].memsz) <= |c|
  }

  /** s is the segment of header i, and it passed the test. */
  ghost predicate IsNext(ram: Ram, c: seq<byte>, i: nat, s: Segment) {
    && IsLoad(c, HeaderAt(c, i)) && s == SegmentAt(c, HeaderAt(c, i))
    && s.vaddr < 0x1_0000_0000_0000_0000 && Accepted(ram, s)
  }

  lemma NextSegment(ram: Ram, c: seq<byte>, i: nat, s: Segment)
    requires ram.Sane() && IsNext(ram, c, i, s)
    ensures Segments(c, i + 1) == Segments(c, i) + [s]
    ensures NoWrap(Segments(c, i + 1)) ==>
        NoWrap(Segments(c, i)) && InRam(ram, s) && Wrap(s.vaddr + s.memsz) == s.vaddr + s.memsz
  {
    assert Segments(c, i + 1) == Segments(c, i) + [s];
    LastInRam(ram, Segments(c, i), s);
  }

  lemma LastInRam(ram: Ram, segs: seq<Segment>, s: Segment)
    requires ram.Sane() && Accepted(ram, s)
    ensures NoWrap(segs + [s]) ==>
        NoWrap(segs) && InRam(ram, s) && Wrap(s.vaddr + s.memsz) == s.vaddr + s.memsz
  {
    var all := segs + [s];
    if NoWrap(all) {
      assert all[|segs|] == s;
      assert forall k | 0 <= k < |segs| :: segs[k] == all[k];
    }
  }

  // ---------------------------------------------------------------- the device tree

  /** The FDT totalsize field, big-endian at offset 4. */
  function TotalSize(blob: seq<byte>): nat
    requires |blob| >= 8
  {
    Dword(blob[7], blob[6], blob[5], blob[4])
  }

  function DtbAt(ram: Ram, blob: seq<byte>): int { var x := ram.Alt() - |blob| - 0x1000; x - x % 0x1000 }

  /** The build leaves room for the tree between the ROM's low RAM and its scratch area. */
  predicate RoomForTree(ram: Ram, blob: seq<byte>) {
    ram.Sane() && |blob| >= 8 && TotalSize(blob) <= |blob| && ram.End() <= DtbAt(ram, blob)
  }

  /** The four bytes of a big-endian field. */
  function BigEndian(t: nat): (b: seq<byte>)
    requires t < 0x1_0000_0000
    ensures |b| == 4 && Dword(b[3], b[2], b[1], b[0]) == t
  {
    var lo, hi := t % 0x1_0000, t / 0x1_0000;
    [hi / 0x100, hi % 0x100, lo / 0x100, lo % 0x100]
  }

  /** The new totalsize field: the old one with the slack added, in 32 bits. */
  function GrownTotal(total: nat): (b: seq<byte>)
    ensures |b| == 4 && Dword(b[3], b[2], b[1], b[0]) == (total + 0x1000) % 0x1_0000_0000
  {
    BigEndian((total + 0x1000) % 0x1_0000_0000)
  }

  /** Byte k of the copy: the blob with 4 KiB of zeros behind it and `head` for its totalsize. */
  function GrownByte(blob: seq<byte>, head: seq<byte>, k: nat): byte
    requires |blob| >= 8 && |head| == 4
  {
    if 4 <= k < 8 then head[k - 4] else if k < TotalSize(blob) then ByteOf(blob, k) else 0
  }

  ghost predicate TreeAt(m: Mem, dst: nat, blob: seq<byte>, head: seq<byte>)
    requires |blob| >= 8 && |head| == 4
  {
    forall a | dst <= a < dst + TotalSize(blob) + 0x1000 :: m(a) == GrownByte(blob, head, a - dst)
  }

  lemma TreeKept(m: Mem, m': Mem, dst: nat, blob: seq<byte>, head: seq<byte>)
    requires |blob| >= 8 && |head| == 4 && TreeAt(m, dst, blob, head) && forall x: nat | dst <= x :: m'(x) == m(x)
    ensures TreeAt(m', dst, blob, head)
  {
    forall a | dst <= a < dst + TotalSize(blob) + 0x1000
      ensures m'(a) == GrownByte(blob, head, a - dst)
    {
      assert m(a) == GrownByte(blob, head, a - dst);
    }
  }

  /** The three stores that make the copy: the blob, the slack behind its totalsize, the new totalsize. */
  lemma TreeWritten(m: Mem, copied: Mem, cleared: Mem, m': Mem, dst: nat, blob: seq<byte>, head: seq<byte>, total: nat)
    requires |blob| >= 8 && |head| == 4 && TotalSize(blob) == total <= |blob| && Wrote(m, copied, dst, blob)
    requires Wrote(copied, cleared, dst + total, Zeros(0x1000))
    requires Wrote(cleared, m', dst + 4, head)
    ensures TreeAt(m', dst, blob, head)
    ensures forall x: nat | !(dst <= x < dst + |blob| + 0x1000) :: m'(x) == m(x)
  {
    forall a | dst <= a < dst + total + 0x1000
      ensures m'(a) == GrownByte(blob, head, a - dst)
    {
    }
  }

  lemma TreeKeepsImage(ram: Ram, c: seq<byte>, m: Mem, m': Mem, alt: bool, segs: seq<Segment>, loadEnd: nat, dst: nat,
                       init: Mem)
    requires ram.Sane() && loadEnd <= dst && ram.End() <= dst <= ram.Alt()
    requires forall x: nat | !(dst <= x < ram.Alt()) :: m'(x) == m(x)
    ensures Progress(ram, c, m, alt, segs, loadEnd, init) ==> Progress(ram, c, m', alt, segs, dst, init)
  {
    if Progress(ram, c, m, alt, segs, loadEnd, init) {
      forall a | ram.base <= a < ram.Alt() && Covered(segs, a)
        ensures m'(Phys(ram, a)) == DirectLoad(init, c, segs)(a)
      {
        var i :| 0 <= i < |segs| && Covers(segs[i], a);
        assert a < loadEnd;
        assert m(Phys(ram, a)) == DirectLoad(init, c, segs)(a);
      }
    }
  }

  ghost function AllSegments(c: seq<byte>): seq<Segment> { Segments(c, Phnum(c)) }

  /** A jump is taken only for an ELF with a loadable segment whose file bytes all exist. */
  ghost predicate Bootable(ram: Ram, blob: seq<byte>, c: seq<byte>, out: Outcome)
    requires out.Jump?
  {
    && IsElf(c) && out.entry == Entry(c) && out.dtb == DtbAt(ram, blob)
    && (ram.base > 0 ==> AllSegments(c) != []) && FromFile(c, AllSegments(c))
  }

  /** The image a payload finds: the direct load at every covered address, all of them below the tree. */
  ghost predicate Image(ram: Ram, c: seq<byte>, m: Mem, segs: seq<Segment>, dtb: nat, init: Mem) {
    && (forall a: nat | Covered(segs, a) :: m(a) == DirectLoad(init, c, segs)(a))
    && (forall i | 0 <= i < |segs| :: ram.base <= segs[i].vaddr && segs[i].vaddr + segs[i].memsz <= dtb)
  }

  /** The copy-back, or its omission, turns the diverted image into the direct one. */
  lemma ImageReady(ram: Ram, c: seq<byte>, m: Mem, alt: bool, m': Mem, segs: seq<Segment>, dtb: nat, init: Mem)
    requires ram.Sane() && dtb <= ram.Alt() && Progress(ram, c, m, alt, segs, dtb, init)
    requires forall x: nat | !(ram.base <= x < ram.End()) :: m'(x) == m(x)
    requires alt ==> forall a | ram.base <= a < ram.End() :: m'(a) == m(Phys(ram, a))
    ensures Image(ram, c, m', segs, dtb, init)
  {
    forall a: nat | Covered(segs, a)
      ensures m'(a) == DirectLoad(init, c, segs)(a)
    {
      var i :| 0 <= i < |segs| && Covers(segs[i], a);
      assert m(Phys(ram, a)) == DirectLoad(init, c, segs)(a);
      if ram.base <= a < ram.End() {
        assert alt;
      }
    }
  }

  // ---------------------------------------------------------------- the ROM

  class Rom {
    const ram: Ram
    const blob: seq<byte>
    const content: seq<byte>
    var pos: nat
    var errno: nat
    var mem: Mem
    var altMem: bool
    /** No store has hit [base, End()), so that it still reads as at the start. */
    ghost var lowIntact: bool
    ghost const low: Mem

    ghost predicate Valid()
      reads this
    {
      ram.Sane() && pos <= |content| && LowTied()
    }

    ghost predicate LowTied()
      reads `mem, `lowIntact
    {
      lowIntact ==> forall a | ram.base <= a < ram.End() :: mem(a) == low(a)
    }

    /** The only way memory is written. */
    method StoreBytes(p: nat, data: seq<byte>)
      requires LowTied()
      modifies `mem, `lowIntact
      ensures LowTied() && Wrote(old(mem), mem, p, data)
      ensures lowIntact == (old(lowIntact) && (p + |data| <= ram.base || ram.End() <= p || data == []))
    {
      lowIntact := lowIntact && (p + |data| <= ram.base || ram.End() <= p || data == []);
      mem := Store(mem, p, data);
    }

    /** BOOT.ELF just opened; alt_mem may be left over from an attempt that failed. */
    constructor (ram: Ram, blob: seq<byte>, content: seq<byte>, mem: Mem, altMem: bool)
      requires ram.Sane()
      ensures Valid() && this.ram == ram && this.blob == blob && this.content == content
      ensures this.mem == mem && this.altMem == altMem && pos == 0 && lowIntact
    {
      this.ram, this.blob, this.content := ram, blob, content;
      this.mem, this.altMem, this.low := mem, altMem, mem;
      pos, errno, lowIntact := 0, 0, true;
    }

    /** f_lseek on a file opened for reading. */
    method Seek(ofs: nat)
      requires Valid()
      modifies `pos, `errno
      ensures Valid() && (errno == 0 ==> pos == Min(ofs, |content|))
    {
      errno := *;
      pos := if ofs > |content| then |content| else ofs;
    }

    /** f_read into a local buffer; it may come up short. */
    method Read(n: nat) returns (data: seq<byte>)
      requires Valid()
      modifies `pos, `errno
      ensures Valid() && |data| <= n && pos == old(pos) + |data| && data == content[old(pos)..pos]
    {
      errno := *;
      var rd: nat :| rd <= n && rd <= |content| - pos;
      data := content[pos..pos + rd];
      pos := pos + rd;
    }

    /** f_read straight into memory at p; when it fails, the n bytes there are unknown. */
    method ReadInto(p: nat, n: nat) returns (ghost data: seq<byte>, rd: nat)
      requires Valid()
      modifies `pos, `errno, `mem, `lowIntact
      ensures Valid() && |data| == rd <= n
      ensures old(lowIntact) && ram.End() <= p ==> lowIntact
      ensures errno == 0 ==> pos == old(pos) + rd && data == content[old(pos)..pos] && Wrote(old(mem), mem, p, data)
    {
      var buffer := Read(n);
      data, rd := buffer, |buffer|;
      StoreBytes(p, buffer);
      if errno != 0 {
        var garbage: seq<byte> := *;
        if |garbage| <= n {
          StoreBytes(p, garbage);
        }
      }
    }

    /** read_num: a little-endian number at the file position; an earlier error sticks. */
    method ReadNum(size: nat) returns (v: nat)
      requires Valid() && size <= 16
      modifies `pos, `errno
      ensures Valid()
      ensures errno == 0 ==> old(errno) == 0 && pos == old(pos) + size && v == Number(content, old(pos), size)
      ensures old(errno) != 0 ==> errno == old(errno) && pos == old(pos)
    {
      v := 0;
      if errno != 0 {
        return;
      }
      var buf := Read(size);
      if errno != 0 {
        return;
      }
      if |buf| < size {
        errno := 30;
        return;
      }
      for n := 0 to size
        invariant v == Number(buf, 0, n)
      {
        v := v + Times(buf[n], Pow256(n));
      }
      NumberOfPart(content, old(pos), size, buf);
    }

    /** The ELF identification and header fields. */
    method ReadElfHeader() returns (ok: bool, entry: nat, phoff: nat, phentsize: nat, phnum: nat)
      requires Valid() && pos == 0
      modifies `pos, `errno
      ensures Valid()
      ensures ok ==> IsElf(content) && entry == Entry(content)
      ensures ok ==> phoff == Phoff(content) && phentsize == Phentsize(content) && phnum == Phnum(content)
      ensures ok <==> errno == 0
    {
      ok, entry, phoff, phentsize, phnum := false, 0, 0, 0, 0;
      var buf := Read(6);
      if errno != 0 {
        return;
      }
      if |buf| < 6 {
        errno := 30;
        return;
      }
      if buf[0] != 0x7F || buf[1] != 0x45 || buf[2] != 0x4C || buf[3] != 0x46 {
        errno := 31;
        return;
      }
      if buf[4] != 2 {
        errno := 32;
        return;
      }
      if buf[5] != 1 {
        errno := 33;
        return;
      }
      Seek(24);
      entry := ReadNum(8);
      phoff := ReadNum(8);
      if errno != 0 {
        return;
      }
      Seek(pos + 8 + 6);
      phentsize := ReadNum(2);
      phnum := ReadNum(2);
      ok := errno == 0;
    }

    /** The fields of program header i. */
    method ReadProgramHeader(i: nat, phoff: nat, phentsize: nat) returns (load: bool, s: Segment)
      requires Valid() && phoff == Phoff(content) && phentsize == Phentsize(content)
      modifies `pos, `errno
      ensures Valid()
      ensures errno == 0 ==> load == IsLoad(content, HeaderAt(content, i))
      ensures errno == 0 && load ==> s == SegmentAt(content, HeaderAt(content, i)) && s.vaddr < 0x1_0000_0000_0000_0000
    {
      load, s := false, Segment(0, 0, 0, 0);
      Seek((phoff + Times(i, phentsize)) % 0x1_0000_0000_0000_0000);
      var kind := ReadNum(4);
      if errno != 0 {
        return;
      }
      if kind != 1 {
        return;
      }
      load := true;
      Seek(pos + 4);
      var offset := ReadNum(8);
      var vaddr := ReadNum(8);
      var _ := ReadNum(8);
      var filesz := ReadNum(8);
      var memsz := ReadNum(8);
      s := Segment(offset, vaddr, filesz, memsz);
      AddressFits(content, HeaderAt(content, i) + 16);
    }

    /** The segment lies below the scratch area; only such images get as far as the jump. */
    ghost predicate Below(s: Segment) { ram.base <= s.vaddr && s.vaddr + s.memsz <= ram.Alt() }

    /** A loop position: address and file position follow `done`, and the low RAM is diverted from the start. */
    ghost predicate At(s: Segment, addr: nat, done: nat)
      reads `altMem
    {
      && done <= s.memsz && addr == Wrap(s.vaddr + done)
      && (InRam(ram, s) && done > 0 && s.vaddr < ram.End() ==> altMem)
    }

    /** The destination of the next chunk, noting a diversion. */
    method Aim(s: Segment, addr: nat, done: nat, size: nat) returns (p: nat, n: nat)
      requires ram.Sane() && At(s, addr, done) && done + size <= s.memsz && 0 < size
      modifies `altMem
      ensures 0 < n <= size && (old(altMem) ==> altMem)
      ensures InRam(ram, s) ==> ram.End() <= p && (p, n) == Target(ram, s.vaddr + done, size)
      ensures InRam(ram, s) && s.vaddr < ram.End() ==> altMem
    {
      InRamChunk(ram, s, done, size);
      var target := Target(ram, addr, size);
      p, n := target.0, target.1;
      if Diverts(ram, addr, size) {
        altMem := true;
      }
    }

    /** One turn of the loop that copies file bytes. */
    method CopyChunk(s: Segment, addr: nat, done: nat, ghost was: Mem) returns (addr': nat, done': nat)
      requires Valid() && At(s, addr, done) && done < s.filesz && done < s.memsz
      requires pos == Min(s.offset + done, |content|)
      requires Below(s) ==> Placed(ram, mem, was, content, s, done)
      modifies `pos, `errno, `mem, `lowIntact, `altMem
      ensures Valid() && (old(altMem) ==> altMem)
      ensures InRam(ram, s) && old(lowIntact) ==> lowIntact
      ensures errno == 0 ==> done < done' <= s.filesz && At(s, addr', done')
      ensures errno == 0 ==> pos == s.offset + done' <= |content|
      ensures errno == 0 && Below(s) ==> Placed(ram, mem, was, content, s, done')
    {
      addr', done' := addr, done;
      var size: nat := Min(0x1_0000, Min(s.filesz - done, s.memsz - done));
      var p, n := Aim(s, addr, done, size);
      ghost var data;
      var rd;
      data, rd := ReadInto(p, n);
      if errno != 0 {
        return;
      }
      if rd == 0 {
        errno := 30;
        return;
      }
      if Below(s) {
        ChunkPlaced(ram, old(mem), mem, was, content, s, done, size, data);
      }
      WrapAdd(s.vaddr + done, rd);
      addr', done' := Wrap(addr + rd), done + rd;
    }

    /** One turn of the loop that clears the rest of the segment. */
    method ClearChunk(s: Segment, addr: nat, done: nat, ghost was: Mem) returns (addr': nat, done': nat)
      requires Valid() && At(s, addr, done) && s.filesz <= done < s.memsz
      requires Below(s) ==> Placed(ram, mem, was, content, s, done)
      modifies `mem, `lowIntact, `altMem
      ensures Valid() && done < done' && At(s, addr', done') && (old(altMem) ==> altMem)
      ensures InRam(ram, s) && old(lowIntact) ==> lowIntact
      ensures Below(s) ==> Placed(ram, mem, was, content, s, done')
    {
      var size: nat := Min(0x1_0000, s.memsz - done);
      var p, n := Aim(s, addr, done, size);
      Clear(p, n);
      if Below(s) {
        ChunkPlaced(ram, old(mem), mem, was, content, s, done, size, Zeros(n));
      }
      WrapAdd(s.vaddr + done, n);
      addr', done' := Wrap(addr + n), done + n;
    }

    /** Byte-wise clearing of n bytes at p. */
    method Clear(p: nat, n: nat)
      requires LowTied()
      modifies `mem, `lowIntact
      ensures LowTied() && Wrote(old(mem), mem, p, Zeros(n))
      ensures old(lowIntact) && ram.End() <= p ==> lowIntact
    {
      for k := 0 to n
        invariant LowTied() && (old(lowIntact) && ram.End() <= p ==> lowIntact)
        invariant forall x: nat :: mem(x) == if p <= x < p + k then 0 else old(mem)(x)
      {
        StoreBytes(p + k, [0]);
      }
    }

    /** The body of the segment loop after the header has been read. */
    method LoadSegment(s: Segment)
      requires Valid() && s.vaddr < 0x1_0000_0000_0000_0000
      modifies `pos, `errno, `mem, `lowIntact, `altMem
      ensures Valid() && (old(altMem) ==> altMem)
      ensures InRam(ram, s) && old(lowIntact) ==> lowIntact
      ensures errno == 0 && Below(s) ==> Placed(ram, mem, old(mem), content, s, s.memsz)
      ensures errno == 0 && InRam(ram, s) && s.memsz > 0 && s.vaddr < ram.End() ==> altMem
      ensures errno == 0 && Min(s.filesz, s.memsz) > 0 ==> s.offset + Min(s.filesz, s.memsz) <= |content|
    {
      Seek(s.offset);
      if errno != 0 {
        return;
      }
      var addr, done := s.vaddr, 0;
      while done < s.filesz && done < s.memsz
        invariant Valid() && At(s, addr, done) && done <= s.filesz && errno == 0
        invariant pos == Min(s.offset + done, |content|) && (done > 0 ==> s.offset + done <= |content|)
        invariant InRam(ram, s) && old(lowIntact) ==> lowIntact
        invariant Below(s) ==> Placed(ram, mem, old(mem), content, s, done)
        invariant old(altMem) ==> altMem
        decreases s.memsz - done
      {
        addr, done := CopyChunk(s, addr, done, old(mem));
        if errno != 0 {
          return;
        }
      }
      while done < s.memsz
        invariant Valid() && At(s, addr, done) && Min(s.filesz, s.memsz) <= done
        invariant InRam(ram, s) && old(lowIntact) ==> lowIntact
        invariant Below(s) ==> Placed(ram, mem, old(mem), content, s, done)
        invariant old(altMem) ==> altMem
        decreases s.memsz - done
      {
        addr, done := ClearChunk(s, addr, done, old(mem));
      }
    }

    /** One program header: skip it, refuse it or load it. */
    method LoadStep(i: nat, phoff: nat, phentsize: nat, loadEnd: nat, ghost init: Mem) returns (loadEnd': nat)
      requires Valid() && phoff == Phoff(content) && phentsize == Phentsize(content)
      requires NoWrap(Segments(content, i)) ==> Progress(ram, content, mem, altMem, Segments(content, i), loadEnd, init)
      requires FromFile(content, Segments(content, i)) && (Segments(content, i) == [] ==> loadEnd == 0)
      modifies `pos, `errno, `mem, `lowIntact, `altMem
      ensures Valid() && (old(altMem) ==> altMem)
      ensures NoWrap(Segments(content, i + 1)) && old(lowIntact) ==> lowIntact
      ensures errno == 0 && NoWrap(Segments(content, i + 1)) ==>
          Progress(ram, content, mem, altMem, Segments(content, i + 1), loadEnd', init)
      ensures errno == 0 ==> FromFile(content, Segments(content, i + 1)) && (Segments(content, i + 1) == [] ==> loadEnd' == 0)
    {
      loadEnd' := loadEnd;
      var load, s := ReadProgramHeader(i, phoff, phentsize);
      if errno != 0 || !load {
        return;
      }
      if !Accepted(ram, s) {
        errno := 39;
        return;
      }
      loadEnd' := LoadNext(i, s, loadEnd, init);
    }

    method LoadNext(i: nat, s: Segment, loadEnd: nat, ghost init: Mem) returns (loadEnd': nat)
      requires Valid() && errno == 0 && IsNext(ram, content, i, s)
      requires NoWrap(Segments(content, i)) ==> Progress(ram, content, mem, altMem, Segments(content, i), loadEnd, init)
      requires FromFile(content, Segments(content, i))
      modifies `pos, `errno, `mem, `lowIntact, `altMem
      ensures Valid() && (old(altMem) ==> altMem)
      ensures NoWrap(Segments(content, i + 1)) && old(lowIntact) ==> lowIntact
      ensures errno == 0 && NoWrap(Segments(content, i + 1)) ==>
          Progress(ram, content, mem, altMem, Segments(content, i + 1), loadEnd', init)
      ensures errno == 0 ==> FromFile(content, Segments(content, i + 1))
    {
      NextSegment(ram, content, i, s);
      loadEnd' := loadEnd;
      if Wrap(s.vaddr + s.memsz) > loadEnd {
        loadEnd' := Wrap(s.vaddr + s.memsz);
      }
      LoadSegment(s);
      if errno == 0 && NoWrap(Segments(content, i + 1)) {
        ProgressStep(ram, content, old(mem), old(altMem), Segments(content, i), loadEnd, init, mem, altMem, s, loadEnd');
      }
    }

    /** The loop over the program headers. */
    method LoadAll(phoff: nat, phentsize: nat, phnum: nat) returns (loadEnd: nat)
      requires Valid() && errno == 0 && lowIntact
      requires phoff == Phoff(content) && phentsize == Phentsize(content) && phnum == Phnum(content)
      modifies `pos, `errno, `mem, `lowIntact, `altMem
      ensures Valid()
      ensures var segs := Segments(content, phnum);
        && (NoWrap(segs) ==> lowIntact)
        && (errno == 0 && NoWrap(segs) ==> Progress(ram, content, mem, altMem, segs, loadEnd, old(mem)))
        && (errno == 0 ==> FromFile(content, segs) && (segs == [] ==> loadEnd == 0))
    {
      loadEnd := 0;
      for i := 0 to phnum
        invariant Valid() && errno == 0
        invariant NoWrap(Segments(content, i)) ==> lowIntact
        invariant NoWrap(Segments(content, i)) ==>
            Progress(ram, content, mem, altMem, Segments(content, i), loadEnd, old(mem))
        invariant FromFile(content, Segments(content, i)) && (Segments(content, i) == [] ==> loadEnd == 0)
      {
        NoWrapBefore(content, i + 1, phnum);
        NoWrapBefore(content, i, i + 1);
        loadEnd := LoadStep(i, phoff, phentsize, loadEnd, old(mem));
        if errno != 0 {
          return;
        }
      }
    }

    /** Byte-wise copy of the tree. */
    method CopyBlob(dst: nat)
      requires LowTied()
      modifies `mem, `lowIntact
      ensures LowTied() && Wrote(old(mem), mem, dst, blob)
      ensures old(lowIntact) && ram.End() <= dst ==> lowIntact
    {
      for k := 0 to |blob|
        invariant LowTied() && (old(lowIntact) && ram.End() <= dst ==> lowIntact)
        invariant forall x: nat :: mem(x) == if dst <= x < dst + k then blob[x - dst] else old(mem)(x)
      {
        StoreBytes(dst + k, [blob[k]]);
      }
    }

    /** The tree goes below the scratch area unless the image reaches that far or there is none. */
    method PlaceTree(loadEnd: nat) returns (dst: nat)
      requires RoomForTree(ram, blob) && errno == 0 && LowTied()
      modifies `errno, `mem, `lowIntact
      ensures dst == DtbAt(ram, blob) && LowTied() && (old(lowIntact) ==> lowIntact)
      ensures errno == 0 <==> ram.base <= loadEnd <= dst
      ensures errno == 0 ==> TreeAt(mem, dst, blob, GrownTotal(TotalSize(blob)))
      ensures forall x: nat | !(dst <= x < ram.Alt()) :: mem(x) == old(mem)(x)
    {
      dst := DtbAt(ram, blob);
      if loadEnd < ram.base || loadEnd > dst {
        errno := 39;
        return;
      }
      CopyTree(dst);
    }

    /** The big-endian totalsize of the copy. */
    method StoredTotal(dst: nat) returns (total: nat)
      requires |blob| >= 8 && forall k | 4 <= k < 8 :: mem(dst + k) == blob[k]
      ensures total == TotalSize(blob)
    {
      assert mem(dst + 4) == blob[4] && mem(dst + 5) == blob[5] && mem(dst + 6) == blob[6] && mem(dst + 7) == blob[7];
      total := Dword(mem(dst + 7), mem(dst + 6), mem(dst + 5), mem(dst + 4));
    }

    /** The copy itself. */
    method CopyTree(dst: nat)
      requires |blob| >= 8 && TotalSize(blob) <= |blob| && ram.End() <= dst && LowTied()
      modifies `mem, `lowIntact
      ensures LowTied() && (old(lowIntact) ==> lowIntact) && TreeAt(mem, dst, blob, GrownTotal(TotalSize(blob)))
      ensures forall x: nat | !(dst <= x < dst + |blob| + 0x1000) :: mem(x) == old(mem)(x)
    {
      CopyBlob(dst);
      ghost var copied := mem;
      var total := StoredTotal(dst);
      Clear(dst + total, 0x1000);
      ghost var cleared := mem;
      var head := GrownTotal(total);
      StoreBytes(dst + 4, head);
      TreeWritten(old(mem), copied, cleared, mem, dst, blob, head, total);
    }

    /** ld and sd: eight bytes from t2 to t0. */
    method CopyWord(t0: nat, t2: nat)
      requires LowTied()
      modifies `mem, `lowIntact
      ensures LowTied()
      ensures forall x: nat :: mem(x) == old(mem)(if t0 <= x < t0 + 8 then t2 + (x - t0) else x)
    {
      var m := mem;
      StoreBytes(t0, seq(8, k requires 0 <= k < 8 => m(t2 + k)));
    }

    /** boot_rom_memcpy: eight bytes a turn until t0 meets the end of the low RAM. */
    method CopyBack()
      requires ram.Sane() && LowTied()
      modifies `mem, `lowIntact
      ensures LowTied()
      ensures forall a | ram.base <= a < ram.End() :: mem(a) == old(mem)(Phys(ram, a))
      ensures forall x: nat | !(ram.base <= x < ram.End()) :: mem(x) == old(mem)(x)
    {
      var t0, t2: nat := ram.base, ram.Alt();
      ghost var k := 0;
      while t0 != ram.End()
        invariant LowTied() && 0 <= k <= 0x1000 && t0 == ram.base + 8 * k && t2 == ram.Alt() + 8 * k
        invariant forall a | ram.base <= a < t0 :: mem(a) == old(mem)(Phys(ram, a))
        invariant forall x: nat | !(ram.base <= x < t0) :: mem(x) == old(mem)(x)
        decreases 0x1000 - k
      {
        CopyWord(t0, t2);
        t0, t2, k := t0 + 8, t2 + 8, k + 1;
      }
    }

    /** The end of the load: the tree goes in, and the image stays as it was. */
    method FinishLoad(loadEnd: nat, ghost segs: seq<Segment>, ghost init: Mem) returns (dst: nat)
      requires RoomForTree(ram, blob) && errno == 0 && LowTied()
      requires NoWrap(segs) ==> Progress(ram, content, mem, altMem, segs, loadEnd, init)
      modifies `errno, `mem, `lowIntact
      ensures dst == DtbAt(ram, blob) && LowTied() && (old(lowIntact) ==> lowIntact)
      ensures errno == 0 <==> ram.base <= loadEnd <= dst
      ensures errno == 0 ==> TreeAt(mem, dst, blob, GrownTotal(TotalSize(blob)))
      ensures errno == 0 && NoWrap(segs) ==> Progress(ram, content, mem, altMem, segs, dst, init)
    {
      dst := PlaceTree(loadEnd);
      if errno == 0 {
        TreeKeepsImage(ram, content, old(mem), mem, altMem, segs, loadEnd, dst, init);
      }
    }

    /** The load, the file's close and the tree. */
    method LoadAndPlace() returns (out: Outcome)
      requires Valid() && pos == 0 && lowIntact && RoomForTree(ram, blob)
      modifies `pos, `errno, `mem, `lowIntact, `altMem
      ensures Valid()
      ensures NoWrap(AllSegments(content)) ==> lowIntact
      ensures out.Jump? ==> Bootable(ram, blob, content, out) && TreeAt(mem, out.dtb, blob, GrownTotal(TotalSize(blob)))
      ensures out.Jump? && NoWrap(AllSegments(content)) ==>
          Progress(ram, content, mem, altMem, AllSegments(content), out.dtb, old(mem))
    {
      var ok, entry, phoff, phentsize, phnum := ReadElfHeader();
      if !ok {
        return Failed;
      }
      var loadEnd := LoadAll(phoff, phentsize, phnum);
      if errno != 0 {
        return Failed;
      }
      errno := *;
      if errno != 0 {
        return Failed;
      }
      var dst := FinishLoad(loadEnd, AllSegments(content), old(mem));
      if errno != 0 {
        return Failed;
      }
      return Jump(entry, dst);
    }

    /**
     * Everything before the copy-back. A failure anywhere leaves the ROM's low RAM without a store and as it was,
     * so `main` may retry.
     */
    method Prepare() returns (out: Outcome)
      requires Valid() && pos == 0 && lowIntact && RoomForTree(ram, blob)
      modifies `pos, `errno, `mem, `lowIntact, `altMem
      ensures Valid()
      ensures NoWrap(AllSegments(content)) ==>
          lowIntact && forall a | ram.base <= a < ram.End() :: mem(a) == old(mem)(a)
      ensures out.Jump? ==> Bootable(ram, blob, content, out) && TreeAt(mem, out.dtb, blob, GrownTotal(TotalSize(blob)))
      ensures out.Jump? && NoWrap(AllSegments(content)) ==>
          Progress(ram, content, mem, altMem, AllSegments(content), out.dtb, old(mem))
    {
      out := LoadAndPlace();
    }

    /**
     * `download`: when it reaches the jump, memory holds at every covered address what a direct load would put
     * there, and the device tree sits clear of every segment.
     */
    method Download() returns (out: Outcome)
      requires Valid() && pos == 0 && lowIntact && RoomForTree(ram, blob)
      modifies this
      ensures out.Jump? ==> Bootable(ram, blob, content, out) && TreeAt(mem, out.dtb, blob, GrownTotal(TotalSize(blob)))
      ensures out.Jump? && NoWrap(AllSegments(content)) ==>
          Image(ram, content, mem, AllSegments(content), out.dtb, old(mem))
      ensures out.Failed? && NoWrap(AllSegments(content)) ==>
          lowIntact && forall a | ram.base <= a < ram.End() :: mem(a) == old(mem)(a)
    {
      out := Prepare();
      if out.Failed? {
        return;
      }
      HandOver(out.dtb, AllSegments(content), old(mem));
    }

    /** The copy-back, when any chunk was diverted. */
    method HandOver(ghost dtb: nat, ghost segs: seq<Segment>, ghost init: Mem)
      requires RoomForTree(ram, blob) && LowTied() && dtb == DtbAt(ram, blob) && TreeAt(mem, dtb, blob, GrownTotal(TotalSize(blob)))
      requires NoWrap(segs) ==> Progress(ram, content, mem, altMem, segs, dtb, init)
      modifies `mem, `lowIntact
      ensures TreeAt(mem, dtb, blob, GrownTotal(TotalSize(blob)))
      ensures NoWrap(segs) ==> Image(ram, content, mem, segs, dtb, init)
    {
      if altMem {
        CopyBack();
      }
      if NoWrap(segs) {
        ImageReady(ram, content, old(mem), altMem, mem, segs, dtb, init);
      }
      TreeKept(old(mem), mem, dtb, blob, GrownTotal(TotalSize(blob)));
    }
  }
}
