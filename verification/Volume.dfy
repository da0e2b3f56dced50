/**
 * The FATFS object of ff.c: one cached sector window over a disk, and the packed FAT read and
 * written through it.
 */
module Volume {
  import opened Bytes

  /** Value of winsect after a failed read: (LBA_t)0 - 1. */
  const NO_SECTOR: nat := 0xFFFF_FFFF_FFFF_FFFF
  const DISK_ERROR: nat := 0xFFFF_FFFF
  const EOC: nat := 0xFFFF_FFFF

  datatype FsType = FAT12 | FAT16 | FAT32 | EXFAT

  datatype FResult = FR_OK | FR_DISK_ERR | FR_INT_ERR

  /** Number of values an entry of the given width can be read back as. */
  function Values(t: FsType): nat {
    match t
    case FAT12 => 0x1000
    case FAT16 => 0x1_0000
    case FAT32 => 0x1000_0000
    case EXFAT => 0x8000_0000
  }

  /** v at the width of an entry. */
  function Masked(t: FsType, v: nat): nat {
    match t
    case FAT12 => v % 0x1000
    case FAT16 => v % 0x1_0000
    case FAT32 => v % 0x1000_0000
    case EXFAT => v % 0x8000_0000
  }

  lemma MaskedSmall(t: FsType, v: nat)
    requires v < Values(t)
    ensures Masked(t, v) == v
  {
  }

  /** Byte offset of entry c in the FAT. */
  function EntryOffset(t: FsType, c: nat): nat {
    match t
    case FAT12 => c + c / 2
    case FAT16 => 2 * c
    case FAT32 => 4 * c
    case EXFAT => 4 * c
  }

  /** len bytes of FAT are enough for n entries. */
  predicate Fits(t: FsType, n: nat, len: nat) {
    match t
    case FAT12 => 3 * n <= 2 * len
    case FAT16 => 2 * n <= len
    case FAT32 => 4 * n <= len
    case EXFAT => 4 * n <= len
  }

  lemma EntryFits(t: FsType, n: nat, c: nat, len: nat)
    requires 2 <= c < n && Fits(t, n, len)
    ensures EntryOffset(t, c) + (if t.FAT12? || t.FAT16? then 2 else 4) <= len
  {
  }

  lemma InSector(q: nat, x: nat)
    requires x < 512
    ensures (512 * q + x) / 512 == q && (512 * q + x) % 512 == x
  {
  }

  /** A word or dword entry never straddles a sector boundary. */
  lemma SameSector(k: nat, j: nat)
    requires k % 512 + j < 512
    ensures (k + j) / 512 == k / 512
  {
    InSector(k / 512, k % 512 + j);
  }

  lemma Aligned2(c: nat)
    ensures 2 * c % 512 + 2 <= 512 && (2 * c + 1) / 512 == 2 * c / 512
  {
    var q, r := c / 256, c % 256;
    InSector(q, 2 * r);
    InSector(q, 2 * r + 1);
  }

  lemma Aligned4(c: nat)
    ensures 4 * c % 512 + 4 <= 512
    ensures (4 * c + 1) / 512 == (4 * c + 2) / 512 == (4 * c + 3) / 512 == 4 * c / 512
  {
    var q, r := c / 128, c % 128;
    InSector(q, 4 * r);
    InSector(q, 4 * r + 1);
    InSector(q, 4 * r + 2);
    InSector(q, 4 * r + 3);
  }

  /** Bytes of one FAT that holds n entries or more. */
  ghost predicate Holds(t: FsType, fat: seq<byte>, n: nat) {
    Fits(t, n, |fat|)
  }

  /** Entry c of a packed FAT, before it is masked to 28 or 31 bits. */
  ghost function RawEntry(t: FsType, fat: seq<byte>, n: nat, c: nat): nat
    requires Holds(t, fat, n) && 2 <= c < n
  {
    EntryFits(t, n, c, |fat|);
    var k := EntryOffset(t, c);
    match t
    case FAT12 => Fat12Value(c % 2 == 1, fat[k], fat[k + 1])
    case FAT16 => Word(fat[k], fat[k + 1])
    case _ => Dword(fat[k], fat[k + 1], fat[k + 2], fat[k + 3])
  }

  ghost function Entry(t: FsType, fat: seq<byte>, n: nat, c: nat): nat
    requires Holds(t, fat, n) && 2 <= c < n
  {
    var v := RawEntry(t, fat, n, c);
    match t
    case FAT32 => v % 0x1000_0000
    case EXFAT => v % 0x8000_0000
    case _ => v
  }

  /** fat with bs at offset k. */
  function Splice(fat: seq<byte>, k: nat, bs: seq<byte>): seq<byte>
    requires k + |bs| <= |fat|
  {
    fat[..k] + bs + fat[k + |bs|..]
  }

  /** First byte of a FAT12 entry after put_fat stored val over b. */
  function Fat12Lo(odd: bool, b: byte, val: nat): byte {
    if odd then b % 16 + val % 16 * 16 else val % 0x100
  }

  /** Second byte of a FAT12 entry after put_fat stored val over b. */
  function Fat12Hi(odd: bool, b: byte, val: nat): byte {
    if odd then val / 16 % 0x100 else b / 16 * 16 + val / 0x100 % 16
  }

  /** Entry value held by two bytes of a FAT12. */
  function Fat12Value(odd: bool, b0: byte, b1: byte): (v: nat)
    ensures v < 0x1000
  {
    if odd then b0 / 16 + 16 * b1 else b0 + 0x100 * (b1 % 16)
  }

  /** The shift and mask of get_fat. */
  lemma Fat12Read(b0: byte, b1: byte)
    ensures (b0 + 0x100 * b1) / 16 == Fat12Value(true, b0, b1)
    ensures (b0 + 0x100 * b1) % 0x1000 == Fat12Value(false, b0, b1)
  {
  }

  lemma Nibbles(val: nat)
    ensures val % 16 + 16 * (val / 16 % 0x100) == val % 0x1000
    ensures val % 0x100 + 0x100 * (val / 0x100 % 16) == val % 0x1000
  {
    assert val / 16 / 0x100 == val / 0x1000;
    assert val / 0x100 / 16 == val / 0x1000;
  }

  /** Storing a 12-bit value in either nibble layout reads back and leaves the shared nibble alone. */
  lemma Fat12RoundTrip(odd: bool, b0: byte, b1: byte, val: nat)
    ensures Fat12Value(odd, Fat12Lo(odd, b0, val), Fat12Hi(odd, b1, val)) == val % 0x1000
    ensures if odd then Fat12Lo(odd, b0, val) % 16 == b0 % 16 else Fat12Hi(odd, b1, val) / 16 == b1 / 16
  {
    Nibbles(val);
    if odd {
      Join(b0 % 16, val % 16);
    } else {
      Join(val / 0x100 % 16, b1 / 16);
    }
  }

  lemma Join(lo: nat, hi: nat)
    requires lo < 16
    ensures (lo + hi * 16) % 16 == lo && (lo + hi * 16) / 16 == hi
    ensures (hi * 16 + lo) % 16 == lo && (hi * 16 + lo) / 16 == hi
  {
  }

  /** The bytes st_word stores. */
  method WordBytes(v: nat) returns (bs: seq<byte>)
    requires v < 0x1_0000
    ensures |bs| == 2 && Word(bs[0], bs[1]) == v
  {
    bs := [v % 0x100, v / 0x100];
  }

  /** The bytes st_dword stores. */
  method DwordBytes(v: nat) returns (bs: seq<byte>)
    requires v < 0x1_0000_0000
    ensures |bs| == 4 && Dword(bs[0], bs[1], bs[2], bs[3]) == v
  {
    var lo := WordBytes(v % 0x1_0000);
    var hi := WordBytes(v / 0x1_0000);
    bs := lo + hi;
  }

  /** The FAT32 merge of a new value with the reserved bits of the old dword. */
  method KeepReserved(raw: nat, val: nat) returns (v: nat)
    requires raw < 0x1_0000_0000
    ensures v < 0x1_0000_0000 && v % 0x1000_0000 == val % 0x1000_0000 && v / 0x1000_0000 == raw / 0x1000_0000
  {
    v := val % 0x1000_0000 + raw / 0x1000_0000 * 0x1000_0000;
  }

  /** fat' differs from fat in entry c at most; entries sharing a byte with it are kept. */
  ghost predicate OnlyEntry(t: FsType, fat: seq<byte>, fat': seq<byte>, n: nat, c: nat)
    requires Holds(t, fat, n)
  {
    && |fat'| == |fat|
    && forall d | 2 <= d < n && d != c :: RawEntry(t, fat', n, d) == RawEntry(t, fat, n, d)
  }

  /** fat' is fat after val was stored in entry c: it reads back at the width of the entry, FAT32
      keeps the four reserved bits, and every other entry is as before. */
  ghost predicate Stores(t: FsType, fat: seq<byte>, fat': seq<byte>, n: nat, c: nat, val: nat)
    requires Holds(t, fat, n) && 2 <= c < n
  {
    && OnlyEntry(t, fat, fat', n, c)
    && Entry(t, fat', n, c) == Masked(t, val)
    && (t.FAT32? ==> RawEntry(t, fat', n, c) / 0x1000_0000 == RawEntry(t, fat, n, c) / 0x1000_0000)
  }

  lemma SpliceAt(fat: seq<byte>, k: nat, bs: seq<byte>)
    requires k + |bs| <= |fat|
    ensures |Splice(fat, k, bs)| == |fat|
    ensures forall j | 0 <= j < |fat| :: Splice(fat, k, bs)[j] == if k <= j < k + |bs| then bs[j - k] else fat[j]
  {
  }

  lemma SpliceNext(fat: seq<byte>, k: nat, bs: seq<byte>, j: nat)
    requires k + |bs| <= |fat| && j < |bs|
    ensures Splice(fat, k, bs[..j])[k + j := bs[j]] == Splice(fat, k, bs[..j + 1])
  {
  }

  lemma Stores12(fat: seq<byte>, n: nat, c: nat, val: nat)
    requires Holds(FAT12, fat, n) && 2 <= c < n
    ensures c + c / 2 + 1 < |fat|
    ensures var k, odd := c + c / 2, c % 2 == 1;
      Stores(FAT12, fat, fat[k := Fat12Lo(odd, fat[k], val)][k + 1 := Fat12Hi(odd, fat[k + 1], val)], n, c, val)
  {
    EntryFits(FAT12, n, c, |fat|);
    var k := c + c / 2;
    Fat12RoundTrip(c % 2 == 1, fat[k], fat[k + 1], val);
    var fat' := fat[k := Fat12Lo(c % 2 == 1, fat[k], val)][k + 1 := Fat12Hi(c % 2 == 1, fat[k + 1], val)];
    forall d | 2 <= d < n && d != c ensures RawEntry(FAT12, fat', n, d) == RawEntry(FAT12, fat, n, d) {
      EntryFits(FAT12, n, d, |fat|);
    }
  }

  /** A FAT12 store that stops at a disk error between its two bytes harms no other entry either. */
  lemma HalfStored12(fat: seq<byte>, n: nat, c: nat, val: nat)
    requires Holds(FAT12, fat, n) && 2 <= c < n
    ensures c + c / 2 < |fat|
    ensures var k := c + c / 2; OnlyEntry(FAT12, fat, fat[k := Fat12Lo(c % 2 == 1, fat[k], val)], n, c)
  {
    EntryFits(FAT12, n, c, |fat|);
    var k := c + c / 2;
    Fat12RoundTrip(c % 2 == 1, fat[k], fat[k + 1], val);
    forall d | 2 <= d < n && d != c
      ensures RawEntry(FAT12, fat[k := Fat12Lo(c % 2 == 1, fat[k], val)], n, d) == RawEntry(FAT12, fat, n, d)
    {
      EntryFits(FAT12, n, d, |fat|);
    }
  }

  lemma Stores16(fat: seq<byte>, n: nat, c: nat, bs: seq<byte>, val: nat)
    requires Holds(FAT16, fat, n) && 2 <= c < n
    requires |bs| == 2 && Word(bs[0], bs[1]) == val % 0x1_0000
    ensures 2 * c + 2 <= |fat|
    ensures Stores(FAT16, fat, Splice(fat, 2 * c, bs), n, c, val)
  {
    var fat' := Splice(fat, 2 * c, bs);
    SpliceAt(fat, 2 * c, bs);
    assert fat'[2 * c] == bs[0] && fat'[2 * c + 1] == bs[1];
  }

  lemma Stores32(t: FsType, fat: seq<byte>, n: nat, c: nat, bs: seq<byte>, v: nat, val: nat)
    requires t == FAT32 || t == EXFAT
    requires Holds(t, fat, n) && 2 <= c < n
    requires |bs| == 4 && Dword(bs[0], bs[1], bs[2], bs[3]) == v
    requires Masked(t, v) == Masked(t, val)
    requires t.FAT32? ==> v / 0x1000_0000 == RawEntry(t, fat, n, c) / 0x1000_0000
    ensures Stores(t, fat, Splice(fat, 4 * c, bs), n, c, val)
  {
    var fat' := Splice(fat, 4 * c, bs);
    SpliceAt(fat, 4 * c, bs);
    assert fat'[4 * c] == bs[0] && fat'[4 * c + 1] == bs[1] && fat'[4 * c + 2] == bs[2] && fat'[4 * c + 3] == bs[3];
  }

  lemma EntriesKept(t: FsType, fat: seq<byte>, fat': seq<byte>, n: nat, c: nat)
    requires Holds(t, fat, n) && OnlyEntry(t, fat, fat', n, c)
    ensures forall d | 2 <= d < n && d != c :: Entry(t, fat', n, d) == Entry(t, fat, n, d)
  {
  }

  /** State of bit j of byte b: (b & 1 << j) != 0. */
  predicate BitSet(b: nat, j: nat) {
    if j == 0 then b % 2 == 1 else BitSet(b / 2, j - 1)
  }

  /** b ^ 1 << j. */
  function Flip(b: nat, j: nat): (r: nat) {
    if j == 0 then (if b % 2 == 1 then b - 1 else b + 1) else 2 * Flip(b / 2, j - 1) + b % 2
  }

  lemma {:induction false} FlipInRange(b: nat, j: nat, n: nat)
    requires j < n && b < Pow2(n)
    ensures Flip(b, j) < Pow2(n)
  {
    var half := Pow2(n - 1);
    assert Pow2(n) == 2 * half;
    if j == 0 {
      assert b % 2 == 0 ==> b != 2 * half - 1;
    } else {
      FlipInRange(b / 2, j - 1, n - 1);
      assert Flip(b / 2, j - 1) + 1 <= half;
    }
  }

  function FlippedByteOf(b: byte, j: nat): (r: byte)
    requires j < 8
    ensures r == Flip(b, j)
  {
    FlipInRange(b, j, 8);
    Flip(b, j)
  }

  lemma {:induction false} FlipBit(b: nat, j: nat, k: nat)
    ensures BitSet(Flip(b, j), k) == if k == j then !BitSet(b, j) else BitSet(b, k)
  {
    var f := Flip(b, j);
    if j == 0 {
      assert f / 2 == b / 2 && f % 2 != b % 2;
    } else {
      Halves(Flip(b / 2, j - 1), b % 2);
      assert f / 2 == Flip(b / 2, j - 1) && f % 2 == b % 2;
      if k > 0 {
        FlipBit(b / 2, j - 1, k - 1);
      }
    }
  }

  lemma Halves(h: nat, r: nat)
    requires r < 2
    ensures (2 * h + r) / 2 == h && (2 * h + r) % 2 == r
  {
  }

  lemma FlippedByte(s: seq<byte>, s': seq<byte>, i: nat, j: nat, i': nat, j': nat)
    requires i < |s| == |s'| && i' < |s| && 0 <= Flip(s[i], j) < 256 && s' == s[i := Flip(s[i], j)]
    ensures BitSet(s'[i'], j') == if i' == i && j' == j then !BitSet(s[i], j) else BitSet(s[i'], j')
  {
    FlipBit(s[i], j, j');
  }

  /** First sector of a cluster, 0 for an invalid one (clst2sect). */
  function ClustToSect(n: nat, database: nat, csize: nat, clst: nat): nat {
    if clst < 2 || clst - 2 >= n - 2 then 0 else database + csize * (clst - 2)
  }

  /** What an operation of ff.c that returns a cluster number returns instead on failure. */
  function ErrorCode(res: FResult): nat {
    if res == FR_INT_ERR then 1 else DISK_ERROR
  }

  /** The allocation part of FFOBJID, as a value. */
  datatype Chain = Chain(sclust: nat, objsize: nat, stat: nat, nCont: nat, nFrag: nat)

  /** The allocation part of FFOBJID. */
  class ObjId {
    var sclust: nat
    var objsize: nat
    var stat: nat
    var nCont: nat
    var nFrag: nat

    constructor ()
      ensures sclust == objsize == stat == nCont == nFrag == 0
    {
      sclust, objsize, stat, nCont, nFrag := 0, 0, 0, 0, 0;
    }

    ghost function State(): Chain
      reads this
    {
      Chain(sclust, objsize, stat, nCont, nFrag)
    }
  }

  /** Where get_fat takes the link of an exFAT cluster from. */
  datatype Source = Known(val: nat) | OnFat

  /** Number of whole groups of csize sectors before sector k. */
  ghost function ClustersBelow(k: nat, csize: nat): nat
    requires csize > 0
    decreases k
  {
    if k < csize then 0 else 1 + ClustersBelow(k - csize, csize)
  }

  lemma {:induction false} ClustersBelowIs(k: nat, csize: nat)
    requires csize > 0
    ensures ClustersBelow(k, csize) == k / csize
    decreases k
  {
    if k >= csize {
      ClustersBelowIs(k - csize, csize);
      var q := (k - csize) / csize;
      assert (q + 1) * csize == q * csize + csize;
      DivIs(k, csize, q + 1);
    } else {
      DivIs(k, csize, 0);
    }
  }

  /** Index of the cluster that holds the last byte of an object. */
  ghost function LastIndex(objsize: nat, csize: nat): nat
    requires csize > 0
  {
    ClustersBelow(((objsize - 1) % 0x1_0000_0000_0000_0000) / 512, csize) % 0x1_0000_0000
  }

  /** Links of a contiguous chain, of the first fragment and at the growing edge are not on the FAT. */
  ghost function ExFatSource(csize: nat, o: Chain, clst: nat): Source
    requires csize > 0
  {
    if (o.objsize != 0 && o.sclust != 0) || o.stat == 0 then
      var cofs := (clst - o.sclust) % 0x1_0000_0000;
      var clen := LastIndex(o.objsize, csize);
      if o.stat == 2 && cofs <= clen then Known(if cofs == clen then 0x7FFF_FFFF else clst + 1)
      else if o.stat == 3 && cofs < o.nCont then Known(clst + 1)
      else if o.stat == 2 then Known(1)
      else if o.nFrag != 0 then Known(0x7FFF_FFFF)
      else OnFat
    else Known(1)
  }

  /** What get_fat reports for cluster clst of an object, given the values of all FAT entries. */
  ghost function LinkOf(t: FsType, csize: nat, table: seq<nat>, o: Chain, clst: nat): nat
    requires csize > 0
  {
    if clst < 2 || clst >= |table| then 1
    else if !t.EXFAT? then table[clst]
    else match ExFatSource(csize, o, clst)
      case Known(v) => v
      case OnFat => table[clst]
  }

  /** Geometry that mounting establishes (see module Mount) for a medium of the given number of sectors. */
  predicate GeometryFits(t: FsType, nFats: nat, csize: nat, nFatent: nat, fsize: nat, fatbase: nat, database: nat,
                         bitbase: nat, sectors: nat) {
    && 1 <= nFats <= 2
    && 1 <= csize <= 0x8000
    && 3 <= nFatent && nFatent < Values(t)
    && Fits(t, nFatent, fsize * 512)
    && 0 < fatbase
    && fatbase + (if nFats == 2 then 2 * fsize else fsize) <= database
    && database <= sectors < NO_SECTOR
    && (t.EXFAT? ==> nFats == 1 && database <= bitbase && bitbase <= sectors && nFatent - 2 <= 4096 * (sectors - bitbase))
  }

  /** The first FAT as one string. */
  ghost function FatBytes(disk: seq<seq<byte>>, fatbase: nat, fsize: nat): (fat: seq<byte>)
    requires fatbase + fsize <= |disk| && forall s | 0 <= s < |disk| :: |disk[s]| == 512
    ensures |fat| == fsize * 512
    ensures forall s | fatbase <= s < fatbase + fsize :: disk[s] == fat[(s - fatbase) * 512..(s - fatbase + 1) * 512]
  {
    seq(fsize * 512, k requires 0 <= k < fsize * 512 => disk[fatbase + k / 512][k % 512])
  }

  ghost function Entries(t: FsType, fat: seq<byte>, n: nat): seq<nat>
    requires Holds(t, fat, n)
  {
    seq(n, c requires 0 <= c < n => if c < 2 then 0 else Entry(t, fat, n, c))
  }

  ghost function Bitmap(disk: seq<seq<byte>>, bitbase: nat, n: nat): seq<bool>
    requires n <= 4096 * (|disk| - bitbase) && forall s | 0 <= s < |disk| :: |disk[s]| == 512
  {
    seq(n, v requires 0 <= v < n => BitSet(disk[bitbase + v / 4096][v / 8 % 512], v % 8))
  }

  ghost predicate AllSectors(area: seq<seq<byte>>) { forall s | 0 <= s < |area| :: |area[s]| == 512 }

  /** bits are the bits stored in the sectors of area. */
  ghost predicate BitmapTied(bits: seq<bool>, area: seq<seq<byte>>)
    requires AllSectors(area) && |bits| <= 4096 * |area|
  {
    forall q: nat, i: nat, j: nat | i < 512 && j < 8 && 4096 * q + 8 * i + j < |bits| ::
      bits[4096 * q + 8 * i + j] == BitSet(area[q][i], j)
  }

  lemma FreshBitmap(disk: seq<seq<byte>>, bitbase: nat, n: nat)
    requires bitbase <= |disk| && n <= 4096 * (|disk| - bitbase) && AllSectors(disk)
    ensures BitmapTied(Bitmap(disk, bitbase, n), disk[bitbase..])
  {
    forall q: nat, i: nat, j: nat | i < 512 && j < 8 && 4096 * q + 8 * i + j < n
      ensures Bitmap(disk, bitbase, n)[4096 * q + 8 * i + j] == BitSet(disk[bitbase..][q][i], j)
    {
      BitPlace(q, i, j);
    }
  }

  /** Flipping one bit of a sector flips it in the map and moves no other. */
  lemma FlippedBitmap(bits: seq<bool>, area: seq<seq<byte>>, q: nat, i: nat, j: nat, sector: seq<byte>)
    requires AllSectors(area) && |bits| <= 4096 * |area| && BitmapTied(bits, area)
    requires i < 512 && j < 8 && 4096 * q + 8 * i + j < |bits|
    requires sector == area[q][i := FlippedByteOf(area[q][i], j)]
    ensures BitmapTied(bits[4096 * q + 8 * i + j := !bits[4096 * q + 8 * i + j]], area[q := sector])
  {
    var v := 4096 * q + 8 * i + j;
    var bits', area' := bits[v := !bits[v]], area[q := sector];
    forall q': nat, i': nat, j': nat | i' < 512 && j' < 8 && 4096 * q' + 8 * i' + j' < |bits|
      ensures bits'[4096 * q' + 8 * i' + j'] == BitSet(area'[q'][i'], j')
    {
      assert bits[4096 * q' + 8 * i' + j'] == BitSet(area[q'][i'], j');
      if q' == q {
        FlippedByte(area[q], sector, i, j, i', j');
      }
    }
  }

  lemma BitPlace(q: nat, i: nat, j: nat)
    requires i < 512 && j < 8
    ensures var v := 4096 * q + 8 * i + j; v / 4096 == q && v / 8 % 512 == i && v % 8 == j
  {
    var v := 4096 * q + 8 * i + j;
    assert v / 8 == 512 * q + i;
  }

  /** No access to the medium has failed; and the two FAT copies have not been driven apart by a failed write. */
  datatype Health = Health(noError: bool, mirrored: bool)

  class FatFs {
    // Fixed by mounting.
    const fsType: FsType
    const nFats: nat
    const csize: nat
    const nFatent: nat
    const fsize: nat
    const fatbase: nat
    const database: nat
    const bitbase: nat
    // The window.
    const win: array<byte>
    var winsect: nat
    var wflag: bool
    // The medium, sector by sector.
    var disk: seq<seq<byte>>
    // Allocation hints.
    var lastClst: nat
    var freeClst: nat
    // What the volume means: the bytes of the first FAT, the value of every entry, the bits of the exFAT allocation
    // bitmap (cluster c is bit c - 2), and how the accesses to the medium went so far.
    ghost var fat: seq<byte>
    ghost var table: seq<nat>
    ghost var bits: seq<bool>
    ghost var health: Health

    /** A freshly mounted volume: nothing cached, no allocation hints. */
    constructor (disk: seq<seq<byte>>, fsType: FsType, nFats: nat, csize: nat, nFatent: nat, fsize: nat, fatbase: nat,
                 database: nat, bitbase: nat)
      requires GeometryFits(fsType, nFats, csize, nFatent, fsize, fatbase, database, bitbase, |disk|)
      requires forall s | 0 <= s < |disk| :: |disk[s]| == 512
      ensures Valid() && !wflag && this.disk == disk && winsect == NO_SECTOR
      ensures this.fsType == fsType && this.nFats == nFats && this.csize == csize && this.nFatent == nFatent
      ensures this.fsize == fsize && this.fatbase == fatbase && this.database == database && this.bitbase == bitbase
      ensures freeClst == lastClst == 0xFFFF_FFFF
      ensures fat == FatBytes(disk, fatbase, fsize) && table == Entries(fsType, FatBytes(disk, fatbase, fsize), nFatent)
      ensures fsType.EXFAT? ==> bits == Bitmap(disk, bitbase, nFatent - 2)
      ensures fresh(win) && health.noError
      ensures health.mirrored <==> (nFats == 2 ==> forall s | fatbase <= s < fatbase + fsize :: disk[s] == disk[s + fsize])
    {
      this.fsType, this.nFats, this.csize, this.nFatent := fsType, nFats, csize, nFatent;
      this.fsize, this.fatbase, this.database, this.bitbase := fsize, fatbase, database, bitbase;
      this.disk := disk;
      win := new byte[512];
      winsect, wflag, lastClst, freeClst := NO_SECTOR, false, 0xFFFF_FFFF, 0xFFFF_FFFF;
      fat := FatBytes(disk, fatbase, fsize);
      table := Entries(fsType, FatBytes(disk, fatbase, fsize), nFatent);
      bits := if fsType.EXFAT? then Bitmap(disk, bitbase, nFatent - 2) else [];
      health := Health(true, nFats == 2 ==> forall s | fatbase <= s < fatbase + fsize :: disk[s] == disk[s + fsize]);
      folds := 0;
      new;
      FreshShape();
      FreshTied();
      Open();
    }

    lemma FreshShape()
      requires Geometry() && (forall s | 0 <= s < |disk| :: |disk[s]| == 512) && fat == FatBytes(disk, fatbase, fsize)
      requires win.Length == 512 && winsect == NO_SECTOR && !wflag
      requires health.mirrored ==> nFats == 2 ==> forall s | fatbase <= s < fatbase + fsize :: disk[s] == disk[s + fsize]
      ensures Shape()
    {
    }

    lemma FreshTied()
      requires Shape() && winsect == NO_SECTOR && table == Entries(fsType, fat, nFatent)
      requires fsType.EXFAT? ==> bits == Bitmap(disk, bitbase, nFatent - 2)
      ensures Tied()
    {
      if fsType.EXFAT? {
        FreshBitmap(disk, bitbase, nFatent - 2);
      }
    }

    /** What a reader of sector s sees: the window when it caches s, the medium otherwise. */
    ghost function View(s: nat): seq<byte>
      requires s < |disk|
      reads `disk, `winsect, win
    {
      if s == winsect then win[..] else disk[s]
    }

    ghost predicate InFat(s: nat) {
      fatbase <= s < fatbase + fsize
    }

    ghost predicate InMirror(s: nat) {
      nFats == 2 && fatbase + fsize <= s < fatbase + 2 * fsize
    }

    ghost predicate Geometry()
      reads `disk
    {
      GeometryFits(fsType, nFats, csize, nFatent, fsize, fatbase, database, bitbase, |disk|)
    }

    /** Structure of the window and the medium, and agreement of the two FAT copies. */
    ghost predicate Shape()
      reads `disk, `winsect, `wflag, `fat, `health, win
    {
      && Geometry()
      && win.Length == 512
      && (forall s | 0 <= s < |disk| :: |disk[s]| == 512)
      && (winsect < |disk| || winsect == NO_SECTOR)
      && (!wflag && winsect < |disk| ==> win[..] == disk[winsect])
      && (wflag ==> winsect < |disk| && !InMirror(winsect))
      && |fat| == fsize * 512
      && (forall s: nat {:trigger InFat(s)} | InFat(s) :: View(s) == fat[(s - fatbase) * 512..(s - fatbase + 1) * 512])
      && (health.mirrored && nFats == 2 ==> forall s: nat {:trigger InFat(s)} | InFat(s) :: disk[s] == disk[s + fsize])
    }

    /** Position of bit j of byte i of bitmap sector q. */
    ghost predicate InBitmap(q: nat, i: nat, j: nat) {
      i < 512 && j < 8 && 4096 * q + 8 * i + j < nFatent - 2
    }

    /** The sectors from the bitmap on, as a reader sees them. */
    ghost function BitmapArea(): (area: seq<seq<byte>>)
      requires Shape() && fsType.EXFAT?
      reads `disk, `winsect, `wflag, `fat, `health, win
      ensures |area| == |disk| - bitbase && AllSectors(area)
      ensures forall q | 0 <= q < |area| :: area[q] == View(bitbase + q)
    {
      (if winsect < |disk| then disk[winsect := win[..]] else disk)[bitbase..]
    }

    ghost predicate Tied()
      requires Shape()
      reads `disk, `winsect, `wflag, `fat, `health, `table, `bits, win
    {
      && |table| == nFatent
      && (forall c | 2 <= c < nFatent :: table[c] == Entry(fsType, fat, nFatent, c))
      && (fsType.EXFAT? ==> |bits| == nFatent - 2 && BitmapTied(bits, BitmapArea()))
    }

    ghost predicate Inv()
      reads `disk, `winsect, `wflag, `fat, `health, `table, `bits, win
    {
      Shape() && Tied()
    }

    /** The sizes that code above the window relies on. */
    ghost predicate Sized()
      reads `disk, `fat, `table, `bits
    {
      && |table| == nFatent && 3 <= nFatent && nFatent < Values(fsType)
      && 1 <= csize <= 0x8000 && 0 < fatbase && 0 < database <= |disk|
      && Fits(fsType, nFatent, |fat|)
      && (fsType.EXFAT? ==> |bits| == nFatent - 2)
    }

    /**
     * Valid is Inv behind a recursive definition of unknown depth, so that code above the window, which needs only
     * table and bits, never has the quantifiers of Inv among its premises. The depth must not be a literal (the
     * verifier computes those) and must exceed the few levels it unfolds by itself, hence the 5.
     */
    ghost const folds: nat

    ghost predicate Folded(k: nat)
      reads `disk, `winsect, `wflag, `fat, `health, `table, `bits, win
      ensures Folded(k) ==> Sized()
    {
      if k == 0 then Inv() else Folded(k - 1)
    }

    /**
     * Inv, folded away: code above the window reasons about table and bits alone, and only this
     * module opens the definition (lemma Open).
     */
    ghost predicate Valid()
      reads `disk, `winsect, `wflag, `fat, `health, `table, `bits, win
      ensures Valid() ==> Sized()
    {
      Folded(folds + 5)
    }

    lemma {:induction false} OpenFolded(k: nat)
      ensures Folded(k) == Inv()
    {
      if k > 0 {
        OpenFolded(k - 1);
      }
    }

    lemma Open()
      ensures Valid() == Inv()
    {
      OpenFolded(folds + 5);
    }

    /** One sector write; a failed one leaves the sector with unknown contents. */
    method DiskWrite(s: nat) returns (ok: bool)
      requires s < |disk| && win.Length == 512
      modifies `disk, `health
      ensures |disk| == |old(disk)| && |disk[s]| == 512
      ensures disk == old(disk)[s := disk[s]]
      ensures ok ==> disk[s] == win[..] && health == old(health)
      ensures !ok ==> !health.mirrored && !health.noError
    {
      ok := *;
      if ok {
        disk := disk[s := win[..]];
      } else {
        assert |win[..]| == 512;
        var garbage: seq<byte> :| |garbage| == 512;
        disk := disk[s := garbage];
        health := Health(false, false);
      }
    }

    /** An access of the caller's own to the medium has failed. */
    method Fault()
      modifies `health
      ensures health == old(health).(noError := false)
    {
      health := health.(noError := false);
    }

    /** One sector read into the window; a failed one leaves unknown contents. */
    method DiskRead(s: nat) returns (ok: bool)
      requires s < |disk| && |disk[s]| == 512 && win.Length == 512
      modifies `health, win
      ensures ok ==> win[..] == disk[s] && health == old(health)
      ensures !ok ==> health == old(health).(noError := false)
    {
      ok := *;
      var data := disk[s];
      if !ok {
        data :| |data| == 512;
        health := health.(noError := false);
      }
      forall i | 0 <= i < 512 { win[i] := data[i]; }
    }

    method SyncWindow() returns (res: FResult)
      requires Shape()
      modifies `wflag, `disk, `health
      ensures Shape() && |disk| == |old(disk)|
      ensures res == FR_OK || res == FR_DISK_ERR
      ensures res == FR_DISK_ERR ==> !health.noError
      ensures res == FR_OK ==> !wflag
      ensures health.mirrored ==> res == FR_OK
      ensures !old(wflag) ==> res == FR_OK && disk == old(disk) && health.mirrored == old(health.mirrored)
      ensures forall s | 0 <= s < |disk| && !InMirror(s) :: View(s) == old(View(s))
    {
      res := FR_OK;
      if wflag {
        var ok := DiskWrite(winsect);
        if ok {
          wflag := false;
          if fatbase <= winsect < fatbase + fsize && nFats == 2 {
            ok := DiskWrite(winsect + fsize);
          }
        } else {
          res := FR_DISK_ERR;
        }
      }
    }

    method MoveWindow(sect: nat) returns (res: FResult)
      requires Shape() && sect < |disk|
      modifies `winsect, `wflag, `disk, `health, win
      ensures Shape() && |disk| == |old(disk)|
      ensures res == FR_OK || res == FR_DISK_ERR
      ensures res == FR_DISK_ERR ==> !health.noError
      ensures res == FR_OK ==> winsect == sect
      ensures !old(wflag) ==> !wflag && disk == old(disk) && health.mirrored == old(health.mirrored)
      ensures forall s | 0 <= s < |disk| && !InMirror(s) :: View(s) == old(View(s))
    {
      res := FR_OK;
      if sect != winsect {
        res := SyncWindow();
        if res == FR_OK {
          var ok := DiskRead(sect);
          if ok {
            winsect := sect;
          } else {
            winsect := NO_SECTOR;
            res := FR_DISK_ERR;
          }
        }
      }
    }

    /** No sector outside the second FAT copy looks different from before. */
    twostate predicate ViewKept()
      reads `disk, `winsect, win
    {
      |disk| == |old(disk)| && forall s | 0 <= s < |disk| && !InMirror(s) :: View(s) == old(View(s))
    }

    twostate lemma TiedKept()
      requires old(Inv()) && Shape() && |disk| == |old(disk)|
      requires forall s | 0 <= s < |disk| && !InFat(s) && !InMirror(s) :: View(s) == old(View(s))
      requires bits == old(bits)
      requires |table| == nFatent
      requires forall c | 2 <= c < nFatent :: table[c] == Entry(fsType, fat, nFatent, c)
      ensures Tied()
    {
      if fsType.EXFAT? {
        assert BitmapArea() == old(BitmapArea());
      }
    }

    /** The value get_fat reports when no disk error occurs. */
    ghost function Link(o: ObjId, clst: nat): nat
      requires csize > 0 && |table| == nFatent
      reads `table, o
    {
      LinkOf(fsType, csize, table, o.State(), clst)
    }

    /** Brings the sector of FAT byte k into the window. */
    method MoveToFat(k: nat) returns (res: FResult)
      requires Shape() && k < |fat|
      modifies `winsect, `wflag, `disk, `health, win
      ensures Shape() && ViewKept()
      ensures res == FR_OK || res == FR_DISK_ERR
      ensures res == FR_DISK_ERR ==> !health.noError
      ensures res == FR_OK ==> winsect == fatbase + k / 512
      ensures !old(wflag) ==> !wflag && disk == old(disk) && health.mirrored == old(health.mirrored)
    {
      res := MoveWindow(fatbase + k / 512);
    }

    /** Loads FAT byte k from the window. */
    function Peek(k: nat): (b: byte)
      requires Shape() && k < |fat| && winsect == fatbase + k / 512
      reads `disk, `winsect, `wflag, `fat, `health, win
      ensures b == fat[k]
    {
      assert InFat(fatbase + k / 512);
      win[k % 512]
    }

    /** Loads the dword of entry c from the window. */
    function PeekDword(c: nat): (v: nat)
      requires Shape() && (fsType == FAT32 || fsType == EXFAT) && 2 <= c < nFatent
      requires winsect == fatbase + 4 * c / 512
      reads `disk, `winsect, `wflag, `fat, `health, win
      ensures v == RawEntry(fsType, fat, nFatent, c) < 0x1_0000_0000
    {
      Aligned4(c);
      Dword(Peek(4 * c), Peek(4 * c + 1), Peek(4 * c + 2), Peek(4 * c + 3))
    }

    method GetFat12(clst: nat) returns (val: nat)
      requires Shape() && fsType.FAT12? && 2 <= clst < nFatent
      modifies `winsect, `wflag, `disk, `health, win
      ensures Shape() && ViewKept()
      ensures !old(wflag) ==> !wflag && disk == old(disk) && health.mirrored == old(health.mirrored)
      ensures val == Entry(fsType, fat, nFatent, clst) || val == DISK_ERROR
      ensures val == DISK_ERROR ==> !health.noError
    {
      EntryFits(fsType, nFatent, clst, |fat|);
      var bc := clst + clst / 2;
      var res := MoveToFat(bc);
      if res != FR_OK { return DISK_ERROR; }
      var wc: int := Peek(bc);
      res := MoveToFat(bc + 1);
      if res != FR_OK { return DISK_ERROR; }
      var hi: int := Peek(bc + 1);
      Fat12Read(wc, hi);
      wc := wc + 0x100 * hi;
      val := if clst % 2 == 1 then wc / 16 else wc % 0x1000;
    }

    method GetFat16(clst: nat) returns (val: nat)
      requires Shape() && fsType.FAT16? && 2 <= clst < nFatent
      modifies `winsect, `wflag, `disk, `health, win
      ensures Shape() && ViewKept()
      ensures !old(wflag) ==> !wflag && disk == old(disk) && health.mirrored == old(health.mirrored)
      ensures val == Entry(fsType, fat, nFatent, clst) || val == DISK_ERROR
      ensures val == DISK_ERROR ==> !health.noError
    {
      EntryFits(fsType, nFatent, clst, |fat|);
      var k := 2 * clst;
      Aligned2(clst);
      var res := MoveToFat(k);
      if res != FR_OK { return DISK_ERROR; }
      val := Word(Peek(k), Peek(k + 1));
    }

    /** FAT32 and exFAT entries differ in the mask only. */
    method GetFat32(clst: nat) returns (val: nat)
      requires Shape() && (fsType.FAT32? || fsType.EXFAT?) && 2 <= clst < nFatent
      modifies `winsect, `wflag, `disk, `health, win
      ensures Shape() && ViewKept()
      ensures !old(wflag) ==> !wflag && disk == old(disk) && health.mirrored == old(health.mirrored)
      ensures val == Entry(fsType, fat, nFatent, clst) || val == DISK_ERROR
      ensures val == DISK_ERROR ==> !health.noError
    {
      EntryFits(fsType, nFatent, clst, |fat|);
      var res := MoveToFat(4 * clst);
      if res != FR_OK { return DISK_ERROR; }
      var v := PeekDword(clst);
      val := if fsType == FAT32 then v % 0x1000_0000 else v % 0x8000_0000;
    }

    method GetFat(o: ObjId, clst: nat) returns (val: nat)
      requires Valid() && clst < 0x1_0000_0000
      modifies `winsect, `wflag, `disk, `health, win
      ensures Valid() && ViewKept()
      ensures !old(wflag) ==> !wflag && disk == old(disk) && health.mirrored == old(health.mirrored)
      ensures val == Link(o, clst) || val == DISK_ERROR
      ensures val == DISK_ERROR ==> !health.noError
    {
      Open();
      if clst < 2 || clst >= nFatent {
        return 1;
      }
      if fsType == FAT12 {
        val := GetFat12(clst);
      } else if fsType == FAT16 {
        val := GetFat16(clst);
      } else if fsType == FAT32 {
        val := GetFat32(clst);
      } else {
        val := GetExFat(o, clst);
      }
      TiedKept();
      Open();
    }

    /** The last cluster's index, as get_fat divides it out. */
    method LastCluster(objsize: nat) returns (clen: nat)
      requires csize > 0
      ensures clen == LastIndex(objsize, csize)
    {
      clen := ((objsize - 1) % 0x1_0000_0000_0000_0000) / 512 / csize % 0x1_0000_0000;
      ClustersBelowIs(((objsize - 1) % 0x1_0000_0000_0000_0000) / 512, csize);
    }

    /** The branches of get_fat that need no FAT. */
    method Classify(o: ObjId, clst: nat) returns (src: Source)
      requires csize > 0
      ensures src == ExFatSource(csize, o.State(), clst)
    {
      src := Known(1);
      if (o.objsize != 0 && o.sclust != 0) || o.stat == 0 {
        var cofs := (clst - o.sclust) % 0x1_0000_0000;
        var clen := LastCluster(o.objsize);
        if o.stat == 2 && cofs <= clen {
          src := Known(if cofs == clen then 0x7FFF_FFFF else clst + 1);
        } else if o.stat == 3 && cofs < o.nCont {
          src := Known(clst + 1);
        } else if o.stat != 2 {
          src := if o.nFrag != 0 then Known(0x7FFF_FFFF) else OnFat;
        }
      }
    }

    /** The exFAT case of get_fat. */
    method GetExFat(o: ObjId, clst: nat) returns (val: nat)
      requires Shape() && fsType.EXFAT? && 2 <= clst < nFatent && |table| == nFatent
      requires table[clst] == Entry(fsType, fat, nFatent, clst)
      modifies `winsect, `wflag, `disk, `health, win
      ensures Shape() && ViewKept()
      ensures !old(wflag) ==> !wflag && disk == old(disk) && health.mirrored == old(health.mirrored)
      ensures val == Link(o, clst) || val == DISK_ERROR
      ensures val == DISK_ERROR ==> !health.noError
    {
      var src := Classify(o, clst);
      if src == OnFat {
        val := GetFat32(clst);
      } else {
        val := src.val;
      }
    }

    /** Stores FAT byte k, whose sector is in the window. */
    method PokeByte(k: nat, b: byte)
      requires Shape() && k < |fat| && winsect == fatbase + k / 512
      modifies `wflag, `fat, win
      ensures Shape() && fat == old(fat)[k := b]
      ensures forall s | 0 <= s < |disk| && !InFat(s) :: View(s) == old(View(s))
    {
      assert InFat(winsect);
      win[k % 512] := b;
      wflag := true;
      fat := fat[k := b];
      assert win[..] == old(win[..])[k % 512 := b];
    }

    /** Stores FAT bytes k, k + 1, ..., which are all in the window. */
    method PokeFat(k: nat, bs: seq<byte>)
      requires Shape() && k + |bs| <= |fat| && winsect == fatbase + k / 512 && k % 512 + |bs| <= 512
      modifies `wflag, `fat, win
      ensures Shape() && fat == Splice(old(fat), k, bs)
      ensures forall s | 0 <= s < |disk| && !InFat(s) :: View(s) == old(View(s))
    {
      for j := 0 to |bs|
        invariant Shape() && fat == Splice(old(fat), k, bs[..j])
        invariant forall s | 0 <= s < |disk| && !InFat(s) :: View(s) == old(View(s))
      {
        SpliceNext(old(fat), k, bs, j);
        SameSector(k, j);
        PokeByte(k + j, bs[j]);
      }
      assert bs[..|bs|] == bs;
    }

    /** Replaces byte k, the first or the second of a FAT12 entry, by its share of val. */
    method Update12(k: nat, odd: bool, second: bool, val: nat) returns (res: FResult)
      requires Shape() && k < |fat|
      modifies `winsect, `wflag, `disk, `health, `fat, win
      ensures Shape() && |disk| == |old(disk)|
      ensures res == FR_OK || res == FR_DISK_ERR
      ensures res == FR_DISK_ERR ==> !health.noError
      ensures fat == if res != FR_OK then old(fat)
        else old(fat)[k := if second then Fat12Hi(odd, old(fat)[k], val) else Fat12Lo(odd, old(fat)[k], val)]
      ensures forall s | 0 <= s < |disk| && !InFat(s) && !InMirror(s) :: View(s) == old(View(s))
    {
      res := MoveToFat(k);
      if res != FR_OK { return; }
      var p := Peek(k);
      PokeByte(k, if second then Fat12Hi(odd, p, val) else Fat12Lo(odd, p, val));
    }

    method PutFat12(clst: nat, val: nat) returns (res: FResult)
      requires Shape() && fsType.FAT12? && 2 <= clst < nFatent && val < 0x1_0000_0000
      modifies `winsect, `wflag, `disk, `health, `fat, win
      ensures Shape() && |disk| == |old(disk)|
      ensures res == FR_OK || res == FR_DISK_ERR
      ensures res == FR_DISK_ERR ==> !health.noError
      ensures res == FR_OK ==> Stores(fsType, old(fat), fat, nFatent, clst, val)
      ensures OnlyEntry(fsType, old(fat), fat, nFatent, clst)
      ensures forall s | 0 <= s < |disk| && !InFat(s) && !InMirror(s) :: View(s) == old(View(s))
    {
      EntryFits(fsType, nFatent, clst, |fat|);
      Stores12(fat, nFatent, clst, val);
      HalfStored12(fat, nFatent, clst, val);
      res := Update12Both(clst + clst / 2, clst % 2 == 1, val);
    }

    /** The two byte updates of a FAT12 store; a disk error in between leaves the first. */
    method Update12Both(k: nat, odd: bool, val: nat) returns (res: FResult)
      requires Shape() && k + 1 < |fat|
      modifies `winsect, `wflag, `disk, `health, `fat, win
      ensures Shape() && |disk| == |old(disk)|
      ensures res == FR_OK || res == FR_DISK_ERR
      ensures res == FR_DISK_ERR ==> !health.noError
      ensures var one := old(fat)[k := Fat12Lo(odd, old(fat)[k], val)];
        if res == FR_OK then fat == one[k + 1 := Fat12Hi(odd, old(fat)[k + 1], val)] else fat == old(fat) || fat == one
      ensures forall s | 0 <= s < |disk| && !InFat(s) && !InMirror(s) :: View(s) == old(View(s))
    {
      res := Update12(k, odd, false, val);
      if res != FR_OK { return; }
      res := Update12(k + 1, odd, true, val);
    }

    method PutFat16(clst: nat, val: nat) returns (res: FResult)
      requires Shape() && fsType.FAT16? && 2 <= clst < nFatent && val < 0x1_0000_0000
      modifies `winsect, `wflag, `disk, `health, `fat, win
      ensures Shape() && |disk| == |old(disk)|
      ensures res == FR_OK || res == FR_DISK_ERR
      ensures res == FR_DISK_ERR ==> !health.noError
      ensures res == FR_OK ==> Stores(fsType, old(fat), fat, nFatent, clst, val)
      ensures OnlyEntry(fsType, old(fat), fat, nFatent, clst)
      ensures forall s | 0 <= s < |disk| && !InFat(s) && !InMirror(s) :: View(s) == old(View(s))
    {
      EntryFits(fsType, nFatent, clst, |fat|);
      Aligned2(clst);
      res := MoveToFat(2 * clst);
      if res != FR_OK { return; }
      var bs := WordBytes(val % 0x1_0000);
      PokeFat(2 * clst, bs);
      Stores16(old(fat), nFatent, clst, bs, val);
    }

    method PutFat32(clst: nat, val: nat) returns (res: FResult)
      requires Shape() && (fsType.FAT32? || fsType.EXFAT?) && 2 <= clst < nFatent && val < 0x1_0000_0000
      modifies `winsect, `wflag, `disk, `health, `fat, win
      ensures Shape() && |disk| == |old(disk)|
      ensures res == FR_OK || res == FR_DISK_ERR
      ensures res == FR_DISK_ERR ==> !health.noError
      ensures res == FR_OK ==> Stores(fsType, old(fat), fat, nFatent, clst, val)
      ensures OnlyEntry(fsType, old(fat), fat, nFatent, clst)
      ensures forall s | 0 <= s < |disk| && !InFat(s) && !InMirror(s) :: View(s) == old(View(s))
    {
      EntryFits(fsType, nFatent, clst, |fat|);
      Aligned4(clst);
      res := MoveToFat(4 * clst);
      if res != FR_OK { return; }
      var v, bs := DwordFor(clst, val);
      PokeFat(4 * clst, bs);
      Stores32(fsType, old(fat), nFatent, clst, bs, v, val);
    }

    /** The four bytes that store val in entry c, which is in the window. */
    method DwordFor(c: nat, val: nat) returns (v: nat, bs: seq<byte>)
      requires Shape() && (fsType.FAT32? || fsType.EXFAT?) && 2 <= c < nFatent && val < 0x1_0000_0000
      requires winsect == fatbase + 4 * c / 512 && 4 * c + 4 <= |fat|
      ensures |bs| == 4 && Dword(bs[0], bs[1], bs[2], bs[3]) == v
      ensures Masked(fsType, v) == Masked(fsType, val)
      ensures fsType.FAT32? ==> v / 0x1000_0000 == RawEntry(fsType, fat, nFatent, c) / 0x1000_0000
    {
      v := val;
      if fsType == FAT32 {
        v := KeepReserved(PeekDword(c), val);
      }
      bs := DwordBytes(v);
    }

    method PutFatBytes(clst: nat, val: nat) returns (res: FResult)
      requires Shape() && 2 <= clst < nFatent && val < 0x1_0000_0000
      modifies `winsect, `wflag, `disk, `health, `fat, win
      ensures Shape() && |disk| == |old(disk)|
      ensures res == FR_OK || res == FR_DISK_ERR
      ensures res == FR_DISK_ERR ==> !health.noError
      ensures res == FR_OK ==> Stores(fsType, old(fat), fat, nFatent, clst, val)
      ensures OnlyEntry(fsType, old(fat), fat, nFatent, clst)
      ensures forall s | 0 <= s < |disk| && !InFat(s) && !InMirror(s) :: View(s) == old(View(s))
    {
      if fsType == FAT12 {
        res := PutFat12(clst, val);
      } else if fsType == FAT16 {
        res := PutFat16(clst, val);
      } else {
        res := PutFat32(clst, val);
      }
    }

    method PutFat(clst: nat, val: nat) returns (res: FResult)
      requires Valid() && val < 0x1_0000_0000
      modifies `winsect, `wflag, `disk, `health, `fat, `table, win
      ensures Valid() && |disk| == |old(disk)|
      ensures res == FR_INT_ERR <==> !(2 <= clst < nFatent)
      ensures res == FR_INT_ERR ==> fat == old(fat) && table == old(table)
      ensures res != FR_INT_ERR ==> OnlyEntry(fsType, old(fat), fat, nFatent, clst)
      ensures res != FR_INT_ERR ==> table == old(table)[clst := table[clst]]
      ensures res == FR_OK ==> Stores(fsType, old(fat), fat, nFatent, clst, val)
      ensures res == FR_OK ==> table[clst] == Masked(fsType, val)
      ensures forall s | 0 <= s < |disk| && !InFat(s) && !InMirror(s) :: View(s) == old(View(s))
      ensures res == FR_DISK_ERR ==> !health.noError
    {
      Open();
      res := FR_INT_ERR;
      if 2 <= clst < nFatent {
        res := PutFatBytes(clst, val);
        table := table[clst := Entry(fsType, fat, nFatent, clst)];
        EntriesKept(fsType, old(fat), fat, nFatent, clst);
      }
      TiedKept();
      Open();
    }

    /** put_fat, as code above the window sees it. */
    method SetEntry(clst: nat, val: nat) returns (res: FResult)
      requires Valid() && val < 0x1_0000_0000
      modifies `winsect, `wflag, `disk, `health, `fat, `table, win
      ensures Valid()
      ensures res == FR_INT_ERR <==> !(2 <= clst < nFatent)
      ensures res == FR_INT_ERR ==> table == old(table)
      ensures res != FR_INT_ERR ==> table == old(table)[clst := table[clst]]
      ensures res == FR_OK ==> table[clst] == if val < nFatent then val else Masked(fsType, val)
      ensures res == FR_DISK_ERR ==> !health.noError
    {
      res := PutFat(clst, val);
      if val < nFatent {
        MaskedSmall(fsType, val);
      }
    }

    /** move_window as the read-only configuration compiles it: nothing is ever written back. */
    method MoveClean(sect: nat) returns (res: FResult)
      requires Valid() && !wflag && sect < |disk|
      modifies `winsect, `wflag, `disk, `health, win
      ensures Valid() && !wflag && disk == old(disk) && health.mirrored == old(health.mirrored)
      ensures res == FR_OK || res == FR_DISK_ERR
      ensures res == FR_DISK_ERR ==> !health.noError
      ensures res == FR_OK ==> winsect == sect && win.Length == 512 && win[..] == disk[sect]
    {
      Open();
      res := MoveWindow(sect);
      TiedKept();
      Open();
    }

    /** Brings bitmap sector q into the window. */
    method MoveToBitmap(q: nat) returns (res: FResult)
      requires Valid() && fsType.EXFAT? && 4096 * q < nFatent - 2
      modifies `winsect, `wflag, `disk, `health, win
      ensures Valid() && ViewKept()
      ensures res == FR_OK || res == FR_DISK_ERR
      ensures res == FR_DISK_ERR ==> !health.noError
      ensures res == FR_OK ==> winsect == bitbase + q
    {
      Open();
      res := MoveWindow(bitbase + q);
      TiedKept();
      Open();
    }

    /** Bit j of byte i of bitmap sector q, which is in the window. */
    predicate PeekBit(q: nat, i: nat, j: nat)
      requires Valid() && fsType.EXFAT? && InBitmap(q, i, j) && winsect == bitbase + q
      reads `disk, `winsect, `wflag, `fat, `health, `table, `bits, win
      ensures PeekBit(q, i, j) == bits[4096 * q + 8 * i + j]
    {
      Open();
      assert BitmapArea()[q] == win[..];
      BitSet(win[i], j)
    }

    /** Changes byte i of the cached sector, which is in the data area. */
    method PokeData(i: nat, b: byte)
      requires Shape() && i < 512 && database <= winsect < |disk|
      modifies `wflag, win
      ensures Shape()
      ensures forall s | 0 <= s < |disk| && s != winsect :: View(s) == old(View(s))
      ensures win[..] == old(win[..])[i := b]
    {
      win[i] := b;
      wflag := true;
    }

    /** Flips that bit. */
    method FlipWindowBit(q: nat, i: nat, j: nat)
      requires Valid() && fsType.EXFAT? && InBitmap(q, i, j) && winsect == bitbase + q
      modifies `wflag, `bits, win
      ensures Valid()
      ensures bits == old(bits)[4096 * q + 8 * i + j := !old(bits)[4096 * q + 8 * i + j]]
      ensures forall s | 0 <= s < |disk| && s != bitbase + q :: View(s) == old(View(s))
    {
      Open();
      FlipTied(q, i, j);
      Open();
    }

    method FlipTied(q: nat, i: nat, j: nat)
      requires Inv() && fsType.EXFAT? && InBitmap(q, i, j) && winsect == bitbase + q
      modifies `wflag, `bits, win
      ensures Inv()
      ensures bits == old(bits)[4096 * q + 8 * i + j := !old(bits)[4096 * q + 8 * i + j]]
      ensures forall s | 0 <= s < |disk| && s != bitbase + q :: View(s) == old(View(s))
    {
      var v, b := 4096 * q + 8 * i + j, FlippedByteOf(win[i], j);
      FlippedBitmap(bits, BitmapArea(), q, i, j, win[..][i := b]);
      PokeBitmap(q, i, b);
      bits := bits[v := !bits[v]];
    }

    /** Changes byte i of bitmap sector q, which is in the window. */
    method PokeBitmap(q: nat, i: nat, b: byte)
      requires Shape() && fsType.EXFAT? && i < 512 && winsect == bitbase + q < |disk|
      modifies `wflag, win
      ensures Shape() && BitmapArea() == old(BitmapArea())[q := old(win[..])[i := b]]
      ensures forall s | 0 <= s < |disk| && s != winsect :: View(s) == old(View(s))
    {
      PokeData(i, b);
    }

    /** With two FATs the copies agree everywhere but on a dirty window. */
    lemma MirrorAgrees(s: nat)
      requires Shape() && health.mirrored && nFats == 2 && InFat(s) && !(wflag && s == winsect)
      ensures disk[s + fsize] == View(s)
    {
    }
  }
}
