/** mount_volume on FAT volumes: what an accepted boot sector says about the layout of the volume. */
module Mount {
  import opened Bytes
  import opened Volume

  /** The BPB fields mount_volume reads; each fits the width of its field. */
  datatype Bpb = Bpb(bytsPerSec: nat, fatSz16: nat, fatSz32: nat, numFats: nat, secPerClus: nat, rootEntCnt: nat,
                     totSec16: nat, totSec32: nat, rsvdSecCnt: nat, fsVer32: nat, rootClus32: nat)

  predicate FieldsFit(b: Bpb) {
    && b.bytsPerSec < 0x1_0000 && b.fatSz16 < 0x1_0000 && b.fatSz32 < 0x1_0000_0000 && b.numFats < 0x100
    && b.secPerClus < 0x100 && b.rootEntCnt < 0x1_0000 && b.totSec16 < 0x1_0000 && b.totSec32 < 0x1_0000_0000
    && b.rsvdSecCnt < 0x1_0000 && b.fsVer32 < 0x1_0000 && b.rootClus32 < 0x1_0000_0000
  }

  /** What mounting leaves in the FATFS object. */
  datatype Geometry = Geometry(fsType: FsType, nFats: nat, fsize: nat, csize: nat, nRootdir: nat, nFatent: nat,
                               fatbase: nat, dirbase: nat, database: nat)

  datatype Mounted = NoFilesystem | Ok(g: Geometry)

  /** csize & (csize - 1) == 0 for a byte. */
  predicate PowerOf2(c: nat) {
    c == 1 || c == 2 || c == 4 || c == 8 || c == 16 || c == 32 || c == 64 || c == 128
  }

  function FatSize(b: Bpb): nat {
    if b.fatSz16 == 0 then b.fatSz32 else b.fatSz16
  }

  function TotalSectors(b: Bpb): nat {
    if b.totSec16 == 0 then b.totSec32 else b.totSec16
  }

  /** Sectors before the data area, in 32-bit arithmetic. */
  function SystemSectors(b: Bpb): nat {
    (b.rsvdSecCnt + FatSize(b) * b.numFats % 0x1_0000_0000 + b.rootEntCnt / 16) % 0x1_0000_0000
  }

  /** Bytes of FAT that n entries need. */
  function NeededBytes(t: FsType, n: nat): nat {
    if t == FAT32 then n * 4 else if t == FAT16 then n * 2 else n * 3 / 2 + n % 2
  }

  lemma EnoughBytes(t: FsType, n: nat, fsize: nat)
    requires t != EXFAT && fsize >= (NeededBytes(t, n) + 511) / 512
    ensures Fits(t, n, 512 * fsize)
  {
    SectorsHold(NeededBytes(t, n), fsize);
    if t == FAT12 {
      PackedBytes(n);
    }
  }

  lemma SectorsHold(bytes: nat, sectors: nat)
    requires sectors >= (bytes + 511) / 512
    ensures bytes <= 512 * sectors
  {
  }

  lemma PackedBytes(n: nat)
    ensures 3 * n <= 2 * (n * 3 / 2 + n % 2)
  {
    var k := n / 2;
    if n == 2 * k {
      DivIs(n * 3, 2, 3 * k);
    } else {
      assert n == 2 * k + 1;
      DivIs(n * 3, 2, 3 * k + 1);
    }
  }

  /** The FAT/FAT32 branch of mount_volume for a boot sector at LBA bsect. */
  function MountFat(b: Bpb, bsect: nat): Mounted {
    var sysect := SystemSectors(b);
    var tsect := TotalSectors(b);
    if b.bytsPerSec != 512 || (b.numFats != 1 && b.numFats != 2) || !PowerOf2(b.secPerClus) || b.rootEntCnt % 16 != 0
       || b.rsvdSecCnt == 0 || tsect < sysect then NoFilesystem
    else
      var nclst := (tsect - sysect) / b.secPerClus;
      if nclst == 0 || nclst > 0x0FFF_FFF5 then NoFilesystem
      else
        var t := if nclst <= 0xFF5 then FAT12 else if nclst <= 0xFFF5 then FAT16 else FAT32;
        var n := nclst + 2;
        var fatbase := bsect + b.rsvdSecCnt;
        if t == FAT32 && (b.fsVer32 != 0 || b.rootEntCnt != 0) then NoFilesystem
        else if t != FAT32 && b.rootEntCnt == 0 then NoFilesystem
        else
          if FatSize(b) < (NeededBytes(t, n) + 511) / 512 then NoFilesystem
          else Ok(Geometry(t, b.numFats, FatSize(b), b.secPerClus, b.rootEntCnt, n, fatbase,
                           if t == FAT32 then b.rootClus32 else fatbase + FatSize(b) * b.numFats % 0x1_0000_0000, bsect + sysect))
  }

  /** The sector sums do not wrap around 32 bits. */
  predicate NoWrap(b: Bpb) {
    b.rsvdSecCnt + FatSize(b) * b.numFats + b.rootEntCnt / 16 < 0x1_0000_0000
  }

  /** clst2sect on the mounted volume. */
  function ClusterSector(g: Geometry, clst: nat): nat {
    ClustToSect(g.nFatent, g.database, g.csize, clst)
  }

  /** clst2sect as written, with one unsigned comparison, says the same. */
  lemma UnsignedTest(g: Geometry, clst: nat)
    requires 2 <= g.nFatent <= 0x8000_0000 && clst < 0x1_0000_0000
    ensures var k := (clst - 2) % 0x1_0000_0000;
      ClusterSector(g, clst) == if k >= g.nFatent - 2 then 0 else g.database + g.csize * k
  {
  }

  /** The FAT type follows from the cluster count, and the all-ones mark is an end mark at its width. */
  lemma TypeDetermination(b: Bpb, bsect: nat)
    requires FieldsFit(b) && MountFat(b, bsect).Ok?
    ensures var g := MountFat(b, bsect).g;
      && (g.fsType == FAT12 <==> g.nFatent - 2 <= 0xFF5)
      && (g.fsType == FAT16 <==> 0xFF5 < g.nFatent - 2 <= 0xFFF5)
      && (g.fsType == FAT32 <==> 0xFFF5 < g.nFatent - 2)
      && g.nFatent + 9 <= Values(g.fsType)
      && g.nFatent <= Masked(g.fsType, EOC) != DISK_ERROR
  {
  }

  /** Every FAT byte that get_fat can touch lies in the first FAT. */
  lemma EntriesInFirstFat(b: Bpb, bsect: nat, c: nat)
    requires FieldsFit(b) && MountFat(b, bsect).Ok?
    requires 2 <= c < MountFat(b, bsect).g.nFatent
    ensures var g := MountFat(b, bsect).g;
      && Fits(g.fsType, g.nFatent, 512 * g.fsize)
      && EntryOffset(g.fsType, c) + (if g.fsType.FAT12? || g.fsType.FAT16? then 2 else 4) <= 512 * g.fsize
  {
    var g := MountFat(b, bsect).g;
    EnoughBytes(g.fsType, g.nFatent, g.fsize);
    EntryFits(g.fsType, g.nFatent, c, 512 * g.fsize);
  }

  /** 32-bit addition of small terms to a FAT area that may wrap. */
  lemma SumExact(rsvd: nat, area: nat, root: nat)
    requires rsvd < 0x1_0000 && area < 0x2_0000_0000 && root < 0x1000
    ensures (rsvd + area % 0x1_0000_0000 + root) % 0x1_0000_0000 == rsvd + area + root <==> rsvd + area + root < 0x1_0000_0000
  {
  }

  /** The clusters fit behind the system area. */
  lemma DataInside(b: Bpb, bsect: nat)
    requires FieldsFit(b) && MountFat(b, bsect).Ok?
    ensures var g := MountFat(b, bsect).g;
      g.csize > 0 && g.database + g.csize * (g.nFatent - 2) <= bsect + TotalSectors(b)
  {
    var room := TotalSectors(b) - SystemSectors(b);
    var nclst := room / b.secPerClus;
    assert b.secPerClus * nclst <= room;
  }

  /** FATs, root directory and data follow each other without a gap exactly when no sum wraps. */
  lemma AreasInOrder(b: Bpb, bsect: nat)
    requires FieldsFit(b) && MountFat(b, bsect).Ok?
    ensures var g := MountFat(b, bsect).g;
      && bsect < g.fatbase
      && (g.database == g.fatbase + FatSize(b) * b.numFats + g.nRootdir / 16 <==> NoWrap(b))
      && (g.fsType != FAT32 ==> g.dirbase == g.fatbase + FatSize(b) * b.numFats % 0x1_0000_0000)
      && (g.fsType != FAT32 && NoWrap(b) ==> g.dirbase == g.fatbase + FatSize(b) * b.numFats)
      && (g.fsType == FAT32 ==> g.nRootdir == 0)
      && FatSize(b) * b.numFats == if g.nFats == 2 then 2 * g.fsize else g.fsize
  {
    var area := FatSize(b) * b.numFats;
    FatArea(FatSize(b), b.numFats);
    SumExact(b.rsvdSecCnt, area, b.rootEntCnt / 16);
  }

  lemma FatArea(fsize: nat, nFats: nat)
    requires nFats == 1 || nFats == 2
    ensures fsize * nFats == if nFats == 2 then 2 * fsize else fsize
  {
  }

  /** What precedes the data area ends inside the volume exactly when no sum wraps. */
  lemma SystemAreaInside(b: Bpb, bsect: nat)
    requires FieldsFit(b) && MountFat(b, bsect).Ok?
    ensures var g := MountFat(b, bsect).g;
      NoWrap(b) <==> g.fatbase + FatSize(b) * b.numFats + g.nRootdir / 16 <= bsect + TotalSectors(b)
  {
    var g := MountFat(b, bsect).g;
    AreasInOrder(b, bsect);
    DataInside(b, bsect);
    MulMono(g.csize, 0, g.nFatent - 2);
  }

  /** A run of sectors. */
  datatype Area = Area(start: nat, len: nat)

  predicate Inside(x: Area, start: nat, end: nat) { start <= x.start && x.start + x.len <= end }

  predicate Apart(x: Area, y: Area) { x.start + x.len <= y.start || y.start + y.len <= x.start }

  /** The areas of a volume: the first FAT, the second, the fixed root directory, then cluster k - 1. */
  function Region(g: Geometry, k: nat): Area {
    match k
    case 0 => Area(g.fatbase, g.fsize)
    case 1 => Area(g.fatbase + g.fsize, if g.nFats == 2 then g.fsize else 0)
    case 2 => Area(if g.fsType == FAT32 then g.database else g.dirbase, g.nRootdir / 16)
    case _ => Area(ClusterSector(g, k - 1), g.csize)
  }

  /** All areas lie inside the volume and no two of them overlap. */
  ghost predicate LaidOut(g: Geometry, start: nat, end: nat) {
    && (forall k | 0 <= k < g.nFatent + 1 :: Inside(Region(g, k), start, end))
    && (forall j, k | 0 <= j < k < g.nFatent + 1 :: Apart(Region(g, j), Region(g, k)))
  }

  /** The areas of an accepted volume are disjoint and inside it if and only if the sector sums do not wrap. */
  lemma AreasDisjoint(b: Bpb, bsect: nat)
    requires FieldsFit(b) && MountFat(b, bsect).Ok?
    ensures LaidOut(MountFat(b, bsect).g, bsect, bsect + TotalSectors(b)) <==> NoWrap(b)
  {
    var g, end := MountFat(b, bsect).g, bsect + TotalSectors(b);
    SystemAreaInside(b, bsect);
    AreasInOrder(b, bsect);
    if NoWrap(b) {
      DataInside(b, bsect);
      RegionsInOrder(g, bsect, end);
    } else {
      SystemAreaOutside(g, bsect, end);
    }
  }

  /** If the system area ends outside, so does the root directory or, where the FAT area itself wraps, the last FAT. */
  lemma SystemAreaOutside(g: Geometry, start: nat, end: nat)
    requires g.nFatent >= 2 && g.fsize < 0x1_0000_0000 && end < g.fatbase + 0x1_0000_0000
    requires g.fatbase + (if g.nFats == 2 then 2 * g.fsize else g.fsize) + g.nRootdir / 16 > end
    requires if g.fsType == FAT32 then g.nRootdir == 0
             else g.dirbase == g.fatbase + (if g.nFats == 2 then 2 * g.fsize else g.fsize) % 0x1_0000_0000
    ensures !LaidOut(g, start, end)
  {
    assert !Inside(Region(g, 1), start, end) || !Inside(Region(g, 2), start, end);
  }

  lemma RegionsInOrder(g: Geometry, start: nat, end: nat)
    requires start <= g.fatbase && 2 <= g.nFatent && g.database + g.csize * (g.nFatent - 2) <= end
    requires g.database == g.fatbase + (if g.nFats == 2 then 2 * g.fsize else g.fsize) + g.nRootdir / 16
    requires if g.fsType == FAT32 then g.nRootdir == 0 else g.dirbase == g.database - g.nRootdir / 16
    ensures LaidOut(g, start, end)
  {
    MulMono(g.csize, 0, g.nFatent - 2);
    forall j, k | 0 <= j < k < g.nFatent + 1
      ensures Apart(Region(g, j), Region(g, k))
    {
      if k >= 3 {
        ClusterPlace(g, end, k - 1);
        if j >= 3 {
          ClusterEnds(g, j - 1, k - 1);
        }
      }
    }
    forall k | 0 <= k < g.nFatent + 1
      ensures Inside(Region(g, k), start, end)
    {
      if k >= 3 {
        ClusterPlace(g, end, k - 1);
      }
    }
  }

  lemma ClusterPlace(g: Geometry, end: nat, c: nat)
    requires 2 <= c < g.nFatent && g.database + g.csize * (g.nFatent - 2) <= end
    ensures g.database <= ClusterSector(g, c) && ClusterSector(g, c) + g.csize <= end
  {
    ClusterEnds(g, c, g.nFatent);
    MulMono(g.csize, 0, c - 2);
  }

  /** A boot sector that is accepted although its FATs and its clusters overlap and leave the volume. */
  lemma WrapIsAccepted()
    ensures var b := Bpb(512, 0, 0x8000_0000, 2, 1, 0, 0, 100_000, 32, 0, 2);
      && FieldsFit(b) && MountFat(b, 64).Ok? && !NoWrap(b)
      && var g := MountFat(b, 64).g; g.database == g.fatbase && !Apart(Region(g, 0), Region(g, 3))
  {
    var b := Bpb(512, 0, 0x8000_0000, 2, 1, 0, 0, 100_000, 32, 0, 2);
    assert SystemSectors(b) == 32 && TotalSectors(b) - SystemSectors(b) == 99_968;
  }

  /** After a wrap no two areas need overlap; here they are apart but the FATs end far outside the volume. */
  lemma WrapMayStayApart()
    ensures var b := Bpb(512, 0, 0x7FFF_FFFB, 2, 1, 16, 24, 0, 32, 0, 0);
      && FieldsFit(b) && MountFat(b, 64).Ok? && !NoWrap(b)
      && var g := MountFat(b, 64).g;
      && (forall j, k | 0 <= j < k < g.nFatent + 1 :: Apart(Region(g, j), Region(g, k)))
      && !Inside(Region(g, 0), 64, 64 + TotalSectors(b))
  {
    var b := Bpb(512, 0, 0x7FFF_FFFB, 2, 1, 16, 24, 0, 32, 0, 0);
    assert SystemSectors(b) == 23 && TotalSectors(b) - SystemSectors(b) == 1;
  }

  /** clst2sect is non-zero exactly on valid clusters. */
  lemma ClusterSectorsValid(b: Bpb, bsect: nat, c: nat)
    requires FieldsFit(b) && MountFat(b, bsect).Ok? && NoWrap(b)
    ensures var g := MountFat(b, bsect).g; ClusterSector(g, c) != 0 <==> 2 <= c < g.nFatent
  {
    AreasInOrder(b, bsect);
    var g := MountFat(b, bsect).g;
    if 2 <= c < g.nFatent {
      MulMono(g.csize, 0, c - 2);
    }
  }

  /** A cluster ends before the next one starts. */
  lemma ClusterEnds(g: Geometry, c: nat, d: nat)
    requires 2 <= c < d
    ensures g.csize * (c - 2) + g.csize <= g.csize * (d - 2)
  {
    MulMono(g.csize, c - 1, d - 2);
    assert g.csize * (c - 1) == g.csize * (c - 2) + g.csize;
  }

  /** Mounting establishes the geometry that the window, the FAT and the allocator rely on. */
  lemma MountedIsSound(b: Bpb, bsect: nat, sectors: nat)
    requires FieldsFit(b) && MountFat(b, bsect).Ok? && NoWrap(b) && bsect + TotalSectors(b) <= sectors < NO_SECTOR
    ensures var g := MountFat(b, bsect).g;
      && GeometryFits(g.fsType, g.nFats, g.csize, g.nFatent, g.fsize, g.fatbase, g.database, 0, sectors)
      && g.database + g.csize * (g.nFatent - 2) <= sectors
  {
    var g := MountFat(b, bsect).g;
    AreasInOrder(b, bsect);
    DataInside(b, bsect);
    TypeDetermination(b, bsect);
    EntriesInFirstFat(b, bsect, 2);
    MulMono(g.csize, 0, g.nFatent - 2);
  }

  /** A volume within the medium whose boot sector is accepted is ready for every other operation. */
  method MountVolume(b: Bpb, bsect: nat, disk: seq<seq<byte>>) returns (fs: FatFs?)
    requires FieldsFit(b) && NoWrap(b) && bsect + TotalSectors(b) <= |disk| < NO_SECTOR
    requires forall s | 0 <= s < |disk| :: |disk[s]| == 512
    ensures fs == null <==> MountFat(b, bsect).NoFilesystem?
    ensures fs != null ==>
      var g := MountFat(b, bsect).g;
      && fresh(fs) && fresh(fs.win) && fs.Valid() && fs.disk == disk && !fs.wflag && fs.health.noError
      && fs.freeClst == fs.lastClst == 0xFFFF_FFFF
      && fs.fsType == g.fsType && fs.nFats == g.nFats && fs.csize == g.csize && fs.nFatent == g.nFatent
      && fs.fsize == g.fsize && fs.fatbase == g.fatbase && fs.database == g.database
      && fs.database + fs.csize * (fs.nFatent - 2) <= |disk|
  {
    match MountFat(b, bsect)
    case NoFilesystem =>
      fs := null;
    case Ok(g) =>
      MountedIsSound(b, bsect, |disk|);
      fs := new FatFs(disk, g.fsType, g.nFats, g.csize, g.nFatent, g.fsize, g.fatbase, g.database, 0);
  }
}
