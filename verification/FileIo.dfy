/** f_read and f_lseek in the read-only, tiny configuration of the boot ROM. */
module FileIo {
  import opened Bytes
  import opened Volume

  /** Where a file lies: file sector q is in cluster cl[q] and is sector ss[q] of the medium. */
  datatype Layout = Layout(cl: seq<nat>, ss: seq<nat>)

  /** Byte k of a file whose sectors are ss. */
  ghost function ByteAt(disk: seq<seq<byte>>, ss: seq<nat>, k: nat): byte {
    if k / 512 < |ss| && ss[k / 512] < |disk| && |disk[ss[k / 512]]| == 512 then disk[ss[k / 512]][k % 512] else 0
  }

  /** The file as one byte string. */
  ghost function Content(disk: seq<seq<byte>>, ss: seq<nat>, size: nat): seq<byte> {
    seq(size, k requires 0 <= k => ByteAt(disk, ss, k))
  }

  /** The layout is made of whole clusters. */
  ghost predicate Clustered(l: Layout, n: nat, database: nat, csize: nat, sectors: nat)
    requires csize > 0
  {
    && |l.ss| == |l.cl|
    && (forall q | 0 <= q < |l.cl| :: 2 <= l.cl[q] < n)
    && (forall q | 0 <= q < |l.cl| :: l.ss[q] == ClustToSect(n, database, csize, l.cl[q]) + q % csize)
    && (forall q | 0 <= q < |l.cl| :: l.ss[q] < sectors)
    && (forall q | 0 < q < |l.cl| :: q % csize != 0 ==> l.cl[q] == l.cl[q - 1])
  }

  /** Sectors of one cluster are consecutive. */
  lemma {:induction false} RunInCluster(l: Layout, n: nat, database: nat, csize: nat, sectors: nat, q: nat, j: nat)
    requires csize > 0 && Clustered(l, n, database, csize, sectors)
    requires q + j < |l.cl| && q % csize + j < csize
    ensures l.cl[q + j] == l.cl[q] && l.ss[q + j] == l.ss[q] + j && (q + j) % csize == q % csize + j
  {
    if j > 0 {
      RunInCluster(l, n, database, csize, sectors, q, j - 1);
      ModStep(q + j - 1, csize);
    }
  }

  lemma RunOf(l: Layout, n: nat, database: nat, csize: nat, sectors: nat, q: nat, cc: nat)
    requires csize > 0 && Clustered(l, n, database, csize, sectors)
    requires 0 < cc && q + cc <= |l.cl| && q % csize + cc <= csize
    ensures forall i | q <= i < q + cc :: l.cl[i] == l.cl[q] && l.ss[i] == l.ss[q] + i - q
    ensures l.ss[q] + cc <= sectors && l.cl[q + cc - 1] == l.cl[q]
  {
    forall i | q <= i < q + cc ensures l.cl[i] == l.cl[q] && l.ss[i] == l.ss[q] + i - q {
      RunInCluster(l, n, database, csize, sectors, q, i - q);
    }
    assert l.ss[q + cc - 1] == l.ss[q] + cc - 1;
  }

  lemma ModStep(q: nat, csize: nat)
    requires csize > 0 && q % csize + 1 < csize
    ensures (q + 1) % csize == q % csize + 1
  {
    assert q == q / csize * csize + q % csize;
    DivIs(q + 1, csize, q / csize);
  }

  /** clst2sect is non-zero exactly on valid clusters. */
  lemma SectPositive(n: nat, database: nat, csize: nat, clst: nat)
    requires n >= 2 && database > 0
    ensures ClustToSect(n, database, csize, clst) > 0 <==> 2 <= clst < n
  {
    if clst >= 2 {
      MulMono(csize, 0, clst - 2);
    }
  }

  /** l is the layout of the object's chain, and the chain covers the object. */
  ghost predicate Covers(l: Layout, t: FsType, database: nat, csize: nat, table: seq<nat>, disk: seq<seq<byte>>, o: Chain) {
    && csize > 0
    && Clustered(l, |table|, database, csize, |disk|)
    && (forall s | 0 <= s < |disk| :: |disk[s]| == 512)
    && (forall q | 0 < q < |l.cl| :: q % csize == 0 ==> LinkOf(t, csize, table, o, l.cl[q - 1]) == l.cl[q])
    && (|l.cl| > 0 ==> o.sclust == l.cl[0])
    && |l.cl| % csize == 0
    && o.objsize <= 512 * |l.cl|
    && (t != EXFAT ==> o.objsize < 0x1_0000_0000)
  }

  class File {
    const fs: FatFs
    const obj: ObjId
    var fptr: nat
    var clust: nat
    var sect: nat

    /** What f_open leaves. */
    constructor (fs: FatFs, obj: ObjId)
      ensures this.fs == fs && this.obj == obj && fptr == 0
    {
      this.fs, this.obj := fs, obj;
      fptr, clust, sect := 0, 0, 0;
    }

    ghost predicate Covered(l: Layout)
      reads fs`disk, fs`table, obj
    {
      Covers(l, fs.fsType, fs.database, fs.csize, fs.table, fs.disk, obj.State())
    }

    /** The cursor: clust is the cluster of byte fptr - 1, sect is right whenever fptr is mid-sector. */
    ghost predicate Placed(l: Layout)
      requires obj.objsize <= 512 * |l.cl| == 512 * |l.ss|
      reads this, obj
    {
      && fptr <= obj.objsize
      && (fptr > 0 ==> clust == l.cl[(fptr - 1) / 512])
      && (fptr % 512 != 0 ==> sect == l.ss[fptr / 512])
    }

    ghost predicate Valid(l: Layout)
      reads this, fs`disk, fs`winsect, fs`wflag, fs`fat, fs`health, fs`table, fs`bits, fs.win, obj
    {
      fs.Valid() && !fs.wflag && Covered(l) && Placed(l)
    }

    ghost function Bytes(l: Layout): seq<byte>
      reads fs`disk, obj
    {
      Content(fs.disk, l.ss, obj.objsize)
    }

    /** Sector of the byte at fptr, which is the first one of a sector. */
    method Locate(ghost l: Layout) returns (res: FResult, s: nat, csect: nat)
      requires Valid(l) && fptr < obj.objsize && fptr % 512 == 0
      modifies fs`winsect, fs`wflag, fs`disk, fs`health, fs.win, `clust
      ensures fs.Valid() && !fs.wflag && fs.disk == old(fs.disk)
      ensures res == FR_OK || res == FR_DISK_ERR
      ensures res == FR_DISK_ERR ==> !fs.health.noError
      ensures res == FR_OK ==>
        csect == fptr / 512 % fs.csize && clust == l.cl[fptr / 512] && s == l.ss[fptr / 512]
    {
      res, s := FR_OK, 0;
      csect := fptr / 512 % fs.csize;
      if csect == 0 {
        var clst := obj.sclust;
        if fptr != 0 {
          clst := fs.GetFat(obj, clust);
        }
        if clst < 2 { return FR_INT_ERR, s, csect; }
        if clst == DISK_ERROR { return FR_DISK_ERR, s, csect; }
        clust := clst;
      }
      assert clust == l.cl[fptr / 512];
      SectPositive(fs.nFatent, fs.database, fs.csize, clust);
      s := ClustToSect(fs.nFatent, fs.database, fs.csize, clust);
      if s == 0 { return FR_INT_ERR, s, csect; }
      s := s + csect;
    }
  
    /** disk_read of several sectors straight into the caller's buffer. */
    method DiskReadMany(s: nat, count: nat) returns (ok: bool, data: seq<byte>)
      requires s + count <= |fs.disk| && forall i | s <= i < s + count :: |fs.disk[i]| == 512
      modifies fs`health
      ensures ok ==> |data| == 512 * count
      ensures ok ==> forall j | 0 <= j < 512 * count :: data[j] == fs.disk[s + j / 512][j % 512]
      ensures ok ==> fs.health == old(fs.health)
      ensures !ok ==> !fs.health.noError
    {
      data := [];
      for i := 0 to count
        invariant |data| == 512 * i
        invariant forall j | 0 <= j < 512 * i :: data[j] == fs.disk[s + j / 512][j % 512]
      {
        data := data + fs.disk[s + i];
      }
      ok := *;
      if !ok {
        fs.Fault();
      }
    }

    /** Whole sectors, clipped at the cluster boundary. */
    method ReadDirect(s: nat, csect: nat, want: nat, ghost l: Layout) returns (res: FResult, data: seq<byte>)
      requires fs.Valid() && !fs.wflag && Covered(l) && fptr % 512 == 0 && 0 < want && fptr + 512 * want <= obj.objsize
      requires csect == fptr / 512 % fs.csize && s == l.ss[fptr / 512] && clust == l.cl[fptr / 512]
      modifies `fptr, fs`health
      ensures res == FR_OK || res == FR_DISK_ERR
      ensures res == FR_DISK_ERR ==> !fs.health.noError
      ensures res == FR_OK ==>
        && Valid(l) && 0 < |data| <= 512 * want && fptr == old(fptr) + |data|
        && data == Bytes(l)[old(fptr)..fptr]
    {
      var cc := want;
      if csect + cc > fs.csize {
        cc := fs.csize - csect;
      }
      ghost var q := fptr / 512;
      RunOf(l, fs.nFatent, fs.database, fs.csize, |fs.disk|, q, cc);
      var ok;
      ok, data := DiskReadMany(s, cc);
      if !ok { return FR_DISK_ERR, data; }
      assert fptr == 512 * q;
      DirectBytes(fs.disk, l.ss, obj.objsize, q, cc, s, data);
      Pass(512 * cc, q + cc - 1, l);
      res := FR_OK;
    }

    /** Moves the cursor over whole sectors, the last of which is `last`. */
    method Pass(n: nat, ghost last: nat, ghost l: Layout)
      requires 0 < n && fptr + n == 512 * (last + 1) && fptr + n <= obj.objsize <= 512 * |l.cl| == 512 * |l.ss|
      requires clust == l.cl[last]
      modifies `fptr
      ensures Placed(l) && fptr == old(fptr) + n
    {
      fptr := fptr + n;
      assert (fptr - 1) / 512 == last;
    }

    /** The rest of the sector that holds fptr, through the window. */
    method ReadPartial(btr: nat, ghost l: Layout) returns (res: FResult, data: seq<byte>)
      requires fs.Valid() && !fs.wflag && Covered(l) && 0 < btr && fptr + btr <= obj.objsize
      requires sect == l.ss[fptr / 512] && clust == l.cl[fptr / 512]
      modifies fs`winsect, fs`wflag, fs`disk, fs`health, fs.win, `fptr
      ensures fs.Valid() && !fs.wflag && fs.disk == old(fs.disk)
      ensures res == FR_OK || res == FR_DISK_ERR
      ensures res == FR_DISK_ERR ==> !fs.health.noError
      ensures res == FR_OK ==>
        && Valid(l) && 0 < |data| <= btr && fptr == old(fptr) + |data|
        && data == Bytes(l)[old(fptr)..fptr]
    {
      var rcnt := 512 - fptr % 512;
      if rcnt > btr {
        rcnt := btr;
      }
      data := [];
      res := fs.MoveClean(sect);
      if res != FR_OK { return; }
      data := Extract(rcnt, l);
    }

    /** rcnt bytes of the sector in the window, which is the one that holds fptr. */
    method Extract(rcnt: nat, ghost l: Layout) returns (data: seq<byte>)
      requires 0 < rcnt && fptr % 512 + rcnt <= 512 && fptr + rcnt <= obj.objsize <= 512 * |l.cl| == 512 * |l.ss|
      requires clust == l.cl[fptr / 512] && sect == l.ss[fptr / 512] < |fs.disk|
      requires fs.win.Length == 512 && fs.win[..] == fs.disk[sect]
      modifies `fptr
      ensures Placed(l) && fptr == old(fptr) + rcnt && |data| == rcnt && data == Bytes(l)[old(fptr)..fptr]
    {
      var ofs := fptr % 512;
      data := fs.win[ofs..ofs + rcnt];
      PartialBytes(fs.disk, l.ss, obj.objsize, fptr, data);
      SameOrNext(fptr, rcnt);
      fptr := fptr + rcnt;
    }

    lemma SameOrNext(at: nat, n: nat)
      requires 0 < n && at % 512 + n <= 512
      ensures (at + n - 1) / 512 == at / 512 && ((at + n) % 512 != 0 ==> (at + n) / 512 == at / 512)
    {
    }

    /** One pass of the loop of f_read. */
    method ReadSome(btr: nat, ghost l: Layout) returns (res: FResult, data: seq<byte>)
      requires Valid(l) && 0 < btr && fptr + btr <= obj.objsize
      modifies fs`winsect, fs`wflag, fs`disk, fs`health, fs.win, this
      ensures fs.disk == old(fs.disk)
      ensures res == FR_OK || res == FR_DISK_ERR
      ensures res == FR_DISK_ERR ==> !fs.health.noError
      ensures res == FR_OK ==>
        && Valid(l) && 0 < |data| <= btr && fptr == old(fptr) + |data|
        && data == Bytes(l)[old(fptr)..fptr]
    {
      if fptr % 512 == 0 {
        res, data := ReadAtBoundary(btr, l);
      } else {
        assert (fptr - 1) / 512 == fptr / 512;
        res, data := ReadPartial(btr, l);
      }
    }

    /** The same from a sector boundary: whole sectors if any are wanted, the start of one otherwise. */
    method ReadAtBoundary(btr: nat, ghost l: Layout) returns (res: FResult, data: seq<byte>)
      requires Valid(l) && 0 < btr && fptr + btr <= obj.objsize && fptr % 512 == 0
      modifies fs`winsect, fs`wflag, fs`disk, fs`health, fs.win, this
      ensures fs.disk == old(fs.disk)
      ensures res == FR_OK || res == FR_DISK_ERR
      ensures res == FR_DISK_ERR ==> !fs.health.noError
      ensures res == FR_OK ==>
        && Valid(l) && 0 < |data| <= btr && fptr == old(fptr) + |data|
        && data == Bytes(l)[old(fptr)..fptr]
    {
      data := [];
      var s, csect;
      res, s, csect := Locate(l);
      if res != FR_OK { return; }
      if btr / 512 > 0 {
        res, data := ReadDirect(s, csect, btr / 512, l);
      } else {
        sect := s;
        res, data := ReadPartial(btr, l);
      }
    }

    /** f_read: the bytes at the cursor, as many as asked for or left, and no other error than the medium's. */
    method Read(count: nat, ghost l: Layout) returns (res: FResult, data: seq<byte>)
      requires Valid(l)
      modifies fs`winsect, fs`wflag, fs`disk, fs`health, fs.win, this
      ensures fs.disk == old(fs.disk)
      ensures res == FR_OK || res == FR_DISK_ERR
      ensures res == FR_DISK_ERR ==> !fs.health.noError
      ensures res == FR_OK ==>
        && Valid(l) && fptr == Min(old(fptr) + count, obj.objsize)
        && data == Bytes(l)[old(fptr)..fptr]
    {
      var btr: nat := if count > obj.objsize - fptr then obj.objsize - fptr else count;
      ghost var end, all := fptr + btr, Bytes(l);
      assert end == Min(fptr + count, obj.objsize);
      res, data := FR_OK, [];
      while btr > 0
        invariant Valid(l) && fs.disk == old(fs.disk) && fptr + btr == end && res == FR_OK
        invariant old(fptr) <= fptr && data == all[old(fptr)..fptr]
      {
        var chunk;
        ghost var at := fptr;
        res, chunk := ReadSome(btr, l);
        if res != FR_OK { return; }
        btr := btr - |chunk|;
        data := data + chunk;
        Joined(all, old(fptr), at, fptr);
      }
    }

    /** Cluster from which f_lseek starts following the chain: the current one or the first. */
    method SeekStart(ofs: nat, ghost l: Layout) returns (clst: nat, ghost mq: nat)
      requires Valid(l) && 0 < ofs <= obj.objsize
      modifies `fptr, `clust
      ensures fptr == 512 * mq < ofs && mq % fs.csize == 0 && mq < |l.cl| && clst == clust == l.cl[mq]
    {
      var ifptr, bcs := fptr, fs.csize * 512;
      fptr, mq := 0, 0;
      if ifptr > 0 && (ofs - 1) / bcs >= (ifptr - 1) / bcs {
        SameOrLater(fs.csize, ifptr, ofs);
        mq := Times(Quot(ifptr - 1, bcs), fs.csize);
        fptr := Times(Quot(ifptr - 1, bcs), bcs);
        clst := clust;
        RunInCluster(l, fs.nFatent, fs.database, fs.csize, |fs.disk|, mq, (ifptr - 1) / 512 - mq);
      } else {
        clst := obj.sclust;
        clust := clst;
      }
    }

    /** The cluster following loop of f_lseek: on success the target is rest bytes into cluster clust. */
    method Follow(ofs: nat, ghost mq0: nat, ghost l: Layout) returns (res: FResult, rest: nat, ghost mq: nat)
      requires fs.Valid() && !fs.wflag && Covered(l) && mq0 < |l.cl| && mq0 % fs.csize == 0
      requires fptr == 512 * mq0 && clust == l.cl[mq0] && 0 < ofs && fptr + ofs <= obj.objsize
      modifies fs`winsect, fs`wflag, fs`disk, fs`health, fs.win, `fptr, `clust
      ensures fs.Valid() && !fs.wflag && fs.disk == old(fs.disk)
      ensures res == FR_OK || res == FR_DISK_ERR
      ensures res == FR_DISK_ERR ==> !fs.health.noError
      ensures res == FR_OK ==> mq < |l.cl| && mq % fs.csize == 0 && fptr == 512 * mq && clust == l.cl[mq]
      ensures res == FR_OK ==> 0 < rest <= 512 * fs.csize && fptr + rest == old(fptr) + ofs
    {
      var bcs := fs.csize * 512;
      res, rest, mq := FR_OK, ofs, mq0;
      while rest > bcs
        invariant fs.Valid() && !fs.wflag && fs.disk == old(fs.disk) && res == FR_OK
        invariant mq < |l.cl| && mq % fs.csize == 0 && fptr == 512 * mq && clust == l.cl[mq]
        invariant 0 < rest && fptr + rest == old(fptr) + ofs
      {
        NextLink(l, fs.fsType, fs.database, fs.csize, fs.table, fs.disk, obj.State(), mq);
        rest := rest - bcs;
        fptr := fptr + bcs;
        mq := mq + fs.csize;
        var clst := fs.GetFat(obj, clust);
        if clst == DISK_ERROR { return FR_DISK_ERR, rest, mq; }
        if clst <= 1 || clst >= fs.nFatent { return FR_INT_ERR, rest, mq; }
        clust := clst;
      }
    }

    /** The end of f_lseek: rest bytes into the current cluster. */
    method Land(rest: nat, ghost mq: nat, ghost l: Layout) returns (res: FResult)
      requires fs.Valid() && !fs.wflag && Covered(l) && mq < |l.cl| && mq % fs.csize == 0
      requires fptr == 512 * mq && clust == l.cl[mq] && 0 < rest <= 512 * fs.csize && fptr + rest <= obj.objsize
      modifies `fptr, `sect
      ensures res == FR_OK && Placed(l) && fptr == old(fptr) + rest
    {
      SeekEnd(l, fs.nFatent, fs.database, fs.csize, |fs.disk|, mq, rest);
      var nsect := 0;
      if rest % 512 != 0 {
        nsect := ClustToSect(fs.nFatent, fs.database, fs.csize, clust);
        if nsect == 0 { return FR_INT_ERR; }
        nsect := nsect + rest / 512;
      }
      Arrive(rest, nsect, mq, l);
      res := FR_OK;
    }

    /** The cursor's new position, and its sector when that is mid-sector. */
    method Arrive(rest: nat, nsect: nat, ghost mq: nat, ghost l: Layout)
      requires fptr == 512 * mq && 0 < rest && fptr + rest <= obj.objsize <= 512 * |l.cl| == 512 * |l.ss|
      requires clust == l.cl[(512 * mq + rest - 1) / 512]
      requires rest % 512 != 0 ==> nsect == l.ss[(512 * mq + rest) / 512]
      modifies `fptr, `sect
      ensures Placed(l) && fptr == old(fptr) + rest
    {
      fptr := fptr + rest;
      if fptr % 512 != 0 && nsect != sect {
        sect := nsect;
      }
    }

    /** f_lseek: the cursor moves to ofs or to the end of the file. */
    method Seek(offset: nat, ghost l: Layout) returns (res: FResult)
      requires Valid(l)
      modifies fs`winsect, fs`wflag, fs`disk, fs`health, fs.win, this
      ensures fs.disk == old(fs.disk)
      ensures res == FR_OK || res == FR_DISK_ERR
      ensures res == FR_DISK_ERR ==> !fs.health.noError
      ensures res == FR_OK ==> Valid(l) && fptr == Min(offset, obj.objsize)
    {
      var ofs := offset;
      if fs.fsType != EXFAT && ofs >= 0x1_0000_0000 {
        ofs := 0xFFFF_FFFF;
      }
      if ofs > obj.objsize {
        ofs := obj.objsize;
      }
      assert ofs == Min(offset, obj.objsize);
      if ofs == 0 {
        fptr := 0;
        return FR_OK;
      }
      ghost var mq;
      var clst, rest;
      clst, mq := SeekStart(ofs, l);
      res, rest, mq := Follow(ofs - fptr, mq, l);
      if res != FR_OK { return; }
      res := Land(rest, mq, l);
    }
  }

  lemma DirectBytes(disk: seq<seq<byte>>, ss: seq<nat>, size: nat, q: nat, cc: nat, s: nat, data: seq<byte>)
    requires |data| == 512 * cc && 512 * q + 512 * cc <= size && q + cc <= |ss| && s + cc <= |disk|
    requires forall i | s <= i < s + cc :: |disk[i]| == 512
    requires forall i | q <= i < q + cc :: ss[i] == s + i - q
    requires forall j | 0 <= j < 512 * cc :: data[j] == disk[s + j / 512][j % 512]
    ensures data == Content(disk, ss, size)[512 * q..512 * q + 512 * cc]
  {
    forall j | 0 <= j < 512 * cc ensures data[j] == ByteAt(disk, ss, 512 * q + j) {
      var i := q + j / 512;
      assert (512 * q + j) / 512 == i && ss[i] == s + j / 512;
    }
  }

  lemma PartialBytes(disk: seq<seq<byte>>, ss: seq<nat>, size: nat, at: nat, data: seq<byte>)
    requires at + |data| <= size && at / 512 < |ss| && ss[at / 512] < |disk| && |disk[ss[at / 512]]| == 512
    requires at % 512 + |data| <= 512 && data == disk[ss[at / 512]][at % 512..at % 512 + |data|]
    ensures data == Content(disk, ss, size)[at..at + |data|]
  {
    forall j | 0 <= j < |data| ensures data[j] == ByteAt(disk, ss, at + j) {
      assert (at + j) / 512 == at / 512;
    }
  }

  /** Rounding a position down to its cluster. */
  lemma SameOrLater(csize: nat, ifptr: nat, ofs: nat)
    requires csize > 0 && ifptr > 0 && ofs > 0 && (ofs - 1) / (csize * 512) >= (ifptr - 1) / (csize * 512)
    ensures var m := (ifptr - 1) / (csize * 512);
      && m * (csize * 512) == 512 * (m * csize) < ofs
      && (m * csize) % csize == 0
      && 0 <= (ifptr - 1) / 512 - m * csize < csize
  {
    var m, bcs := Quot(ifptr - 1, csize * 512), csize * 512;
    DivIs(m * csize, csize, m);
    Nested(ifptr - 1, csize);
    QuotMono(m, ofs - 1, bcs);
  }

  lemma QuotMono(m: nat, y: nat, c: nat)
    requires c > 0 && m <= y / c
    ensures m * c <= y
  {
    MulMono(c, m, y / c);
    assert c * (y / c) <= y;
  }

  lemma Nested(y: nat, csize: nat)
    requires csize > 0
    ensures var m := y / (csize * 512);
      && m * (csize * 512) == 512 * (m * csize) <= y < 512 * (m * csize) + 512 * csize
      && 0 <= y / 512 - m * csize < csize
  {
    var m := y / (csize * 512);
    assert m * (csize * 512) == 512 * (m * csize);
    assert y == m * (csize * 512) + y % (csize * 512);
  }

  lemma NextMultiple(mq: nat, csize: nat)
    requires csize > 0 && mq % csize == 0
    ensures (mq + csize) % csize == 0
  {
    DivIs(mq + csize, csize, mq / csize + 1);
  }

  /** Following the chain from the first sector of a cluster leads to the next cluster. */
  lemma NextLink(l: Layout, t: FsType, database: nat, csize: nat, table: seq<nat>, disk: seq<seq<byte>>, o: Chain, mq: nat)
    requires Covers(l, t, database, csize, table, disk, o)
    requires mq % csize == 0 && mq + csize < |l.cl|
    ensures LinkOf(t, csize, table, o, l.cl[mq]) == l.cl[mq + csize]
    ensures (mq + csize) % csize == 0
  {
    NextMultiple(mq, csize);
    LastOfCluster(l, |table|, database, csize, |disk|, mq);
    var q := mq + csize;
    assert q % csize == 0 && l.cl[q - 1] == l.cl[mq];
  }

  lemma LastOfCluster(l: Layout, n: nat, database: nat, csize: nat, sectors: nat, mq: nat)
    requires csize > 0 && Clustered(l, n, database, csize, sectors)
    requires mq % csize == 0 && mq + csize <= |l.cl|
    ensures l.cl[mq + csize - 1] == l.cl[mq]
  {
    RunInCluster(l, n, database, csize, sectors, mq, csize - 1);
    assert mq + (csize - 1) == mq + csize - 1;
  }

  /** rest bytes into the cluster that starts at file sector mq. */
  lemma SeekEnd(l: Layout, n: nat, database: nat, csize: nat, sectors: nat, mq: nat, rest: nat)
    requires csize > 0 && Clustered(l, n, database, csize, sectors) && database > 0
    requires mq % csize == 0 && mq < |l.cl| && 0 < rest <= 512 * csize && 512 * mq + rest <= 512 * |l.cl|
    ensures l.cl[(512 * mq + rest - 1) / 512] == l.cl[mq]
    ensures rest % 512 != 0 ==>
      && (512 * mq + rest) / 512 < |l.ss|
      && 0 < ClustToSect(n, database, csize, l.cl[mq])
      && ClustToSect(n, database, csize, l.cl[mq]) + rest / 512 == l.ss[(512 * mq + rest) / 512]
  {
    var j := (rest - 1) / 512;
    var q := mq + j;
    assert (512 * mq + rest - 1) / 512 == q;
    RunInCluster(l, n, database, csize, sectors, mq, j);
    if rest % 512 != 0 {
      assert (512 * mq + rest) / 512 == q && rest / 512 == j;
      SectPositive(n, database, csize, l.cl[mq]);
    }
  }

  lemma Joined(s: seq<byte>, a: nat, b: nat, c: nat)
    requires a <= b <= c <= |s|
    ensures s[a..b] + s[b..c] == s[a..c]
  {
  }

  // Every chain that covers a file gives such a layout.

  ghost function Lay(cs: seq<nat>, n: nat, database: nat, csize: nat): Layout
    requires csize > 0
  {
    var sectors := Times(|cs|, csize);
    Layout(seq(sectors, q requires 0 <= q < sectors => ClusterOf(cs, csize, q)),
           seq(sectors, q requires 0 <= q < sectors => ClustToSect(n, database, csize, ClusterOf(cs, csize, q)) + q % csize))
  }

  ghost function ClusterOf(cs: seq<nat>, csize: nat, q: nat): nat
    requires csize > 0 && q < Times(|cs|, csize)
  {
    Within(|cs|, csize, q);
    cs[q / csize]
  }

  lemma Within(k: nat, csize: nat, q: nat)
    requires csize > 0 && q < k * csize
    ensures 0 <= q / csize < k
  {
    var m := q / csize;
    assert q == m * csize + q % csize;
    if m >= k {
      MulMono(csize, k, m);
      assert false;
    }
  }

  lemma PrevSector(q: nat, csize: nat)
    requires csize > 0 && q > 0
    ensures (q - 1) / csize == if q % csize == 0 then q / csize - 1 else q / csize
  {
    var m := q / csize;
    assert q == m * csize + q % csize;
    if q % csize == 0 {
      assert (m - 1) * csize == m * csize - csize;
      DivIs(q - 1, csize, m - 1);
    } else {
      DivIs(q - 1, csize, m);
    }
  }

  lemma SectorOnDisk(n: nat, database: nat, csize: nat, c: nat, r: nat)
    requires 2 <= c < n && r < csize
    ensures ClustToSect(n, database, csize, c) + r < database + csize * (n - 2)
  {
    MulMono(csize, c - 1, n - 2);
    assert csize * (c - 1) == csize * (c - 2) + csize;
  }

  lemma ChainHasLayout(cs: seq<nat>, t: FsType, database: nat, csize: nat, table: seq<nat>, disk: seq<seq<byte>>, o: Chain)
    requires csize > 0 && |table| >= 2 && database + csize * (|table| - 2) <= |disk|
    requires forall s | 0 <= s < |disk| :: |disk[s]| == 512
    requires forall i | 0 <= i < |cs| :: 2 <= cs[i] < |table|
    requires forall i | 0 < i < |cs| :: LinkOf(t, csize, table, o, cs[i - 1]) == cs[i]
    requires |cs| > 0 ==> o.sclust == cs[0]
    requires o.objsize <= 512 * Times(|cs|, csize) && (t != EXFAT ==> o.objsize < 0x1_0000_0000)
    ensures Covers(Lay(cs, |table|, database, csize), t, database, csize, table, disk, o)
  {
    LayPlaces(cs, |table|, database, csize);
    LayLinks(cs, t, database, csize, table, o);
    LaySize(cs, |table|, database, csize);
  }

  lemma LaySize(cs: seq<nat>, n: nat, database: nat, csize: nat)
    requires csize > 0
    ensures var l := Lay(cs, n, database, csize);
      |l.cl| == Times(|cs|, csize) && |l.cl| % csize == 0 && (|l.cl| > 0 ==> |cs| > 0 && l.cl[0] == cs[0])
  {
    DivIs(Times(|cs|, csize), csize, |cs|);
    DivIs(0, csize, 0);
  }

  lemma LayLinks(cs: seq<nat>, t: FsType, database: nat, csize: nat, table: seq<nat>, o: Chain)
    requires csize > 0 && forall i | 0 < i < |cs| :: LinkOf(t, csize, table, o, cs[i - 1]) == cs[i]
    ensures var l := Lay(cs, |table|, database, csize);
      forall q | 0 < q < |l.cl| ::
        if q % csize == 0 then LinkOf(t, csize, table, o, l.cl[q - 1]) == l.cl[q] else l.cl[q] == l.cl[q - 1]
  {
    var l := Lay(cs, |table|, database, csize);
    forall q | 0 < q < |l.cl|
      ensures if q % csize == 0 then LinkOf(t, csize, table, o, l.cl[q - 1]) == l.cl[q] else l.cl[q] == l.cl[q - 1]
    {
      Neighbours(|cs|, csize, q);
      var m := q / csize;
      assert l.cl[q] == cs[m] && l.cl[q - 1] == cs[if q % csize == 0 then m - 1 else m];
    }
  }

  lemma LayPlaces(cs: seq<nat>, n: nat, database: nat, csize: nat)
    requires csize > 0 && n >= 2 && forall i | 0 <= i < |cs| :: 2 <= cs[i] < n
    ensures var l := Lay(cs, n, database, csize);
      && (forall q | 0 <= q < |l.cl| :: 2 <= l.cl[q] < n)
      && (forall q | 0 <= q < |l.cl| :: l.ss[q] == ClustToSect(n, database, csize, l.cl[q]) + q % csize)
      && (forall q | 0 <= q < |l.cl| :: l.ss[q] < database + csize * (n - 2))
  {
    var l := Lay(cs, n, database, csize);
    forall q | 0 <= q < |l.cl| ensures 2 <= l.cl[q] < n && l.ss[q] < database + csize * (n - 2) {
      Within(|cs|, csize, q);
      SectorOnDisk(n, database, csize, l.cl[q], q % csize);
    }
  }

  /** Neighbouring file sectors are in the same cluster or in successive ones. */
  lemma Neighbours(k: nat, csize: nat, q: nat)
    requires csize > 0 && 0 < q < k * csize
    ensures 0 <= (q - 1) / csize < k && 0 <= q / csize < k
    ensures if q % csize == 0 then 0 < q / csize && (q - 1) / csize == q / csize - 1 else (q - 1) / csize == q / csize
  {
    Within(k, csize, q);
    Within(k, csize, q - 1);
    PrevSector(q, csize);
  }

  // Whole runs: a cursor over one byte string.

  datatype Op = ReadOp(count: nat) | SeekOp(offset: nat)

  /** Position after one operation on a string of the given length. */
  function After(pos: nat, len: nat, op: Op): (r: nat)
    requires pos <= len
    ensures r <= len
  {
    match op
    case ReadOp(n) => Min(pos + n, len)
    case SeekOp(o) => Min(o, len)
  }

  /** What a run returns, operation by operation; a seek returns nothing. */
  ghost function Outputs(all: seq<byte>, pos: nat, ops: seq<Op>): seq<seq<byte>>
    requires pos <= |all|
    decreases |ops|
  {
    if ops == [] then [] else
      var p := After(pos, |all|, ops[0]);
      [if ops[0].ReadOp? then all[pos..p] else []] + Outputs(all, p, ops[1..])
  }

  lemma OutputsStep(all: seq<byte>, pos: nat, ops: seq<Op>, i: nat, outs: seq<seq<byte>>, data: seq<byte>)
    requires pos <= |all| && i < |ops|
    requires data == if ops[i].ReadOp? then all[pos..After(pos, |all|, ops[i])] else []
    ensures outs + Outputs(all, pos, ops[i..])
            == (outs + [data]) + Outputs(all, After(pos, |all|, ops[i]), ops[i + 1..])
  {
    assert ops[i..][1..] == ops[i + 1..];
  }

  /** Any run of f_read and f_lseek is a run of the cursor, and nothing but a failed access to the medium ends it early. */
  method RunFile(f: File, ops: seq<Op>, ghost l: Layout) returns (res: FResult, outs: seq<seq<byte>>)
    requires f.Valid(l)
    modifies f.fs`winsect, f.fs`wflag, f.fs`disk, f.fs`health, f.fs.win, f
    ensures f.fs.disk == old(f.fs.disk)
    ensures res == FR_OK || res == FR_DISK_ERR
    ensures res == FR_DISK_ERR ==> !f.fs.health.noError
    ensures res == FR_OK ==> f.Valid(l) && outs == Outputs(old(f.Bytes(l)), old(f.fptr), ops)
  {
    res, outs := FR_OK, [];
    ghost var all := f.Bytes(l);
    for i := 0 to |ops|
      invariant f.Valid(l) && f.fs.disk == old(f.fs.disk)
      invariant outs + Outputs(all, f.fptr, ops[i..]) == Outputs(all, old(f.fptr), ops)
    {
      ghost var pos := f.fptr;
      var data: seq<byte> := [];
      match ops[i] {
        case ReadOp(n) => res, data := f.Read(n, l);
        case SeekOp(o) => res := f.Seek(o, l);
      }
      if res != FR_OK { return; }
      assert f.fptr == After(pos, |all|, ops[i]);
      OutputsStep(all, pos, ops, i, outs, data);
      outs := outs + [data];
    }
    res := FR_OK;
  }
}
