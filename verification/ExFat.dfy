/**
 * exFAT allocation: the bitmap, and the chain of a growing object, whose links are put on the
 * FAT only when they can no longer be derived from stat, n_cont and n_frag.
 */
module ExFat {
  import opened Bytes
  import opened Volume
  import opened Chains

  /** Where a scan of one bitmap sector stops: at a free cluster, back at its start, or at val. */
  datatype Scan = Free(v: nat) | Exhausted | At(val: nat, wrapped: bool)

  /** The byte and bit loops of find_bitmap over the sector in the window. */
  method ScanSector(fs: FatFs, start: nat, from: nat) returns (r: Scan)
    requires fs.Valid() && fs.fsType == EXFAT
    requires start < |fs.bits| && from < |fs.bits| && fs.winsect == fs.bitbase + from / 8 / 512
    ensures match r
      case Free(v) => v < |fs.bits| && !fs.bits[v]
      case Exhausted => (start <= from && start == 0 && forall v | from <= v < |fs.bits| :: fs.bits[v])
                        || (from < start && forall v | from <= v < start :: fs.bits[v])
      case At(val, wrapped) =>
        && val != start && val < |fs.bits|
        && (!wrapped ==> from < val && (from < start ==> val < start) && forall v | from <= v < val :: fs.bits[v])
        && (wrapped ==> val == 0 && start <= from && forall v | from <= v < |fs.bits| :: fs.bits[v])
  {
    var q: nat, i: nat, j: nat := from / 8 / 512, from / 8 % 512, from % 8;
    var val: nat, wrapped := from, false;
    // j is the exponent of the mask bm, 8 once it is shifted out of the byte.
    while i < 512
      invariant i <= 512 && val < |fs.bits|
      invariant i < 512 ==> !wrapped && j < 8 && val == 4096 * q + 8 * i + j
      invariant i == 512 ==> val != start && val != from
      invariant val != from || wrapped ==> val != start
      invariant !wrapped ==> from <= val && (from < start ==> val < start) && forall v | from <= v < val :: fs.bits[v]
      invariant wrapped ==> i == 512 && val == 0 && start <= from && forall v | from <= v < |fs.bits| :: fs.bits[v]
      decreases 512 - i, 8 - j
    {
      var used := fs.PeekBit(q, i, j);
      var cur := val;
      j, val := j + 1, val + 1;
      if val >= fs.nFatent - 2 {
        val, j, i, wrapped := 0, 8, 512, true;
      }
      if !used {
        return Free(cur);
      }
      if val == start {
        return Exhausted;
      }
      if j == 8 && i < 512 {
        i, j := i + 1, 0;
      }
    }
    r := At(val, wrapped);
  }

  /** find_bitmap for one cluster: a free cluster, or 0 exactly when there is none. */
  method FindBitmap(fs: FatFs, clst: nat) returns (ncl: nat)
    requires fs.Valid() && fs.fsType == EXFAT && clst < 0x1_0000_0000
    modifies fs`winsect, fs`wflag, fs`disk, fs`health, fs.win
    ensures fs.Valid() && fs.ViewKept()
    ensures ncl == DISK_ERROR || ncl == 0 || (2 <= ncl < fs.nFatent && !fs.bits[ncl - 2])
    ensures ncl == 0 ==> forall v | 0 <= v < |fs.bits| :: fs.bits[v]
    ensures ncl == DISK_ERROR ==> !fs.health.noError
  {
    var start := if clst < 2 || clst - 2 >= fs.nFatent - 2 then 0 else clst - 2;
    var val: nat, wrapped := start, false;
    while true
      invariant fs.Valid() && fs.ViewKept()
      invariant start < |fs.bits| && val < |fs.bits|
      invariant !wrapped ==> start <= val && forall v | start <= v < val :: fs.bits[v]
      invariant wrapped ==> val < start && forall v | 0 <= v < |fs.bits| && (v < val || start <= v) :: fs.bits[v]
      decreases if wrapped then start - val else start + |fs.bits| - val
    {
      var res := fs.MoveToBitmap(val / 8 / 512);
      if res != FR_OK {
        return DISK_ERROR;
      }
      var r := ScanSector(fs, start, val);
      match r {
        case Free(v) => return v + 2;
        case Exhausted => return 0;
        case At(v, w) => val, wrapped := v, wrapped || w;
      }
    }
  }

  /** change_bitmap for one cluster: refuses to set a set bit or to clear a clear one. */
  method ChangeBitmap(fs: FatFs, clst: nat, bv: bool) returns (res: FResult)
    requires fs.Valid() && fs.fsType == EXFAT && 2 <= clst < fs.nFatent
    modifies fs`winsect, fs`wflag, fs`disk, fs`health, fs`bits, fs.win
    ensures fs.Valid() && |fs.disk| == |old(fs.disk)|
    ensures res == FR_OK ==> old(fs.bits)[clst - 2] != bv && fs.bits == old(fs.bits)[clst - 2 := bv]
    ensures res == FR_INT_ERR ==> old(fs.bits)[clst - 2] == bv
    ensures res != FR_OK ==> fs.bits == old(fs.bits)
    ensures forall s | 0 <= s < |fs.disk| && !fs.InMirror(s) && s != fs.bitbase + (clst - 2) / 8 / 512 ::
      fs.View(s) == old(fs.View(s))
    ensures res == FR_DISK_ERR ==> !fs.health.noError
  {
    var v := clst - 2;
    var q: nat, i: nat, j: nat := v / 8 / 512, v / 8 % 512, v % 8;
    res := fs.MoveToBitmap(q);
    if res != FR_OK {
      return;
    }
    if bv == fs.PeekBit(q, i, j) {
      return FR_INT_ERR;
    }
    fs.FlipWindowBit(q, i, j);
  }

  /** Clusters before this index are linked implicitly: they lie in the first fragment. */
  ghost function FirstOnFat(o: Chain, cs: seq<nat>): nat {
    if o.stat == 2 then |cs| else if o.stat == 3 then o.nCont else 0
  }

  /** cs are distinct allocated clusters of a volume with n FAT entries. */
  ghost predicate InUse(n: nat, bits: seq<bool>, cs: seq<nat>) {
    && |cs| > 0 && |bits| + 2 == n
    && (forall i | 0 <= i < |cs| :: 2 <= cs[i] < n && bits[cs[i] - 2])
    && (forall i, j | 0 <= i < j < |cs| :: cs[i] != cs[j])
  }

  /**
   * The object stands for the clusters cs, in allocation order: the first fragment is contiguous
   * from sclust, the last n_frag clusters are contiguous, and everything between is on the FAT.
   */
  ghost predicate Denotes(table: seq<nat>, bits: seq<bool>, o: Chain, cs: seq<nat>) {
    && InUse(|table|, bits, cs)
    && o.sclust == cs[0]
    && (o.stat == 0 || o.stat == 2 || o.stat == 3)
    && (o.stat == 2 ==> o.nFrag == 0)
    && (o.stat == 3 ==> o.nCont < |cs|)
    && FirstOnFat(o, cs) + o.nFrag <= |cs|
    && (forall i | 0 <= i < |cs| && i <= FirstOnFat(o, cs) && o.stat != 0 :: cs[i] == o.sclust + i)
    && (forall i | |cs| - o.nFrag <= i < |cs| :: cs[i] == cs[|cs| - 1] + 1 + i - |cs|)
    && (forall i | FirstOnFat(o, cs) <= i < |cs| - o.nFrag :: Linked(table, cs, i))
  }

  /** objsize reaches into the last cluster and no further. */
  ghost predicate Covers(csize: nat, objsize: nat, cs: seq<nat>)
    requires csize > 0
  {
    0 < objsize < 0x1_0000_0000_0000_0000 && ClustersBelow((objsize - 1) / 512, csize) == |cs| - 1
  }

  /** Storing link k of cs keeps the other links. */
  lemma LinkStep(table: seq<nat>, table': seq<nat>, bits: seq<bool>, cs: seq<nat>, k: nat)
    requires InUse(|table|, bits, cs) && k < |cs|
    requires |table'| == |table| && table' == table[cs[k] := table'[cs[k]]]
    ensures forall i | 0 <= i < |cs| && i != k :: Linked(table', cs, i) == Linked(table, cs, i)
  {
  }

  /** A link of the first fragment is put on the FAT. */
  lemma FirstFragStep(table: seq<nat>, table': seq<nat>, bits: seq<bool>, o: Chain, cs: seq<nat>, k: nat)
    requires Denotes(table, bits, o, cs) && o.stat == 3 && k < o.nCont
    requires cs[k] == o.sclust + k && table' == table[cs[k] := o.sclust + k + 1]
    requires forall i | 0 <= i < k :: Linked(table, cs, i)
    ensures Denotes(table', bits, o, cs)
    ensures forall i | 0 <= i < k + 1 :: Linked(table', cs, i)
  {
    assert cs[k] == o.sclust + k && cs[k + 1] == o.sclust + k + 1;
    LinkStep(table, table', bits, cs, k);
  }

  /** A link of the last fragment is put on the FAT and leaves the fragment. */
  lemma LastFragStep(table: seq<nat>, table': seq<nat>, bits: seq<bool>, o: Chain, cs: seq<nat>)
    requires Denotes(table, bits, o, cs) && o.nFrag > 1
    requires cs[|cs| - o.nFrag] == cs[|cs| - 1] - o.nFrag + 1
    requires table' == table[cs[|cs| - o.nFrag] := cs[|cs| - 1] - o.nFrag + 2]
    ensures Denotes(table', bits, o.(nFrag := o.nFrag - 1), cs)
  {
    var k := |cs| - o.nFrag;
    assert cs[k + 1] == cs[k] + 1;
    LinkStep(table, table', bits, cs, k);
    assert Linked(table', cs, k);
  }

  /** The last cluster, the only one left in the last fragment, gets its entry. */
  lemma LastLinkStep(table: seq<nat>, table': seq<nat>, bits: seq<bool>, o: Chain, cs: seq<nat>, term: nat)
    requires Denotes(table, bits, o, cs) && o.nFrag == 1
    requires table' == table[cs[|cs| - 1] := term]
    ensures Denotes(table', bits, o, cs)
    ensures term >= |table| ==> Denotes(table', bits, o.(nFrag := 0), cs)
  {
    LinkStep(table, table', bits, cs, |cs| - 1);
  }

  /** One link of the first fragment. */
  method LinkFirst(fs: FatFs, o: ObjId, cl: nat, ghost cs: seq<nat>, ghost k: nat) returns (res: FResult)
    requires fs.Valid() && fs.fsType == EXFAT && Denotes(fs.table, fs.bits, o.State(), cs)
    requires o.stat == 3 && k < o.nCont && cl == o.sclust + k
    requires forall i | 0 <= i < k :: Linked(fs.table, cs, i)
    modifies fs`winsect, fs`wflag, fs`disk, fs`health, fs`fat, fs`table, fs.win
    ensures fs.Valid()
    ensures fs.table == old(fs.table)[cs[k] := fs.table[cs[k]]]
    ensures res == FR_OK ==> Denotes(fs.table, fs.bits, o.State(), cs)
    ensures res == FR_OK ==> forall i | 0 <= i < k + 1 :: Linked(fs.table, cs, i)
    ensures res == FR_OK || res == FR_DISK_ERR
    ensures res == FR_DISK_ERR ==> !fs.health.noError
  {
    assert cs[k] == cl && cs[k + 1] == cl + 1;
    res := fs.SetEntry(cl, cl + 1);
    if res == FR_OK {
      FirstFragStep(old(fs.table), fs.table, fs.bits, o.State(), cs, k);
    }
  }

  method FillFirstFrag(fs: FatFs, o: ObjId, ghost cs: seq<nat>) returns (res: FResult)
    requires fs.Valid() && fs.fsType == EXFAT && Denotes(fs.table, fs.bits, o.State(), cs)
    modifies fs`winsect, fs`wflag, fs`disk, fs`health, fs`fat, fs`table, fs.win, o`stat
    ensures fs.Valid()
    ensures res == FR_OK ==> Denotes(fs.table, fs.bits, o.State(), cs)
    ensures res == FR_OK ==> o.stat == if old(o.stat) == 3 then 0 else old(o.stat)
    ensures forall c | 0 <= c < |fs.table| && c !in cs :: fs.table[c] == old(fs.table)[c]
    ensures res == FR_OK || res == FR_DISK_ERR
    ensures res == FR_DISK_ERR ==> !fs.health.noError
  {
    res := FR_OK;
    if o.stat == 3 {
      var cl, n := o.sclust, o.nCont;
      while n > 0
        invariant fs.Valid() && o.stat == 3 && Denotes(fs.table, fs.bits, o.State(), cs)
        invariant 0 <= n <= o.nCont && cl == o.sclust + o.nCont - n
        invariant forall i | 0 <= i < o.nCont - n :: Linked(fs.table, cs, i)
        invariant forall c | 0 <= c < |fs.table| && c !in cs :: fs.table[c] == old(fs.table)[c]
      {
        res := LinkFirst(fs, o, cl, cs, o.nCont - n);
        if res != FR_OK { return; }
        cl, n := cl + 1, n - 1;
      }
      FirstFragDone(fs.table, fs.bits, o.State(), cs);
      o.stat := 0;
      res := FR_OK;
    }
  }

  /** With its first fragment on the FAT, the object is an ordinary chain but for its last fragment. */
  lemma FirstFragDone(table: seq<nat>, bits: seq<bool>, o: Chain, cs: seq<nat>)
    requires Denotes(table, bits, o, cs) && o.stat == 3 && forall i | 0 <= i < o.nCont :: Linked(table, cs, i)
    ensures Denotes(table, bits, o.(stat := 0), cs)
  {
  }

  /** One entry of the last fragment: n_frag clusters are left, of which this is the first. */
  method LinkLast(fs: FatFs, o: ObjId, lcl: nat, term: nat, ghost cs: seq<nat>) returns (res: FResult)
    requires fs.Valid() && fs.fsType == EXFAT && Denotes(fs.table, fs.bits, o.State(), cs) && lcl == cs[|cs| - 1]
    requires term < 0x1_0000_0000 && o.nFrag > 0
    modifies fs`winsect, fs`wflag, fs`disk, fs`health, fs`fat, fs`table, fs.win, o`nFrag
    ensures fs.Valid()
    ensures var c := cs[|cs| - old(o.nFrag)]; fs.table == old(fs.table)[c := fs.table[c]]
    ensures res == FR_OK || res == FR_DISK_ERR
    ensures res == FR_DISK_ERR ==> !fs.health.noError
    ensures o.nFrag == if res == FR_OK then old(o.nFrag) - 1 else old(o.nFrag)
    ensures res == FR_OK && o.nFrag > 0 ==> Denotes(fs.table, fs.bits, o.State(), cs)
    ensures res == FR_OK && o.nFrag == 0 ==>
      && fs.table[lcl] == (if term < fs.nFatent then term else Masked(EXFAT, term))
      && Denotes(fs.table, fs.bits, o.State().(nFrag := 1), cs)
  {
    assert cs[|cs| - o.nFrag] == lcl - o.nFrag + 1;
    res := fs.SetEntry(lcl - o.nFrag + 1, if o.nFrag > 1 then lcl - o.nFrag + 2 else term);
    if res == FR_OK {
      if o.nFrag > 1 {
        LastFragStep(old(fs.table), fs.table, fs.bits, o.State(), cs);
      } else {
        LastLinkStep(old(fs.table), fs.table, fs.bits, o.State(), cs, fs.table[lcl]);
      }
      o.nFrag := o.nFrag - 1;
    }
  }

  /** Writes the last fragment to the FAT; its last cluster gets the value term. */
  method FillLastFrag(fs: FatFs, o: ObjId, lcl: nat, term: nat, ghost cs: seq<nat>) returns (res: FResult)
    requires fs.Valid() && fs.fsType == EXFAT && Denotes(fs.table, fs.bits, o.State(), cs) && lcl == cs[|cs| - 1]
    requires term < 0x1_0000_0000
    modifies fs`winsect, fs`wflag, fs`disk, fs`health, fs`fat, fs`table, fs.win, o`nFrag
    ensures fs.Valid()
    ensures res == FR_OK || res == FR_DISK_ERR
    ensures res == FR_DISK_ERR ==> !fs.health.noError
    ensures res == FR_OK ==> o.nFrag == 0
    ensures res == FR_OK && old(o.nFrag) == 0 ==> fs.table == old(fs.table)
    ensures res == FR_OK && old(o.nFrag) > 0 ==>
      && fs.table[lcl] == (if term < fs.nFatent then term else Masked(EXFAT, term))
      && Denotes(fs.table, fs.bits, o.State().(nFrag := 1), cs)
    ensures forall c | 0 <= c < |fs.table| && c !in cs :: fs.table[c] == old(fs.table)[c]
  {
    res := FR_OK;
    while o.nFrag > 0
      invariant fs.Valid() && res == FR_OK
      invariant o.nFrag > 0 ==> Denotes(fs.table, fs.bits, o.State(), cs)
      invariant old(o.nFrag) == 0 ==> fs.table == old(fs.table)
      invariant o.nFrag == 0 && old(o.nFrag) > 0 ==>
        && fs.table[lcl] == (if term < fs.nFatent then term else Masked(EXFAT, term))
        && Denotes(fs.table, fs.bits, o.State().(nFrag := 1), cs)
      invariant forall c | 0 <= c < |fs.table| && c !in cs :: fs.table[c] == old(fs.table)[c]
    {
      res := LinkLast(fs, o, lcl, term, cs);
      if res != FR_OK { return; }
    }
  }

  // Appending cluster ncl to cs, case by case.

  ghost predicate Fresh(table: seq<nat>, bits: seq<bool>, bits': seq<bool>, ncl: nat) {
    2 <= ncl < |table| && |bits| == |table| - 2 && !bits[ncl - 2] && bits' == bits[ncl - 2 := true]
  }

  lemma AppendContiguous(table: seq<nat>, bits: seq<bool>, bits': seq<bool>, o: Chain, cs: seq<nat>, ncl: nat)
    requires Denotes(table, bits, o, cs) && Fresh(table, bits, bits', ncl)
    requires o.stat == 2 && ncl == cs[|cs| - 1] + 1
    ensures Denotes(table, bits', o, cs + [ncl])
  {
  }

  lemma AppendToFragment(table: seq<nat>, bits: seq<bool>, bits': seq<bool>, o: Chain, cs: seq<nat>, ncl: nat)
    requires Denotes(table, bits, o, cs) && Fresh(table, bits, bits', ncl)
    requires o.stat != 2 && o.nFrag > 0 && ncl == cs[|cs| - 1] + 1
    ensures Denotes(table, bits', o.(nFrag := o.nFrag + 1), cs + [ncl])
  {
    var cs' := cs + [ncl];
    InUseMore(table, bits, bits', cs, ncl);
    forall i | 0 <= i < |cs'| && i <= FirstOnFat(o, cs) && o.stat != 0
      ensures cs'[i] == o.sclust + i
    {
      assert cs'[i] == cs[i];
    }
    forall i | |cs| - o.nFrag <= i < |cs'|
      ensures cs'[i] == cs'[|cs|] + i - |cs|
    {
      assert i < |cs| ==> cs'[i] == cs[i] == cs[|cs| - 1] + 1 + i - |cs|;
    }
    forall i | FirstOnFat(o, cs) <= i < |cs| - o.nFrag ensures Linked(table, cs', i) {
      assert Linked(table, cs, i);
    }
  }

  lemma InUseMore(table: seq<nat>, bits: seq<bool>, bits': seq<bool>, cs: seq<nat>, ncl: nat)
    requires InUse(|table|, bits, cs) && Fresh(table, bits, bits', ncl)
    ensures InUse(|table|, bits', cs + [ncl])
  {
  }

  /** A chain that is no longer contiguous has its last cluster written to the FAT next. */
  lemma StartFragment(table: seq<nat>, bits: seq<bool>, o: Chain, cs: seq<nat>)
    requires Denotes(table, bits, o, cs) && o.nFrag == 0
    ensures o.stat == 2 ==> Denotes(table, bits, o.(stat := 3, nCont := cs[|cs| - 1] - o.sclust, nFrag := 1), cs)
    ensures o.stat != 2 ==> Denotes(table, bits, o.(nFrag := 1), cs)
  {
  }

  lemma AppendFragment(table: seq<nat>, bits: seq<bool>, bits': seq<bool>, o: Chain, cs: seq<nat>, ncl: nat)
    requires Denotes(table, bits, o, cs) && Fresh(table, bits, bits', ncl)
    requires o.stat != 2 && o.nFrag == 1 && table[cs[|cs| - 1]] == ncl
    ensures Denotes(table, bits', o, cs + [ncl])
  {
    var cs' := cs + [ncl];
    forall i | FirstOnFat(o, cs) <= i < |cs| ensures Linked(table, cs', i) {
      assert i < |cs| - 1 ==> Linked(table, cs, i);
    }
  }

  /** get_fat sees the last cluster of the object as the end of its chain. */
  lemma EndOfChain(fs: FatFs, o: ObjId, cs: seq<nat>)
    requires fs.Sized() && fs.fsType == EXFAT
    requires Denotes(fs.table, fs.bits, o.State(), cs) && Covers(fs.csize, o.objsize, cs)
    ensures fs.Link(o, cs[|cs| - 1]) >= fs.nFatent
  {
    var clst := cs[|cs| - 1];
    assert (o.objsize - 1) % 0x1_0000_0000_0000_0000 == o.objsize - 1;
    if o.stat == 2 {
      assert clst - o.sclust == |cs| - 1;
    } else if o.stat == 3 {
      NotInFirst(fs.table, fs.bits, o.State(), cs);
    }
    if o.stat != 2 && o.nFrag == 0 {
      assert Linked(fs.table, cs, |cs| - 1);
    }
  }

  /** The last cluster is not among the first n_cont, even where its offset wraps around. */
  lemma NotInFirst(table: seq<nat>, bits: seq<bool>, o: Chain, cs: seq<nat>)
    requires Denotes(table, bits, o, cs) && o.stat == 3 && |table| < 0x8000_0000
    ensures (cs[|cs| - 1] - o.sclust) % 0x1_0000_0000 >= o.nCont
  {
    var d := cs[|cs| - 1] - o.sclust;
    assert cs[o.nCont] == o.sclust + o.nCont;
    if d < 0 {
      assert d % 0x1_0000_0000 == d + 0x1_0000_0000;
    } else if d < o.nCont {
      FirstIsNotLast(table, bits, o, cs, d);
    }
  }

  lemma FirstIsNotLast(table: seq<nat>, bits: seq<bool>, o: Chain, cs: seq<nat>, i: nat)
    requires Denotes(table, bits, o, cs) && o.stat == 3 && i < o.nCont
    ensures o.sclust + i != cs[|cs| - 1]
  {
    assert cs[i] == o.sclust + i;
  }

  /** Links the last fragment to cluster ncl, which starts a new one. */
  method NewFragment(fs: FatFs, o: ObjId, clst: nat, ncl: nat, ghost bits0: seq<bool>, ghost cs: seq<nat>) returns (res: FResult)
    requires fs.Valid() && fs.fsType == EXFAT && o.stat != 2 && o.nFrag > 0
    requires Denotes(fs.table, bits0, o.State(), cs) && clst == cs[|cs| - 1]
    requires Fresh(fs.table, bits0, fs.bits, ncl)
    modifies fs`winsect, fs`wflag, fs`disk, fs`health, fs`fat, fs`table, fs.win, o`nFrag
    ensures fs.Valid()
    ensures res == FR_OK || res == FR_DISK_ERR
    ensures res == FR_DISK_ERR ==> !fs.health.noError
    ensures res == FR_OK ==> Denotes(fs.table, fs.bits, o.State(), cs + [ncl])
    ensures forall c | 0 <= c < |fs.table| && c !in cs :: fs.table[c] == old(fs.table)[c]
  {
    BitsChange(fs.table, bits0, fs.bits, o.State(), cs, ncl);
    res := FillLastFrag(fs, o, clst, ncl, cs);
    if res == FR_OK {
      o.nFrag := 1;
      BitsChange(fs.table, bits0, fs.bits, o.State(), cs, ncl);
      AppendFragment(fs.table, bits0, fs.bits, o.State(), cs, ncl);
    }
  }

  /** Records a freshly allocated cluster in stat, n_cont, n_frag and, for a new fragment, the FAT. */
  method Extend(fs: FatFs, o: ObjId, clst: nat, ncl: nat, ghost bits0: seq<bool>, ghost cs: seq<nat>) returns (res: FResult)
    requires fs.Valid() && fs.fsType == EXFAT
    requires Denotes(fs.table, bits0, o.State(), cs) && clst == cs[|cs| - 1]
    requires Fresh(fs.table, bits0, fs.bits, ncl)
    modifies fs`winsect, fs`wflag, fs`disk, fs`health, fs`fat, fs`table, fs.win, o`stat, o`nCont, o`nFrag
    ensures fs.Valid()
    ensures res == FR_OK || res == FR_DISK_ERR
    ensures res == FR_DISK_ERR ==> !fs.health.noError
    ensures res == FR_OK ==> Denotes(fs.table, fs.bits, o.State(), cs + [ncl])
    ensures forall c | 0 <= c < |fs.table| && c !in cs :: fs.table[c] == old(fs.table)[c]
  {
    res := FR_OK;
    if o.nFrag == 0 {
      StartFragment(fs.table, bits0, o.State(), cs);
    }
    if o.stat == 2 && ncl != clst + 1 {
      o.nCont := clst - o.sclust;
      o.stat := 3;
    }
    if o.stat != 2 {
      if ncl == clst + 1 {
        AppendToFragment(fs.table, bits0, fs.bits, o.State().(nFrag := if o.nFrag > 0 then o.nFrag else 1), cs, ncl);
        o.nFrag := if o.nFrag > 0 then o.nFrag + 1 else 2;
      } else {
        if o.nFrag == 0 {
          o.nFrag := 1;
        }
        res := NewFragment(fs, o, clst, ncl, bits0, cs);
      }
    } else {
      AppendContiguous(fs.table, bits0, fs.bits, o.State(), cs, ncl);
    }
  }

  /** Allocating a cluster outside cs does not matter to cs. */
  lemma BitsChange(table: seq<nat>, bits: seq<bool>, bits': seq<bool>, o: Chain, cs: seq<nat>, ncl: nat)
    requires InUse(|table|, bits, cs) && Fresh(table, bits, bits', ncl)
    ensures Denotes(table, bits', o, cs) == Denotes(table, bits, o, cs)
  {
  }

  /** Finds a free cluster and marks it in use: 0 if there is none, 0xFFFFFFFF on a disk error. */
  method Allocate(fs: FatFs, scl: nat) returns (ncl: nat)
    requires fs.Valid() && fs.fsType == EXFAT && scl < 0x1_0000_0000
    modifies fs`winsect, fs`wflag, fs`disk, fs`health, fs`bits, fs.win
    ensures fs.Valid()
    ensures ncl == 0 || ncl == DISK_ERROR ==> fs.bits == old(fs.bits)
    ensures ncl == 0 ==> Full(fs.bits)
    ensures ncl != 0 && ncl != DISK_ERROR ==> Fresh(fs.table, old(fs.bits), fs.bits, ncl)
    ensures ncl == DISK_ERROR ==> !fs.health.noError
  {
    ncl := FindBitmap(fs, scl);
    if ncl == 0 || ncl == DISK_ERROR {
      return;
    }
    var res := ChangeBitmap(fs, ncl, true);
    if res != FR_OK {
      return ErrorCode(res);
    }
  }

  /** Number of free clusters from bit lo on. */
  ghost function FreeBits(bits: seq<bool>, lo: nat): nat
    decreases |bits| - lo
  {
    if lo >= |bits| then 0 else (if bits[lo] then 0 else 1) + FreeBits(bits, lo + 1)
  }

  /** The free-cluster count is unknown or exact. */
  ghost predicate FreeOk(bits: seq<bool>, free: nat) {
    free > |bits| || free == FreeBits(bits, 0)
  }

  lemma {:induction false} FreeBitTaken(bits: seq<bool>, v: nat, lo: nat)
    requires v < |bits| && !bits[v]
    ensures FreeBits(bits[v := true], lo) == FreeBits(bits, lo) - if lo <= v then 1 else 0
    decreases |bits| - lo
  {
    if lo < |bits| {
      FreeBitTaken(bits, v, lo + 1);
    }
  }

  lemma {:induction false} NoFreeBit(bits: seq<bool>, lo: nat)
    requires lo <= |bits|
    ensures FreeBits(bits, lo) <= |bits| - lo
    ensures FreeBits(bits, lo) == 0 ==> forall v | lo <= v < |bits| :: bits[v]
    decreases |bits| - lo
  {
    if lo < |bits| {
      NoFreeBit(bits, lo + 1);
    }
  }

  /** Every cluster is in use. */
  ghost predicate Full(bits: seq<bool>) { forall v | 0 <= v < |bits| :: bits[v] }

  /** create_chain's answer when the status of the cluster to stretch is not an end mark. */
  function Stuck(st: nat): nat {
    if st < 2 then 1 else st
  }

  /** Position from which create_chain starts looking for a new chain's first cluster. */
  function StartHint(last: nat, n: nat): nat {
    if last == 0 || last >= n then 1 else last
  }

  /**
   * create_chain on an exFAT volume. cs are the clusters of the object so far (none if clst is 0);
   * 0 means no free cluster, 0xFFFFFFFF a disk error.
   */
  method CreateChain(fs: FatFs, o: ObjId, clst: nat, ghost cs: seq<nat>) returns (ncl: nat)
    requires fs.Valid() && fs.fsType == EXFAT && fs.lastClst < 0x1_0000_0000 && FreeOk(fs.bits, fs.freeClst)
    requires clst == 0 ==> o.nFrag == 0 && cs == []
    requires clst != 0 ==> Denotes(fs.table, fs.bits, o.State(), cs) && clst == cs[|cs| - 1]
    requires clst != 0 ==> Covers(fs.csize, o.objsize, cs)
    modifies fs`winsect, fs`wflag, fs`disk, fs`health, fs`fat, fs`table, fs`bits, fs`lastClst, fs`freeClst, fs.win
    modifies o`stat, o`nCont, o`nFrag
    ensures fs.Valid() && fs.lastClst < 0x1_0000_0000
    ensures ncl != 1 && (ncl >= fs.nFatent ==> ncl == DISK_ERROR)
    ensures 2 <= ncl < fs.nFatent ==>
      && !old(fs.bits)[ncl - 2] && fs.bits == old(fs.bits)[ncl - 2 := true]
      && Denotes(fs.table, fs.bits, o.State().(sclust := if clst == 0 then ncl else o.sclust), cs + [ncl])
    ensures ncl == 0 ==> Full(fs.bits)
    ensures ncl != DISK_ERROR ==> FreeOk(fs.bits, fs.freeClst)
    ensures ncl == 0 ==> fs.bits == old(fs.bits) && fs.table == old(fs.table) && o.State() == old(o.State())
    ensures ncl == 0 && clst != 0 ==> Denotes(fs.table, fs.bits, o.State(), cs)
    ensures forall c | 0 <= c < |fs.table| && c !in cs :: fs.table[c] == old(fs.table)[c]
    ensures ncl == DISK_ERROR ==> !fs.health.noError
  {
    var scl := clst;
    if clst == 0 {
      scl := StartHint(fs.lastClst, fs.nFatent);
    } else {
      EndOfChain(fs, o, cs);
      var st := fs.GetFat(o, clst);
      if st < fs.nFatent || st == DISK_ERROR {
        return Stuck(st);
      }
    }
    if fs.freeClst == 0 {
      NoFreeBit(fs.bits, 0);
      return 0;
    }
    ncl := Claim(fs, o, clst, scl, cs);
  }

  /** The rest of create_chain: takes a free cluster, records it in the object and keeps the hints. */
  method Claim(fs: FatFs, o: ObjId, clst: nat, scl: nat, ghost cs: seq<nat>) returns (ncl: nat)
    requires fs.Valid() && fs.fsType == EXFAT && fs.lastClst < 0x1_0000_0000 && scl < 0x1_0000_0000 && fs.freeClst != 0
    requires FreeOk(fs.bits, fs.freeClst)
    requires if clst == 0 then o.nFrag == 0 && cs == [] else Denotes(fs.table, fs.bits, o.State(), cs) && clst == cs[|cs| - 1]
    modifies fs`winsect, fs`wflag, fs`disk, fs`health, fs`fat, fs`table, fs`bits, fs`lastClst, fs`freeClst, fs.win
    modifies o`stat, o`nCont, o`nFrag
    ensures fs.Valid() && fs.lastClst < 0x1_0000_0000
    ensures ncl != 1 && (ncl >= fs.nFatent ==> ncl == DISK_ERROR)
    ensures 2 <= ncl < fs.nFatent ==>
      && !old(fs.bits)[ncl - 2] && fs.bits == old(fs.bits)[ncl - 2 := true]
      && Denotes(fs.table, fs.bits, o.State().(sclust := if clst == 0 then ncl else o.sclust), cs + [ncl])
    ensures ncl == 0 ==> Full(fs.bits)
    ensures ncl != DISK_ERROR ==> FreeOk(fs.bits, fs.freeClst)
    ensures ncl == 0 ==> fs.bits == old(fs.bits) && fs.table == old(fs.table) && o.State() == old(o.State())
    ensures forall c | 0 <= c < |fs.table| && c !in cs :: fs.table[c] == old(fs.table)[c]
    ensures ncl == DISK_ERROR ==> !fs.health.noError
  {
    ncl := Allocate(fs, scl);
    if ncl == 0 || ncl == DISK_ERROR {
      return;
    }
    var res := Include(fs, o, clst, ncl, old(fs.bits), cs);
    if res != FR_OK {
      return ErrorCode(res);
    }
    Record(fs, ncl, old(fs.bits));
  }

  /** The freshly taken cluster becomes the object's first or its next. */
  method Include(fs: FatFs, o: ObjId, clst: nat, ncl: nat, ghost bits0: seq<bool>, ghost cs: seq<nat>) returns (res: FResult)
    requires fs.Valid() && fs.fsType == EXFAT && Fresh(fs.table, bits0, fs.bits, ncl)
    requires if clst == 0 then o.nFrag == 0 && cs == [] else Denotes(fs.table, bits0, o.State(), cs) && clst == cs[|cs| - 1]
    modifies fs`winsect, fs`wflag, fs`disk, fs`health, fs`fat, fs`table, fs.win, o`stat, o`nCont, o`nFrag
    ensures fs.Valid()
    ensures res == FR_OK || res == FR_DISK_ERR
    ensures res == FR_DISK_ERR ==> !fs.health.noError
    ensures res == FR_OK ==>
      Denotes(fs.table, fs.bits, o.State().(sclust := if clst == 0 then ncl else o.sclust), cs + [ncl])
    ensures forall c | 0 <= c < |fs.table| && c !in cs :: fs.table[c] == old(fs.table)[c]
  {
    res := FR_OK;
    if clst == 0 {
      o.stat := 2;
      OneCluster(fs.table, bits0, fs.bits, o.State().(sclust := ncl), ncl);
    } else {
      res := Extend(fs, o, clst, ncl, bits0, cs);
    }
  }

  lemma OneCluster(table: seq<nat>, bits: seq<bool>, bits': seq<bool>, o: Chain, ncl: nat)
    requires Fresh(table, bits, bits', ncl) && o.sclust == ncl && o.stat == 2 && o.nFrag == 0
    ensures Denotes(table, bits', o, [] + [ncl])
  {
  }

  /** Keeps the hints after cluster ncl has been taken. */
  method Record(fs: FatFs, ncl: nat, ghost bits0: seq<bool>)
    requires fs.Valid() && fs.fsType == EXFAT && Takes(bits0, fs.bits, ncl) && FreeOk(bits0, fs.freeClst)
    modifies fs`lastClst, fs`freeClst
    ensures fs.lastClst == ncl && FreeOk(fs.bits, fs.freeClst)
  {
    FreeBitTaken(bits0, ncl - 2, 0);
    NoFreeBit(bits0, 0);
    fs.lastClst := ncl;
    if fs.freeClst <= fs.nFatent - 2 {
      fs.freeClst := fs.freeClst - 1;
    }
  }

  /** The contiguous run of k clusters from c. */
  ghost function Run(c: nat, k: nat): seq<nat> {
    seq(k, i => c + i)
  }

  /**
   * What the object's directory entry and the FAT say its clusters are: the run from sclust under
   * NoFatChain (stat 2, section 6.4.2 of the exFAT specification), the FAT chain otherwise.
   */
  ghost function OnDisk(table: seq<nat>, o: Chain, k: nat): seq<nat> {
    if o.stat == 2 then Run(o.sclust, k) else Walk(table, o.sclust, |table|)
  }

  lemma SyncedIsOnDisk(table: seq<nat>, bits: seq<bool>, o: Chain, cs: seq<nat>)
    requires Denotes(table, bits, o, cs) && o.stat != 3 && o.nFrag == 0
    ensures OnDisk(table, o, |cs|) == cs
  {
    if o.stat == 2 {
      assert forall i | 0 <= i < |cs| :: cs[i] == o.sclust + i;
    } else {
      NoRepeats(|table|, cs);
      WalkFrom(table, cs, 0, |table|);
    }
  }

  /** The FAT part of f_sync: afterwards the medium alone denotes the clusters. */
  method Sync(fs: FatFs, o: ObjId, clust: nat, ghost cs: seq<nat>) returns (res: FResult)
    requires fs.Valid() && fs.fsType == EXFAT
    requires Denotes(fs.table, fs.bits, o.State(), cs) && clust == cs[|cs| - 1]
    modifies fs`winsect, fs`wflag, fs`disk, fs`health, fs`fat, fs`table, fs.win, o`stat, o`nFrag
    ensures fs.Valid()
    ensures res == FR_OK ==> Denotes(fs.table, fs.bits, o.State(), cs) && OnDisk(fs.table, o.State(), |cs|) == cs
    ensures forall c | 0 <= c < |fs.table| && c !in cs :: fs.table[c] == old(fs.table)[c]
    ensures res == FR_OK || res == FR_DISK_ERR
    ensures res == FR_DISK_ERR ==> !fs.health.noError
  {
    res := FillFirstFrag(fs, o, cs);
    if res != FR_OK { return; }
    res := Seal(fs, o, clust, cs);
    if res != FR_OK { return; }
    SyncedIsOnDisk(fs.table, fs.bits, o.State(), cs);
  }

  /** fill_last_frag with the end mark, as f_sync and f_lseek call it. */
  method Seal(fs: FatFs, o: ObjId, clust: nat, ghost cs: seq<nat>) returns (res: FResult)
    requires fs.Valid() && fs.fsType == EXFAT
    requires Denotes(fs.table, fs.bits, o.State(), cs) && clust == cs[|cs| - 1]
    modifies fs`winsect, fs`wflag, fs`disk, fs`health, fs`fat, fs`table, fs.win, o`nFrag
    ensures fs.Valid()
    ensures res == FR_OK ==> Denotes(fs.table, fs.bits, o.State(), cs) && o.nFrag == 0
    ensures forall c | 0 <= c < |fs.table| && c !in cs :: fs.table[c] == old(fs.table)[c]
    ensures res == FR_OK || res == FR_DISK_ERR
    ensures res == FR_DISK_ERR ==> !fs.health.noError
  {
    res := FillLastFrag(fs, o, clust, EOC, cs);
    if res == FR_OK && old(o.nFrag) > 0 {
      LastLinkStep(fs.table, fs.table, fs.bits, o.State().(nFrag := 1), cs, fs.table[clust]);
    }
  }

  /** Cluster c was free and has been taken, and no other bit moved. */
  ghost predicate Takes(bits: seq<bool>, bits': seq<bool>, c: nat) {
    2 <= c < |bits| + 2 && !bits[c - 2] && bits' == bits[c - 2 := true]
  }

  /** bits[i] are the bitmaps of a run that took the clusters got one after the other. */
  ghost predicate TakenInOrder(bits: seq<seq<bool>>, got: seq<nat>) {
    |bits| == |got| + 1 && forall i | 0 <= i < |got| :: Takes(bits[i], bits[i + 1], got[i])
  }

  lemma TakenMore(bits: seq<seq<bool>>, got: seq<nat>, bits': seq<bool>, ncl: nat)
    requires TakenInOrder(bits, got) && Takes(bits[|got|], bits', ncl)
    ensures TakenInOrder(bits + [bits'], got + [ncl])
  {
  }

  /** Every cluster was free before the run and is in use after it, and nothing in use was freed. */
  lemma {:induction false} TakenMeans(bits: seq<seq<bool>>, got: seq<nat>, n: nat)
    requires TakenInOrder(bits, got) && n <= |got|
    ensures |bits[n]| == |bits[0]|
    ensures forall v | 0 <= v < |bits[0]| :: bits[n][v] <==> bits[0][v] || v + 2 in got[..n]
    ensures forall i | 0 <= i < n :: 2 <= got[i] < |bits[0]| + 2 && !bits[0][got[i] - 2]
  {
    if n > 0 {
      TakenMeans(bits, got, n - 1);
      assert Takes(bits[n - 1], bits[n - 1 + 1], got[n - 1]);
      assert got[..n] == got[..n - 1] + [got[n - 1]];
    }
  }

  /** The writer has filled the k clusters of the object. */
  method SetSize(fs: FatFs, o: ObjId, k: nat, ghost cs: seq<nat>)
    requires fs.Valid() && fs.fsType == EXFAT && Denotes(fs.table, fs.bits, o.State(), cs) && k == |cs|
    modifies o`objsize
    ensures Covers(fs.csize, o.objsize, cs) && Denotes(fs.table, fs.bits, o.State(), cs)
  {
    NoRepeats(fs.nFatent, cs);
    FullClusters(fs.csize, k);
    o.objsize := k * fs.csize * 512;
  }

  /** One more cluster for an object of k full clusters, optionally after a seek. */
  method AppendOne(fs: FatFs, o: ObjId, clust: nat, k: nat, seek: bool, ghost cs: seq<nat>) returns (ncl: nat)
    requires fs.Valid() && fs.fsType == EXFAT && fs.lastClst < 0x1_0000_0000 && FreeOk(fs.bits, fs.freeClst)
    requires Denotes(fs.table, fs.bits, o.State(), cs) && clust == cs[|cs| - 1] && k == |cs|
    modifies fs`winsect, fs`wflag, fs`disk, fs`health, fs`fat, fs`table, fs`bits, fs`lastClst, fs`freeClst, fs.win, o
    ensures fs.Valid() && fs.lastClst < 0x1_0000_0000
    ensures 2 <= ncl < fs.nFatent ==>
      && !old(fs.bits)[ncl - 2] && fs.bits == old(fs.bits)[ncl - 2 := true]
      && Denotes(fs.table, fs.bits, o.State(), cs + [ncl])
    ensures ncl == 0 ==> Full(fs.bits) && fs.bits == old(fs.bits) && Denotes(fs.table, fs.bits, o.State(), cs)
    ensures ncl != 1 && (ncl >= fs.nFatent ==> ncl == DISK_ERROR && !fs.health.noError)
    ensures ncl != DISK_ERROR ==> FreeOk(fs.bits, fs.freeClst)
    ensures forall c | 0 <= c < |fs.table| && c !in cs :: fs.table[c] == old(fs.table)[c]
  {
    if seek {
      var res := Seal(fs, o, clust, cs);
      if res != FR_OK {
        return ErrorCode(res);
      }
    }
    SetSize(fs, o, k, cs);
    ncl := CreateChain(fs, o, clust, cs);
  }

  /** The clusters of an object: none yet, or those it denotes, of which clust is the last. */
  ghost predicate Holds(table: seq<nat>, bits: seq<bool>, o: Chain, cs: seq<nat>, clust: nat) {
    if cs == [] then o.sclust == 0 && o.nFrag == 0 && clust == 0
    else Denotes(table, bits, o, cs) && clust == cs[|cs| - 1]
  }

  /** One more cluster, the first one included. */
  method Append(fs: FatFs, o: ObjId, clust: nat, k: nat, seek: bool, ghost cs: seq<nat>) returns (ncl: nat)
    requires fs.Valid() && fs.fsType == EXFAT && fs.lastClst < 0x1_0000_0000 && FreeOk(fs.bits, fs.freeClst)
    requires Holds(fs.table, fs.bits, o.State(), cs, clust) && k == |cs|
    modifies fs`winsect, fs`wflag, fs`disk, fs`health, fs`fat, fs`table, fs`bits, fs`lastClst, fs`freeClst, fs.win, o
    ensures fs.Valid() && fs.lastClst < 0x1_0000_0000
    ensures 2 <= ncl < fs.nFatent ==>
      && !old(fs.bits)[ncl - 2] && fs.bits == old(fs.bits)[ncl - 2 := true]
      && Holds(fs.table, fs.bits, o.State(), cs + [ncl], ncl)
    ensures ncl == 0 ==> Full(fs.bits) && fs.bits == old(fs.bits) && Holds(fs.table, fs.bits, o.State(), cs, clust)
    ensures ncl != 1 && (ncl >= fs.nFatent ==> ncl == DISK_ERROR && !fs.health.noError)
    ensures ncl != DISK_ERROR ==> FreeOk(fs.bits, fs.freeClst)
    ensures forall c | 0 <= c < |fs.table| && c !in cs :: fs.table[c] == old(fs.table)[c]
  {
    if clust == 0 {
      ncl := CreateChain(fs, o, 0, cs);
      if 2 <= ncl < fs.nFatent {
        o.sclust := ncl;
      }
    } else {
      ncl := AppendOne(fs, o, clust, k, seek, cs);
    }
  }

  /** FAT entries outside cs are as in `was`. */
  ghost predicate OthersKept(was: seq<nat>, now: seq<nat>, cs: seq<nat>) {
    |was| == |now| && forall c | 0 <= c < |now| && c !in cs :: now[c] == was[c]
  }

  /** The loop of appends, up to the end or to a full volume: trace holds the bitmaps, before each append and at the end. */
  method Grow(fs: FatFs, o: ObjId, clust0: nat, k0: nat, appends: nat, ghost cs0: seq<nat>)
    returns (res: FResult, clust: nat, got: seq<nat>, ghost trace: seq<seq<bool>>)
    requires fs.Valid() && fs.fsType == EXFAT && fs.lastClst < 0x1_0000_0000 && FreeOk(fs.bits, fs.freeClst)
    requires Holds(fs.table, fs.bits, o.State(), cs0, clust0) && k0 == |cs0|
    modifies fs`winsect, fs`wflag, fs`disk, fs`health, fs`fat, fs`table, fs`bits, fs`lastClst, fs`freeClst, fs.win, o
    ensures fs.Valid() && TakenInOrder(trace, got) && trace[0] == old(fs.bits) && |got| <= appends
    ensures res == FR_OK || res == FR_DISK_ERR
    ensures res == FR_DISK_ERR ==> !fs.health.noError
    ensures res == FR_OK ==> trace[|got|] == fs.bits && Holds(fs.table, fs.bits, o.State(), cs0 + got, clust)
    ensures res == FR_OK ==> FreeOk(fs.bits, fs.freeClst) && (|got| < appends ==> Full(fs.bits))
    ensures OthersKept(old(fs.table), fs.table, cs0 + got)
  {
    clust, res, got, trace := clust0, FR_OK, [], [fs.bits];
    assert cs0 + got == cs0;
    for k := 0 to appends
      invariant fs.Valid() && fs.lastClst < 0x1_0000_0000 && FreeOk(fs.bits, fs.freeClst) && |got| == k && res == FR_OK
      invariant Holds(fs.table, fs.bits, o.State(), cs0 + got, clust)
      invariant TakenInOrder(trace, got) && trace[0] == old(fs.bits) && trace[k] == fs.bits
      invariant OthersKept(old(fs.table), fs.table, cs0 + got)
    {
      var seek: bool := *;
      var ncl := Append(fs, o, clust, k0 + k, seek, cs0 + got);
      if ncl == 0 { return; }
      if ncl >= fs.nFatent {
        res := FR_DISK_ERR;
        return;
      }
      assert cs0 + (got + [ncl]) == (cs0 + got) + [ncl];
      TakenMore(trace, got, fs.bits, ncl);
      clust, got, trace := ncl, got + [ncl], trace + [fs.bits];
    }
  }

  /**
   * Any run of appends to an empty object or to one that denotes cs0, with seeks (which seal the last fragment)
   * anywhere in between, followed by a sync: the object denotes cs0 and the clusters got, in the order in which they
   * were taken from the bitmap, and the medium alone says so. Fewer clusters than asked for are got only from a
   * volume that is then full; nothing fails but an access to the medium. FAT entries of other objects are never
   * touched.
   */
  method GrowAndSync(fs: FatFs, o: ObjId, clust0: nat, k0: nat, appends: nat, ghost cs0: seq<nat>)
    returns (res: FResult, got: seq<nat>, ghost trace: seq<seq<bool>>)
    requires fs.Valid() && fs.fsType == EXFAT && fs.lastClst < 0x1_0000_0000 && FreeOk(fs.bits, fs.freeClst)
    requires Holds(fs.table, fs.bits, o.State(), cs0, clust0) && k0 == |cs0|
    modifies fs`winsect, fs`wflag, fs`disk, fs`health, fs`fat, fs`table, fs`bits, fs`lastClst, fs`freeClst, fs.win, o
    ensures fs.Valid() && TakenInOrder(trace, got) && trace[0] == old(fs.bits) && |got| <= appends
    ensures res == FR_OK || res == FR_DISK_ERR
    ensures res == FR_DISK_ERR ==> !fs.health.noError
    ensures res == FR_OK ==> trace[|got|] == fs.bits && FreeOk(fs.bits, fs.freeClst) && (|got| < appends ==> Full(fs.bits))
    ensures res == FR_OK && cs0 + got != [] ==>
      Denotes(fs.table, fs.bits, o.State(), cs0 + got) && OnDisk(fs.table, o.State(), |cs0 + got|) == cs0 + got
    ensures OthersKept(old(fs.table), fs.table, cs0 + got)
  {
    var clust;
    res, clust, got, trace := Grow(fs, o, clust0, k0, appends, cs0);
    if res == FR_OK && clust != 0 {
      res := Sync(fs, o, clust, cs0 + got);
    }
  }

  /** An object of k full clusters ends in its k-th. */
  lemma FullClusters(csize: nat, k: nat)
    requires 0 < csize <= 0x8000 && 0 < k < 0x8000_0000
    ensures 0 < k * csize * 512 < 0x1_0000_0000_0000_0000
    ensures ClustersBelow((k * csize * 512 - 1) / 512, csize) == k - 1
  {
    MulMono(k, csize, 0x8000);
    MulMono(csize, 1, k);
    FullSectors(k * csize);
    WholeClusters(csize, k);
  }

  lemma FullSectors(m: nat)
    requires m > 0
    ensures (m * 512 - 1) / 512 == m - 1
  {
  }

  lemma {:induction false} WholeClusters(csize: nat, k: nat)
    requires 0 < csize && 0 < k
    ensures k * csize > 0 && ClustersBelow(k * csize - 1, csize) == k - 1
  {
    assert k * csize == (k - 1) * csize + csize;
    if k > 1 {
      WholeClusters(csize, k - 1);
    }
  }
}
