/** create_chain and remove_chain on FAT12, FAT16 and FAT32 volumes. */
module FatAlloc {
  import opened Volume
  import opened Chains

  /** Number of free entries among the clusters from lo on. */
  ghost function Zeros(table: seq<nat>, lo: nat): nat
    decreases |table| - lo
  {
    if lo >= |table| then 0 else (if table[lo] == 0 then 1 else 0) + Zeros(table, lo + 1)
  }

  lemma {:induction false} ZerosUpdate(table: seq<nat>, c: nat, v: nat, lo: nat)
    requires c < |table|
    ensures lo <= c ==> Zeros(table[c := v], lo) + (if table[c] == 0 then 1 else 0)
                        == Zeros(table, lo) + (if v == 0 then 1 else 0)
    ensures c < lo ==> Zeros(table[c := v], lo) == Zeros(table, lo)
    decreases |table| - lo
  {
    if lo < |table| {
      ZerosUpdate(table, c, v, lo + 1);
    }
  }

  lemma {:induction false} ZerosBound(table: seq<nat>, lo: nat)
    requires lo <= |table|
    ensures Zeros(table, lo) <= |table| - lo
    ensures Zeros(table, lo) == 0 ==> forall c | lo <= c < |table| :: table[c] != 0
    decreases |table| - lo
  {
    if lo < |table| {
      ZerosBound(table, lo + 1);
    }
  }

  /** The free-cluster count is unknown or exact. */
  ghost predicate FreeOk(table: seq<nat>, free: nat) {
    free > |table| - 2 || free == Zeros(table, 2)
  }

  /** No cluster occurs twice in chains. */
  ghost predicate Apart(chains: seq<seq<nat>>) {
    forall k, i, k', i' | 0 <= k < |chains| && 0 <= i < |chains[k]| && 0 <= k' < |chains| && 0 <= i' < |chains[k']|
      && chains[k][i] == chains[k'][i'] :: k == k' && i == i'
  }

  /** chains are whole chains of the FAT, none of them cyclic, and no two share a cluster. */
  ghost predicate Represents(table: seq<nat>, chains: seq<seq<nat>>) {
    && (forall k | 0 <= k < |chains| :: chains[k] != [] && IsChain(table, chains[k]))
    && Apart(chains)
  }

  /** Finds a free entry, scanning circularly from the one after scl. */
  method FindFree(fs: FatFs, o: ObjId, scl: nat) returns (ncl: nat)
    requires fs.Valid() && fs.fsType != EXFAT && 1 <= scl < fs.nFatent
    modifies fs`winsect, fs`wflag, fs`disk, fs`health, fs.win
    ensures fs.Valid() && fs.table == old(fs.table)
    ensures ncl == 0 ==> forall c | 2 <= c < fs.nFatent :: fs.table[c] != 0
    ensures ncl == 1 ==> exists c | 2 <= c < fs.nFatent :: fs.table[c] == 1
    ensures 2 <= ncl ==> ncl == DISK_ERROR || (ncl < fs.nFatent && fs.table[ncl] == 0)
    ensures ncl == DISK_ERROR ==> !fs.health.noError
  {
    ncl := scl;
    ghost var wrapped := false;
    while true
      invariant fs.Valid() && fs.table == old(fs.table)
      invariant 1 <= ncl < fs.nFatent
      invariant !wrapped ==> scl <= ncl && forall c | scl < c <= ncl :: fs.table[c] != 0
      invariant wrapped ==> ncl < scl && forall c | 2 <= c < fs.nFatent && (scl < c || c <= ncl) :: fs.table[c] != 0
      decreases if wrapped then scl - ncl else fs.nFatent + scl - ncl
    {
      ncl := ncl + 1;
      if ncl >= fs.nFatent {
        ncl := 2;
        wrapped := true;
        if ncl > scl {
          return 0;
        }
      }
      var cs := fs.GetFat(o, ncl);
      if cs == 0 {
        return;
      }
      if cs == 1 || cs == DISK_ERROR {
        return cs;
      }
      if ncl == scl {
        return 0;
      }
    }
  }

  /** The all-ones mark stored at the end of a chain, as it reads back. */
  ghost function EndMark(t: FsType): (m: nat)
    ensures m + 1 == Values(t)
  {
    Masked(t, EOC)
  }

  /** The table after cluster ncl is allocated and, if clst is not 0, linked after clst. */
  ghost function Allocated(t: FsType, table: seq<nat>, clst: nat, ncl: nat): seq<nat>
    requires ncl < |table| && clst < |table|
  {
    var marked := table[ncl := EndMark(t)];
    if clst == 0 then marked else marked[clst := ncl]
  }

  /** Where create_chain looks first: the cluster after clst, then the whole FAT. */
  method Pick(fs: FatFs, o: ObjId, clst: nat) returns (ncl: nat)
    requires fs.Valid() && fs.fsType != EXFAT && clst < fs.nFatent && clst != 1
    modifies fs`winsect, fs`wflag, fs`disk, fs`health, fs.win
    ensures fs.Valid() && fs.table == old(fs.table)
    ensures ncl == 0 ==> forall c | 2 <= c < fs.nFatent :: fs.table[c] != 0
    ensures ncl == 1 ==> exists c | 2 <= c < fs.nFatent :: fs.table[c] == 1
    ensures 2 <= ncl ==> ncl == DISK_ERROR || (ncl < fs.nFatent && fs.table[ncl] == 0)
    ensures ncl == DISK_ERROR ==> !fs.health.noError
  {
    var scl := clst;
    if clst == 0 {
      scl := if fs.lastClst == 0 || fs.lastClst >= fs.nFatent then 1 else fs.lastClst;
    } else {
      ncl := scl + 1;
      if ncl >= fs.nFatent {
        ncl := 2;
      }
      var cs := fs.GetFat(o, ncl);
      if cs == 1 || cs == DISK_ERROR {
        return cs;
      }
      if cs == 0 {
        return;
      }
      if 2 <= fs.lastClst < fs.nFatent {
        scl := fs.lastClst;
      }
    }
    ncl := FindFree(fs, o, scl);
  }

  /**
   * create_chain on a FAT volume: stretches the chain that ends at clst, or starts a new one if
   * clst is 0. 0 means no free cluster, 1 an insane FAT, 0xFFFFFFFF a disk error.
   */
  method CreateChain(fs: FatFs, o: ObjId, clst: nat) returns (ncl: nat)
    requires fs.Valid() && fs.fsType != EXFAT && clst < 0x1_0000_0000
    requires FreeOk(fs.table, fs.freeClst)
    modifies fs`winsect, fs`wflag, fs`disk, fs`health, fs`fat, fs`table, fs`lastClst, fs`freeClst, fs.win
    ensures fs.Valid()
    ensures ncl < fs.nFatent || ncl == DISK_ERROR
    ensures ncl == 0 ==> forall c | 2 <= c < fs.nFatent :: fs.table[c] != 0
    ensures ncl == 1 ==>
      (clst != 0 && fs.Link(o, clst) < 2) || exists c | 2 <= c < fs.nFatent :: fs.table[c] == 1
    ensures ncl < 2 ==> fs.table == old(fs.table)
    ensures 2 <= ncl < fs.nFatent ==> clst < fs.nFatent
    ensures 2 <= ncl < fs.nFatent ==>
      if clst != 0 && old(fs.table)[clst] < fs.nFatent
      then ncl == fs.table[clst] && fs.table == old(fs.table)
      else old(fs.table)[ncl] == 0 && fs.table == Allocated(fs.fsType, old(fs.table), clst, ncl)
    ensures ncl != DISK_ERROR ==> FreeOk(fs.table, fs.freeClst)
    ensures ncl == DISK_ERROR ==> !fs.health.noError
  {
    if clst != 0 {
      var cs := fs.GetFat(o, clst);
      if cs < 2 { return 1; }
      if cs == DISK_ERROR || cs < fs.nFatent { return cs; }
    }
    if fs.freeClst == 0 {
      ZerosBound(fs.table, 2);
      return 0;
    }
    ncl := Pick(fs, o, clst);
    if ncl < 2 || ncl == DISK_ERROR {
      return;
    }
    var res := Attach(fs, clst, ncl);
    if res != FR_OK {
      return ErrorCode(res);
    }
  }

  /** The end of create_chain: marks ncl as the last cluster, links it after clst and keeps count. */
  method Attach(fs: FatFs, clst: nat, ncl: nat) returns (res: FResult)
    requires fs.Valid() && fs.fsType != EXFAT && 2 <= ncl < fs.nFatent && fs.table[ncl] == 0
    requires clst == 0 || (2 <= clst < fs.nFatent && clst != ncl && fs.table[clst] != 0)
    requires FreeOk(fs.table, fs.freeClst) && fs.freeClst != 0
    modifies fs`winsect, fs`wflag, fs`disk, fs`health, fs`fat, fs`table, fs`lastClst, fs`freeClst, fs.win
    ensures fs.Valid() && (res == FR_OK || res == FR_DISK_ERR)
    ensures res == FR_DISK_ERR ==> !fs.health.noError
    ensures res == FR_OK ==> fs.table == Allocated(fs.fsType, old(fs.table), clst, ncl) && FreeOk(fs.table, fs.freeClst)
  {
    ZerosBound(fs.table, 2);
    res := fs.SetEntry(ncl, EOC);
    if res == FR_OK && clst != 0 {
      res := fs.SetEntry(clst, ncl);
    }
    if res != FR_OK { return; }
    ZerosUpdate(old(fs.table), ncl, EndMark(fs.fsType), 2);
    if clst != 0 {
      ZerosUpdate(old(fs.table)[ncl := EndMark(fs.fsType)], clst, ncl, 2);
    }
    fs.lastClst := ncl;
    if fs.freeClst <= fs.nFatent - 2 {
      fs.freeClst := fs.freeClst - 1;
    }
  }

  /** clst is cluster k of the chain cs and pclst the one before it, or 0. */
  ghost predicate Cut(table: seq<nat>, cs: seq<nat>, k: nat, clst: nat, pclst: nat) {
    && IsChain(table, cs) && (forall i, j | 0 <= i < j < |cs| :: cs[i] != cs[j])
    && k < |cs| && clst == cs[k] && pclst == if k == 0 then 0 else cs[k - 1]
  }

  /** table is table0 with clusters k up to p of cs freed and cluster k - 1 marked as the last. */
  ghost predicate FreedTo(table0: seq<nat>, table: seq<nat>, cs: seq<nat>, k: nat, p: nat, mark: nat)
    requires k <= p <= |cs|
  {
    && |table| == |table0|
    && forall c | 0 <= c < |table| :: table[c] ==
         if c in cs[k..p] then 0 else if k > 0 && c == cs[k - 1] then mark else table0[c]
  }

  lemma FreeNext(table0: seq<nat>, table: seq<nat>, cs: seq<nat>, k: nat, p: nat, mark: nat)
    requires k <= p < |cs| && FreedTo(table0, table, cs, k, p, mark) && cs[p] < |table|
    requires forall i, j | 0 <= i < j < |cs| :: cs[i] != cs[j]
    ensures FreedTo(table0, table[cs[p] := 0], cs, k, p + 1, mark)
    ensures table[cs[p]] == table0[cs[p]]
  {
    assert cs[k..p + 1] == cs[k..p] + [cs[p]];
  }

  /** Entries of `now` are free or as in `was`. */
  ghost predicate OnlyFreed(was: seq<nat>, now: seq<nat>)
    requires |was| == |now|
  {
    forall c | 0 <= c < |now| :: now[c] == 0 || now[c] == was[c]
  }

  /** The loop of remove_chain at position p of a chain. */
  ghost predicate Following(table0: seq<nat>, table: seq<nat>, cs: seq<nat>, k: nat, p: nat, clst: nat, mark: nat) {
    && IsChain(table0, cs) && (forall i, j | 0 <= i < j < |cs| :: cs[i] != cs[j])
    && k <= p < |cs| && clst == cs[p] && FreedTo(table0, table, cs, k, p, mark)
  }

  /** Freeing the cluster moves on to the next, or past the end of the chain. */
  lemma FollowNext(table0: seq<nat>, table: seq<nat>, cs: seq<nat>, k: nat, p: nat, clst: nat, mark: nat)
    requires Following(table0, table, cs, k, p, clst, mark)
    ensures clst < |table| && FreedTo(table0, table[clst := 0], cs, k, p + 1, mark)
    ensures table[clst] > 1
    ensures if p + 1 < |cs| then Following(table0, table[clst := 0], cs, k, p + 1, table[clst], mark) && table[clst] < |table|
            else table[clst] >= |table|
  {
    assert Linked(table0, cs, p);
    assert p + 1 < |cs| ==> Linked(table0, cs, p + 1);
    FreeNext(table0, table, cs, k, p, mark);
  }

  /** One pass of remove_chain: frees clst and returns its successor, 0 if it was free already. */
  method FreeOne(fs: FatFs, o: ObjId, clst: nat) returns (res: FResult, nxt: nat)
    requires fs.Valid() && fs.fsType != EXFAT && 2 <= clst < fs.nFatent
    modifies fs`winsect, fs`wflag, fs`disk, fs`health, fs`fat, fs`table, fs`freeClst, fs.win
    ensures fs.Valid()
    ensures res == FR_OK ==> nxt == old(fs.table)[clst] != 1 && fs.table == old(fs.table)[clst := 0]
    ensures res == FR_OK && nxt != 0 ==> Zeros(fs.table, 2) == Zeros(old(fs.table), 2) + 1 <= |fs.table|
    ensures res == FR_INT_ERR ==> old(fs.table)[clst] == 1 && fs.table == old(fs.table)
    ensures res == FR_DISK_ERR ==> fs.table == old(fs.table)[clst := fs.table[clst]]
    ensures res != FR_DISK_ERR && FreeOk(old(fs.table), old(fs.freeClst)) ==> FreeOk(fs.table, fs.freeClst)
    ensures res == FR_DISK_ERR ==> !fs.health.noError
  {
    nxt := fs.GetFat(o, clst);
    if nxt == 0 { return FR_OK, 0; }
    if nxt == 1 { return FR_INT_ERR, nxt; }
    if nxt == DISK_ERROR { return FR_DISK_ERR, nxt; }
    res := fs.SetEntry(clst, 0);
    if res != FR_OK { return; }
    ZerosUpdate(old(fs.table), clst, 0, 2);
    ZerosBound(fs.table, 2);
    if fs.freeClst < fs.nFatent - 2 {
      fs.freeClst := fs.freeClst + 1;
    }
  }

  /** The same, along a known chain. */
  method FreeStep(fs: FatFs, o: ObjId, clst: nat, ghost known: bool, ghost table0: seq<nat>, ghost cs: seq<nat>,
                  ghost k: nat, ghost p: nat) returns (res: FResult, nxt: nat)
    requires fs.Valid() && fs.fsType != EXFAT && 2 <= clst < fs.nFatent
    requires known ==> Following(table0, fs.table, cs, k, p, clst, EndMark(fs.fsType))
    modifies fs`winsect, fs`wflag, fs`disk, fs`health, fs`fat, fs`table, fs`freeClst, fs.win
    ensures fs.Valid() && (res == FR_OK ==> nxt != 1)
    ensures res != FR_DISK_ERR ==> forall was | |was| == |fs.table| && OnlyFreed(was, old(fs.table)) :: OnlyFreed(was, fs.table)
    ensures res == FR_OK && nxt != 0 ==> Zeros(fs.table, 2) == Zeros(old(fs.table), 2) + 1 <= |fs.table|
    ensures known ==> res != FR_INT_ERR
    ensures known && res == FR_OK && nxt < fs.nFatent ==>
      nxt != 0 && Following(table0, fs.table, cs, k, p + 1, nxt, EndMark(fs.fsType))
    ensures known && res == FR_OK && nxt >= fs.nFatent ==> FreedTo(table0, fs.table, cs, k, |cs|, EndMark(fs.fsType))
    ensures res != FR_DISK_ERR && FreeOk(old(fs.table), old(fs.freeClst)) ==> FreeOk(fs.table, fs.freeClst)
    ensures res == FR_DISK_ERR ==> !fs.health.noError
  {
    if known {
      FollowNext(table0, fs.table, cs, k, p, clst, EndMark(fs.fsType));
    }
    res, nxt := FreeOne(fs, o, clst);
  }

  /**
   * The loop of remove_chain. It terminates on every FAT, cyclic ones included, because each pass
   * frees an entry. table0 is the FAT before the cut; known says that it held the chain cs.
   */
  method FreeLinks(fs: FatFs, o: ObjId, clst0: nat, ghost known: bool, ghost table0: seq<nat>, ghost cs: seq<nat>, ghost k: nat)
    returns (res: FResult)
    requires fs.Valid() && fs.fsType != EXFAT && 2 <= clst0 < fs.nFatent
    requires known ==> Following(table0, fs.table, cs, k, k, clst0, EndMark(fs.fsType))
    modifies fs`winsect, fs`wflag, fs`disk, fs`health, fs`fat, fs`table, fs`freeClst, fs.win
    ensures fs.Valid()
    ensures res != FR_DISK_ERR ==> OnlyFreed(old(fs.table), fs.table)
    ensures known ==> res != FR_INT_ERR
    ensures known && res == FR_OK ==> FreedTo(table0, fs.table, cs, k, |cs|, EndMark(fs.fsType))
    ensures res == FR_OK && FreeOk(old(fs.table), old(fs.freeClst)) ==> FreeOk(fs.table, fs.freeClst)
    ensures res == FR_DISK_ERR ==> !fs.health.noError
  {
    var clst := clst0;
    ghost var p := k;
    while true
      invariant fs.Valid() && 2 <= clst < fs.nFatent
      invariant OnlyFreed(old(fs.table), fs.table)
      invariant known ==> Following(table0, fs.table, cs, k, p, clst, EndMark(fs.fsType))
      invariant FreeOk(old(fs.table), old(fs.freeClst)) ==> FreeOk(fs.table, fs.freeClst)
      decreases |fs.table| - Zeros(fs.table, 2)
    {
      var nxt;
      res, nxt := FreeStep(fs, o, clst, known, table0, cs, k, p);
      if res != FR_OK || nxt == 0 { return; }
      p := p + 1;
      clst := nxt;
      if clst >= fs.nFatent { return; }
    }
  }

  /**
   * remove_chain on a FAT volume: entries are only ever freed, besides the one of pclst; for a
   * chain cs cut at k exactly cs[k..] is freed and the rest is ended.
   */
  method RemoveChain(fs: FatFs, o: ObjId, clst: nat, pclst: nat, ghost cs: seq<nat>, ghost k: nat) returns (res: FResult)
    requires fs.Valid() && fs.fsType != EXFAT && clst < 0x1_0000_0000
    modifies fs`winsect, fs`wflag, fs`disk, fs`health, fs`fat, fs`table, fs`freeClst, fs.win
    ensures fs.Valid()
    ensures !(2 <= clst < fs.nFatent) ==> res == FR_INT_ERR && fs.table == old(fs.table)
    ensures res != FR_DISK_ERR ==>
      forall c | 0 <= c < fs.nFatent && c != pclst :: fs.table[c] == 0 || fs.table[c] == old(fs.table)[c]
    ensures Cut(old(fs.table), cs, k, clst, pclst) ==> res != FR_INT_ERR
    ensures Cut(old(fs.table), cs, k, clst, pclst) && res == FR_OK ==>
      FreedTo(old(fs.table), fs.table, cs, k, |cs|, EndMark(fs.fsType))
    ensures Cut(old(fs.table), cs, k, clst, pclst) && res == FR_OK && FreeOk(old(fs.table), old(fs.freeClst)) ==>
      FreeOk(fs.table, fs.freeClst)
    ensures res == FR_DISK_ERR ==> !fs.health.noError
  {
    if clst < 2 || clst >= fs.nFatent {
      return FR_INT_ERR;
    }
    ghost var known := Cut(fs.table, cs, k, clst, pclst);
    if pclst != 0 {
      assert known ==> Linked(fs.table, cs, k - 1);
      res := fs.SetEntry(pclst, EOC);
      if res != FR_OK { return; }
      ZerosUpdate(old(fs.table), pclst, EndMark(fs.fsType), 2);
    }
    res := FreeLinks(fs, o, clst, known, old(fs.table), cs, k);
  }

  /** A free cluster is in no chain. */
  lemma FreeIsOutside(table: seq<nat>, chains: seq<seq<nat>>, c: nat, k: nat, i: nat)
    requires Represents(table, chains) && c < |table| && table[c] == 0
    requires k < |chains| && i < |chains[k]|
    ensures chains[k][i] != c
  {
    assert Linked(table, chains[k], i);
  }

  lemma NewChain(t: FsType, table: seq<nat>, chains: seq<seq<nat>>, ncl: nat)
    requires Represents(table, chains) && |table| < Values(t)
    requires 2 <= ncl < |table| && table[ncl] == 0
    ensures Represents(Allocated(t, table, 0, ncl), chains + [[ncl]])
  {
    var table', chains' := Allocated(t, table, 0, ncl), chains + [[ncl]];
    forall k, i | 0 <= k < |chains| && 0 <= i < |chains[k]|
      ensures chains[k][i] != ncl && Linked(table', chains[k], i)
    {
      FreeIsOutside(table, chains, ncl, k, i);
      assert Linked(table, chains[k], i);
    }
    assert Linked(table', [ncl], 0);
  }

  /** Linking a free cluster after the last of cs makes cs one longer. */
  lemma ChainStretched(t: FsType, table: seq<nat>, cs: seq<nat>, ncl: nat)
    requires IsChain(table, cs) && cs != [] && |table| < Values(t) && 2 <= ncl < |table| && table[ncl] == 0
    requires forall i, j | 0 <= i < j < |cs| :: cs[i] != cs[j]
    ensures IsChain(Allocated(t, table, cs[|cs| - 1], ncl), cs + [ncl])
  {
    var table', cs' := Allocated(t, table, cs[|cs| - 1], ncl), cs + [ncl];
    assert Linked(table, cs, |cs| - 1);
    forall i | 0 <= i < |cs'| ensures Linked(table', cs', i) {
      assert i < |cs| ==> Linked(table, cs, i);
    }
  }

  /** A chain keeps its links when no entry of it changes. */
  lemma ChainKept(table: seq<nat>, table': seq<nat>, cs: seq<nat>)
    requires IsChain(table, cs) && |table'| == |table|
    requires forall i | 0 <= i < |cs| :: table'[cs[i]] == table[cs[i]]
    ensures IsChain(table', cs)
  {
    forall i | 0 <= i < |cs| ensures Linked(table', cs, i) {
      assert Linked(table, cs, i);
    }
  }

  lemma ApartStretched(chains: seq<seq<nat>>, k: nat, ncl: nat)
    requires Apart(chains) && k < |chains|
    requires forall k', i | 0 <= k' < |chains| && 0 <= i < |chains[k']| :: chains[k'][i] != ncl
    ensures Apart(chains[k := chains[k] + [ncl]])
  {
  }

  lemma Stretched(t: FsType, table: seq<nat>, chains: seq<seq<nat>>, k: nat, ncl: nat)
    requires Represents(table, chains) && |table| < Values(t) && k < |chains|
    requires 2 <= ncl < |table| && table[ncl] == 0
    ensures var cs := chains[k];
      Represents(Allocated(t, table, cs[|cs| - 1], ncl), chains[k := cs + [ncl]])
  {
    var cs := chains[k];
    var table' := Allocated(t, table, cs[|cs| - 1], ncl);
    forall k', i | 0 <= k' < |chains| && 0 <= i < |chains[k']| ensures chains[k'][i] != ncl {
      FreeIsOutside(table, chains, ncl, k', i);
    }
    ApartStretched(chains, k, ncl);
    ChainStretched(t, table, cs, ncl);
    forall k' | 0 <= k' < |chains| && k' != k ensures IsChain(table', chains[k']) {
      ChainKept(table, table', chains[k']);
    }
  }

  /** What is left of a chain cut at i > 0 is a chain. */
  lemma ChainCut(table: seq<nat>, table': seq<nat>, cs: seq<nat>, i: nat, mark: nat)
    requires IsChain(table, cs) && (forall i, j | 0 <= i < j < |cs| :: cs[i] != cs[j])
    requires 0 < i < |cs| && mark >= |table| && FreedTo(table, table', cs, i, |cs|, mark)
    ensures IsChain(table', cs[..i])
  {
    forall j | 0 <= j < i ensures Linked(table', cs[..i], j) {
      assert Linked(table, cs, j);
    }
  }

  lemma Removed(table: seq<nat>, table': seq<nat>, chains: seq<seq<nat>>, k: nat, i: nat, mark: nat)
    requires Represents(table, chains) && k < |chains| && i < |chains[k]| && mark >= |table|
    requires FreedTo(table, table', chains[k], i, |chains[k]|, mark)
    ensures Represents(table', if i == 0 then chains[..k] + chains[k + 1..] else chains[k := chains[k][..i]])
  {
    forall k' | 0 <= k' < |chains| && k' != k ensures IsChain(table', chains[k']) {
      ChainKept(table, table', chains[k']);
    }
    if i > 0 {
      ChainCut(table, table', chains[k], i, mark);
    }
  }

  /** Cut chain k at its i-th cluster, or add a cluster to chain k; past the last chain, start a new one. */
  datatype Request = Remove(k: nat, i: nat) | Create(k: nat)

  /** What a request does to the chains, ncl being the cluster create_chain returned (0: the volume is full). */
  function Granted(chains: seq<seq<nat>>, r: Request, ncl: nat): seq<seq<nat>> {
    match r
    case Remove(k, i) =>
      if k >= |chains| || i >= |chains[k]| then chains
      else if i == 0 then chains[..k] + chains[k + 1..]
      else chains[k := chains[k][..i]]
    case Create(k) =>
      if ncl == 0 then chains
      else if k < |chains| then chains[k := chains[k] + [ncl]]
      else chains + [[ncl]]
  }

  function Replay(chains: seq<seq<nat>>, rs: seq<Request>, ncls: seq<nat>): seq<seq<nat>>
    requires |ncls| == |rs|
  {
    if rs == [] then chains
    else Granted(Replay(chains, rs[..|rs| - 1], ncls[..|rs| - 1]), rs[|rs| - 1], ncls[|rs| - 1])
  }

  /** No entry is free. */
  ghost predicate Full(table: seq<nat>) { forall c | 2 <= c < |table| :: table[c] != 0 }

  /** The chain a request names, if there is one. */
  function Named(chains: seq<seq<nat>>, r: Request): seq<nat> {
    if r.k < |chains| then chains[r.k] else []
  }

  ghost predicate ElsewhereKept(was: seq<nat>, now: seq<nat>, named: seq<nat>, ncl: nat) {
    |was| == |now| && forall c | 0 <= c < |now| && c != ncl && c !in named :: now[c] == was[c]
  }

  /** One served request: the FAT and the chains before it, what create_chain returned, and the FAT after it. */
  datatype Event = Event(was: seq<nat>, chains: seq<seq<nat>>, r: Request, ncl: nat, now: seq<nat>)

  /** What one request does: "full" is said of a full volume only, and a new cluster was free. */
  ghost predicate Served(e: Event) {
    && Represents(e.was, e.chains) && Represents(e.now, Granted(e.chains, e.r, e.ncl))
    && ElsewhereKept(e.was, e.now, Named(e.chains, e.r), e.ncl)
    && (e.r.Create? && e.ncl == 0 ==> Full(e.was) && e.now == e.was)
    && (e.r.Create? && e.ncl != 0 ==> 2 <= e.ncl < |e.was| && e.was[e.ncl] == 0)
  }

  /** e is followed by an event that starts from where it ended. */
  ghost predicate Follows(e: Event, f: Event) {
    f.was == e.now && f.chains == Granted(e.chains, e.r, e.ncl)
  }

  /** A run that serves the requests one after the other. */
  ghost predicate AllServed(trace: seq<Event>, rs: seq<Request>) {
    var n := |trace|;
    n <= |rs| && (n > 0 ==>
      && AllServed(trace[..n - 1], rs) && Served(trace[n - 1]) && trace[n - 1].r == rs[n - 1]
      && (n > 1 ==> Follows(trace[n - 2], trace[n - 1])))
  }

  /** What the run has left of the FAT and of the chains. */
  ghost function Left(trace: seq<Event>, table: seq<nat>, chains: seq<seq<nat>>): (seq<nat>, seq<seq<nat>>) {
    if trace == [] then (table, chains)
    else var e := trace[|trace| - 1]; (e.now, Granted(e.chains, e.r, e.ncl))
  }

  /** A run from table0 and chains0 so far: ncls is what it returned, table and chains what it left. */
  ghost predicate Ran(trace: seq<Event>, rs: seq<Request>, table0: seq<nat>, chains0: seq<seq<nat>>, ncls: seq<nat>,
                      table: seq<nat>, chains: seq<seq<nat>>) {
    && AllServed(trace, rs) && |ncls| == |trace| && (forall s | 0 <= s < |trace| :: ncls[s] == trace[s].ncl)
    && (trace != [] ==> trace[0].was == table0 && trace[0].chains == chains0)
    && Left(trace, table0, chains0) == (table, chains)
  }

  lemma RanOneMore(trace: seq<Event>, rs: seq<Request>, table0: seq<nat>, chains0: seq<seq<nat>>, ncls: seq<nat>, e: Event)
    requires Ran(trace, rs, table0, chains0, ncls, e.was, e.chains)
    requires |trace| < |rs| && Served(e) && e.r == rs[|trace|]
    ensures Ran(trace + [e], rs, table0, chains0, ncls + [e.ncl], e.now, Granted(e.chains, e.r, e.ncl))
  {
    assert (trace + [e])[..|trace|] == trace;
  }

  /** Every request of a run is served as a single one is. */
  lemma {:induction false} EachServed(trace: seq<Event>, rs: seq<Request>, s: nat)
    requires AllServed(trace, rs) && s < |trace| <= |rs|
    ensures Served(trace[s]) && trace[s].r == rs[s]
  {
    if s < |trace| - 1 {
      EachServed(trace[..|trace| - 1], rs, s);
    }
  }

  /** Each event starts from where the one before it ended. */
  lemma {:induction false} EachFollows(trace: seq<Event>, rs: seq<Request>, s: nat)
    requires AllServed(trace, rs) && 0 < s < |trace| <= |rs|
    ensures Follows(trace[s - 1], trace[s])
  {
    if s < |trace| - 1 {
      EachFollows(trace[..|trace| - 1], rs, s);
    }
  }

  /** The chains a run leaves are those that replaying its requests on lists gives. */
  lemma {:induction false} LeftIsReplay(trace: seq<Event>, rs: seq<Request>, table0: seq<nat>, chains0: seq<seq<nat>>,
                                        ncls: seq<nat>, table: seq<nat>, chains: seq<seq<nat>>)
    requires Ran(trace, rs, table0, chains0, ncls, table, chains)
    ensures chains == Replay(chains0, rs[..|trace|], ncls)
  {
    var n := |trace|;
    if n > 0 {
      var e, trace' := trace[n - 1], trace[..n - 1];
      if n > 1 {
        assert trace'[n - 2] == trace[n - 2] && trace'[0] == trace[0];
      }
      LeftIsReplay(trace', rs, table0, chains0, ncls[..n - 1], e.was, e.chains);
      assert rs[..n][..n - 1] == rs[..n - 1];
    }
  }

  /**
   * Every run of create_chain and remove_chain on a sane FAT keeps the chains acyclic and disjoint, each request
   * changing only the chain it names, says "full" only when the FAT at that point is, and keeps the free count
   * unknown or exact. It stops early on a disk error, or on an FAT that holds the impossible entry 1.
   */
  method RunAllocator(fs: FatFs, o: ObjId, chains0: seq<seq<nat>>, rs: seq<Request>)
    returns (res: FResult, ncls: seq<nat>, ghost trace: seq<Event>, ghost chains: seq<seq<nat>>)
    requires fs.Valid() && fs.fsType != EXFAT
    requires Represents(fs.table, chains0) && FreeOk(fs.table, fs.freeClst)
    modifies fs`winsect, fs`wflag, fs`disk, fs`health, fs`fat, fs`table, fs`lastClst, fs`freeClst, fs.win
    ensures fs.Valid()
    ensures res == FR_OK || res == FR_INT_ERR ==> Ran(trace, rs, old(fs.table), chains0, ncls, fs.table, chains)
    ensures res == FR_OK ==> |trace| == |rs| && chains == Replay(chains0, rs, ncls)
    ensures res == FR_OK ==> Represents(fs.table, chains) && FreeOk(fs.table, fs.freeClst)
    ensures res == FR_INT_ERR ==> HasOne(fs.table)
    ensures res == FR_DISK_ERR ==> AllServed(trace, rs)
    ensures res == FR_DISK_ERR ==> !fs.health.noError
  {
    res, ncls, trace, chains := FR_OK, [], [], chains0;
    var now := chains0;
    for s := 0 to |rs|
      invariant fs.Valid() && |trace| == s && now == chains
      invariant Ran(trace, rs, old(fs.table), chains0, ncls, fs.table, chains)
      invariant Represents(fs.table, chains) && FreeOk(fs.table, fs.freeClst)
    {
      ghost var was := fs.table;
      var ncl;
      res, ncl := Serve(fs, o, now, rs[s]);
      if res != FR_OK { return; }
      RanOneMore(trace, rs, old(fs.table), chains0, ncls, Event(was, chains, rs[s], ncl, fs.table));
      trace := trace + [Event(was, chains, rs[s], ncl, fs.table)];
      now, ncls := Granted(now, rs[s], ncl), ncls + [ncl];
      chains := now;
    }
    res := FR_OK;
    LeftIsReplay(trace, rs, old(fs.table), chains0, ncls, fs.table, chains);
    assert rs[..|rs|] == rs;
  }

  ghost predicate HasOne(table: seq<nat>) { exists c | 2 <= c < |table| :: table[c] == 1 }

  /** One request. */
  method Serve(fs: FatFs, o: ObjId, chains: seq<seq<nat>>, r: Request) returns (res: FResult, ncl: nat)
    requires fs.Valid() && fs.fsType != EXFAT
    requires Represents(fs.table, chains) && FreeOk(fs.table, fs.freeClst)
    modifies fs`winsect, fs`wflag, fs`disk, fs`health, fs`fat, fs`table, fs`lastClst, fs`freeClst, fs.win
    ensures fs.Valid()
    ensures res == FR_OK ==> Served(Event(old(fs.table), chains, r, ncl, fs.table)) && FreeOk(fs.table, fs.freeClst)
    ensures res == FR_INT_ERR ==> HasOne(fs.table) && fs.table == old(fs.table)
    ensures res == FR_DISK_ERR ==> !fs.health.noError
  {
    res, ncl := FR_OK, 0;
    match r
    case Remove(k, i) =>
      if k < |chains| && i < |chains[k]| {
        res := RemoveStep(fs, o, chains, k, i);
      }
    case Create(k) =>
      ncl := CreateStep(fs, o, chains, k);
      res := if ncl == 1 then FR_INT_ERR else if ncl == DISK_ERROR then FR_DISK_ERR else FR_OK;
  }

  method RemoveStep(fs: FatFs, o: ObjId, chains: seq<seq<nat>>, k: nat, i: nat) returns (res: FResult)
    requires fs.Valid() && fs.fsType != EXFAT && k < |chains| && i < |chains[k]|
    requires Represents(fs.table, chains) && FreeOk(fs.table, fs.freeClst)
    modifies fs`winsect, fs`wflag, fs`disk, fs`health, fs`fat, fs`table, fs`freeClst, fs.win
    ensures fs.Valid()
    ensures res == FR_OK || res == FR_DISK_ERR
    ensures res == FR_DISK_ERR ==> !fs.health.noError
    ensures res == FR_OK ==> FreeOk(fs.table, fs.freeClst)
    ensures res == FR_OK ==> ElsewhereKept(old(fs.table), fs.table, chains[k], 0)
    ensures res == FR_OK ==> Represents(fs.table, if i == 0 then chains[..k] + chains[k + 1..] else chains[k := chains[k][..i]])
  {
    assert Cut(fs.table, chains[k], i, chains[k][i], if i == 0 then 0 else chains[k][i - 1]);
    res := RemoveChain(fs, o, chains[k][i], if i == 0 then 0 else chains[k][i - 1], chains[k], i);
    if res == FR_OK {
      Removed(old(fs.table), fs.table, chains, k, i, EndMark(fs.fsType));
    }
  }

  method CreateStep(fs: FatFs, o: ObjId, chains: seq<seq<nat>>, k: nat) returns (ncl: nat)
    requires fs.Valid() && fs.fsType != EXFAT
    requires Represents(fs.table, chains) && FreeOk(fs.table, fs.freeClst)
    modifies fs`winsect, fs`wflag, fs`disk, fs`health, fs`fat, fs`table, fs`lastClst, fs`freeClst, fs.win
    ensures fs.Valid() && (ncl < fs.nFatent || ncl == DISK_ERROR)
    ensures ncl != DISK_ERROR ==> FreeOk(fs.table, fs.freeClst)
    ensures ncl < 2 ==> fs.table == old(fs.table)
    ensures ncl == 0 ==> Full(fs.table)
    ensures ncl == 1 ==> HasOne(fs.table)
    ensures 2 <= ncl < fs.nFatent ==>
      && old(fs.table)[ncl] == 0
      && ElsewhereKept(old(fs.table), fs.table, if k < |chains| then chains[k] else [], ncl)
    ensures 2 <= ncl < fs.nFatent ==>
      Represents(fs.table, if k < |chains| then chains[k := chains[k] + [ncl]] else chains + [[ncl]])
    ensures ncl == DISK_ERROR ==> !fs.health.noError
  {
    if k < |chains| {
      var cs := chains[k];
      assert Linked(fs.table, cs, |cs| - 1);
      ncl := CreateChain(fs, o, cs[|cs| - 1]);
      if 2 <= ncl < fs.nFatent {
        Stretched(fs.fsType, old(fs.table), chains, k, ncl);
      }
    } else {
      ncl := CreateChain(fs, o, 0);
      if 2 <= ncl < fs.nFatent {
        NewChain(fs.fsType, old(fs.table), chains, ncl);
      }
    }
  }
}
