/** Fast seek: the cluster link map that f_lseek builds and clmt_clust reads. */
module LinkMap {
  import opened Bytes
  import opened Volume

  /** Length of the contiguous run that starts at cs[i]. */
  ghost function RunLen(cs: seq<nat>, i: nat): (n: nat)
    requires i < |cs|
    ensures 1 <= n <= |cs| - i
    decreases |cs| - i
  {
    if i + 1 < |cs| && cs[i + 1] == cs[i] + 1 then 1 + RunLen(cs, i + 1) else 1
  }

  /** The fragments of cs from index i on: length and first cluster of each. */
  ghost function Runs(cs: seq<nat>, i: nat): seq<(nat, nat)>
    decreases |cs| - i
  {
    if i >= |cs| then [] else [(RunLen(cs, i), cs[i])] + Runs(cs, i + RunLen(cs, i))
  }

  /** Cluster k of a list of fragments, 0 past its end. */
  ghost function Lookup(runs: seq<(nat, nat)>, k: nat): nat {
    if runs == [] then 0 else if k < runs[0].0 then runs[0].1 + k else Lookup(runs[1..], k - runs[0].0)
  }

  lemma {:induction false} RunIsContiguous(cs: seq<nat>, i: nat, k: nat)
    requires i < |cs| && k < RunLen(cs, i)
    ensures cs[i + k] == cs[i] + k
    decreases k
  {
    if k > 0 {
      RunIsContiguous(cs, i + 1, k - 1);
    }
  }

  /** Looking a cluster up in the fragments is the same as walking the chain. */
  lemma {:induction false} LookupIsWalk(cs: seq<nat>, i: nat, k: nat)
    ensures Lookup(Runs(cs, i), k) == if i + k < |cs| then cs[i + k] else 0
    decreases |cs| - i
  {
    if i < |cs| {
      var n := RunLen(cs, i);
      if k < n {
        RunIsContiguous(cs, i, k);
      } else {
        assert Runs(cs, i)[1..] == Runs(cs, i + n);
        LookupIsWalk(cs, i + n, k - n);
      }
    }
  }

  /** tbl[at..] holds the fragments, length before top, and then a 0. */
  ghost predicate Holds(tbl: seq<nat>, at: nat, runs: seq<(nat, nat)>) {
    && at + 2 * |runs| < |tbl|
    && (forall r | 0 <= r < |runs| :: tbl[at + 2 * r] == runs[r].0 > 0 && tbl[at + 2 * r + 1] == runs[r].1)
    && tbl[at + 2 * |runs|] == 0
  }

  /** clmt_clust: the cluster of a file offset according to the map. */
  method ClmtClust(tbl: array<nat>, csize: nat, ofs: nat, ghost runs: seq<(nat, nat)>) returns (clst: nat)
    requires csize > 0 && Holds(tbl[..], 1, runs)
    ensures clst == Lookup(runs, ofs / 512 / csize)
  {
    var t, cl: nat := 1, Quot(ofs / 512, csize);
    ghost var r := 0;
    while true
      invariant 0 <= r <= |runs| && t == 1 + 2 * r
      invariant Lookup(runs[r..], cl) == Lookup(runs, ofs / 512 / csize)
      decreases |runs| - r
    {
      var ncl := tbl[t];
      if ncl == 0 {
        return 0;
      }
      if cl < ncl {
        return cl + tbl[t + 1];
      }
      assert runs[r..][1..] == runs[r + 1..];
      cl, t, r := cl - ncl, t + 2, r + 1;
    }
  }

  datatype MapResult = Made | TooSmall | Failed(error: FResult)

  /** cs is the object's chain as get_fat walks it, ended by any mark that is no cluster number. */
  ghost predicate Walks(t: FsType, csize: nat, table: seq<nat>, o: Chain, cs: seq<nat>)
    requires csize > 0
  {
    && (forall i | 0 <= i < |cs| :: 2 <= cs[i] < |table|)
    && (forall i | 0 < i < |cs| :: LinkOf(t, csize, table, o, cs[i - 1]) == cs[i])
    && (|cs| > 0 ==> LinkOf(t, csize, table, o, cs[|cs| - 1]) >= |table|)
    && o.sclust == if |cs| > 0 then cs[0] else 0
  }

  /** The chain ends in the volume's last cluster and its end mark is the number after it. */
  ghost predicate RunsOn(t: FsType, csize: nat, table: seq<nat>, o: Chain, cs: seq<nat>)
    requires csize > 0
  {
    |cs| > 0 && LinkOf(t, csize, table, o, cs[|cs| - 1]) == cs[|cs| - 1] + 1
  }

  /**
   * It happens on the largest exFAT volume that is mounted: get_fat itself ends a contiguous one-cluster object in the
   * last cluster with 0x7FFFFFFF.
   */
  lemma RunsOnOnLargestVolume(table: seq<nat>)
    requires |table| == 0x7FFF_FFFF
    ensures var o, cs := Chain(0x7FFF_FFFE, 512, 2, 0, 0), [0x7FFF_FFFE];
      Walks(EXFAT, 1, table, o, cs) && RunsOn(EXFAT, 1, table, o, cs)
  {
    ClustersBelowIs(0, 1);
  }

  /** And on a FAT12 volume of two clusters whose end mark is 4. */
  lemma RunsOnOnSmallVolume()
    ensures var o, table, cs := Chain(3, 512, 0, 0, 0), [0, 0, 0, 4], [3];
      Walks(FAT12, 1, table, o, cs) && RunsOn(FAT12, 1, table, o, cs)
  {
  }

  lemma WalkLink(t: FsType, csize: nat, table: seq<nat>, o: Chain, cs: seq<nat>, j: nat)
    requires csize > 0 && Walks(t, csize, table, o, cs) && j < |cs|
    ensures 2 <= cs[j] < |table|
    ensures if j + 1 < |cs| then LinkOf(t, csize, table, o, cs[j]) == cs[j + 1] else LinkOf(t, csize, table, o, cs[j]) >= |table|
    ensures j + 1 == |cs| ==> (RunsOn(t, csize, table, o, cs) <==> LinkOf(t, csize, table, o, cs[j]) == cs[j] + 1)
  {
    assert j + 1 < |cs| ==> LinkOf(t, csize, table, o, cs[j + 1 - 1]) == cs[j + 1];
  }

  /** Where a walk stands: at cluster j of the chain, or behind its end by a mark that ran on. */
  ghost predicate Stands(n: nat, cs: seq<nat>, j: nat, cl: nat, runsOn: bool) {
    j <= |cs| && if j < |cs| then cl == cs[j] < n else cl == n && runsOn
  }

  /** get_fat along the chain: the next cluster, the end mark, or an error behind a mark that ran on. */
  method Next(fs: FatFs, obj: ObjId, cl: nat, ghost cs: seq<nat>, ghost j: nat, ghost runsOn: bool) returns (v: nat)
    requires fs.Valid() && Walks(fs.fsType, fs.csize, fs.table, obj.State(), cs)
    requires runsOn == RunsOn(fs.fsType, fs.csize, fs.table, obj.State(), cs) && Stands(fs.nFatent, cs, j, cl, runsOn)
    modifies fs`winsect, fs`wflag, fs`disk, fs`health, fs.win
    ensures fs.Valid()
    ensures v == DISK_ERROR || (j == |cs| && v == 1) || (j + 1 < |cs| && 2 <= v == cs[j + 1] < fs.nFatent)
            || (j + 1 == |cs| && v >= fs.nFatent && (runsOn <==> v == cl + 1))
    ensures v == DISK_ERROR ==> !fs.health.noError
  {
    if j < |cs| {
      WalkLink(fs.fsType, fs.csize, fs.table, obj.State(), cs, j);
      if j + 1 < |cs| {
        WalkLink(fs.fsType, fs.csize, fs.table, obj.State(), cs, j + 1);
      }
    }
    v := fs.GetFat(obj, cl);
  }

  /** One fragment: its length and what the chain continues with. An end mark that looks like the next cluster is followed. */
  method Fragment(fs: FatFs, obj: ObjId, top: nat, ghost cs: seq<nat>, ghost i: nat, ghost runsOn: bool)
    returns (res: FResult, ncl: nat, cl: nat)
    requires fs.Valid() && Walks(fs.fsType, fs.csize, fs.table, obj.State(), cs)
    requires runsOn == RunsOn(fs.fsType, fs.csize, fs.table, obj.State(), cs) && i < |cs| && Stands(fs.nFatent, cs, i, top, runsOn)
    modifies fs`winsect, fs`wflag, fs`disk, fs`health, fs.win
    ensures fs.Valid()
    ensures res == FR_INT_ERR ==> runsOn
    ensures res == FR_OK ==> ncl == RunLen(cs, i) && if i + ncl < |cs| then cl == cs[i + ncl] < fs.nFatent else cl >= fs.nFatent && !runsOn
    ensures res == FR_DISK_ERR ==> !fs.health.noError
  {
    cl, ncl, res := top, 0, FR_OK;
    var pcl := cl;
    while true
      invariant fs.Valid() && res == FR_OK
      invariant Stands(fs.nFatent, cs, i + ncl, cl, runsOn)
      invariant i + ncl < |cs| ==> ncl + RunLen(cs, i + ncl) == RunLen(cs, i)
      decreases |cs| - ncl
    {
      pcl, ncl := cl, ncl + 1;
      cl := Next(fs, obj, cl, cs, i + ncl - 1, runsOn);
      if cl <= 1 { return FR_INT_ERR, ncl, cl; }
      if cl == DISK_ERROR { return FR_DISK_ERR, ncl, cl; }
      if cl != pcl + 1 { return; }
    }
  }

  /** tbl[1..] starts with the first k fragments. */
  ghost predicate Stored(tbl: seq<nat>, runs: seq<(nat, nat)>, k: nat)
    requires k <= |runs|
  {
    && 2 * k < |tbl|
    && forall r | 0 <= r < k :: tbl[1 + 2 * r] == runs[r].0 && tbl[2 + 2 * r] == runs[r].1
  }

  /** Stores fragment k. */
  method Put(tbl: array<nat>, t: nat, ncl: nat, tcl: nat, ghost runs: seq<(nat, nat)>, ghost k: nat)
    requires k < |runs| && t == 1 + 2 * k && t + 2 < tbl.Length && Stored(tbl[..], runs, k) && runs[k] == (ncl, tcl)
    modifies tbl
    ensures tbl[0] == old(tbl[0]) && Stored(tbl[..], runs, k + 1)
  {
    tbl[t], tbl[t + 1] := ncl, tcl;
    assert forall r | 0 <= r < k :: tbl[..][1 + 2 * r] == old(tbl[..])[1 + 2 * r] && tbl[..][2 + 2 * r] == old(tbl[..])[2 + 2 * r];
  }

  /** Stores the number of items used and terminates the table. */
  method Close(tbl: array<nat>, ulen: nat, t: nat, ghost runs: seq<(nat, nat)>)
    requires t == 1 + 2 * |runs| < tbl.Length && Stored(tbl[..], runs, |runs|)
    requires forall r | 0 <= r < |runs| :: runs[r].0 > 0
    modifies tbl
    ensures tbl[0] == ulen && Holds(tbl[..], 1, runs)
  {
    tbl[0] := ulen;
    tbl[t] := 0;
    assert forall r | 0 <= r < |runs| :: tbl[..][1 + 2 * r] == old(tbl[..])[1 + 2 * r] && tbl[..][2 + 2 * r] == old(tbl[..])[2 + 2 * r];
  }

  /** Cluster i of the chain starts run k. */
  ghost predicate Starts(cs: seq<nat>, i: nat, runs: seq<(nat, nat)>, k: nat) {
    i < |cs| && k < |runs| && runs[k..] == Runs(cs, i)
  }

  lemma NextRun(cs: seq<nat>, i: nat, runs: seq<(nat, nat)>, k: nat)
    requires Starts(cs, i, runs, k)
    ensures runs[k] == (RunLen(cs, i), cs[i])
    ensures if i + RunLen(cs, i) < |cs| then Starts(cs, i + RunLen(cs, i), runs, k + 1) else k + 1 == |runs|
  {
    assert runs[k] == runs[k..][0] && runs[k + 1..] == runs[k..][1..];
    if i + RunLen(cs, i) < |cs| {
      assert |Runs(cs, i + RunLen(cs, i))| > 0;
    }
  }

  /** ulen items are needed for k runs; while they fit, the runs are stored and the next goes to t. */
  ghost predicate Filled(tbl: seq<nat>, runs: seq<(nat, nat)>, k: nat, ulen: nat, t: nat, tlen: nat)
    requires k <= |runs|
  {
    ulen == 2 + 2 * k && (ulen <= tlen ==> t == 1 + 2 * k && Stored(tbl, runs, k))
  }

  /** The loop over the fragments, about to measure run k from cluster i on. */
  ghost predicate Filling(tbl: seq<nat>, cs: seq<nat>, i: nat, runs: seq<(nat, nat)>, k: nat, cl: nat, ulen: nat, t: nat, tlen: nat) {
    Starts(cs, i, runs, k) && cl == cs[i] && Filled(tbl, runs, k, ulen, t, tlen)
  }

  /** One turn of the loop: measures a fragment and, if there is room, stores it. */
  method AddRun(fs: FatFs, obj: ObjId, tbl: array<nat>, tlen: nat, ulen0: nat, t0: nat, top: nat, ghost cs: seq<nat>,
                ghost i: nat, ghost runs: seq<(nat, nat)>, ghost k: nat, ghost runsOn: bool)
    returns (res: FResult, ghost i': nat, cl: nat, ulen: nat, t: nat)
    requires fs.Valid() && Walks(fs.fsType, fs.csize, fs.table, obj.State(), cs)
    requires runsOn == RunsOn(fs.fsType, fs.csize, fs.table, obj.State(), cs)
    requires {tbl as object} !! {fs as object, fs.win as object}
    requires 0 < tbl.Length && tlen <= tbl.Length && Filling(tbl[..], cs, i, runs, k, top, ulen0, t0, tlen)
    modifies fs`winsect, fs`wflag, fs`disk, fs`health, fs.win, tbl
    ensures fs.Valid() && tbl[0] == old(tbl[0])
    ensures res == FR_INT_ERR ==> runsOn
    ensures res == FR_OK && cl < fs.nFatent ==> i < i' && Filling(tbl[..], cs, i', runs, k + 1, cl, ulen, t, tlen)
    ensures res == FR_OK && cl >= fs.nFatent ==>
      k + 1 == |runs| && Filled(tbl[..], runs, k + 1, ulen, t, tlen) && !runsOn
    ensures res == FR_DISK_ERR ==> !fs.health.noError
  {
    NextRun(cs, i, runs, k);
    ulen, t := ulen0 + 2, t0;
    var ncl;
    res, ncl, cl := Fragment(fs, obj, top, cs, i, runsOn);
    i' := i + ncl;
    if res == FR_OK && ulen <= tlen {
      Put(tbl, t, ncl, top, runs, k);
      t := t + 2;
    }
  }

  /**
   * f_lseek with CREATE_LINKMAP. The table's first item gives its size; on return it gives the
   * size needed, whether the table was large enough or not. Besides disk errors it fails exactly when
   * the end mark runs on from the last cluster.
   */
  method CreateLinkMap(fs: FatFs, obj: ObjId, tbl: array<nat>, ghost cs: seq<nat>) returns (res: MapResult)
    requires fs.Valid() && Walks(fs.fsType, fs.csize, fs.table, obj.State(), cs)
    requires 0 < tbl.Length && tbl[0] <= tbl.Length
    requires {tbl as object} !! {fs as object, fs.win as object}
    modifies fs`winsect, fs`wflag, fs`disk, fs`health, fs.win, tbl
    ensures fs.Valid()
    ensures res == Failed(FR_INT_ERR) ==> RunsOn(fs.fsType, fs.csize, fs.table, obj.State(), cs)
    ensures RunsOn(fs.fsType, fs.csize, fs.table, obj.State(), cs) ==> res.Failed?
    ensures !res.Failed? ==> tbl[0] == 2 + 2 * |Runs(cs, 0)| && (res == Made <==> tbl[0] <= old(tbl[0]))
    ensures res == Made ==> Holds(tbl[..], 1, Runs(cs, 0))
    ensures res == Failed(FR_DISK_ERR) ==> !fs.health.noError
  {
    var tlen := tbl[0];
    ghost var runs := Runs(cs, 0);
    var r, ulen, t := FillMap(fs, obj, tbl, tlen, cs, RunsOn(fs.fsType, fs.csize, fs.table, obj.State(), cs));
    if r != FR_OK { return Failed(r); }
    if ulen <= tlen {
      RunsPositive(cs, 0);
      Close(tbl, ulen, t, runs);
      res := Made;
    } else {
      tbl[0] := ulen;
      res := TooSmall;
    }
  }

  /** The loop over the fragments; ulen counts the items needed, t where the next one goes. */
  method FillMap(fs: FatFs, obj: ObjId, tbl: array<nat>, tlen: nat, ghost cs: seq<nat>, ghost runsOn: bool)
    returns (res: FResult, ulen: nat, t: nat)
    requires fs.Valid() && Walks(fs.fsType, fs.csize, fs.table, obj.State(), cs)
    requires runsOn == RunsOn(fs.fsType, fs.csize, fs.table, obj.State(), cs)
    requires 0 < tbl.Length && tlen <= tbl.Length
    requires {tbl as object} !! {fs as object, fs.win as object}
    modifies fs`winsect, fs`wflag, fs`disk, fs`health, fs.win, tbl
    ensures fs.Valid() && tbl[0] == old(tbl[0])
    ensures res == FR_INT_ERR ==> runsOn
    ensures res == FR_OK ==>
      Filled(tbl[..], Runs(cs, 0), |Runs(cs, 0)|, ulen, t, tlen) && !runsOn
    ensures res == FR_DISK_ERR ==> !fs.health.noError
  {
    res, ulen, t := FR_OK, 2, 1;
    var cl: nat := obj.sclust;
    ghost var runs, i: nat, k: nat := Runs(cs, 0), 0, 0;
    if cl == 0 { return; }
    while true
      invariant fs.Valid() && tbl[0] == old(tbl[0])
      invariant Filling(tbl[..], cs, i, runs, k, cl, ulen, t, tlen)
      decreases |cs| - i
    {
      res, i, cl, ulen, t := AddRun(fs, obj, tbl, tlen, ulen, t, cl, cs, i, runs, k, runsOn);
      if res != FR_OK || cl >= fs.nFatent { return; }
      k := k + 1;
    }
  }

  lemma {:induction false} RunsPositive(cs: seq<nat>, i: nat)
    ensures forall r | 0 <= r < |Runs(cs, i)| :: Runs(cs, i)[r].0 > 0
    decreases |cs| - i
  {
    if i < |cs| {
      RunsPositive(cs, i + RunLen(cs, i));
    }
  }

  /** Through a map that was made, every offset in the file finds the cluster the chain has there. */
  method FastSeek(tbl: array<nat>, csize: nat, ofs: nat, ghost cs: seq<nat>) returns (clst: nat)
    requires csize > 0 && Holds(tbl[..], 1, Runs(cs, 0))
    ensures clst == if ofs / 512 / csize < |cs| then cs[ofs / 512 / csize] else 0
  {
    LookupIsWalk(cs, 0, Quot(ofs / 512, csize));
    clst := ClmtClust(tbl, csize, ofs, Runs(cs, 0));
  }
}
