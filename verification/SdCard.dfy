/** disk_read of sd-boot/bootrom.c: a long read is split into commands whose argument is 32 bits wide. */
module SdCard {
  import opened Bytes

  datatype DResult = RES_OK | RES_ERROR | RES_NOTRDY | RES_PARERR

  /** The argument register for sector s. */
  function Arg(blockMode: bool, s: nat): nat { (if blockMode then s else 512 * s) % 0x1_0000_0000 }

  lemma Low32(x: nat, y: nat, d: nat)
    requires x % 0x1_0000_0000 == y % 0x1_0000_0000
    ensures ((x + d) % 0x1_0000_0000_0000_0000) % 0x1_0000_0000 == (y + d) % 0x1_0000_0000
  {
    var r := (x + d) % 0x1_0000_0000_0000_0000;
    DivIs(x + d, 0x1_0000_0000, 0x1_0000_0000 * ((x + d) / 0x1_0000_0000_0000_0000) + r / 0x1_0000_0000);
    DivIs(y + d, 0x1_0000_0000, (x + d) / 0x1_0000_0000 - x / 0x1_0000_0000 + y / 0x1_0000_0000);
  }

  function NextAddress(blockMode: bool, address: nat, n: nat): nat {
    (address + if blockMode then n else 512 * n) % 0x1_0000_0000_0000_0000
  }

  /** A 64-bit running address keeps the argument register right. */
  lemma NextArg(blockMode: bool, address: nat, s: nat, n: nat)
    requires address % 0x1_0000_0000 == Arg(blockMode, s)
    ensures NextAddress(blockMode, address, n) % 0x1_0000_0000 == Arg(blockMode, s + n)
  {
    Low32(address, if blockMode then s else 512 * s, if blockMode then n else 512 * n);
  }

  /** The sector a command for sector s reaches: block addresses keep 32 bits of it, byte addresses 23. */
  function Reached(blockMode: bool, s: nat): nat {
    if blockMode then Arg(true, s) else Arg(false, s) / 512
  }

  lemma ReachedExactly(blockMode: bool, s: nat)
    ensures Reached(blockMode, s) == s <==> s < if blockMode then 0x1_0000_0000 else 0x80_0000
  {
    if !blockMode {
      assert s < 0x80_0000 ==> 512 * s < 0x1_0000_0000;
      assert s >= 0x80_0000 ==> ((512 * s) % 0x1_0000_0000) < 512 * 0x80_0000;
    }
  }

  /** Sector i of a read that starts at `sector`, split every 0x1000 sectors. */
  function SourceOf(blockMode: bool, sector: nat, i: nat): nat {
    Reached(blockMode, sector + i / 0x1000 * 0x1000) + i % 0x1000
  }

  /** The read can address the first sector of its last chunk. */
  predicate Addressable(blockMode: bool, sector: nat, count: nat)
    requires count > 0
  {
    sector + (count - 1) / 0x1000 * 0x1000 < if blockMode then 0x1_0000_0000 else 0x80_0000
  }

  /** A read comes from the sectors asked for if and only if the start of its last chunk can be addressed. */
  lemma AddressableExactly(blockMode: bool, sector: nat, count: nat)
    requires count > 0
    ensures (forall i | 0 <= i < count :: SourceOf(blockMode, sector, i) == sector + i) <==> Addressable(blockMode, sector, count)
  {
    ReachedExactly(blockMode, sector + (count - 1) / 0x1000 * 0x1000);
    if Addressable(blockMode, sector, count) {
      forall i | 0 <= i < count
        ensures SourceOf(blockMode, sector, i) == sector + i
      {
        assert i / 0x1000 <= (count - 1) / 0x1000;
        ReachedExactly(blockMode, sector + i / 0x1000 * 0x1000);
      }
    } else {
      assert SourceOf(blockMode, sector, count - 1) != sector + (count - 1);
    }
  }

  /** A byte-addressed card asked for the sector at 4 GiB answers with its first. */
  lemma ByteAddressWraps()
    ensures SourceOf(false, 0x80_0000, 0) == 0
  {
  }

  class Card {
    const blockMode: bool
    const initialised: bool
    const disk: seq<seq<byte>>

    /** send_data_cmd with CMD17 or CMD18: `bcnt` sectors from the address in the argument register. */
    method SendDataCmd(arg: nat, bcnt: nat) returns (ok: bool, blocks: seq<seq<byte>>)
      requires arg < 0x1_0000_0000
      ensures ok ==>
        var s := if blockMode then arg else arg / 512;
        s + bcnt <= |disk| && blocks == disk[s..s + bcnt]
    {
      ok, blocks := *, [];
      var s := if blockMode then arg else arg / 512;
      if s + bcnt > |disk| {
        ok := false;
      }
      if ok {
        blocks := disk[s..s + bcnt];
      }
    }

    /** The sectors read so far come from where the commands' arguments pointed. */
    ghost predicate From(sector: nat, data: seq<seq<byte>>) {
      forall i | 0 <= i < |data| ::
        SourceOf(blockMode, sector, i) < |disk| && data[i] == disk[SourceOf(blockMode, sector, i)]
    }

    /** disk_read. */
    method DiskRead(sector: nat, count: nat) returns (res: DResult, data: seq<seq<byte>>)
      requires sector < 0x1_0000_0000_0000_0000
      ensures res == RES_PARERR <==> count == 0
      ensures res == RES_NOTRDY <==> count > 0 && !initialised
      ensures res == RES_OK ==> |data| == count && From(sector, data)
      ensures res == RES_OK && Addressable(blockMode, sector, count) ==>
          sector + count <= |disk| && data == disk[sector..sector + count]
    {
      data := [];
      if count == 0 {
        return RES_PARERR, data;
      }
      if !initialised {
        return RES_NOTRDY, data;
      }
      Low32(0, 0, 512 * sector);
      var address: nat := if blockMode then sector else (512 * sector) % 0x1_0000_0000_0000_0000;
      var left := count;
      ghost var k := 0;
      while left > 0
        invariant 0 <= left <= count && |data| == count - left && From(sector, data)
        invariant left > 0 ==> |data| == 0x1000 * k
        invariant address % 0x1_0000_0000 == Arg(blockMode, sector + |data|)
      {
        var bcnt := if left > 0x1000 then 0x1000 else left;
        var ok, blocks := SendDataCmd(address % 0x1_0000_0000, bcnt);
        if !ok {
          return RES_ERROR, data;
        }
        if bcnt > 1 {
          var stopped: bool := *;
          if !stopped {
            return RES_ERROR, data;
          }
        }
        ChunkFrom(sector, data, k, blocks);
        NextArg(blockMode, address, sector + |data|, bcnt);
        address := NextAddress(blockMode, address, bcnt);
        left, data, k := left - bcnt, data + blocks, k + 1;
      }
      res := RES_OK;
      Exact(sector, data);
    }

    lemma Exact(sector: nat, data: seq<seq<byte>>)
      requires From(sector, data) && data != []
      ensures Addressable(blockMode, sector, |data|) ==>
          sector + |data| <= |disk| && data == disk[sector..sector + |data|]
    {
      if Addressable(blockMode, sector, |data|) {
        AddressableExactly(blockMode, sector, |data|);
        assert SourceOf(blockMode, sector, |data| - 1) < |disk|;
      }
    }

    lemma ChunkFrom(sector: nat, data: seq<seq<byte>>, k: nat, blocks: seq<seq<byte>>)
      requires From(sector, data) && |data| == 0x1000 * k && |blocks| <= 0x1000
      requires var s := Reached(blockMode, sector + |data|); s + |blocks| <= |disk| && blocks == disk[s..s + |blocks|]
      ensures From(sector, data + blocks)
    {
      var all := data + blocks;
      forall i | 0 <= i < |all|
        ensures SourceOf(blockMode, sector, i) < |disk| && all[i] == disk[SourceOf(blockMode, sector, i)]
      {
        if i >= |data| {
          assert i / 0x1000 == k;
        } else {
          assert all[i] == data[i];
        }
      }
    }
  }
}
