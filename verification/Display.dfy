/**
 * The double-buffered animation of dp-test/main.c with soctfb/video.c on a design whose frame fetch bypasses the
 * caches: CPU stores reach DRAM only by flushes or evictions, and the VDMA changes frame stores at a frame
 * boundary of its own choosing.
 */
module Display {
  import opened Bytes
  import Raster

  type Mem = nat -> byte

  function Set(m: Mem, a: nat, v: byte): Mem { (x: nat) => if x == a then v else m(x) }

  /** `to` with the 64-byte line at `line` taken from `from`. */
  function WithLine(to: Mem, from: Mem, line: nat): Mem {
    (x: nat) => if line <= x < line + 64 then from(x) else to(x)
  }

  /** A screen that holds the teapot box, and two frame stores that do not overlap. */
  datatype Screen = Screen(width: nat, height: nat, store0: nat, store1: nat) {
    function Size(): nat { 3 * Times(height, width) }

    function Base(i: nat): nat { if i == 0 then store0 else store1 }

    /** teapot_bounds. */
    function BoxX(): int { width / 2 - 144 }
    function BoxY(): int { height / 2 - 144 }

    predicate Sane() {
      && width >= 288 && height >= 288
      && (store0 + Size() <= store1 || store1 + Size() <= store0)
    }

    /** The address of byte `channel` of pixel (x, y) of the store at `base`. */
    function Address(base: nat, x: nat, y: nat, channel: nat): nat { base + 3 * (Times(y, width) + x) + channel }

    ghost predicate InStore(i: nat, a: nat) { Base(i) <= a < Base(i) + Size() }

    /** a is a byte of the teapot box of the store at `base`. */
    ghost predicate InBoxOf(base: nat, a: nat)
      requires Sane()
    {
      exists r: nat | r < 288 :: InRow(base, r, a)
    }

    /** a is a byte of row r of the box. */
    predicate InRow(base: nat, r: nat, a: nat)
      requires Sane()
    {
      Address(base, BoxX(), BoxY() + r, 0) <= a < Address(base, BoxX(), BoxY() + r, 0) + 3 * 288
    }
  }

  lemma RowInStore(s: Screen, base: nat, r: nat, a: nat)
    requires s.Sane() && r < 288 && s.InRow(base, r, a)
    ensures base <= a < base + s.Size()
  {
    MulMono(s.width, s.BoxY() + r + 1, s.height);
    assert Times(s.BoxY() + r, s.width) + s.width == s.width * (s.BoxY() + r + 1);
  }

  /** Every rendering store lands in its row of the box. */
  lemma PutInRow(s: Screen, base: nat, p: Raster.Put)
    requires s.Sane() && Raster.InBox(p)
    ensures s.InRow(base, p.y, s.Address(base, s.BoxX() + p.x, s.BoxY() + p.y, p.channel))
  {
  }

  class Board {
    const screen: Screen
    var cpu: Mem
    var dram: Mem
    var front: nat
    var draw: nat
    var parked: nat
    var scanning: nat
    /** No CPU store has hit the store being scanned. */
    ghost var storesOk: bool
    /** Whenever the VDMA changed stores, the new one was in DRAM as the CPU last wrote it. */
    ghost var switchesOk: bool

    ghost predicate Synced(lo: nat, hi: nat)
      reads `cpu, `dram
    {
      forall a | lo <= a < hi :: dram(a) == cpu(a)
    }

    ghost predicate StoreSynced(i: nat)
      reads `cpu, `dram
    {
      Synced(screen.Base(i), screen.Base(i) + screen.Size())
    }

    /** The quiet state between two flips. */
    ghost predicate Steady()
      reads this
    {
      && screen.Sane() && front <= 1 && parked == front == scanning
      && draw == screen.Base(1 - front) && storesOk && switchesOk
    }

    /** Outside the teapot box the hidden store is in DRAM as the CPU last wrote it. */
    ghost predicate OnlyBoxDirty()
      requires screen.Sane()
      reads `cpu, `dram, `draw
    {
      forall a | draw <= a < draw + screen.Size() && !screen.InBoxOf(draw, a) :: dram(a) == cpu(a)
    }

    /** The CPU has left store i black. */
    ghost predicate Black(i: nat)
      reads `cpu
    {
      forall a | screen.Base(i) <= a < screen.Base(i) + screen.Size() :: cpu(a) == 0
    }

    /** Store i is black around the teapot box. */
    ghost predicate BlackAround(i: nat)
      requires screen.Sane()
      reads `cpu
    {
      forall a | screen.Base(i) <= a < screen.Base(i) + screen.Size() && !screen.InBoxOf(screen.Base(i), a) :: cpu(a) == 0
    }

    ghost predicate BothBlackAround()
      requires screen.Sane()
      reads `cpu
    {
      BlackAround(0) && BlackAround(1)
    }

    /** The caches and the VDMA at work: any evictions, any frame boundaries. */
    method Environment()
      requires switchesOk && (parked == scanning || StoreSynced(parked))
      modifies `dram, `scanning, `switchesOk
      ensures forall a: nat :: dram(a) == old(dram)(a) || dram(a) == cpu(a)
      ensures scanning == old(scanning) || scanning == parked
      ensures switchesOk
    {
      var turns: nat :| turns >= 0;
      for i := 0 to turns
        invariant forall a: nat :: dram(a) == old(dram)(a) || dram(a) == cpu(a)
        invariant scanning == old(scanning) || scanning == parked
        invariant switchesOk && (parked == scanning || StoreSynced(parked))
      {
        var line: nat :| line >= 0;
        var boundary: bool := *;
        dram := WithLine(dram, cpu, 64 * line);
        if boundary {
          switchesOk := switchesOk && (scanning == parked || StoreSynced(parked));
          scanning := parked;
        }
      }
    }

    method StoreByte(a: nat, v: byte)
      modifies `cpu, `storesOk
      ensures cpu == Set(old(cpu), a, v)
      ensures storesOk == (old(storesOk) && !screen.InStore(scanning, a))
    {
      storesOk := storesOk && !screen.InStore(scanning, a);
      cpu := Set(cpu, a, v);
    }

    /** A write of the Flush64 register: the line is in DRAM when it returns. */
    method Flush64(line: nat)
      modifies `dram
      ensures dram == WithLine(old(dram), cpu, line)
    {
      dram := WithLine(dram, cpu, line);
    }

    /** l2_flush_range: afterwards DRAM holds every byte of [addr, addr + len). */
    method FlushRange(addr: nat, len: nat)
      requires Steady()
      modifies `dram, `scanning, `switchesOk
      ensures Steady() && Synced(addr, addr + len)
      ensures forall a: nat :: dram(a) == old(dram)(a) || dram(a) == cpu(a)
    {
      var start, end := addr / 64 * 64, (addr + len + 63) / 64 * 64;
      var a := start;
      while a < end
        invariant start <= a <= end && (end - a) % 64 == 0
        invariant Steady() && Synced(start, a)
        invariant forall x: nat :: dram(x) == old(dram)(x) || dram(x) == cpu(x)
      {
        Flush64(a);
        Environment();
        a := a + 64;
      }
    }

    /** fb_clear: memset of the draw buffer. */
    method FbClear()
      requires Steady()
      modifies `cpu, `dram, `scanning, `storesOk, `switchesOk
      ensures Steady()
      ensures forall a: nat | !(draw <= a < draw + screen.Size()) :: cpu(a) == old(cpu)(a)
      ensures forall a: nat :: dram(a) == old(dram)(a) || dram(a) == cpu(a) || draw <= a < draw + screen.Size()
      ensures Black(1 - front)
    {
      for k := 0 to screen.Size()
        invariant Steady()
        invariant forall a | draw <= a < draw + k :: cpu(a) == 0
        invariant forall a: nat | !(draw <= a < draw + screen.Size()) :: cpu(a) == old(cpu)(a)
        invariant forall a: nat :: dram(a) == old(dram)(a) || dram(a) == cpu(a) || draw <= a < draw + screen.Size()
      {
        StoreByte(draw + k, 0);
        Environment();
      }
    }

    /** vdma_park_wait: point the park register at `next` and wait for the frame boundary, or give up. */
    method ParkWait(next: nat) returns (ok: bool)
      requires switchesOk && StoreSynced(next)
      modifies `parked, `dram, `scanning, `switchesOk
      ensures switchesOk && parked == next && StoreSynced(next) && (ok ==> scanning == next)
      ensures forall a: nat :: dram(a) == old(dram)(a) || dram(a) == cpu(a)
    {
      parked := next;
      for i := 0 to 1002
        invariant switchesOk && parked == next && StoreSynced(next)
        invariant forall a: nat :: dram(a) == old(dram)(a) || dram(a) == cpu(a)
      {
        Environment();
        if scanning == next {
          return true;
        }
      }
      return false;
    }

    /** fb_flip: the hidden store, wholly in DRAM, becomes the shown one. */
    method FbFlip() returns (ok: bool)
      requires Steady() && StoreSynced(1 - front)
      modifies `parked, `dram, `scanning, `switchesOk, `front, `draw
      ensures storesOk && switchesOk
      ensures ok ==> Steady() && front == 1 - old(front) && StoreSynced(front)
      ensures forall a: nat :: dram(a) == old(dram)(a) || dram(a) == cpu(a)
    {
      var next := 1 - front;
      ok := ParkWait(next);
      if ok {
        front := next;
        draw := screen.Base(1 - next);
      }
    }

    /** fb_flush_draw: the whole draw buffer. */
    method FbFlushDraw()
      requires Steady()
      modifies `dram, `scanning, `switchesOk
      ensures Steady() && StoreSynced(1 - front)
      ensures forall a: nat :: dram(a) == old(dram)(a) || dram(a) == cpu(a)
    {
      FlushRange(draw, screen.Size());
    }

    /** fb_flush_rect on the teapot box: one range a row. */
    method FlushBox()
      requires Steady()
      modifies `dram, `scanning, `switchesOk
      ensures Steady()
      ensures forall a: nat | screen.InBoxOf(draw, a) :: dram(a) == cpu(a)
      ensures forall a: nat :: dram(a) == old(dram)(a) || dram(a) == cpu(a)
    {
      for r := 0 to 288
        invariant Steady()
        invariant forall a: nat, q: nat | q < r && screen.InRow(draw, q, a) :: dram(a) == cpu(a)
        invariant forall a: nat :: dram(a) == old(dram)(a) || dram(a) == cpu(a)
      {
        FlushRange(screen.Address(draw, screen.BoxX(), screen.BoxY() + r, 0), 3 * 288);
      }
    }

    /** The framebuffer stores of teapot_render, with evictions in between. */
    method RenderInto(puts: seq<Raster.Put>)
      requires Steady() && OnlyBoxDirty() && StoreSynced(front) && BothBlackAround() && Raster.AllInBox(puts)
      modifies `cpu, `dram, `scanning, `storesOk, `switchesOk
      ensures Steady() && OnlyBoxDirty() && StoreSynced(front) && BothBlackAround()
    {
      for i := 0 to |puts|
        invariant Steady() && OnlyBoxDirty() && StoreSynced(front) && BothBlackAround()
      {
        RenderOne(puts[i]);
      }
    }

    method RenderOne(p: Raster.Put)
      requires Steady() && OnlyBoxDirty() && StoreSynced(front) && BothBlackAround() && Raster.InBox(p)
      modifies `cpu, `dram, `scanning, `storesOk, `switchesOk
      ensures Steady() && OnlyBoxDirty() && StoreSynced(front) && BothBlackAround()
    {
      var a := screen.Address(draw, screen.BoxX() + p.x, screen.BoxY() + p.y, p.channel);
      PutInRow(screen, draw, p);
      RowInStore(screen, draw, p.y, a);
      StoreByte(a, p.v);
      Environment();
    }

    /** One turn of the animation: rasterise the faces, flush the box, flip. */
    method Frame(faces: seq<Raster.Face>) returns (ok: bool)
      requires Steady() && OnlyBoxDirty() && StoreSynced(front) && BothBlackAround()
      requires forall i | 0 <= i < |faces| :: Raster.NoOverflow(faces[i])
      modifies this
      ensures storesOk && switchesOk && BothBlackAround()
      ensures ok ==> Steady() && OnlyBoxDirty() && StoreSynced(front) && front == 1 - old(front)
    {
      var px := new Raster.Pixel[288, 288]((i, j) => Raster.Pixel(0, 0));
      var puts := Raster.Render(px, faces);
      RenderInto(puts);
      FlushBox();
      assert StoreSynced(1 - front);
      ok := FbFlip();
    }

    /** anim_blank_and_baseline with flipping: both stores black and in DRAM. */
    method BlankAndBaseline() returns (ok: bool)
      requires screen.Sane() && front <= 1 && parked == front == scanning && storesOk && switchesOk
      modifies this
      ensures storesOk && switchesOk
      ensures ok ==> Steady() && StoreSynced(0) && StoreSynced(1) && Black(0) && Black(1)
    {
      draw := screen.Base(1 - front);
      BlankHidden();
      ok := FbFlip();
      if ok {
        BlankHidden();
      }
    }

    /** Clears and flushes the hidden store; the shown one stays as it is. */
    method BlankHidden()
      requires Steady()
      modifies `cpu, `dram, `scanning, `storesOk, `switchesOk
      ensures Steady() && Black(1 - front) && StoreSynced(1 - front)
      ensures old(Black(front)) ==> Black(front)
      ensures old(StoreSynced(front)) ==> StoreSynced(front)
    {
      FbClear();
      FbFlushDraw();
    }

    /**
     * anim_live for any number of frames: no CPU store ever hits the store being scanned, and each time the VDMA
     * changes stores every byte of the new one is in DRAM as the CPU last wrote it. Around the teapot the screen
     * stays black.
     */
    method AnimLive(frames: seq<seq<Raster.Face>>) returns (ok: bool)
      requires screen.Sane() && front <= 1 && parked == front == scanning && storesOk && switchesOk
      requires forall k, i | 0 <= k < |frames| && 0 <= i < |frames[k]| :: Raster.NoOverflow(frames[k][i])
      modifies this
      ensures storesOk && switchesOk
      ensures ok ==> Steady() && StoreSynced(front) && BothBlackAround()
    {
      ok := BlankAndBaseline();
      if !ok {
        return;
      }
      for k := 0 to |frames|
        invariant Steady() && OnlyBoxDirty() && StoreSynced(front) && BothBlackAround()
      {
        ok := Frame(frames[k]);
        if !ok {
          return;
        }
      }
      ok := true;
    }
  }
}
