/** The event ring of usb-test/xhci.c: the host controller posts four-word TRBs, the driver pops them. */
module EventRing {
  /** A transfer request block as it lies in memory; the low bit of the control word is the cycle bit. */
  datatype Trb = Trb(param0: nat, param1: nat, status: nat, control: nat)

  /** What the controller may do between two steps of the driver. */
  datatype Act = Post(trb: Trb) | StoreWord

  function WithCycle(control: nat, cycle: nat): nat { control - control % 2 + cycle }

  /** The slot before `index` on the ring. */
  function Before(index: nat): nat { if index == 0 then 63 else index - 1 }

  function TrbAt(words: seq<nat>, slot: nat): Trb
    requires |words| == 256 && slot < 64
  {
    Trb(words[4 * slot], words[4 * slot + 1], words[4 * slot + 2], words[4 * slot + 3])
  }

  /**
   * Slot i when `made` has filled `pass` whole passes and `enqueue` slots of the next, which carries `cycle`.
   * A slot holds the last event posted to it. The one now being rewritten has only its cycle bit as it was.
   */
  ghost predicate SlotOk(words: seq<nat>, made: seq<Trb>, pass: nat, enqueue: nat, cycle: nat, posting: bool, i: nat)
    requires |words| == 256 && |made| == 64 * pass + enqueue && i < 64
  {
    if i < enqueue then
      TrbAt(words, i) == made[64 * pass + i] && words[4 * i + 3] % 2 == cycle
    else
      && words[4 * i + 3] % 2 == 1 - cycle
      && (pass > 0 && !(posting && i == enqueue) ==> TrbAt(words, i) == made[64 * (pass - 1) + i])
  }

  ghost predicate Laid(words: seq<nat>, made: seq<Trb>, pass: nat, enqueue: nat, cycle: nat, posting: bool)
    requires |words| == 256
  {
    && |made| == 64 * pass + enqueue && enqueue < 64 && cycle <= 1
    && forall i | 0 <= i < 64 :: SlotOk(words, made, pass, enqueue, cycle, posting, i)
  }

  /** The driver's position: in the controller's pass, or in the one before it with the other cycle bit. */
  ghost predicate Reads(taken: nat, index: nat, expected: nat, pass: nat, cycle: nat) {
    && index < 64 && cycle <= 1
    && ((taken == 64 * pass + index && expected == cycle) || (taken == 64 * (pass - 1) + index && expected == 1 - cycle))
  }

  /** The cycle bit alone tells a new event from a stale one. */
  lemma CycleTells(words: seq<nat>, made: seq<Trb>, pass: nat, enqueue: nat, cycle: nat, posting: bool,
                   taken: nat, index: nat, expected: nat)
    requires |words| == 256 && Laid(words, made, pass, enqueue, cycle, posting)
    requires Reads(taken, index, expected, pass, cycle) && taken <= |made| <= taken + 63
    ensures words[4 * index + 3] % 2 == expected <==> taken < |made|
    ensures taken < |made| ==> TrbAt(words, index) == made[taken]
  {
    assert SlotOk(words, made, pass, enqueue, cycle, posting, index);
  }

  /** The event taken last is still in place, although the driver's position is already past it. */
  lemma LastTakenStays(words: seq<nat>, made: seq<Trb>, pass: nat, enqueue: nat, cycle: nat, posting: bool,
                       taken: nat, index: nat, expected: nat)
    requires |words| == 256 && Laid(words, made, pass, enqueue, cycle, posting)
    requires Reads(taken, index, expected, pass, cycle) && taken <= |made| <= taken + 63
    requires posting ==> |made| < taken + 63
    requires taken > 0
    ensures TrbAt(words, Before(index)) == made[taken - 1]
  {
    assert SlotOk(words, made, pass, enqueue, cycle, posting, Before(index));
  }

  lemma PayloadKept(words: seq<nat>, made: seq<Trb>, pass: nat, enqueue: nat, cycle: nat, at: nat, v: nat,
                    words': seq<nat>)
    requires |words| == 256 && Laid(words, made, pass, enqueue, cycle, true) && at < 3
    requires words' == words[4 * enqueue + at := v]
    ensures Laid(words', made, pass, enqueue, cycle, true)
  {
    forall i | 0 <= i < 64
      ensures SlotOk(words', made, pass, enqueue, cycle, true, i)
    {
      assert SlotOk(words, made, pass, enqueue, cycle, true, i);
    }
  }

  /** Storing the control word last turns the slot being rewritten into the newest event. */
  lemma ControlPosts(words: seq<nat>, made: seq<Trb>, pass: nat, enqueue: nat, cycle: nat, trb: Trb, words': seq<nat>)
    requires |words| == 256 && Laid(words, made, pass, enqueue, cycle, true) && trb.control % 2 == cycle
    requires words' == words[4 * enqueue + 3 := trb.control] && TrbAt(words', enqueue) == trb
    ensures enqueue < 63 ==> Laid(words', made + [trb], pass, enqueue + 1, cycle, false)
    ensures enqueue == 63 ==> Laid(words', made + [trb], pass + 1, 0, 1 - cycle, false)
  {
    var made' := made + [trb];
    var (pass', enqueue', cycle') := if enqueue < 63 then (pass, enqueue + 1, cycle) else (pass + 1, 0, 1 - cycle);
    forall i | 0 <= i < 64
      ensures SlotOk(words', made', pass', enqueue', cycle', false, i)
    {
      assert SlotOk(words, made, pass, enqueue, cycle, true, i);
    }
  }

  lemma SlotClaimed(words: seq<nat>, made: seq<Trb>, pass: nat, enqueue: nat, cycle: nat)
    requires |words| == 256 && Laid(words, made, pass, enqueue, cycle, false)
    ensures Laid(words, made, pass, enqueue, cycle, true)
  {
    forall i | 0 <= i < 64
      ensures SlotOk(words, made, pass, enqueue, cycle, true, i)
    {
      assert SlotOk(words, made, pass, enqueue, cycle, false, i);
    }
  }

  /** The controller's test leaves one slot free. */
  lemma RoomTest(made: nat, pass: nat, enqueue: nat, cycle: nat, taken: nat, index: nat, expected: nat)
    requires made == 64 * pass + enqueue && enqueue < 64 && taken <= made <= taken + 63
    requires Reads(taken, index, expected, pass, cycle)
    ensures (enqueue + 1) % 64 != index <==> made < taken + 63
  {
    assert (enqueue + 1) % 64 == if enqueue == 63 then 0 else enqueue + 1;
  }

  lemma Grown(got: seq<Trb>, seen: seq<Trb>, made: seq<Trb>, from: nat, n: nat, found: bool, trb: Trb)
    requires seen <= made && from + n <= |seen| && n == |got| && got == seen[from..from + n]
    requires found ==> from + n < |made| && trb == made[from + n]
    ensures got == made[from..from + n] && (found ==> got + [trb] == made[from..from + n + 1])
  {
  }

  class Ring {
    const evtRing: array<nat>
    var evtIndex: nat
    var evtCycle: nat
    var dequeue: nat
    // The controller's side.
    var enqueue: nat
    var producerCycle: nat
    var pending: Trb
    var stored: nat
    var posting: bool
    ghost var made: seq<Trb>
    ghost var pass: nat
    ghost var taken: nat

    /** The ring as the driver and the controller each see it. */
    ghost predicate Valid()
      reads this, evtRing
    {
      && evtRing.Length == 256 && Laid(evtRing[..], made, pass, enqueue, producerCycle, posting)
      && taken <= |made| <= taken + 63 && (posting ==> |made| < taken + 63)
      && Reads(taken, evtIndex, evtCycle, pass, producerCycle) && dequeue == evtIndex
      && stored <= 3 && (!posting ==> stored == 0)
      && (stored > 0 ==> evtRing[4 * enqueue] == pending.param0)
      && (stored > 1 ==> evtRing[4 * enqueue + 1] == pending.param1)
      && (stored > 2 ==> evtRing[4 * enqueue + 2] == pending.status)
    }

    /** xhci_init: a zeroed ring, expected cycle 1. */
    constructor ()
      ensures Valid() && fresh(evtRing) && made == [] && taken == 0 && !posting
    {
      evtRing := new nat[256](i => 0);
      evtIndex, evtCycle, dequeue := 0, 1, 0;
      enqueue, producerCycle, pending, stored, posting := 0, 1, Trb(0, 0, 0, 0), 0, false;
      made, pass, taken := [], 0, 0;
    }

    /** The controller starts an event unless the enqueue pointer would meet the dequeue pointer. */
    method Begin(trb: Trb)
      requires Valid() && !posting
      modifies this`pending, this`posting
      ensures Valid() && posting == (|made| - taken < 63) && (posting ==> pending == trb)
    {
      RoomTest(|made|, pass, enqueue, producerCycle, taken, evtIndex, evtCycle);
      if (enqueue + 1) % 64 != dequeue {
        SlotClaimed(evtRing[..], made, pass, enqueue, producerCycle);
        pending, posting := trb, true;
      }
    }

    /** One 32-bit store of the controller; the word with the cycle bit is the last of the four. */
    method Store()
      requires Valid() && posting
      modifies this`enqueue, this`producerCycle, this`stored, this`posting, this`made, this`pass, evtRing
      ensures Valid()
      ensures old(stored) < 3 ==> made == old(made) && posting && stored == old(stored) + 1
      ensures old(stored) == 3 ==>
          && !posting
          && made == old(made) + [pending.(control := WithCycle(pending.control, old(producerCycle)))]
    {
      if stored < 3 {
        var word := if stored == 0 then pending.param0 else if stored == 1 then pending.param1 else pending.status;
        ghost var was := evtRing[..];
        evtRing[4 * enqueue + stored] := word;
        PayloadKept(was, made, pass, enqueue, producerCycle, stored, word, evtRing[..]);
        stored := stored + 1;
      } else {
        Publish();
      }
    }

    method Publish()
      requires Valid() && posting && stored == 3
      modifies this`enqueue, this`producerCycle, this`stored, this`posting, this`made, this`pass, evtRing
      ensures Valid() && !posting
      ensures made == old(made) + [pending.(control := WithCycle(pending.control, old(producerCycle)))]
    {
      ghost var was := evtRing[..];
      ghost var trb := pending.(control := WithCycle(pending.control, producerCycle));
      evtRing[4 * enqueue + 3] := WithCycle(pending.control, producerCycle);
      assert evtRing[..] == was[4 * enqueue + 3 := trb.control];
      ControlPosts(was, made, pass, enqueue, producerCycle, trb, evtRing[..]);
      made := made + [trb];
      stored, posting := 0, false;
      enqueue := enqueue + 1;
      if enqueue == 64 {
        enqueue, producerCycle, pass := 0, 1 - producerCycle, pass + 1;
      }
    }

    /** Any amount of controller activity adds events at the end and disturbs nothing the driver can see. */
    method Controller(acts: seq<Act>)
      requires Valid()
      modifies this`enqueue, this`producerCycle, this`pending, this`stored, this`posting, this`made, this`pass, evtRing
      ensures Valid() && old(made) <= made
    {
      for i := 0 to |acts|
        invariant Valid() && old(made) <= made
      {
        match acts[i]
        case Post(trb) =>
          if !posting {
            Begin(trb);
          }
        case StoreWord =>
          if posting {
            Store();
          }
      }
    }

    /** event_pop: the slot of the oldest event not yet taken, or nothing exactly when there is none. */
    method EventPop() returns (found: bool, slot: nat)
      requires Valid()
      modifies this`evtIndex, this`evtCycle, this`dequeue, this`taken
      ensures Valid() && slot < 64
      ensures found == (old(taken) < |made|)
      ensures taken == if found then old(taken) + 1 else old(taken)
      ensures found ==> slot == Before(evtIndex)
    {
      slot := evtIndex;
      CycleTells(evtRing[..], made, pass, enqueue, producerCycle, posting, taken, evtIndex, evtCycle);
      found := evtRing[4 * slot + 3] % 2 == evtCycle;
      if found {
        Advance();
      }
    }

    /** The second half of event_pop: move on, flipping the expected cycle on the wrap, and tell the controller. */
    method Advance()
      requires Valid() && taken < |made|
      modifies this`evtIndex, this`evtCycle, this`dequeue, this`taken
      ensures Valid() && taken == old(taken) + 1
    {
      taken := taken + 1;
      evtIndex := evtIndex + 1;
      if evtIndex == 64 {
        evtIndex, evtCycle := 0, 1 - evtCycle;
      }
      dequeue := evtIndex;
    }

    /** The driver reads a popped event through the pointer; the slot is still intact although `dequeue` has passed it. */
    method Fetch(slot: nat) returns (trb: Trb)
      requires Valid() && taken > 0 && slot == Before(evtIndex)
      ensures trb == made[taken - 1]
    {
      LastTakenStays(evtRing[..], made, pass, enqueue, producerCycle, posting, taken, evtIndex, evtCycle);
      trb := Trb(evtRing[4 * slot], evtRing[4 * slot + 1], evtRing[4 * slot + 2], evtRing[4 * slot + 3]);
    }

    /** One poll of the driver, with controller activity before the pop and between the pop and the reads. */
    method Poll(before: seq<Act>, during: seq<Act>) returns (found: bool, trb: Trb)
      requires Valid()
      modifies this, evtRing
      ensures Valid() && old(made) <= made && old(taken) <= |made|
      ensures taken == if found then old(taken) + 1 else old(taken)
      ensures found ==> trb == made[old(taken)]
      ensures !found ==> old(taken) == |old(made)|
    {
      trb := Trb(0, 0, 0, 0);
      Controller(before);
      var slot;
      found, slot := EventPop();
      Controller(during);
      if found {
        trb := Fetch(slot);
      }
    }

    /** Over every interleaving the driver sees exactly the next events, in order, none stale or repeated. */
    method Run(schedule: seq<(seq<Act>, seq<Act>)>) returns (got: seq<Trb>)
      requires Valid()
      modifies this, evtRing
      ensures Valid() && old(made) <= made && old(taken) <= taken && got == made[old(taken)..taken]
    {
      got := [];
      for i := 0 to |schedule|
        invariant Valid() && old(made) <= made && old(taken) <= taken && got == made[old(taken)..taken]
      {
        ghost var seen := made;
        var found, trb := Poll(schedule[i].0, schedule[i].1);
        Grown(got, seen, made, old(taken), |got|, found, trb);
        if found {
          got := got + [trb];
        }
      }
    }
  }

  function TypeOf(trb: Trb): nat { (trb.control / 1024) % 64 }

  function CodeOf(trb: Trb): nat { (trb.status / 0x100_0000) % 256 }

  function PointerOf(trb: Trb): nat { trb.param0 + 0x1_0000_0000 * trb.param1 }

  /** A successful completion of the command at `command`. */
  predicate Answers(trb: Trb, command: nat) { TypeOf(trb) == 33 && CodeOf(trb) == 1 && PointerOf(trb) == command }

  predicate PortChange(trb: Trb) { TypeOf(trb) == 34 }

  /** The verdict of xhci_noop_roundtrip on the events it looked at: port changes, then at most one other. */
  ghost predicate Verdict(seen: seq<Trb>, ok: bool, command: nat) {
    && (forall i | 0 <= i < |seen| - 1 :: PortChange(seen[i]))
    && (ok <==> seen != [] && Answers(seen[|seen| - 1], command))
  }

  ghost predicate OnlyPorts(made: seq<Trb>, from: nat, to: nat)
    requires from <= to <= |made|
  {
    forall k | from <= k < to :: PortChange(made[k])
  }

  /** The loop may stop at any point: every event before the last was a port change. */
  lemma VerdictNow(was: seq<Trb>, made: seq<Trb>, from: nat, before: nat, to: nat, next: Round, command: nat)
    requires was <= made && from <= before <= |was| && OnlyPorts(was, from, before)
    requires before <= to <= before + 1 && to <= |made|
    requires to == before ==> !next.Stop? || !next.ok
    requires to > before ==>
        next == if PortChange(made[before]) then Go else Stop(Answers(made[before], command))
    ensures next.Stop? ==> Verdict(made[from..to], next.ok, command)
    ensures next.Go? ==> OnlyPorts(made, from, to)
  {
    forall k | from <= k < before
      ensures PortChange(made[k])
    {
      assert made[k] == was[k];
    }
  }

  /** What surrounds one poll: the controller's activity and whether USBSTS shows a host system error. */
  datatype Around = Around(before: seq<Act>, during: seq<Act>, hostError: bool)

  datatype Round = Go | Stop(ok: bool)

  /** One iteration of the loop in xhci_noop_roundtrip. */
  method NoopRound(ring: Ring, command: nat, around: Around) returns (next: Round)
    requires ring.Valid()
    modifies ring, ring.evtRing
    ensures ring.Valid() && old(ring.made) <= ring.made && old(ring.taken) <= ring.taken <= old(ring.taken) + 1
    ensures ring.taken == old(ring.taken) ==> next == if around.hostError then Stop(false) else Go
    ensures ring.taken > old(ring.taken) ==>
        next == if PortChange(ring.made[old(ring.taken)]) then Go else Stop(Answers(ring.made[old(ring.taken)], command))
  {
    var found, trb := ring.Poll(around.before, around.during);
    if !found {
      return if around.hostError then Stop(false) else Go;
    }
    if TypeOf(trb) == 34 {
      return Go;
    }
    if TypeOf(trb) != 33 {
      return Stop(false);
    }
    if CodeOf(trb) != 1 {
      return Stop(false);
    }
    if PointerOf(trb) != command {
      return Stop(false);
    }
    return Stop(true);
  }

  /**
   * xhci_noop_roundtrip succeeds exactly when the first event that is not a port change, among those it took,
   * is the successful completion of its own command.
   */
  method NoopRoundtrip(ring: Ring, command: nat, arounds: seq<Around>) returns (ok: bool)
    requires ring.Valid() && |arounds| == 10000
    modifies ring, ring.evtRing
    ensures ring.Valid() && old(ring.made) <= ring.made && old(ring.taken) <= ring.taken
    ensures Verdict(ring.made[old(ring.taken)..ring.taken], ok, command)
  {
    var i := 0;
    while i < 10000
      invariant 0 <= i <= 10000
      invariant ring.Valid() && old(ring.made) <= ring.made && old(ring.taken) <= ring.taken
      invariant ring.taken <= |ring.made| && OnlyPorts(ring.made, old(ring.taken), ring.taken)
    {
      ghost var was, before := ring.made, ring.taken;
      var next := NoopRound(ring, command, arounds[i]);
      VerdictNow(was, ring.made, old(ring.taken), before, ring.taken, next, command);
      if next.Stop? {
        return next.ok;
      }
      i := i + 1;
    }
    VerdictNow(ring.made, ring.made, old(ring.taken), ring.taken, ring.taken, Stop(false), command);
    return false;
  }
}
