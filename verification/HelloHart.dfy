/**
 * hello-hart: n harts that print under a spin lock, are woken by hart 0 and meet at a
 * sense-reversing barrier, as interleaved atomic steps.
 */
module HelloHart {

  /** Program counters. Every hart prints a greeting; hart 0 prints a banner before it. */
  datatype PC =
    | WaitWake | ClearWake                                  // a secondary hart before it starts
    | Acquire(greet: bool) | Print(greet: bool) | Release(greet: bool) // mprintf
    | Wake(next: nat)                                       // wakeup_other_harts
    | Toggle | Add | Reset | Flip | Spin                    // barrier
    | Out

  datatype Hart = Hart(pc: PC, msip: bool, local: bool, printed: bool, entered: nat, left: nat)

  /** flips, entered and left count barrier rounds and are read by no hart. */
  datatype State = State(harts: seq<Hart>, lock: bool, count: nat, sense: bool, flips: nat)

  function Init(n: nat): State
    requires n > 0
  {
    State(seq(n, h => Hart(if h == 0 then Acquire(false) else WaitWake, false, false, false, 0, 0)), false, 0, false, 0)
  }

  function AfterPrint(greet: bool, h: nat): PC {
    if !greet then Acquire(true) else if h == 0 then Wake(1) else Toggle
  }

  /** What a step does to the hart that takes it. */
  function Next(me: Hart, h: nat, n: nat, lock: bool, count: nat, sense: bool, again: bool): Hart {
    match me.pc
    case WaitWake => if me.msip then me.(pc := ClearWake) else me
    case ClearWake => me.(msip := false, pc := Acquire(true))
    case Acquire(k) => if lock then me else me.(pc := Print(k))
    case Print(k) => me.(printed := me.printed || k, pc := Release(k))
    case Release(k) => me.(pc := AfterPrint(k, h))
    case Wake(k) => if k < n then me.(pc := Wake(k + 1)) else me.(pc := Toggle)
    case Toggle => me.(local := !me.local, entered := me.entered + 1, pc := Add)
    case Add => me.(pc := if count + 1 == n then Reset else Spin)
    case Reset => me.(pc := Flip)
    case Flip => me.(pc := Out, left := me.left + 1)
    case Spin => if sense == me.local then me.(pc := Out, left := me.left + 1) else me
    case Out => if again then me.(pc := Toggle) else me
  }

  /** The wake-up bits after a step at p. */
  function Woken(harts: seq<Hart>, p: PC): (r: seq<Hart>)
    ensures |r| == |harts|
    ensures forall g | 0 <= g < |harts| :: r[g].(msip := harts[g].msip) == harts[g]
    ensures !p.Wake? ==> r == harts
  {
    if p.Wake? && p.next < |harts| then harts[p.next := harts[p.next].(msip := true)] else harts
  }

  /** One atomic step of hart h. A hart that left the barrier re-enters it if again is set. */
  function Step(s: State, h: nat, again: bool): (r: State)
    requires h < |s.harts|
    ensures |r.harts| == |s.harts|
  {
    var n, me := |s.harts|, s.harts[h];
    var harts := Woken(s.harts, me.pc);
    State(
      harts[h := Next(harts[h], h, n, s.lock, s.count, s.sense, again)],
      if me.pc.Acquire? then true else if me.pc.Release? then false else s.lock,
      if me.pc == Add then s.count + 1 else if me.pc == Reset then 0 else s.count,
      if me.pc == Flip then me.local else s.sense,
      if me.pc == Flip then s.flips + 1 else s.flips)
  }

  /** A run, given by which hart steps when. */
  function Run(s: State, schedule: seq<(nat, bool)>): (r: State)
    requires forall i | 0 <= i < |schedule| :: schedule[i].0 < |s.harts|
    ensures |r.harts| == |s.harts|
    decreases |schedule|
  {
    if schedule == [] then s else Run(Step(s, schedule[0].0, schedule[0].1), schedule[1..])
  }

  // What every step keeps.

  predicate Finishing(p: PC) {
    p == Reset || p == Flip
  }

  predicate InBarrier(p: PC) {
    p == Add || p == Spin || Finishing(p)
  }

  predicate Critical(p: PC) {
    p.Print? || p.Release?
  }

  /** Past its greeting. */
  predicate Greeted(p: PC) {
    p == Release(true) || p.Wake? || p == Toggle || InBarrier(p) || p == Out
  }

  /** Barrier counters of one hart, flips rounds having completed. */
  ghost predicate HartOk(me: Hart, flips: nat) {
    && (me.local <==> me.entered % 2 == 1)
    && (me.entered == flips || me.entered == flips + 1)
    && me.left == (if InBarrier(me.pc) then me.entered - 1 else me.entered)
    && (me.pc == Add || Finishing(me.pc) ==> me.entered == flips + 1)
    && (!InBarrier(me.pc) ==> me.entered == flips)
    && (!InBarrier(me.pc) && me.pc != Toggle && me.pc != Out ==> me.entered == 0)
    && (Greeted(me.pc) ==> me.printed)
    && (me.pc == Out ==> me.entered > 0)
  }

  /** Harts that wait for the current round to complete. */
  ghost function Waiting(s: State): set<nat> {
    set h | 0 <= h < |s.harts| && s.harts[h].pc == Spin && s.harts[h].entered == s.flips + 1
  }

  /** The hart that completes a round is alone: all others wait. Otherwise count counts the waiting. */
  ghost predicate CountOk(s: State) {
    var n := |s.harts|;
    && (forall f | 0 <= f < n && Finishing(s.harts[f].pc) ::
          s.count == (if s.harts[f].pc == Reset then n else 0) && forall h | 0 <= h < n && h != f :: h in Waiting(s))
    && ((forall f | 0 <= f < n :: !Finishing(s.harts[f].pc)) ==> s.count == |Waiting(s)| < n)
  }

  ghost predicate LockOk(s: State) {
    && (s.lock <==> exists h | 0 <= h < |s.harts| :: Critical(s.harts[h].pc))
    && (forall g, h | 0 <= g < h < |s.harts| :: !(Critical(s.harts[g].pc) && Critical(s.harts[h].pc)))
  }

  ghost predicate Inv(s: State) {
    && |s.harts| > 0
    && (s.sense <==> s.flips % 2 == 1)
    && (forall h | 0 <= h < |s.harts| :: HartOk(s.harts[h], s.flips))
    && CountOk(s) && LockOk(s)
  }

  lemma {:induction false} Below(n: nat, a: set<nat>)
    requires forall x | x in a :: x < n
    ensures |a| <= n
    ensures |a| == n ==> forall x | 0 <= x < n :: x in a
  {
    if n > 0 {
      var b := a - {n - 1};
      Below(n - 1, b);
      assert a == if n - 1 in a then b + {n - 1} else b;
    }
  }

  /** With the last arrival, all other harts are waiting. */
  lemma LastArrival(s: State, h: nat)
    requires h < |s.harts| && h !in Waiting(s) && |Waiting(s)| + 1 == |s.harts|
    ensures forall g | 0 <= g < |s.harts| && g != h :: g in Waiting(s)
  {
    var w := Waiting(s) + {h};
    assert |w| == |Waiting(s)| + 1;
    Below(|s.harts|, w);
  }

  /** A step of h changes nothing of another hart but its wake-up bit. */
  lemma Frame(s: State, h: nat, again: bool, g: nat)
    requires h < |s.harts| && g < |s.harts| && g != h
    ensures Step(s, h, again).harts[g].(msip := s.harts[g].msip) == s.harts[g]
  {
  }

  /** Nor, unless h is at Flip, the number of completed rounds. */
  lemma Own(s: State, h: nat, again: bool)
    requires h < |s.harts|
    ensures var r := Step(s, h, again);
      s.harts[h].pc != Flip ==> r.flips == s.flips && r.sense == s.sense
  {
  }

  lemma NextKeeps(me: Hart, h: nat, n: nat, lock: bool, count: nat, sense: bool, again: bool, flips: nat)
    requires HartOk(me, flips) && (sense <==> flips % 2 == 1)
    ensures HartOk(Next(me, h, n, lock, count, sense, again), if me.pc == Flip then flips + 1 else flips)
  {
  }

  lemma StepKeepsHarts(s: State, h: nat, again: bool)
    requires Inv(s) && h < |s.harts|
    ensures var r := Step(s, h, again);
      (r.sense <==> r.flips % 2 == 1) && forall g | 0 <= g < |r.harts| :: HartOk(r.harts[g], r.flips)
  {
    var r := Step(s, h, again);
    assert HartOk(s.harts[h], s.flips);
    NextKeeps(Woken(s.harts, s.harts[h].pc)[h], h, |s.harts|, s.lock, s.count, s.sense, again, s.flips);
    forall g | 0 <= g < |r.harts| && g != h ensures HartOk(r.harts[g], r.flips) {
      Frame(s, h, again, g);
      assert HartOk(s.harts[g], s.flips);
      if s.harts[h].pc == Flip {
        assert g in Waiting(s);
      }
    }
  }

  lemma CountAtAdd(s: State, h: nat, again: bool)
    requires Inv(s) && h < |s.harts| && s.harts[h].pc == Add
    ensures CountOk(Step(s, h, again))
  {
    var r := Step(s, h, again);
    assert HartOk(s.harts[h], s.flips);
    assert h !in Waiting(s);
    assert forall f | 0 <= f < |s.harts| :: !Finishing(s.harts[f].pc);
    assert r.flips == s.flips && r.harts == s.harts[h := r.harts[h]];
    if s.count + 1 == |s.harts| {
      LastArrival(s, h);
      AllButOne(s, r, h);
    } else {
      OneMore(s, r, h);
    }
  }

  lemma AllButOne(s: State, r: State, h: nat)
    requires h < |s.harts| == |r.harts| && r.flips == s.flips
    requires r.harts == s.harts[h := r.harts[h]] && r.harts[h].pc == Reset
    requires r.count == |s.harts| && forall g | 0 <= g < |s.harts| && g != h :: g in Waiting(s)
    ensures CountOk(r)
  {
    forall g | 0 <= g < |s.harts| && g != h
      ensures g in Waiting(r) && !Finishing(r.harts[g].pc)
    {
      assert g in Waiting(s);
    }
  }

  lemma OneMore(s: State, r: State, h: nat)
    requires h < |s.harts| == |r.harts| && r.flips == s.flips
    requires r.harts == s.harts[h := r.harts[h]] && h !in Waiting(s)
    requires r.harts[h].pc == Spin && r.harts[h].entered == r.flips + 1 && r.count == |Waiting(s)| + 1 < |r.harts|
    requires forall f | 0 <= f < |s.harts| :: !Finishing(s.harts[f].pc)
    ensures CountOk(r)
  {
    assert Waiting(r) == Waiting(s) + {h};
  }

  lemma CountAtFinish(s: State, h: nat, again: bool)
    requires Inv(s) && h < |s.harts| && Finishing(s.harts[h].pc)
    ensures CountOk(Step(s, h, again))
  {
    var r := Step(s, h, again);
    forall g | 0 <= g < |s.harts| && g != h
      ensures g in Waiting(s) && r.harts[g] == s.harts[g]
    {
    }
    if s.harts[h].pc == Flip {
      RoundOver(s, r, h);
    } else {
      StillAlone(s, r, h);
    }
  }

  /** The flip releases everybody: nobody waits for the new round yet. */
  lemma RoundOver(s: State, r: State, h: nat)
    requires h < |s.harts| == |r.harts| && r.flips == s.flips + 1 && r.count == 0 && r.harts[h].pc == Out
    requires forall g | 0 <= g < |s.harts| && g != h :: g in Waiting(s) && r.harts[g] == s.harts[g]
    ensures CountOk(r)
  {
    forall g | 0 <= g < |r.harts|
      ensures g !in Waiting(r) && !Finishing(r.harts[g].pc)
    {
      assert g != h ==> g in Waiting(s);
    }
    assert Waiting(r) == {};
  }

  /** Between the last arrival and the flip the others go on waiting. */
  lemma StillAlone(s: State, r: State, h: nat)
    requires h < |s.harts| == |r.harts| && r.flips == s.flips && r.count == 0 && r.harts[h].pc == Flip
    requires forall g | 0 <= g < |s.harts| && g != h :: g in Waiting(s) && r.harts[g] == s.harts[g]
    ensures CountOk(r)
  {
    forall g | 0 <= g < |r.harts| && g != h
      ensures g in Waiting(r) && !Finishing(r.harts[g].pc)
    {
      assert g in Waiting(s);
    }
  }

  lemma CountElsewhere(s: State, h: nat, again: bool)
    requires Inv(s) && h < |s.harts| && s.harts[h].pc != Add && !Finishing(s.harts[h].pc)
    ensures CountOk(Step(s, h, again))
  {
    var r := Step(s, h, again);
    assert HartOk(s.harts[h], s.flips);
    Own(s, h, again);
    SameCount(s, h, again);
    forall g | 0 <= g < |s.harts|
      ensures (Finishing(r.harts[g].pc) <==> Finishing(s.harts[g].pc)) && (r.harts[g].pc == Reset <==> s.harts[g].pc == Reset)
      ensures g in Waiting(r) <==> g in Waiting(s)
    {
      if g != h {
        Frame(s, h, again, g);
      }
    }
    assert Waiting(r) == Waiting(s);
  }

  lemma SameCount(s: State, h: nat, again: bool)
    requires h < |s.harts| && s.harts[h].pc != Add && !Finishing(s.harts[h].pc)
    ensures Step(s, h, again).count == s.count && !Finishing(Step(s, h, again).harts[h].pc)
    ensures Step(s, h, again).harts[h].pc == Spin ==> Step(s, h, again) == s
    ensures s.harts[h].pc == Spin && s.sense != s.harts[h].local ==> Step(s, h, again) == s
  {
  }

  lemma StepKeepsCount(s: State, h: nat, again: bool)
    requires Inv(s) && h < |s.harts|
    ensures CountOk(Step(s, h, again))
  {
    if s.harts[h].pc == Add {
      CountAtAdd(s, h, again);
    } else if Finishing(s.harts[h].pc) {
      CountAtFinish(s, h, again);
    } else {
      CountElsewhere(s, h, again);
    }
  }

  /** The lock and the critical section of the hart that steps. */
  lemma OwnLock(s: State, h: nat, again: bool)
    requires h < |s.harts|
    ensures var r, p := Step(s, h, again), s.harts[h].pc;
      if p.Acquire? && !s.lock then r.lock && Critical(r.harts[h].pc)
      else if p.Release? then !r.lock && !Critical(r.harts[h].pc)
      else r.lock == s.lock && (Critical(r.harts[h].pc) <==> Critical(p))
  {
  }

  lemma StepKeepsLock(s: State, h: nat, again: bool)
    requires Inv(s) && h < |s.harts|
    ensures LockOk(Step(s, h, again))
  {
    var r := Step(s, h, again);
    OwnLock(s, h, again);
    forall g | 0 <= g < |s.harts| && g != h ensures r.harts[g].pc == s.harts[g].pc {
      Frame(s, h, again, g);
    }
    if r.lock {
      var k :| 0 <= k < |r.harts| && Critical(r.harts[k].pc);
    }
  }

  lemma StepKeepsInv(s: State, h: nat, again: bool)
    requires Inv(s) && h < |s.harts|
    ensures Inv(Step(s, h, again))
  {
    StepKeepsHarts(s, h, again);
    StepKeepsCount(s, h, again);
    StepKeepsLock(s, h, again);
  }

  lemma InitInv(n: nat)
    requires n > 0
    ensures Inv(Init(n))
  {
    assert Waiting(Init(n)) == {};
  }

  lemma {:induction false} RunKeepsInv(s: State, schedule: seq<(nat, bool)>)
    requires Inv(s) && forall i | 0 <= i < |schedule| :: schedule[i].0 < |s.harts|
    ensures Inv(Run(s, schedule))
    decreases |schedule|
  {
    if schedule != [] {
      StepKeepsInv(s, schedule[0].0, schedule[0].1);
      RunKeepsInv(Step(s, schedule[0].0, schedule[0].1), schedule[1..]);
    }
  }

  // What it means.

  /** Schedules of n harts. */
  ghost predicate Scheduled(n: nat, schedule: seq<(nat, bool)>) {
    forall i | 0 <= i < |schedule| :: schedule[i].0 < n
  }

  /**
   * In every state of every run: no hart has left a round that some hart has not entered, rounds
   * differ by at most one, and when hart 0 has left the barrier every hart has greeted.
   */
  lemma {:induction false} BarrierSafety(n: nat, schedule: seq<(nat, bool)>, g: nat, h: nat)
    requires n > 0 && Scheduled(n, schedule) && g < n && h < n
    ensures var s := Run(Init(n), schedule);
      && s.harts[g].left <= s.harts[h].entered
      && s.harts[g].entered <= s.harts[h].entered + 1
      && (s.harts[0].left > 0 ==> s.harts[h].printed)
  {
    InitInv(n);
    RunKeepsInv(Init(n), schedule);
    var s := Run(Init(n), schedule);
    assert HartOk(s.harts[g], s.flips) && HartOk(s.harts[h], s.flips) && HartOk(s.harts[0], s.flips);
  }

  /** Prints never overlap. */
  lemma {:induction false} PrintsDoNotOverlap(n: nat, schedule: seq<(nat, bool)>, g: nat, h: nat)
    requires n > 0 && Scheduled(n, schedule) && g < n && h < n
    ensures var s := Run(Init(n), schedule);
      s.harts[g].pc.Print? && s.harts[h].pc.Print? ==> g == h
  {
    InitInv(n);
    RunKeepsInv(Init(n), schedule);
    var s := Run(Init(n), schedule);
    if s.harts[g].pc.Print? && s.harts[h].pc.Print? {
      assert Critical(s.harts[g].pc) && Critical(s.harts[h].pc);
    }
  }

  ghost predicate Released(s: State, h: nat)
    requires h < |s.harts|
  {
    s.harts[h].pc == Spin && s.sense == s.harts[h].local
  }

  lemma StepKeepsReleased(s: State, h: nat, g: nat, again: bool)
    requires Inv(s) && h < |s.harts| && g < |s.harts| && g != h && Released(s, h)
    ensures Released(Step(s, g, again), h)
  {
    assert HartOk(s.harts[h], s.flips);
    Frame(s, g, again, h);
    if s.harts[g].pc == Flip {
      assert h in Waiting(s);
    }
  }

  /** A released hart stays released, whatever the others do, until it leaves. */
  lemma {:induction false} ReleaseIsStable(s: State, h: nat, schedule: seq<(nat, bool)>)
    requires Inv(s) && h < |s.harts| && Released(s, h) && Scheduled(|s.harts|, schedule)
    requires forall i | 0 <= i < |schedule| :: schedule[i].0 != h
    ensures Released(Run(s, schedule), h)
    decreases |schedule|
  {
    if schedule != [] {
      StepKeepsReleased(s, h, schedule[0].0, schedule[0].1);
      StepKeepsInv(s, schedule[0].0, schedule[0].1);
      ReleaseIsStable(Step(s, schedule[0].0, schedule[0].1), h, schedule[1..]);
    }
  }

  // Wake-up, and absence of deadlock in the program itself, which passes the barrier once.

  /** Hart 0 has not woken hart h yet. */
  predicate BeforeWaking(p: PC, h: nat) {
    p.Acquire? || p.Print? || p.Release? || (p.Wake? && p.next <= h)
  }

  /** A secondary hart that waits to be woken has been, or will be by hart 0; it never starts before. */
  ghost predicate WakeHart(p0: PC, me: Hart, h: nat) {
    && !me.pc.Wake?
    && (me.msip ==> !BeforeWaking(p0, h))
    && (me.pc == WaitWake ==> me.msip || BeforeWaking(p0, h))
    && (me.pc != WaitWake ==> !BeforeWaking(p0, h))
  }

  /** Nobody enters the barrier twice. */
  ghost predicate Once(me: Hart) {
    me.entered <= 1 && (me.pc == Toggle ==> me.entered == 0)
  }

  ghost predicate WakeOk(s: State) {
    && |s.harts| > 0 && !s.harts[0].pc.WaitWake? && !s.harts[0].pc.ClearWake?
    && (forall h | 0 < h < |s.harts| :: WakeHart(s.harts[0].pc, s.harts[h], h))
    && (forall h | 0 <= h < |s.harts| :: Once(s.harts[h]))
  }

  /** A step of hart 0 keeps its promise to hart h. */
  lemma PrimaryStep(p0: PC, n: nat, lock: bool, count: nat, sense: bool, zero: Hart, me: Hart, me': Hart, h: nat)
    requires zero.pc == p0 && 0 < h < n && WakeHart(p0, me, h) && !p0.WaitWake? && !p0.ClearWake?
    requires me' == if p0 == Wake(h) then me.(msip := true) else me
    ensures WakeHart(Next(zero, 0, n, lock, count, sense, false).pc, me', h)
  {
  }

  lemma StepKeepsWake(s: State, h: nat)
    requires Inv(s) && WakeOk(s) && h < |s.harts|
    ensures WakeOk(Step(s, h, false))
  {
    var r := Step(s, h, false);
    StepKeepsOnce(s, h);
    forall g | 0 < g < |s.harts| ensures WakeHart(r.harts[0].pc, r.harts[g], g) {
      assert WakeHart(s.harts[0].pc, s.harts[g], g);
      if h == 0 {
        PrimaryStep(s.harts[0].pc, |s.harts|, s.lock, s.count, s.sense, s.harts[0], s.harts[g], r.harts[g], g);
      } else {
        Frame(s, h, false, 0);
        SecondaryStep(s, h, g);
      }
    }
  }

  lemma StepKeepsOnce(s: State, h: nat)
    requires h < |s.harts| && HartOk(s.harts[h], s.flips) && forall g | 0 <= g < |s.harts| :: Once(s.harts[g])
    ensures forall g | 0 <= g < |s.harts| :: Once(Step(s, h, false).harts[g])
  {
    forall g | 0 <= g < |s.harts| ensures Once(Step(s, h, false).harts[g]) {
      assert Once(s.harts[g]);
      if g != h {
        Frame(s, h, false, g);
      }
    }
  }

  /** A step of a secondary hart keeps the wake-up promise to every secondary hart. */
  lemma SecondaryStep(s: State, h: nat, g: nat)
    requires 0 < h < |s.harts| && 0 < g < |s.harts| && WakeHart(s.harts[0].pc, s.harts[g], g) && !s.harts[h].pc.Wake?
    ensures WakeHart(s.harts[0].pc, Step(s, h, false).harts[g], g)
  {
    if g != h {
      assert Step(s, h, false).harts[g] == s.harts[g];
    }
  }

  lemma {:induction false} RunKeepsWake(s: State, schedule: seq<(nat, bool)>)
    requires Inv(s) && WakeOk(s) && Scheduled(|s.harts|, schedule)
    requires forall i | 0 <= i < |schedule| :: !schedule[i].1
    ensures Inv(Run(s, schedule)) && WakeOk(Run(s, schedule))
    decreases |schedule|
  {
    if schedule != [] {
      StepKeepsWake(s, schedule[0].0);
      StepKeepsInv(s, schedule[0].0, false);
      RunKeepsWake(Step(s, schedule[0].0, false), schedule[1..]);
    }
  }

  /** As long as some hart has not passed the barrier, some hart can move. */
  lemma {:induction false} NoDeadlock(n: nat, schedule: seq<(nat, bool)>)
    requires n > 0 && Scheduled(n, schedule) && forall i | 0 <= i < |schedule| :: !schedule[i].1
    requires exists h | 0 <= h < n :: Run(Init(n), schedule).harts[h].pc != Out
    ensures exists h | 0 <= h < n :: Step(Run(Init(n), schedule), h, false) != Run(Init(n), schedule)
  {
    InitInv(n);
    RunKeepsWake(Init(n), schedule);
    var s := Run(Init(n), schedule);
    if forall h | 0 <= h < n :: Stuck(s, h) {
      AllStuck(s);
    } else {
      var h :| 0 <= h < n && !Stuck(s, h);
      StuckOrMoves(s, h);
    }
  }

  predicate Stuck(s: State, h: nat)
    requires h < |s.harts|
  {
    var me := s.harts[h];
    (me.pc == WaitWake && !me.msip) || (me.pc.Acquire? && s.lock) || (me.pc == Spin && s.sense != me.local) || me.pc == Out
  }

  lemma StuckOrMoves(s: State, h: nat)
    requires h < |s.harts| && !Stuck(s, h)
    ensures Step(s, h, false) != s
  {
    var r, me := Step(s, h, false), s.harts[h];
    assert r.harts[h] != me;
  }

  /** If no hart can move, all have passed the barrier. */
  lemma AllStuck(s: State)
    requires Inv(s) && WakeOk(s) && forall h | 0 <= h < |s.harts| :: Stuck(s, h)
    ensures forall h | 0 <= h < |s.harts| :: s.harts[h].pc == Out
  {
    forall h | 0 <= h < |s.harts| ensures !Critical(s.harts[h].pc) {
      assert Stuck(s, h);
    }
    assert !s.lock;
    assert Stuck(s, 0);
    forall h | 0 <= h < |s.harts| ensures s.harts[h].pc == Spin || s.harts[h].pc == Out {
      assert Stuck(s, h);
    }
    NotAllWait(s);
    forall h | 0 <= h < |s.harts| ensures s.harts[h].pc == Out {
      assert HartOk(s.harts[h], s.flips) && Stuck(s, h);
    }
  }

  /** Harts that only wait or are through: some round has completed. */
  lemma NotAllWait(s: State)
    requires Inv(s) && forall h | 0 <= h < |s.harts| :: Stuck(s, h) && (s.harts[h].pc == Spin || s.harts[h].pc == Out)
    ensures s.flips > 0
  {
    if s.flips == 0 {
      forall h | 0 <= h < |s.harts| ensures h in Waiting(s) {
        assert HartOk(s.harts[h], s.flips) && Stuck(s, h);
      }
      Above(|s.harts|, Waiting(s));
    }
  }

  lemma {:induction false} Above(n: nat, a: set<nat>)
    requires forall x | 0 <= x < n :: x in a
    ensures |a| >= n
  {
    if n > 0 {
      Above(n - 1, a - {n - 1});
      assert a == (a - {n - 1}) + {n - 1};
    }
  }
}
