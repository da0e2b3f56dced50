/**
 * The line edge test and the moving-inversion sweep of mem-test/main.c, over an arbitrary mapping of addresses
 * to storage cells: what their mismatch counts say about that mapping.
 */
module MemTest {
  import opened Bytes
  import opened Mixer

  /** What is stored in each cell. */
  type Mem = nat -> word

  function Set(m: Mem, c: nat, v: word): Mem { (x: nat) => if x == c then v else m(x) }

  function Inverse(v: word): (r: word)
    ensures r != v
  {
    0xFFFF_FFFF_FFFF_FFFF - v
  }

  /** What a pass does with each address it visits. */
  datatype Mode = Write | Verify | VerifyWriteInv | VerifyInv

  /** The memory after a visit of address a, and the mismatch it reports. */
  function Step(cell: word -> nat, p: word -> word, mode: Mode, m: Mem, a: word): (Mem, nat) {
    match mode
    case Write => (Set(m, cell(a), p(a)), 0)
    case Verify => (m, if m(cell(a)) != p(a) then 1 else 0)
    case VerifyWriteInv => (Set(m, cell(a), Inverse(p(a))), if m(cell(a)) != p(a) then 1 else 0)
    case VerifyInv => (m, if m(cell(a)) != Inverse(p(a)) then 1 else 0)
  }

  /** A whole pass. */
  function Pass(cell: word -> nat, p: word -> word, mode: Mode, m: Mem, l: seq<word>): (Mem, nat) {
    if l == [] then
      (m, 0)
    else
      var (m', f) := Pass(cell, p, mode, m, l[..|l| - 1]);
      var (m'', g) := Step(cell, p, mode, m', l[|l| - 1]);
      (m'', f + g)
  }

  lemma PassOneMore(cell: word -> nat, p: word -> word, mode: Mode, m: Mem, l: seq<word>, a: word)
    ensures Pass(cell, p, mode, m, l + [a]) ==
            var r := Pass(cell, p, mode, m, l); var s := Step(cell, p, mode, r.0, a); (s.0, r.1 + s.1)
  {
    assert (l + [a])[..|l|] == l;
  }

  ghost predicate Distinct(l: seq<word>) { forall i, j | 0 <= i < j < |l| :: l[i] != l[j] }

  ghost predicate Injective(p: word -> word) { forall a, b | p(a) == p(b) :: a == b }

  /** No two visited addresses share a cell. */
  ghost predicate NoAlias(cell: word -> nat, l: seq<word>) {
    forall i, j | 0 <= i < j < |l| :: cell(l[i]) != cell(l[j])
  }

  ghost function Cells(cell: word -> nat, l: seq<word>): set<nat> {
    set i | 0 <= i < |l| :: cell(l[i])
  }

  /** The last address of l that lies in cell c. */
  ghost function LastIn(cell: word -> nat, l: seq<word>, c: nat): (a: word)
    requires exists i | 0 <= i < |l| :: cell(l[i]) == c
    ensures a in l && cell(a) == c
  {
    if cell(l[|l| - 1]) == c then
      l[|l| - 1]
    else
      var i :| 0 <= i < |l| && cell(l[i]) == c;
      var rest := l[..|l| - 1];
      assert rest[i] == l[i];
      LastIn(cell, rest, c)
  }

  /** A writing pass leaves in each cell what the last address in it put there. */
  lemma {:induction false} LastWriterWins(cell: word -> nat, p: word -> word, mode: Mode, m: Mem, l: seq<word>, c: nat)
    requires mode == Write || mode == VerifyWriteInv
    ensures Pass(cell, p, mode, m, l).0(c) ==
            if c in Cells(cell, l) then
              if mode == Write then p(LastIn(cell, l, c)) else Inverse(p(LastIn(cell, l, c)))
            else
              m(c)
  {
    if l != [] {
      var rest := l[..|l| - 1];
      LastWriterWins(cell, p, mode, m, rest, c);
      if cell(l[|l| - 1]) != c {
        CellsButLast(cell, l, c);
      } else {
        assert cell(l[|l| - 1]) in Cells(cell, l);
      }
    }
  }

  lemma CellsButLast(cell: word -> nat, l: seq<word>, c: nat)
    requires l != [] && cell(l[|l| - 1]) != c
    ensures c in Cells(cell, l) <==> c in Cells(cell, l[..|l| - 1])
  {
    var rest := l[..|l| - 1];
    if c in Cells(cell, l) {
      var i :| 0 <= i < |l| && cell(l[i]) == c;
      assert rest[i] == l[i];
    }
    if c in Cells(cell, rest) {
      var i :| 0 <= i < |rest| && cell(rest[i]) == c;
      assert l[i] == rest[i];
    }
  }

  ghost function Good(cell: word -> nat, p: word -> word, m: Mem, l: seq<word>): set<word> {
    set a | a in l && m(cell(a)) == p(a)
  }

  /** A verifying pass over distinct addresses reports each bad one once. */
  lemma {:induction false} VerifyCounts(cell: word -> nat, p: word -> word, m: Mem, l: seq<word>)
    requires Distinct(l)
    ensures Pass(cell, p, Verify, m, l) == (m, |l| - |Good(cell, p, m, l)|)
  {
    if l != [] {
      var rest, a := l[..|l| - 1], l[|l| - 1];
      VerifyCounts(cell, p, m, rest);
      assert l == rest + [a];
      GoodSnoc(cell, p, m, rest, a);
    }
  }

  lemma GoodSnoc(cell: word -> nat, p: word -> word, m: Mem, l: seq<word>, a: word)
    requires Distinct(l + [a])
    ensures |Good(cell, p, m, l + [a])| == |Good(cell, p, m, l)| + if m(cell(a)) == p(a) then 1 else 0
  {
    var all := l + [a];
    assert a !in l by {
      assert forall i | 0 <= i < |l| :: l[i] == all[i] != all[|l|];
    }
    if m(cell(a)) == p(a) {
      assert Good(cell, p, m, all) == Good(cell, p, m, l) + {a};
    } else {
      assert Good(cell, p, m, all) == Good(cell, p, m, l);
    }
  }

  ghost function Image(cell: word -> nat, s: set<word>): set<nat> { set a | a in s :: cell(a) }

  lemma {:induction false} ImageSize(cell: word -> nat, s: set<word>)
    requires forall a, b | a in s && b in s && cell(a) == cell(b) :: a == b
    ensures |Image(cell, s)| == |s|
  {
    if s != {} {
      var a :| a in s;
      ImageSize(cell, s - {a});
      assert Image(cell, s) == Image(cell, s - {a}) + {cell(a)};
      assert s == (s - {a}) + {a};
    } else {
      assert Image(cell, s) == {};
    }
  }

  /** After the markers are written, the good addresses are one per cell. */
  lemma OneGoodPerCell(cell: word -> nat, p: word -> word, m: Mem, l: seq<word>)
    requires Injective(p)
    ensures |Good(cell, p, Pass(cell, p, Write, m, l).0, l)| == |Cells(cell, l)|
  {
    var w := Pass(cell, p, Write, m, l).0;
    var good := Good(cell, p, w, l);
    forall c | c in Cells(cell, l)
      ensures c in Image(cell, good)
    {
      LastWriterWins(cell, p, Write, m, l, c);
      assert LastIn(cell, l, c) in good;
    }
    assert Image(cell, good) == Cells(cell, l);
    ImageSize(cell, good);
  }

  /** The line test's count is the number of lines less the number of distinct cells they hit. */
  lemma LineTestExact(cell: word -> nat, p: word -> word, m: Mem, l: seq<word>)
    requires Distinct(l) && Injective(p)
    ensures Pass(cell, p, Verify, Pass(cell, p, Write, m, l).0, l).1 == |l| - |Cells(cell, l)|
  {
    VerifyCounts(cell, p, Pass(cell, p, Write, m, l).0, l);
    OneGoodPerCell(cell, p, m, l);
  }

  /** Fewer cells than lines means exactly that two lines alias. */
  lemma {:induction false} CellsTellAliasing(cell: word -> nat, l: seq<word>)
    ensures |Cells(cell, l)| <= |l|
    ensures |Cells(cell, l)| == |l| <==> NoAlias(cell, l)
  {
    if l != [] {
      var rest, a := l[..|l| - 1], l[|l| - 1];
      CellsTellAliasing(cell, rest);
      assert l == rest + [a];
      CellsSnoc(cell, rest, a);
      NoAliasSnoc(cell, rest, a);
    } else {
      assert Cells(cell, l) == {};
    }
  }

  lemma NoAliasSnoc(cell: word -> nat, l: seq<word>, a: word)
    ensures NoAlias(cell, l + [a]) <==> NoAlias(cell, l) && cell(a) !in Cells(cell, l)
  {
    var all := l + [a];
    assert forall i | 0 <= i < |l| :: all[i] == l[i];
    if NoAlias(cell, all) {
      assert forall i | 0 <= i < |l| :: cell(all[i]) != cell(all[|l|]);
      forall i, j | 0 <= i < j < |l|
        ensures cell(l[i]) != cell(l[j])
      {
        assert cell(all[i]) != cell(all[j]);
      }
    }
  }

  lemma CellsSnoc(cell: word -> nat, l: seq<word>, a: word)
    ensures Cells(cell, l + [a]) == Cells(cell, l) + {cell(a)}
  {
    var all := l + [a];
    forall c
      ensures c in Cells(cell, all) <==> c in Cells(cell, l) + {cell(a)}
    {
      if c == cell(a) {
        assert all[|l|] == a;
        assert c in Cells(cell, all);
      } else {
        assert all[..|all| - 1] == l;
        CellsButLast(cell, all, c);
      }
    }
  }

  /** Visit i of the pass reports nothing. */
  ghost predicate Silent(cell: word -> nat, p: word -> word, mode: Mode, m: Mem, l: seq<word>, i: nat)
    requires i < |l|
  {
    Step(cell, p, mode, Pass(cell, p, mode, m, l[..i]).0, l[i]).1 == 0
  }

  /** A pass reports nothing exactly when every single visit reports nothing. */
  lemma {:induction false} PassSilent(cell: word -> nat, p: word -> word, mode: Mode, m: Mem, l: seq<word>)
    ensures Pass(cell, p, mode, m, l).1 == 0 <==> forall i | 0 <= i < |l| :: Silent(cell, p, mode, m, l, i)
  {
    if l != [] {
      var n := |l| - 1;
      var rest := l[..n];
      PassSilent(cell, p, mode, m, rest);
      PassOneMore(cell, p, mode, m, rest, l[n]);
      assert l == rest + [l[n]];
      forall i | 0 <= i < n
        ensures Silent(cell, p, mode, m, rest, i) <==> Silent(cell, p, mode, m, l, i)
      {
        assert rest[..i] == l[..i];
      }
      assert Pass(cell, p, mode, m, l).1 == 0 <==> Pass(cell, p, mode, m, rest).1 == 0 && Silent(cell, p, mode, m, l, n);
    }
  }

  /** Without aliasing the cell of address i is untouched by the visits before it. */
  lemma BeforeVisit(cell: word -> nat, p: word -> word, mode: Mode, m: Mem, l: seq<word>, i: nat)
    requires i < |l| && (mode == Write || mode == VerifyWriteInv)
    requires forall j | 0 <= j < i :: cell(l[j]) != cell(l[i])
    ensures Pass(cell, p, mode, m, l[..i]).0(cell(l[i])) == m(cell(l[i]))
  {
    LastWriterWins(cell, p, mode, m, l[..i], cell(l[i]));
  }

  /** Without aliasing every address finds its own value after a writing pass. */
  lemma AfterWriting(cell: word -> nat, p: word -> word, mode: Mode, m: Mem, l: seq<word>, i: nat)
    requires i < |l| && NoAlias(cell, l) && (mode == Write || mode == VerifyWriteInv)
    ensures Pass(cell, p, mode, m, l).0(cell(l[i])) == if mode == Write then p(l[i]) else Inverse(p(l[i]))
  {
    LastWriterWins(cell, p, mode, m, l, cell(l[i]));
    var a := LastIn(cell, l, cell(l[i]));
    var k :| 0 <= k < |l| && l[k] == a;
  }

  /** The three phases of the sweep, as one count. */
  function SweepFailures(cell: word -> nat, p: word -> word, m: Mem, l: seq<word>): nat {
    var a := Pass(cell, p, Write, m, l);
    var b := Pass(cell, p, VerifyWriteInv, a.0, l);
    var c := Pass(cell, p, VerifyInv, b.0, l);
    a.1 + b.1 + c.1
  }

  lemma SweepSilentIfNoAlias(cell: word -> nat, p: word -> word, m: Mem, l: seq<word>)
    requires NoAlias(cell, l)
    ensures SweepFailures(cell, p, m, l) == 0
  {
    var a := Pass(cell, p, Write, m, l);
    var b := Pass(cell, p, VerifyWriteInv, a.0, l);
    WritesSilent(cell, p, m, l);
    forall i | 0 <= i < |l|
      ensures Silent(cell, p, VerifyWriteInv, a.0, l, i)
      ensures b.0(cell(l[i])) == Inverse(p(l[i]))
    {
      AfterWriting(cell, p, Write, m, l, i);
      BeforeVisit(cell, p, VerifyWriteInv, a.0, l, i);
      AfterWriting(cell, p, VerifyWriteInv, a.0, l, i);
    }
    PassSilent(cell, p, VerifyWriteInv, a.0, l);
    ReadsSilent(cell, p, b.0, l);
  }

  lemma {:induction false} WritesSilent(cell: word -> nat, p: word -> word, m: Mem, l: seq<word>)
    ensures Pass(cell, p, Write, m, l).1 == 0
  {
    if l != [] {
      WritesSilent(cell, p, m, l[..|l| - 1]);
    }
  }

  lemma {:induction false} ReadsSilent(cell: word -> nat, p: word -> word, m: Mem, l: seq<word>)
    requires forall i | 0 <= i < |l| :: m(cell(l[i])) == Inverse(p(l[i]))
    ensures Pass(cell, p, VerifyInv, m, l) == (m, 0)
  {
    if l != [] {
      ReadsSilent(cell, p, m, l[..|l| - 1]);
    }
  }

  /** The first of two aliases to be verified finds what the other left there. */
  lemma AliasIsReported(cell: word -> nat, p: word -> word, m: Mem, l: seq<word>, i: nat, j: nat)
    requires Injective(p) && Distinct(l) && i < j < |l| && cell(l[i]) == cell(l[j])
    requires forall k | 0 <= k < i :: cell(l[k]) != cell(l[i])
    requires forall k | j < k < |l| :: cell(l[k]) != cell(l[i])
    ensures SweepFailures(cell, p, m, l) > 0
  {
    var a := Pass(cell, p, Write, m, l);
    LastWriterWins(cell, p, Write, m, l, cell(l[i]));
    LastIs(cell, l, j);
    BeforeVisit(cell, p, VerifyWriteInv, a.0, l, i);
    PassSilent(cell, p, VerifyWriteInv, a.0, l);
    assert !Silent(cell, p, VerifyWriteInv, a.0, l, i);
  }

  lemma {:induction false} LastIs(cell: word -> nat, l: seq<word>, j: nat)
    requires j < |l| && forall k | j < k < |l| :: cell(l[k]) != cell(l[j])
    ensures LastIn(cell, l, cell(l[j])) == l[j]
  {
    if j < |l| - 1 {
      assert l[..|l| - 1][j] == l[j];
      LastIs(cell, l[..|l| - 1], j);
    }
  }

  lemma {:induction false} FirstAndLast(cell: word -> nat, l: seq<word>, i: nat, j: nat) returns (f: nat, g: nat)
    requires i < j < |l| && cell(l[i]) == cell(l[j])
    ensures f <= i && j <= g < |l| && cell(l[f]) == cell(l[i]) == cell(l[g])
    ensures forall k | 0 <= k < f :: cell(l[k]) != cell(l[f])
    ensures forall k | g < k < |l| :: cell(l[k]) != cell(l[f])
    decreases i + |l| - j
  {
    if h: nat :| h < i && cell(l[h]) == cell(l[i]) {
      f, g := FirstAndLast(cell, l, h, j);
    } else if h :| j < h < |l| && cell(l[h]) == cell(l[i]) {
      f, g := FirstAndLast(cell, l, i, h);
    } else {
      f, g := i, j;
    }
  }

  /** The sweep reports nothing exactly when the mapping is injective on the words it visits. */
  lemma SweepExact(cell: word -> nat, p: word -> word, m: Mem, l: seq<word>)
    requires Distinct(l) && Injective(p)
    ensures SweepFailures(cell, p, m, l) == 0 <==> NoAlias(cell, l)
  {
    if NoAlias(cell, l) {
      SweepSilentIfNoAlias(cell, p, m, l);
    } else {
      var i, j :| 0 <= i < j < |l| && cell(l[i]) == cell(l[j]);
      var f, g := FirstAndLast(cell, l, i, j);
      AliasIsReported(cell, p, m, l, f, g);
    }
  }

  // ---------------------------------------------------------------- the test suites

  /** A testable window; `end` is exclusive. */
  datatype Window = Window(start: nat, end: nat)

  /** A pass from a gets to `end` without its 64-bit address wrapping around; otherwise it would never end. */
  predicate Stops(a: nat, end: nat, step: nat)
    requires step > 0
    decreases end - a
  {
    a >= end || (a + step < 0x1_0000_0000_0000_0000 && Stops(a + step, end, step))
  }

  /** Exactly when rounding the window's length up to whole steps stays below 2^64. */
  lemma {:induction false} StopsExactly(a: nat, end: nat, step: nat)
    requires step > 0
    ensures Stops(a, end, step) <==> a >= end || a + (end - a + step - 1) / step * step < 0x1_0000_0000_0000_0000
    decreases end - a
  {
    if a < end {
      var q := (end - a + step - 1) / step;
      assert end - a + step - 1 == q * step + (end - a + step - 1) % step;
      OneStepLess(end - a - 1, step);
      if a + step < end {
        StopsExactly(a + step, end, step);
        assert (q - 1) * step == q * step - step;
      }
    }
  }

  lemma OneStepLess(x: nat, step: nat)
    requires step > 0
    ensures (x + step) / step == x / step + 1
    ensures x < step ==> (x + step) / step == 1
  {
    var q := x / step;
    assert x == q * step + x % step;
    assert (q + 1) * step == q * step + step;
    DivIs(x + step, step, q + 1);
    if x < step {
      DivIs(x, step, 0);
    }
  }

  /** A pass over a window that ends in the last byte of the address space does not stop. */
  lemma TopWindowDoesNotStop()
    ensures !Stops(0xFFFF_FFFF_FFFF_FF00, 0xFFFF_FFFF_FFFF_FFFF, 64)
  {
    StopsExactly(0xFFFF_FFFF_FFFF_FF00, 0xFFFF_FFFF_FFFF_FFFF, 64);
  }

  /** The address of the k-th turn of the loop, in 64 bits. */
  function Turn(a: nat, step: nat, k: nat): nat {
    if k == 0 then a else (Turn(a, step, k - 1) + step) % 0x1_0000_0000_0000_0000
  }

  /** Then the loop never ends: with a step that divides 2^64 every turn finds its address below the end. */
  lemma NeverEnds(a: nat, end: nat, step: nat, k: nat)
    requires (step == 8 || step == 64) && end < 0x1_0000_0000_0000_0000 && !Stops(a, end, step)
    ensures Turn(a, step, k) < end
  {
    var m := LastBelow(a, end, step);
    var j := TurnFallsShort(a + m * step, end, step, m, k);
  }

  /** The last address before the wrap, m steps on, still lies below the end. */
  lemma {:induction false} LastBelow(a: nat, end: nat, step: nat) returns (m: nat)
    requires step > 0 && end < 0x1_0000_0000_0000_0000 && !Stops(a, end, step)
    ensures a + m * step < end && a + m * step + step >= 0x1_0000_0000_0000_0000
    decreases end - a
  {
    if a + step >= 0x1_0000_0000_0000_0000 {
      m := 0;
    } else {
      var n := LastBelow(a + step, end, step);
      m := n + 1;
      assert m * step == n * step + step;
    }
  }

  /** Every turn is at a whole number of steps below that last address. */
  lemma {:induction false} TurnFallsShort(last: nat, end: nat, step: nat, m: nat, k: nat) returns (j: nat)
    requires (step == 8 || step == 64) && last < end < 0x1_0000_0000_0000_0000 <= last + step && m * step <= last
    ensures j * step <= last && Turn(last - m * step, step, k) == last - j * step
  {
    if k == 0 {
      j := m;
    } else {
      var i := TurnFallsShort(last, end, step, m, k - 1);
      if i > 0 {
        j := i - 1;
        assert j * step == i * step - step;
      } else {
        j := if step == 8 then 0x2000_0000_0000_0000 - 1 else 0x400_0000_0000_0000 - 1;
      }
    }
  }

  /** A window of 64-bit addresses whose end, rounded up to whole steps from its start, is one too. */
  predicate Fits(w: Window, step: nat)
    requires step > 0
  {
    && w.end < 0x1_0000_0000_0000_0000
    && (w.start >= w.end || w.start + (w.end - w.start + step - 1) / step * step < 0x1_0000_0000_0000_0000)
  }

  /** The addresses a pass visits from a on. */
  function Visits(a: nat, end: nat, step: nat): (l: seq<word>)
    requires end < 0x1_0000_0000_0000_0000 && step > 0
    decreases end - a
  {
    if a < end then [a] + Visits(a + step, end, step) else []
  }

  lemma {:induction false} VisitsInside(a: nat, end: nat, step: nat)
    requires end < 0x1_0000_0000_0000_0000 && step > 0
    ensures forall x | x in Visits(a, end, step) :: a <= x < end
    ensures Distinct(Visits(a, end, step))
    decreases end - a
  {
    if a < end {
      VisitsInside(a + step, end, step);
      DistinctJoin([a], Visits(a + step, end, step), a + step);
    }
  }

  lemma NextVisit(seen: seq<word>, done: seq<word>, a: nat, end: nat, step: nat)
    requires a < end < 0x1_0000_0000_0000_0000 && step > 0
    ensures done + Visits(a, end, step) == (done + [a]) + Visits(a + step, end, step)
    ensures seen + (done + [a]) == (seen + done) + [a]
    ensures Stops(a, end, step) ==> (a + step) % 0x1_0000_0000_0000_0000 == a + step && Stops(a + step, end, step)
  {
  }

  function AllVisits(wins: seq<Window>, step: nat): seq<word>
    requires step > 0 && forall i | 0 <= i < |wins| :: Fits(wins[i], step)
  {
    if wins == [] then
      []
    else
      var w := wins[|wins| - 1];
      assert Fits(w, step);
      AllVisits(wins[..|wins| - 1], step) + Visits(w.start, w.end, step)
  }

  /** The windows compute_windows hands out: in order and apart. */
  ghost predicate Apart(wins: seq<Window>, step: nat)
    requires step > 0
  {
    && (forall i | 0 <= i < |wins| :: Fits(wins[i], step))
    && (forall i, j | 0 <= i < j < |wins| :: wins[i].end <= wins[j].start)
  }

  lemma {:induction false} VisitsDistinct(wins: seq<Window>, step: nat)
    requires step > 0 && Apart(wins, step)
    ensures Distinct(AllVisits(wins, step))
    ensures forall a | a in AllVisits(wins, step) :: exists j :: 0 <= j < |wins| && a < wins[j].end
  {
    if wins != [] {
      var rest, w := wins[..|wins| - 1], wins[|wins| - 1];
      VisitsDistinct(rest, step);
      VisitsInside(w.start, w.end, step);
      var l, r := AllVisits(rest, step), Visits(w.start, w.end, step);
      forall a | a in l
        ensures a < w.start && exists j :: 0 <= j < |wins| && a < wins[j].end
      {
        var j :| 0 <= j < |rest| && a < rest[j].end;
        assert wins[j] == rest[j];
      }
      DistinctJoin(l, r, w.start);
      assert AllVisits(wins, step) == l + r;
    }
  }

  lemma DistinctJoin(l: seq<word>, r: seq<word>, bound: nat)
    requires Distinct(l) && Distinct(r)
    requires (forall a | a in l :: a < bound) && (forall a | a in r :: bound <= a)
    ensures Distinct(l + r)
  {
    forall i, j | 0 <= i < j < |l + r|
      ensures (l + r)[i] != (l + r)[j]
    {
      if i < |l| <= j {
        assert l[i] in l && r[j - |l|] in r;
      }
    }
  }

  function Pattern(seed: word): (p: word -> word) { (a: word) => Pat(a, seed) }

  lemma PatternInjective(seed: word)
    ensures Injective(Pattern(seed))
  {
    forall a, b | Pattern(seed)(a) == Pattern(seed)(b)
      ensures a == b
    {
      PatInjective(a, b, seed);
    }
  }

  class Dram {
    const cell: word -> nat
    var cells: Mem
    var sweepFailures: nat

    /** Memory behind an arbitrary address decoder, with arbitrary contents. */
    constructor (cell: word -> nat, cells: Mem)
      ensures this.cell == cell && this.cells == cells
    {
      this.cell, this.cells, sweepFailures := cell, cells, 0;
    }

    /** A pass that began with memory m and the counter at `base` has visited l. */
    ghost predicate Passed(mode: Mode, p: word -> word, m: Mem, base: nat, l: seq<word>)
      reads this
    {
      cells == Pass(cell, p, mode, m, l).0 && sweepFailures == base + Pass(cell, p, mode, m, l).1
    }

    /** line_pass and sweep: one pass over one window. */
    method PassWindow(w: Window, mode: Mode, p: word -> word, step: nat, ghost m: Mem, ghost base: nat, ghost seen: seq<word>)
      requires 0 < step && w.end < 0x1_0000_0000_0000_0000 && Stops(w.start, w.end, step) && Passed(mode, p, m, base, seen)
      modifies this
      ensures Passed(mode, p, m, base, seen + Visits(w.start, w.end, step))
    {
      var a := w.start;
      ghost var done: seq<word> := [];
      assert seen + done == seen;
      while a < w.end
        invariant w.start <= a && Stops(a, w.end, step) && done + Visits(a, w.end, step) == Visits(w.start, w.end, step)
        invariant Passed(mode, p, m, base, seen + done)
      {
        VisitNext(a, mode, p, m, base, seen + done);
        NextVisit(seen, done, a, w.end, step);
        done := done + [a];
        a := (a + step) % 0x1_0000_0000_0000_0000;
      }
      assert done == Visits(w.start, w.end, step);
    }

    method VisitNext(a: word, mode: Mode, p: word -> word, ghost m: Mem, ghost base: nat, ghost l: seq<word>)
      requires Passed(mode, p, m, base, l)
      modifies this
      ensures Passed(mode, p, m, base, l + [a])
    {
      Visit(a, mode, p);
      PassOneMore(cell, p, mode, m, l, a);
    }

    /** The body of either loop. */
    method Visit(a: word, mode: Mode, p: word -> word)
      modifies this
      ensures (cells, sweepFailures) == var r := Step(cell, p, mode, old(cells), a); (r.0, old(sweepFailures) + r.1)
    {
      var c, e := cell(a), p(a);
      match mode
      case Write =>
        cells := Set(cells, c, e);
      case Verify =>
        var got := cells(c);
        if got != e {
          sweepFailures := sweepFailures + 1;
        }
      case VerifyWriteInv =>
        var got := cells(c);
        if got != e {
          sweepFailures := sweepFailures + 1;
        }
        cells := Set(cells, c, Inverse(e));
      case VerifyInv =>
        var got := cells(c);
        if got != Inverse(e) {
          sweepFailures := sweepFailures + 1;
        }
    }

    /** One phase: a pass over every window in turn. */
    method Phase(wins: seq<Window>, mode: Mode, p: word -> word, step: nat)
      requires 0 < step && Apart(wins, step)
      modifies this
      ensures (cells, sweepFailures) ==
              var r := Pass(cell, p, mode, old(cells), AllVisits(wins, step)); (r.0, old(sweepFailures) + r.1)
    {
      for i := 0 to |wins|
        invariant Passed(mode, p, old(cells), old(sweepFailures), AllVisits(wins[..i], step))
      {
        StopsExactly(wins[i].start, wins[i].end, step);
        PassWindow(wins[i], mode, p, step, old(cells), old(sweepFailures), AllVisits(wins[..i], step));
        assert wins[..i + 1][..i] == wins[..i];
      }
      assert wins[..|wins|] == wins;
    }

    /** test_line_edges: the mismatch count is exact for every mapping of lines to cells. */
    method TestLineEdges(wins: seq<Window>) returns (failed: bool)
      requires Apart(wins, 64)
      modifies this
      ensures var l := AllVisits(wins, 64);
        && sweepFailures == |l| - |Cells(cell, l)|
        && (failed <==> !NoAlias(cell, l))
    {
      var p := Pattern(0x9E37_79B9_7F4A_917B);
      sweepFailures := 0;
      Phase(wins, Write, p, 64);
      Phase(wins, Verify, p, 64);
      ghost var l := AllVisits(wins, 64);
      VisitsDistinct(wins, 64);
      PatternInjective(0x9E37_79B9_7F4A_917B);
      WritesSilent(cell, p, old(cells), l);
      LineTestExact(cell, p, old(cells), l);
      CellsTellAliasing(cell, l);
      failed := sweepFailures > 0;
    }

    /** test_full_sweep: no mismatch exactly when every word of every window has a cell of its own. */
    method TestFullSweep(wins: seq<Window>) returns (failed: bool)
      requires Apart(wins, 8)
      modifies this
      ensures failed <==> !NoAlias(cell, AllVisits(wins, 8))
    {
      var p := Pattern(0x9E37_79B9_7F4A_7C15);
      sweepFailures := 0;
      Phase(wins, Write, p, 8);
      Phase(wins, VerifyWriteInv, p, 8);
      Phase(wins, VerifyInv, p, 8);
      VisitsDistinct(wins, 8);
      PatternInjective(0x9E37_79B9_7F4A_7C15);
      SweepExact(cell, p, old(cells), AllVisits(wins, 8));
      failed := sweepFailures > 0;
    }
  }
}
