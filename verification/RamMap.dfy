/** The RAM map of mem-test/main.c: ranges sorted and merged in place, and the windows the tests may use. */
module RamMap {
  import opened MemTest

  type u64 = x: int | 0 <= x < 0x1_0000_0000_0000_0000

  datatype Range = Range(base: u64, size: u64) {
    /** The end as every comparison of the code computes it: a range whose end wraps counts as empty. */
    function End(): u64 { (base + size) % 0x1_0000_0000_0000_0000 }
  }

  ghost predicate Covers(s: seq<Range>, x: nat) { exists i | 0 <= i < |s| :: s[i].base <= x < s[i].End() }

  ghost predicate Sorted(s: seq<Range>) { forall i, j | 0 <= i < j < |s| :: s[i].base <= s[j].base }

  /** Ascending with at least one address between neighbours. */
  ghost predicate Gapped(s: seq<Range>) { forall i, j | 0 <= i < j < |s| :: s[i].End() < s[j].base }

  // ---------------------------------------------------------------- sorting

  /** Element i of s moved down to position j. */
  function Moved(s: seq<Range>, i: nat, j: nat): seq<Range>
    requires j <= i < |s|
  {
    s[..j] + [s[i]] + s[j..i] + s[i + 1..]
  }

  lemma MovedPermutes(s: seq<Range>, i: nat, j: nat)
    requires j <= i < |s|
    ensures multiset(Moved(s, i, j)) == multiset(s) && |Moved(s, i, j)| == |s|
  {
    assert s == s[..j] + s[j..i] + [s[i]] + s[i + 1..];
  }

  lemma MovedAt(s: seq<Range>, i: nat, j: nat, k: nat)
    requires j <= i < |s| && k < |s|
    ensures Moved(s, i, j)[k] == if k < j || k > i then s[k] else if k == j then s[i] else s[k - 1]
  {
  }

  lemma MovedSorted(s: seq<Range>, i: nat, j: nat)
    requires j <= i < |s| && Sorted(s[..i])
    requires forall k | j <= k < i :: s[k].base > s[i].base
    requires j > 0 ==> s[j - 1].base <= s[i].base
    ensures Sorted(Moved(s, i, j)[..i + 1])
  {
    var p, t := s[..i], Moved(s, i, j)[..i + 1];
    forall a, b | 0 <= a < b < |t|
      ensures t[a].base <= t[b].base
    {
      var a', b' := if a < j then a else if a == j then i else a - 1, if b < j then b else if b == j then i else b - 1;
      assert t[a] == s[a'] && t[b] == s[b'];
      if a' < i && b' < i {
        assert p[a'] == s[a'] && p[b'] == s[b'];
      } else if b' == i && a < j {
        assert p[a] == s[a] && p[j - 1] == s[j - 1];
      }
    }
  }

  /** The inner loop of the insertion sort. */
  method Insert(a: array<Range>, i: nat) returns (ghost j: nat)
    requires i < a.Length && Sorted(a[..i])
    modifies a
    ensures j <= i && a[..] == Moved(old(a[..]), i, j) && Sorted(a[..i + 1])
  {
    ghost var s := a[..];
    var key := a[i];
    var h: nat := i;
    while h > 0 && a[h - 1].base > key.base
      invariant h <= i
      invariant forall k | 0 <= k <= h :: a[k] == s[k]
      invariant forall k | h < k <= i :: a[k] == s[k - 1]
      invariant forall k | i < k < a.Length :: a[k] == s[k]
      invariant forall k | h <= k < i :: s[k].base > key.base
    {
      a[h] := a[h - 1];
      h := h - 1;
    }
    a[h] := key;
    j := h;
    ShiftedIsMoved(s, a[..], i, j);
    assert s[..i] == old(a[..i]);
    MovedSorted(s, i, j);
    assert a[..i + 1] == a[..][..i + 1];
  }

  lemma ShiftedIsMoved(s: seq<Range>, t: seq<Range>, i: nat, j: nat)
    requires j <= i < |s| == |t| && t[j] == s[i]
    requires (forall k | 0 <= k < j :: t[k] == s[k]) && (forall k | i < k < |s| :: t[k] == s[k])
    requires forall k | j < k <= i :: t[k] == s[k - 1]
    ensures t == Moved(s, i, j)
  {
    forall k | 0 <= k < |s|
      ensures t[k] == Moved(s, i, j)[k]
    {
      MovedAt(s, i, j, k);
    }
  }

  /** Insertion sort by base of the first `cnt` ranges. */
  method Sort(a: array<Range>, cnt: nat)
    requires cnt <= a.Length
    modifies a
    ensures Sorted(a[..cnt]) && multiset(a[..cnt]) == multiset(old(a[..cnt])) && a[cnt..] == old(a[cnt..])
  {
    ghost var tail, all := a[cnt..], a[..cnt];
    var i := 1;
    while i < cnt
      invariant 1 <= i && (i <= cnt || cnt == 0)
      invariant Sorted(a[..if i <= cnt then i else cnt])
      invariant multiset(a[..cnt]) == multiset(all) && a[cnt..] == tail
    {
      ghost var s := a[..];
      ghost var j := Insert(a, i);
      SortStep(s, a[..], cnt, i, j);
      i := i + 1;
    }
  }

  lemma SortStep(s: seq<Range>, t: seq<Range>, cnt: nat, i: nat, j: nat)
    requires j <= i < cnt <= |s| && t == Moved(s, i, j)
    ensures multiset(t[..cnt]) == multiset(s[..cnt]) && t[cnt..] == s[cnt..]
  {
    MovedPermutes(s[..cnt], i, j);
    var u := Moved(s[..cnt], i, j);
    forall k | 0 <= k < cnt
      ensures t[k] == u[k]
    {
      MovedAt(s, i, j, k);
      MovedAt(s[..cnt], i, j, k);
    }
    forall k | cnt <= k < |s|
      ensures t[k] == s[k]
    {
      MovedAt(s, i, j, k);
    }
    assert t[..cnt] == u;
  }

  lemma SameCover(s: seq<Range>, t: seq<Range>, x: nat)
    requires multiset(s) == multiset(t)
    ensures Covers(s, x) <==> Covers(t, x)
  {
    if Covers(s, x) {
      var i :| 0 <= i < |s| && s[i].base <= x < s[i].End();
      assert s[i] in multiset(t);
    }
    if Covers(t, x) {
      var i :| 0 <= i < |t| && t[i].base <= x < t[i].End();
      assert t[i] in multiset(s);
    }
  }

  // ---------------------------------------------------------------- merging

  /** One range met by the merge: swallowed, widening the last one, or a new one. */
  function Absorb(out: seq<Range>, r: Range): seq<Range>
    requires out != []
  {
    var last := out[|out| - 1];
    if r.base <= last.End() then
      if r.End() > last.End() then out[|out| - 1 := Range(last.base, (r.End() - last.base) % 0x1_0000_0000_0000_0000)] else out
    else
      out + [r]
  }

  function Merged(s: seq<Range>): (t: seq<Range>)
    ensures |t| <= |s| && (s != [] ==> t != [])
  {
    if |s| <= 1 then s else Absorb(Merged(s[..|s| - 1]), s[|s| - 1])
  }

  lemma AbsorbCovers(out: seq<Range>, r: Range, x: nat)
    requires out != [] && out[|out| - 1].base <= r.base
    ensures Covers(Absorb(out, r), x) <==> Covers(out, x) || r.base <= x < r.End()
  {
    var n := |out| - 1;
    var init, last := out[..n], out[n];
    assert out == init + [last];
    CoversSnoc(init, last, x);
    if r.base > last.End() {
      CoversSnoc(out, r, x);
    } else if r.End() > last.End() {
      var wide := Range(last.base, (r.End() - last.base) % 0x1_0000_0000_0000_0000);
      WidenedEnd(last, r);
      assert Absorb(out, r) == init + [wide];
      CoversSnoc(init, wide, x);
    }
  }

  lemma WidenedEnd(last: Range, r: Range)
    requires last.base <= r.End()
    ensures Range(last.base, (r.End() - last.base) % 0x1_0000_0000_0000_0000).End() == r.End()
  {
  }

  lemma AbsorbGapped(out: seq<Range>, r: Range)
    requires out != [] && Gapped(out) && out[|out| - 1].base <= r.base
    ensures Gapped(Absorb(out, r)) && Absorb(out, r)[|Absorb(out, r)| - 1].base <= r.base
  {
  }

  /** Merging sorted ranges leaves gaps. */
  lemma {:induction false} MergedGapped(s: seq<Range>)
    requires Sorted(s)
    ensures Gapped(Merged(s)) && (s != [] ==> Merged(s)[|Merged(s)| - 1].base <= s[|s| - 1].base)
  {
    if |s| > 1 {
      var rest, r := s[..|s| - 1], s[|s| - 1];
      MergedGapped(rest);
      assert rest[|rest| - 1] == s[|s| - 2];
      AbsorbGapped(Merged(rest), r);
    }
  }

  /** Merging sorted ranges loses and gains no address. */
  lemma {:induction false} MergedCovers(s: seq<Range>, x: nat)
    requires Sorted(s)
    ensures Covers(Merged(s), x) <==> Covers(s, x)
  {
    if |s| > 1 {
      var rest, r := s[..|s| - 1], s[|s| - 1];
      assert s == rest + [r];
      CoversSnoc(rest, r, x);
      MergedCovers(rest, x);
      LastBase(s, |s| - 1);
      AbsorbCovers(Merged(rest), r, x);
    }
  }

  lemma CoversSnoc(s: seq<Range>, r: Range, x: nat)
    ensures Covers(s + [r], x) <==> Covers(s, x) || r.base <= x < r.End()
  {
    var t := s + [r];
    assert t[|s|] == r && forall i | 0 <= i < |s| :: t[i] == s[i];
  }

  /** The computed end is the real one if and only if the range does not run past the top of the address space. */
  lemma EndIsReal(r: Range)
    ensures r.End() == r.base + r.size <==> r.base + r.size < 0x1_0000_0000_0000_0000
  {
  }

  /** The merge loop. */
  method Merge(a: array<Range>, cnt: nat) returns (n: nat)
    requires cnt <= a.Length && Sorted(a[..cnt])
    modifies a
    ensures n <= cnt && a[..n] == Merged(old(a[..cnt])) && (n == 0 <==> cnt == 0)
  {
    if cnt == 0 {
      return 0;
    }
    ghost var s := a[..cnt];
    var m: nat, i: nat := 0, 1;
    assert a[..][..1] == s[..1];
    while i < cnt
      invariant m < i <= cnt && MergedTo(a[..], s, m, i)
    {
      ghost var v := a[..];
      LastBase(s, i);
      assert v[..m + 1][m] == a[m];
      m := MergeOne(a, m, i);
      MergedOneMore(v, a[..], s, m, i);
      i := i + 1;
    }
    assert s[..cnt] == s && a[..m + 1] == a[..][..m + 1];
    return m + 1;
  }

  /** The first m + 1 ranges of v are the first i of s, merged; the rest of s is still in place. */
  ghost predicate MergedTo(v: seq<Range>, s: seq<Range>, m: nat, i: nat) {
    m < i <= |s| <= |v| && v[..m + 1] == Merged(s[..i]) && forall k | i <= k < |s| :: v[k] == s[k]
  }

  lemma MergedOneMore(v: seq<Range>, v': seq<Range>, s: seq<Range>, m': nat, i: nat)
    requires i < |s| <= |v| == |v'| && m' <= i && 0 < i && (forall k | i <= k < |s| :: v[k] == s[k])
    requires v'[..m' + 1] == Absorb(Merged(s[..i]), v[i]) && forall k | i < k < |v| :: v'[k] == v[k]
    ensures MergedTo(v', s, m', i + 1)
  {
    MergedStep(s, i);
  }

  lemma MergedStep(s: seq<Range>, i: nat)
    requires 0 < i < |s|
    ensures Merged(s[..i + 1]) == Absorb(Merged(s[..i]), s[i])
  {
    assert s[..i + 1][..i] == s[..i] && s[..i + 1][i] == s[i];
  }

  lemma LastBase(s: seq<Range>, i: nat)
    requires Sorted(s) && 0 < i < |s|
    ensures Merged(s[..i])[|Merged(s[..i])| - 1].base <= s[i].base
  {
    MergedGapped(s[..i]);
  }

  /** The body of the merge loop. */
  method MergeOne(a: array<Range>, m: nat, i: nat) returns (m': nat)
    requires m < i < a.Length && a[m].base <= a[i].base
    modifies a
    ensures m <= m' <= i && a[..m' + 1] == Absorb(old(a[..m + 1]), old(a[i]))
    ensures forall k | i < k < a.Length :: a[k] == old(a[k])
  {
    ghost var out, r := a[..m + 1], a[i];
    m' := m;
    if a[i].base <= a[m].End() {
      var end := a[i].End();
      if end > a[m].End() {
        a[m] := Range(a[m].base, (end - a[m].base) % 0x1_0000_0000_0000_0000);
      }
    } else {
      m' := m + 1;
      a[m'] := a[i];
    }
    assert a[..m' + 1] == Absorb(out, r);
  }

  /** The end of dtb_ram_ranges: the same addresses, as ascending ranges with gaps. */
  method SortAndMerge(a: array<Range>, cnt: nat) returns (n: nat)
    requires cnt <= a.Length
    modifies a
    ensures n <= cnt && (n == 0 <==> cnt == 0) && Gapped(a[..n])
    ensures forall x: nat :: Covers(a[..n], x) <==> Covers(old(a[..cnt]), x)
  {
    Sort(a, cnt);
    ghost var s := a[..cnt];
    n := Merge(a, cnt);
    MergedGapped(s);
    forall x: nat
      ensures Covers(a[..n], x) <==> Covers(old(a[..cnt]), x)
    {
      MergedCovers(s, x);
      SameCover(s, old(a[..cnt]), x);
    }
  }

  // ---------------------------------------------------------------- windows

  /** The end of the program's footprint and live heap with 1 MiB headroom, rounded up to 4 MiB, in 64 bits. */
  function ReservedEnd(footprint: nat, brk: nat): (r: nat)
    ensures r % 0x40_0000 == 0 && r < 0x1_0000_0000_0000_0000
  {
    var heap := (brk + 0x10_0000) % 0x1_0000_0000_0000_0000;
    var r := if heap > footprint then heap else footprint;
    (r + 0x3F_FFFF) % 0x1_0000_0000_0000_0000 / 0x40_0000 * 0x40_0000
  }

  /** It lies above stacks and heap if and only if neither of them ends in the last 4 MiB; then by less than 4 MiB. */
  lemma ReservedIsAbove(footprint: nat, brk: nat)
    requires footprint < 0x1_0000_0000_0000_0000 && brk < 0x1_0000_0000_0000_0000
    ensures var r, top := ReservedEnd(footprint, brk), if brk + 0x10_0000 > footprint then brk + 0x10_0000 else footprint;
      && (top <= r <==> top + 0x3F_FFFF < 0x1_0000_0000_0000_0000)
      && (top <= r ==> r < top + 0x40_0000)
  {
    var top := if brk + 0x10_0000 > footprint then brk + 0x10_0000 else footprint;
    if top + 0x3F_FFFF < 0x1_0000_0000_0000_0000 {
      RoundedUp(top);
    }
  }

  lemma RoundedUp(x: nat)
    ensures x <= (x + 0x3F_FFFF) / 0x40_0000 * 0x40_0000 < x + 0x40_0000
  {
  }

  /** A range cut to the addresses above the program and below the limit. */
  function Cut(r: Range, reserved: nat, limit: nat): Window {
    Window(if r.base < reserved then reserved else r.base, if r.End() > limit then limit else r.End())
  }

  /** The test of compute_windows, whose sum is taken in 64 bits. */
  predicate Kept(w: Window) { (w.start + 0x40_0000) % 0x1_0000_0000_0000_0000 <= w.end }

  predicate LongUnlessTop(w: Window) { Long(w) <==> w.start + 0x40_0000 < 0x1_0000_0000_0000_0000 }

  predicate Long(w: Window) { w.start + 0x40_0000 <= w.end }

  /** The test means "at least 4 MiB" for exactly the windows that do not start in the last 4 MiB. */
  lemma KeptMeansLong(w: Window)
    requires w.start < 0x1_0000_0000_0000_0000 && w.end < 0x1_0000_0000_0000_0000
    ensures Kept(w) ==> (Long(w) <==> w.start + 0x40_0000 < 0x1_0000_0000_0000_0000)
    ensures Long(w) ==> Kept(w)
  {
  }

  /** A one-page range at the top of the address space becomes a window. */
  lemma ShortWindowKept()
    ensures var w := Cut(Range(0xFFFF_FFFF_FFFF_E000, 0x1000), 0, 0xFFFF_FFFF_FFFF_FFFF); Kept(w) && !Long(w)
  {
  }

  function Windows(s: seq<Range>, reserved: nat, limit: nat, max: nat): (ws: seq<Window>)
    ensures |ws| <= max && |ws| <= |s|
  {
    if s == [] then
      []
    else
      var ws, w := Windows(s[..|s| - 1], reserved, limit, max), Cut(s[|s| - 1], reserved, limit);
      if |ws| < max && Kept(w) then ws + [w] else ws
  }

  ghost predicate InsideOne(s: seq<Range>, w: Window) {
    exists i | 0 <= i < |s| :: s[i].base <= w.start && w.end <= s[i].End()
  }

  /**
   * Within one range, above the program, below the limit, in order and apart; and long, unless it starts in the
   * last 4 MiB of the address space.
   */
  ghost predicate Sound(ws: seq<Window>, s: seq<Range>, reserved: nat, limit: nat) {
    && (forall k | 0 <= k < |ws| :: reserved <= ws[k].start && ws[k].end <= limit && InsideOne(s, ws[k]))
    && (forall k | 0 <= k < |ws| :: LongUnlessTop(ws[k]))
    && (forall j, k | 0 <= j < k < |ws| :: ws[j].end < ws[k].start)
  }

  lemma {:induction false} WindowsSound(s: seq<Range>, reserved: nat, limit: nat, max: nat)
    requires Gapped(s) && reserved < 0x1_0000_0000_0000_0000
    ensures Sound(Windows(s, reserved, limit, max), s, reserved, limit)
  {
    if s != [] {
      var rest, r := s[..|s| - 1], s[|s| - 1];
      WindowsSound(rest, reserved, limit, max);
      var ws, w := Windows(rest, reserved, limit, max), Cut(r, reserved, limit);
      if Kept(w) {
        KeptMeansLong(w);
      }
      forall k | 0 <= k < |ws|
        ensures ws[k].end < r.base
      {
        var i :| 0 <= i < |rest| && rest[i].base <= ws[k].start && ws[k].end <= rest[i].End();
        assert s[i] == rest[i];
      }
      assert s == rest + [r];
      SoundStep(ws, rest, r, reserved, limit);
    }
  }

  lemma SoundStep(ws: seq<Window>, s: seq<Range>, r: Range, reserved: nat, limit: nat)
    requires Sound(ws, s, reserved, limit) && forall k | 0 <= k < |ws| :: ws[k].end < r.base
    ensures Sound(ws, s + [r], reserved, limit)
    ensures LongUnlessTop(Cut(r, reserved, limit)) ==> Sound(ws + [Cut(r, reserved, limit)], s + [r], reserved, limit)
  {
    var all, w := s + [r], Cut(r, reserved, limit);
    forall k | 0 <= k < |ws|
      ensures InsideOne(all, ws[k])
    {
      var i :| 0 <= i < |s| && s[i].base <= ws[k].start && ws[k].end <= s[i].End();
      assert all[i] == s[i];
    }
    if LongUnlessTop(w) {
      assert all[|s|] == r && InsideOne(all, w);
      assert (ws + [w])[|ws|] == w;
    }
  }

  /** With room for all of them, the windows cover exactly the long cut ranges. */
  lemma {:induction false} WindowsComplete(s: seq<Range>, reserved: nat, limit: nat, max: nat, i: nat)
    requires i < |s| <= max && Kept(Cut(s[i], reserved, limit))
    ensures Cut(s[i], reserved, limit) in Windows(s, reserved, limit, max)
  {
    if i < |s| - 1 {
      WindowsComplete(s[..|s| - 1], reserved, limit, max, i);
    }
  }

  lemma WindowsStep(s: seq<Range>, reserved: nat, limit: nat, max: nat, i: nat)
    requires i < |s|
    ensures var ws, w := Windows(s[..i], reserved, limit, max), Cut(s[i], reserved, limit);
      Windows(s[..i + 1], reserved, limit, max) == if |ws| < max && Kept(w) then ws + [w] else ws
  {
    assert s[..i + 1][..i] == s[..i];
  }

  /** The body of compute_windows' loop. */
  method AddWindow(r: Range, out: array<Window>, cnt: nat, reserved: nat, limit: nat) returns (cnt': nat)
    requires cnt < out.Length
    modifies out
    ensures cnt' <= out.Length
    ensures var w := Cut(r, reserved, limit);
      out[..cnt'] == if Kept(w) then old(out[..cnt]) + [w] else old(out[..cnt])
  {
    var start, end := r.base, r.End();
    if start < reserved {
      start := reserved;
    }
    if end > limit {
      end := limit;
    }
    cnt' := cnt;
    if (start + 0x40_0000) % 0x1_0000_0000_0000_0000 <= end {
      out[cnt] := Window(start, end);
      cnt' := cnt + 1;
    }
  }

  /** The loop of compute_windows. */
  method FillWindows(ranges: array<Range>, n: nat, out: array<Window>, reserved: nat, limit: nat) returns (cnt: nat)
    requires n <= ranges.Length
    modifies out
    ensures cnt <= out.Length && out[..cnt] == Windows(ranges[..n], reserved, limit, out.Length)
  {
    cnt := 0;
    ghost var s := ranges[..n];
    var i := 0;
    while i < n && cnt < out.Length
      invariant 0 <= i <= n && cnt <= out.Length
      invariant out[..cnt] == Windows(s[..i], reserved, limit, out.Length)
    {
      WindowsStep(s, reserved, limit, out.Length, i);
      cnt := AddWindow(ranges[i], out, cnt, reserved, limit);
      i := i + 1;
    }
    FullStays(s, reserved, limit, out.Length, i);
  }

  /** compute_windows. */
  method ComputeWindows(ranges: array<Range>, n: nat, out: array<Window>, reserved: nat, limit: nat) returns (cnt: nat)
    requires n <= ranges.Length && Gapped(ranges[..n]) && reserved < 0x1_0000_0000_0000_0000
    modifies out
    ensures cnt <= out.Length && out[..cnt] == Windows(ranges[..n], reserved, limit, out.Length)
    ensures Sound(out[..cnt], ranges[..n], reserved, limit)
    ensures n <= out.Length ==> AllKept(ranges[..n], out[..cnt], reserved, limit)
  {
    cnt := FillWindows(ranges, n, out, reserved, limit);
    WindowsSound(ranges[..n], reserved, limit, out.Length);
    if n <= out.Length {
      WindowsAllKept(ranges[..n], reserved, limit, out.Length);
    }
  }

  ghost predicate AllKept(s: seq<Range>, ws: seq<Window>, reserved: nat, limit: nat) {
    forall i | 0 <= i < |s| && Kept(Cut(s[i], reserved, limit)) :: Cut(s[i], reserved, limit) in ws
  }

  lemma WindowsAllKept(s: seq<Range>, reserved: nat, limit: nat, max: nat)
    requires |s| <= max
    ensures AllKept(s, Windows(s, reserved, limit, max), reserved, limit)
  {
    forall i | 0 <= i < |s| && Kept(Cut(s[i], reserved, limit))
      ensures Cut(s[i], reserved, limit) in Windows(s, reserved, limit, max)
    {
      WindowsComplete(s, reserved, limit, max, i);
    }
  }

  /** Once the table is full the remaining ranges change nothing. */
  lemma {:induction false} FullStays(s: seq<Range>, reserved: nat, limit: nat, max: nat, i: nat)
    requires i <= |s| && (i == |s| || |Windows(s[..i], reserved, limit, max)| == max)
    ensures Windows(s, reserved, limit, max) == Windows(s[..i], reserved, limit, max)
  {
    if i < |s| {
      var rest := s[..|s| - 1];
      assert rest[..i] == s[..i];
      FullStays(rest, reserved, limit, max, i);
    } else {
      assert s[..i] == s;
    }
  }

  /** The windows delivered are what the test suites ask for, as soon as a pass over each comes to its end. */
  lemma SoundIsApart(ws: seq<Window>, s: seq<Range>, reserved: nat, limit: nat, step: nat)
    requires Sound(ws, s, reserved, limit) && step > 0 && forall k | 0 <= k < |ws| :: Fits(ws[k], step)
    ensures Apart(ws, step)
  {
  }

  predicate AllFit(ws: seq<Window>, step: nat)
    requires step > 0
  {
    forall k | 0 <= k < |ws| :: Fits(ws[k], step)
  }

  /** Endless: the pass over some window never comes to its end. */
  datatype Outcome = NoRam | NoWindow | Endless | Tested(lines: bool, words: bool)

  /**
   * The course of `main` for the last two suites: ranges, windows, tests. Unless a pass never ends, they fail exactly
   * when two lines, or two words, of the memory the device tree claims above the program share a cell.
   */
  method Suites(ranges: array<Range>, cnt: nat, out: array<Window>, footprint: nat, brk: nat, limit: nat, dram: Dram)
    returns (r: Outcome, ghost s: nat, ghost n: nat)
    requires cnt <= ranges.Length
    modifies ranges, out, dram
    ensures r.NoRam? <==> cnt == 0
    ensures s <= ranges.Length && Gapped(ranges[..s]) && n <= out.Length
    ensures forall x: nat :: Covers(ranges[..s], x) <==> Covers(old(ranges[..cnt]), x)
    ensures Sound(out[..n], ranges[..s], ReservedEnd(footprint, brk), limit)
    ensures r.NoWindow? ==> n == 0
    ensures r.Endless? <==> !(AllFit(out[..n], 64) && AllFit(out[..n], 8))
    ensures r.Tested? ==>
      && Apart(out[..n], 64) && (r.lines <==> !NoAlias(dram.cell, AllVisits(out[..n], 64)))
      && Apart(out[..n], 8) && (r.words <==> !NoAlias(dram.cell, AllVisits(out[..n], 8)))
  {
    n := 0;
    var ns := SortAndMerge(ranges, cnt);
    s := ns;
    if ns == 0 {
      return NoRam, s, n;
    }
    var reserved := ReservedEnd(footprint, brk);
    var nw := ComputeWindows(ranges, ns, out, reserved, limit);
    n := nw;
    if nw == 0 {
      return NoWindow, s, n;
    }
    r := Test(out[..nw], dram);
    if r.Tested? {
      SoundIsApart(out[..n], ranges[..s], reserved, limit, 64);
      SoundIsApart(out[..n], ranges[..s], reserved, limit, 8);
    }
  }

  /** The two suites on windows in order and apart. */
  method Test(ws: seq<Window>, dram: Dram) returns (r: Outcome)
    requires forall j, k | 0 <= j < k < |ws| :: ws[j].end < ws[k].start
    modifies dram
    ensures !r.NoRam? && !r.NoWindow? && (r.Endless? <==> !(AllFit(ws, 64) && AllFit(ws, 8)))
    ensures r.Tested? ==>
      && (r.lines <==> !NoAlias(dram.cell, AllVisits(ws, 64)))
      && (r.words <==> !NoAlias(dram.cell, AllVisits(ws, 8)))
  {
    if !AllFit(ws, 64) || !AllFit(ws, 8) {
      return Endless;
    }
    var lines := dram.TestLineEdges(ws);
    var words := dram.TestFullSweep(ws);
    r := Tested(lines, words);
  }

  /** An endless outcome is one: in some window the loop with that step finds its address below the end at every turn. */
  lemma EndlessIsEndless(w: Window, step: nat, k: nat)
    requires (step == 8 || step == 64) && w.end < 0x1_0000_0000_0000_0000 && !Fits(w, step)
    ensures Turn(w.start, step, k) < w.end
  {
    StopsExactly(w.start, w.end, step);
    NeverEnds(w.start, w.end, step, k);
  }
}
