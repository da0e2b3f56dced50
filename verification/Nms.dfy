/** Non-maximum suppression of gemmini-detect/main.c, over the reals. */
module Nms {
  /** The corner of a 28 x 28 window. */
  datatype Window = Window(x: nat, y: nat)

  /** A window with its label, its confidence and one vote for each of the ten classes. */
  datatype Detection = Detection(at: Window, lab: nat, conf: real, probs: seq<real>)

  predicate WellFormed(d: Detection) { |d.probs| == 10 }

  predicate AllWell(s: seq<Detection>) { forall i | 0 <= i < |s| :: WellFormed(s[i]) }

  function Abs(i: int): nat { if i < 0 then -i else i }

  /** Intersection over union. */
  function Iou(a: Window, b: Window): (r: real)
    ensures 0.0 <= r <= 1.0
  {
    var ox, oy := 28 - Abs(a.x - b.x), 28 - Abs(a.y - b.y);
    if ox <= 0 || oy <= 0 then
      0.0
    else
      InterFits(ox, oy);
      (ox * oy) as real / (1568 - ox * oy) as real
  }

  lemma InterFits(ox: int, oy: int)
    requires 0 < ox <= 28 && 0 < oy <= 28
    ensures 0 < ox * oy <= 784
    ensures 0.0 < (ox * oy) as real / (1568 - ox * oy) as real <= 1.0
  {
    assert ox * oy <= 28 * oy;
  }

  lemma IouSymmetric(a: Window, b: Window)
    ensures Iou(a, b) == Iou(b, a)
  {
  }

  /** Overlap with itself is complete. */
  lemma IouSelf(a: Window)
    ensures Iou(a, a) == 1.0
  {
  }

  /** The suppression test as a relation on windows; only its symmetry matters below. */
  type Relation = (Window, Window) -> bool

  function Overlap(): Relation { (a: Window, b: Window) => Iou(a, b) > 0.1 }

  ghost predicate Symmetric(over: Relation) { forall a, b :: over(a, b) == over(b, a) }

  lemma OverlapSymmetric()
    ensures Symmetric(Overlap())
  {
    forall a, b
      ensures Overlap()(a, b) == Overlap()(b, a)
    {
      IouSymmetric(a, b);
    }
  }

  /** Same window and confidence; the votes may differ. */
  predicate SameBox(a: Detection, b: Detection) { a.at == b.at && a.conf == b.conf }

  // ---------------------------------------------------------------- sorting

  ghost predicate Descending(s: seq<Detection>) { forall i, j | 0 <= i < j < |s| :: s[i].conf >= s[j].conf }

  function Swapped(s: seq<Detection>, i: nat, j: nat): seq<Detection>
    requires i < |s| && j < |s|
  {
    s[i := s[j]][j := s[i]]
  }

  /** The first i are in place: descending, and none after them is larger. */
  ghost predicate Placed(s: seq<Detection>, i: nat)
    requires i <= |s|
  {
    forall p, q | 0 <= p < i && p < q < |s| :: s[p].conf >= s[q].conf
  }

  lemma PlacedStep(s: seq<Detection>, i: nat, best: nat)
    requires i <= best < |s| && Placed(s, i) && forall q | i <= q < |s| :: s[best].conf >= s[q].conf
    ensures Placed(Swapped(s, i, best), i + 1)
  {
  }

  lemma SwapPermutes(s: seq<Detection>, i: nat, j: nat)
    requires i < |s| && j < |s|
    ensures multiset(Swapped(s, i, j)) == multiset(s)
  {
  }

  /** The inner loop of the selection sort: the first largest at or after i. */
  method Largest(cand: array<Detection>, n: nat, i: nat) returns (best: nat)
    requires i < n <= cand.Length
    ensures i <= best < n && forall q | i <= q < n :: cand[best].conf >= cand[q].conf
  {
    best := i;
    for j := i + 1 to n
      invariant i <= best < n && forall q | i <= q < j :: cand[best].conf >= cand[q].conf
    {
      if cand[j].conf > cand[best].conf {
        best := j;
      }
    }
  }

  /** Selection sort by confidence. */
  method Sort(cand: array<Detection>, n: nat)
    requires n <= cand.Length
    modifies cand
    ensures Descending(cand[..n]) && multiset(cand[..n]) == multiset(old(cand[..n]))
  {
    var i := 0;
    while i + 1 < n
      invariant 0 <= i <= n && (i < n || n == 0) && Placed(cand[..n], i)
      invariant multiset(cand[..n]) == multiset(old(cand[..n]))
    {
      var best := Largest(cand, n, i);
      ghost var s := cand[..n];
      PlacedStep(s, i, best);
      SwapPermutes(s, i, best);
      cand[i], cand[best] := cand[best], cand[i];
      assert cand[..n] == Swapped(s, i, best);
      i := i + 1;
    }
  }

  // ---------------------------------------------------------------- suppression

  /** d overlaps one of the candidates kept so far. */
  predicate Clashes(over: Relation, c: seq<Detection>, from: seq<nat>, d: Detection)
    requires forall j | 0 <= j < |from| :: from[j] < |c|
  {
    exists j | 0 <= j < |from| :: over(d.at, c[from[j]].at)
  }

  /** The candidates a greedy scan keeps: those that overlap none kept before them. */
  function Selected(over: Relation, c: seq<Detection>, n: nat): (from: seq<nat>)
    requires n <= |c|
    ensures forall j | 0 <= j < |from| :: from[j] < n
  {
    if n == 0 then
      []
    else
      var from := Selected(over, c, n - 1);
      if Clashes(over, c, from, c[n - 1]) then from else from + [n - 1]
  }

  /** No two kept boxes overlap. */
  lemma {:induction false} SelectedApart(over: Relation, c: seq<Detection>, n: nat, i: nat, j: nat)
    requires Symmetric(over) && n <= |c| && i < |Selected(over, c, n)| && j < |Selected(over, c, n)| && i != j
    ensures !over(c[Selected(over, c, n)[i]].at, c[Selected(over, c, n)[j]].at)
  {
    var from := Selected(over, c, n - 1);
    if i < |from| && j < |from| {
      SelectedApart(over, c, n - 1, i, j);
    } else {
      assert over(c[Selected(over, c, n)[i]].at, c[Selected(over, c, n)[j]].at) == over(c[Selected(over, c, n)[j]].at, c[Selected(over, c, n)[i]].at);
    }
  }

  /** In descending order, each candidate left out overlaps a kept one of at least its confidence. */
  lemma {:induction false} DroppedForBetter(over: Relation, c: seq<Detection>, n: nat, i: nat) returns (j: nat)
    requires i < n <= |c| && Descending(c) && i !in Selected(over, c, n)
    ensures j < |Selected(over, c, n)| && over(c[i].at, c[Selected(over, c, n)[j]].at) && c[Selected(over, c, n)[j]].conf >= c[i].conf
  {
    var from := Selected(over, c, n - 1);
    if i < n - 1 {
      j := DroppedForBetter(over, c, n - 1, i);
    } else {
      j :| j < |from| && over(c[n - 1].at, c[from[j]].at);
    }
  }

  function AddVotes(p: seq<real>, q: seq<real>): (r: seq<real>)
    requires |p| == |q|
    ensures |r| == |p|
  {
    seq(|p|, k requires 0 <= k < |p| => p[k] + q[k])
  }

  /** The first kept box that d overlaps, or none. */
  function Host(over: Relation, kept: seq<Detection>, d: Detection): (j: nat)
    ensures j <= |kept| && (j < |kept| ==> over(d.at, kept[j].at))
    ensures forall i | 0 <= i < j :: !over(d.at, kept[i].at)
  {
    if kept == [] then 0 else if over(d.at, kept[0].at) then 0 else 1 + Host(over, kept[1..], d)
  }

  /** One candidate: folded into its host, or kept. */
  function Absorb(over: Relation, kept: seq<Detection>, d: Detection): seq<Detection>
    requires WellFormed(d) && AllWell(kept)
  {
    var j := Host(over, kept, d);
    if j < |kept| then
      assert WellFormed(kept[j]);
      kept[j := kept[j].(probs := AddVotes(kept[j].probs, d.probs))]
    else
      kept + [d]
  }

  function Kept(over: Relation, c: seq<Detection>, n: nat): (kept: seq<Detection>)
    requires n <= |c| && AllWell(c)
    ensures AllWell(kept)
  {
    if n == 0 then [] else Absorb(over, Kept(over, c, n - 1), c[n - 1])
  }

  /** The kept boxes are the selected candidates, with votes added. */
  lemma {:induction false} KeptAreSelected(over: Relation, c: seq<Detection>, n: nat)
    requires n <= |c| && AllWell(c)
    ensures Match(c, Kept(over, c, n), Selected(over, c, n))
  {
    if n > 0 {
      KeptAreSelected(over, c, n - 1);
      NextMatches(over, c, n, Kept(over, c, n - 1), Selected(over, c, n - 1));
    }
  }

  lemma NextMatches(over: Relation, c: seq<Detection>, n: nat, kept: seq<Detection>, from: seq<nat>)
    requires 0 < n <= |c| && AllWell(c) && kept == Kept(over, c, n - 1) && from == Selected(over, c, n - 1)
    requires Match(c, kept, from)
    ensures Match(c, Kept(over, c, n), Selected(over, c, n))
  {
    AbsorbSelects(over, c, kept, from, n - 1, Kept(over, c, n), Selected(over, c, n));
  }

  ghost predicate Match(c: seq<Detection>, kept: seq<Detection>, from: seq<nat>) {
    && |kept| == |from| && (forall j | 0 <= j < |from| :: from[j] < |c|)
    && (forall j | 0 <= j < |kept| :: SameBox(kept[j], c[from[j]]))
  }

  lemma AbsorbSelects(over: Relation, c: seq<Detection>, kept: seq<Detection>, from: seq<nat>, n: nat,
                      kept': seq<Detection>, from': seq<nat>)
    requires n < |c| && WellFormed(c[n]) && Match(c, kept, from)
    requires AllWell(kept)
    requires kept' == Absorb(over, kept, c[n])
    requires from' == if Clashes(over, c, from, c[n]) then from else from + [n]
    ensures Match(c, kept', from')
  {
    var h := Host(over, kept, c[n]);
    assert forall j | 0 <= j < |kept| :: kept[j].at == c[from[j]].at;
    if h < |kept| {
      assert over(c[n].at, c[from[h]].at);
    }
  }

  /** The total vote for class k. */
  function Votes(s: seq<Detection>, k: nat): real
    requires k < 10 && AllWell(s)
  {
    if s == [] then 0.0 else
      assert WellFormed(s[|s| - 1]);
      Votes(s[..|s| - 1], k) + s[|s| - 1].probs[k]
  }

  lemma {:induction false} VotesUpdate(s: seq<Detection>, j: nat, d: Detection, k: nat)
    requires k < 10 && j < |s| && WellFormed(d) && AllWell(s)
    ensures Votes(s[j := d], k) == Votes(s, k) - s[j].probs[k] + d.probs[k]
  {
    var n := |s| - 1;
    if j < n {
      assert s[j := d][..n] == s[..n][j := d];
      VotesUpdate(s[..n], j, d, k);
    } else {
      assert s[j := d][..n] == s[..n];
    }
  }

  /** Merging conserves each class's total vote. */
  lemma {:induction false} VotesConserved(over: Relation, c: seq<Detection>, n: nat, k: nat)
    requires n <= |c| && k < 10 && AllWell(c)
    ensures Votes(Kept(over, c, n), k) == Votes(c[..n], k)
  {
    if n > 0 {
      VotesConserved(over, c, n - 1, k);
      assert c[..n][..n - 1] == c[..n - 1];
      AbsorbVotes(over, Kept(over, c, n - 1), c[n - 1], k);
    }
  }

  lemma AbsorbVotes(over: Relation, kept: seq<Detection>, d: Detection, k: nat)
    requires k < 10 && WellFormed(d) && AllWell(kept)
    ensures Votes(Absorb(over, kept, d), k) == Votes(kept, k) + d.probs[k]
  {
    var j := Host(over, kept, d);
    if j < |kept| {
      VotesUpdate(kept, j, kept[j].(probs := AddVotes(kept[j].probs, d.probs)), k);
    } else {
      assert (kept + [d])[..|kept|] == kept;
    }
  }

  // ---------------------------------------------------------------- the loops

  /** s_kept[j].probs[k] += d.probs[k] for every class. */
  method FoldIn(kept: array<Detection>, j: nat, d: Detection)
    requires j < kept.Length && WellFormed(kept[j]) && WellFormed(d)
    modifies kept
    ensures kept[..] == old(kept[..])[j := old(kept[j]).(probs := AddVotes(old(kept[j]).probs, d.probs))]
  {
    var p := kept[j].probs;
    for k := 0 to 10
      invariant |p| == 10 && kept[..] == old(kept[..])
      invariant forall i | 0 <= i < 10 :: p[i] == old(kept[j]).probs[i] + if i < k then d.probs[i] else 0.0
    {
      p := p[k := p[k] + d.probs[k]];
    }
    assert p == AddVotes(kept[j].probs, d.probs);
    kept[j] := kept[j].(probs := p);
  }

  lemma {:induction false} HostIs(over: Relation, kept: seq<Detection>, d: Detection, j: nat)
    requires j <= |kept| && (forall i | 0 <= i < j :: !over(d.at, kept[i].at)) && (j < |kept| ==> over(d.at, kept[j].at))
    ensures Host(over, kept, d) == j
  {
    if j > 0 {
      HostIs(over, kept[1..], d, j - 1);
    }
  }

  /** The body of the suppression loop for one candidate. */
  method SuppressOne(over: Relation, kept: array<Detection>, nkept: nat, d: Detection) returns (nkept': nat)
    requires nkept < kept.Length && AllWell(kept[..nkept]) && WellFormed(d)
    modifies kept
    ensures nkept' <= nkept + 1 && kept[..nkept'] == Absorb(over, old(kept[..nkept]), d)
  {
    ghost var s := kept[..nkept];
    var j := 0;
    while j < nkept && !over(d.at, kept[j].at)
      invariant 0 <= j <= nkept && forall i | 0 <= i < j :: !over(d.at, s[i].at)
    {
      j := j + 1;
    }
    HostIs(over, s, d, j);
    nkept' := nkept;
    if j < nkept {
      assert s[j] == kept[j];
      FoldIn(kept, j, d);
    } else {
      kept[nkept] := d;
      nkept' := nkept + 1;
    }
    assert kept[..nkept'] == Absorb(over, s, d);
  }

  /** The suppression loop. */
  method Suppress(over: Relation, cand: array<Detection>, n: nat, kept: array<Detection>) returns (nkept: nat)
    requires cand != kept && n <= cand.Length && n <= kept.Length && AllWell(cand[..n])
    modifies kept
    ensures nkept <= n && kept[..nkept] == Kept(over, cand[..n], n)
  {
    nkept := 0;
    ghost var c := cand[..n];
    for i := 0 to n
      invariant nkept <= i && kept[..nkept] == Kept(over, c, i)
    {
      assert cand[i] == c[i] && WellFormed(c[i]);
      nkept := SuppressOne(over, kept, nkept, cand[i]);
    }
  }

  function Sum(p: seq<real>): real { if p == [] then 0.0 else Sum(p[..|p| - 1]) + p[|p| - 1] }

  /** A vote as a share of all. */
  function Share(vote: real, sum: real): (s: real)
    ensures sum > 0.0 ==> s * sum == vote
    ensures sum <= 0.0 ==> s == 0.0
  {
    if sum > 0.0 then vote / sum else 0.0
  }

  /** The label and confidence a box ends with: its first largest vote, and that vote's share. */
  ghost predicate Relabelled(before: Detection, after: Detection)
    requires WellFormed(before)
  {
    && after == before.(lab := after.lab, conf := after.conf) && after.lab < 10
    && (forall k | 0 <= k < 10 :: before.probs[k] <= before.probs[after.lab])
    && (forall k | 0 <= k < after.lab :: before.probs[k] < before.probs[after.lab])
    && after.conf == Share(before.probs[after.lab], Sum(before.probs))
  }

  /** The body of the last loop. */
  method Relabel(d: Detection) returns (r: Detection)
    requires WellFormed(d)
    ensures Relabelled(d, r)
  {
    var sum: real, best: nat := 0.0, 0;
    for k := 0 to 10
      invariant best < 10 && best <= k && (k > 0 ==> best < k) && sum == Sum(d.probs[..k])
      invariant forall i | 0 <= i < k :: d.probs[i] <= d.probs[best]
      invariant forall i | 0 <= i < best :: d.probs[i] < d.probs[best]
    {
      assert d.probs[..k + 1][..k] == d.probs[..k];
      sum := sum + d.probs[k];
      if d.probs[k] > d.probs[best] {
        best := k;
      }
    }
    assert d.probs[..10] == d.probs;
    r := d.(lab := best, conf := Share(d.probs[best], sum));
  }

  method RelabelAll(kept: array<Detection>, nkept: nat)
    requires nkept <= kept.Length && AllWell(kept[..nkept])
    modifies kept
    ensures forall j | 0 <= j < nkept :: WellFormed(old(kept[j])) && Relabelled(old(kept[j]), kept[j])
  {
    assert forall j | 0 <= j < nkept :: kept[..nkept][j] == kept[j];
    for j := 0 to nkept
      invariant forall i | 0 <= i < nkept :: WellFormed(old(kept[i]))
      invariant forall i | j <= i < nkept :: kept[i] == old(kept[i])
      invariant forall i | 0 <= i < j :: Relabelled(old(kept[i]), kept[i])
    {
      kept[j] := Relabel(kept[j]);
    }
  }

  /** kept is the greedy result, relabelled. */
  ghost predicate IsGreedy(c: seq<Detection>, kept: seq<Detection>)
    requires AllWell(c)
  {
    var raw := Kept(Overlap(), c, |c|);
    |kept| == |raw| && forall j | 0 <= j < |raw| :: WellFormed(raw[j]) && Relabelled(raw[j], kept[j])
  }

  /** What suppression promises of its result, for the sorted candidates c. */
  ghost predicate Suppressed(c: seq<Detection>, kept: seq<Detection>)
    requires AllWell(c) && AllWell(kept)
  {
    var from := Selected(Overlap(), c, |c|);
    && |kept| == |from| && (forall j | 0 <= j < |kept| :: kept[j].at == c[from[j]].at)
    && (forall i, j | 0 <= i < |kept| && 0 <= j < |kept| && i != j :: Iou(kept[i].at, kept[j].at) <= 0.1)
    && (forall i | 0 <= i < |c| && i !in from ::
          exists j :: 0 <= j < |kept| && Iou(c[i].at, kept[j].at) > 0.1 && c[from[j]].conf >= c[i].conf)
    && (forall k | 0 <= k < 10 :: Votes(kept, k) == Votes(c, k))
    && IsGreedy(c, kept)
  }

  lemma {:induction false} VotesSame(s: seq<Detection>, t: seq<Detection>, k: nat)
    requires k < 10 && AllWell(s) && AllWell(t) && |s| == |t| && forall j | 0 <= j < |s| :: s[j].probs == t[j].probs
    ensures Votes(s, k) == Votes(t, k)
  {
    if s != [] {
      VotesSame(s[..|s| - 1], t[..|t| - 1], k);
    }
  }

  lemma GreedyWindows(c: seq<Detection>, kept: seq<Detection>)
    requires AllWell(c) && IsGreedy(c, kept)
    ensures var from := Selected(Overlap(), c, |c|);
      |kept| == |from| && forall j | 0 <= j < |kept| :: kept[j].at == c[from[j]].at
  {
    KeptAreSelected(Overlap(), c, |c|);
    var raw, from := Kept(Overlap(), c, |c|), Selected(Overlap(), c, |c|);
    forall j | 0 <= j < |kept|
      ensures kept[j].at == c[from[j]].at
    {
      assert Relabelled(raw[j], kept[j]) && SameBox(raw[j], c[from[j]]);
    }
  }

  lemma GreedyApart(c: seq<Detection>, kept: seq<Detection>, i: nat, j: nat)
    requires AllWell(c) && IsGreedy(c, kept) && i < |kept| && j < |kept| && i != j
    ensures Iou(kept[i].at, kept[j].at) <= 0.1
  {
    GreedyWindows(c, kept);
    OverlapSymmetric();
    SelectedApart(Overlap(), c, |c|, i, j);
  }

  lemma GreedyDrops(c: seq<Detection>, kept: seq<Detection>, i: nat) returns (j: nat)
    requires AllWell(c) && Descending(c) && IsGreedy(c, kept) && i < |c| && i !in Selected(Overlap(), c, |c|)
    ensures j < |kept| == |Selected(Overlap(), c, |c|)| && Iou(c[i].at, kept[j].at) > 0.1
    ensures c[Selected(Overlap(), c, |c|)[j]].conf >= c[i].conf
  {
    GreedyWindows(c, kept);
    j := DroppedForBetter(Overlap(), c, |c|, i);
  }

  lemma GreedyVotes(c: seq<Detection>, kept: seq<Detection>, k: nat)
    requires AllWell(c) && AllWell(kept) && IsGreedy(c, kept) && k < 10
    ensures Votes(kept, k) == Votes(c, k)
  {
    VotesConserved(Overlap(), c, |c|, k);
    assert c[..|c|] == c;
    forall j | 0 <= j < |kept|
      ensures Kept(Overlap(), c, |c|)[j].probs == kept[j].probs
    {
      assert Relabelled(Kept(Overlap(), c, |c|)[j], kept[j]);
    }
    VotesSame(Kept(Overlap(), c, |c|), kept, k);
  }

  /** The promise holds of the relabelled greedy result. */
  lemma GreedyKeepsPromise(c: seq<Detection>, kept: seq<Detection>)
    requires AllWell(c) && AllWell(kept) && Descending(c) && IsGreedy(c, kept)
    ensures Suppressed(c, kept)
  {
    GreedyWindows(c, kept);
    forall i, j | 0 <= i < |kept| && 0 <= j < |kept| && i != j
      ensures Iou(kept[i].at, kept[j].at) <= 0.1
    {
      GreedyApart(c, kept, i, j);
    }
    forall i | 0 <= i < |c| && i !in Selected(Overlap(), c, |c|)
      ensures exists j :: 0 <= j < |kept| && Iou(c[i].at, kept[j].at) > 0.1 &&
                          c[Selected(Overlap(), c, |c|)[j]].conf >= c[i].conf
    {
      var j := GreedyDrops(c, kept, i);
    }
    forall k | 0 <= k < 10
      ensures Votes(kept, k) == Votes(c, k)
    {
      GreedyVotes(c, kept, k);
    }
  }

  lemma PermutedWell(s: seq<Detection>, t: seq<Detection>)
    requires multiset(s) == multiset(t) && AllWell(s)
    ensures AllWell(t)
  {
    forall i | 0 <= i < |t|
      ensures WellFormed(t[i])
    {
      assert t[i] in multiset(s);
    }
  }

  /** nms: sort, suppress, relabel. */
  method Nms(cand: array<Detection>, n: nat, kept: array<Detection>) returns (nkept: nat)
    requires cand != kept && n <= cand.Length && n <= kept.Length && AllWell(cand[..n])
    modifies cand, kept
    ensures Descending(cand[..n]) && multiset(cand[..n]) == multiset(old(cand[..n]))
    ensures nkept <= n && AllWell(cand[..n]) && AllWell(kept[..nkept]) && Suppressed(cand[..n], kept[..nkept])
  {
    Sort(cand, n);
    PermutedWell(old(cand[..n]), cand[..n]);
    nkept := Suppress(Overlap(), cand, n, kept);
    ghost var raw := kept[..nkept];
    RelabelAll(kept, nkept);
    forall j | 0 <= j < nkept
      ensures WellFormed(raw[j]) && WellFormed(kept[..nkept][j]) && Relabelled(raw[j], kept[..nkept][j])
    {
      assert WellFormed(raw[j]);
    }
    GreedyKeepsPromise(cand[..n], kept[..nkept]);
  }
}
