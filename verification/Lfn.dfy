/** Long file names on FAT volumes: the entry set, and the automata that read and find it. */
module Lfn {
  import opened Bytes

  /** A 16-bit code unit. */
  type unit16 = x: int | 0 <= x < 0x1_0000

  /** A 32-byte directory entry. */
  type Entry = e: seq<byte> | |e| == 32 witness seq(32, _ => 0)

  /** Offset of the s-th name unit in an LFN entry. */
  function LfnOfs(s: nat): (k: nat)
    requires s < 13
    ensures 1 <= k <= 30 && k != 11 && k != 12 && k != 13 && k != 26 && k != 27 && k + 1 != 26 && k + 1 != 11
  {
    if s < 5 then 1 + 2 * s else if s < 11 then 4 + 2 * s else 6 + 2 * s
  }

  function Unit(e: Entry, s: nat): unit16
    requires s < 13
  {
    var hi: int := e[LfnOfs(s) + 1];
    e[LfnOfs(s)] + 0x100 * hi
  }

  /** e with the s-th unit set. */
  function WithUnit(e: Entry, s: nat, u: unit16): (r: Entry)
    requires s < 13
    ensures Unit(r, s) == u
    ensures forall k | 0 <= k < 13 && k != s :: Unit(r, k) == Unit(e, k)
    ensures r[0] == e[0] && r[11] == e[11] && r[13] == e[13] && r[26] == e[26] && r[27] == e[27]
  {
    e[LfnOfs(s) := u % 0x100][LfnOfs(s) + 1 := u / 0x100]
  }

  function WithOrd(e: Entry, b: byte): (r: Entry)
    ensures forall k | 0 <= k < 13 :: Unit(r, k) == Unit(e, k)
    ensures r[0] == b && r[11] == e[11] && r[13] == e[13] && r[26] == e[26] && r[27] == e[27]
  {
    e[0 := b]
  }

  /** buf is a name buffer of 256 units that holds name, terminated; what follows is stale. */
  ghost predicate Holds(buf: seq<unit16>, name: seq<unit16>) {
    && |buf| == 256 && |name| <= 255
    && (forall i | 0 <= i < |name| :: buf[i] == name[i] != 0)
    && buf[|name|] == 0
  }

  /** Names that can be stored: 1 to 255 units, without terminators and fillers. */
  ghost predicate Storable(name: seq<unit16>) {
    1 <= |name| <= 255 && forall i | 0 <= i < |name| :: name[i] != 0 && name[i] != 0xFFFF
  }

  /** Number of LFN entries of a name. */
  function Entries(len: nat): nat {
    (len + 12) / 13
  }

  /** Unit i of a name that is terminated and then filled up. */
  ghost function Padded(name: seq<unit16>, i: nat): unit16 {
    if i < |name| then name[i] else if i == |name| then 0 else 0xFFFF
  }

  /** e is part ord of the entry set of name, under checksum sum. */
  ghost predicate IsPart(e: Entry, name: seq<unit16>, ord: nat, sum: byte) {
    && 1 <= ord <= Entries(|name|)
    && e[0] == (if ord == Entries(|name|) then ord + 0x40 else ord)
    && e[11] == 0x0F && e[13] == sum && e[26] == 0 && e[27] == 0
    && forall s | 0 <= s < 13 :: Unit(e, s) == Padded(name, 13 * (ord - 1) + s)
  }

  /** put_lfn. */
  method PutLfn(lfn: seq<unit16>, dir: Entry, ord: nat, sum: byte, ghost name: seq<unit16>) returns (e: Entry)
    requires Storable(name) && Holds(lfn, name) && 1 <= ord <= Entries(|name|)
    ensures IsPart(e, name, ord, sum)
  {
    e := dir[13 := sum][11 := 0x0F][12 := 0][26 := 0][27 := 0];
    var i, wc := 13 * (ord - 1), 0;
    for s := 0 to 13
      invariant e[11] == 0x0F && e[13] == sum && e[26] == 0 && e[27] == 0
      invariant if wc == 0xFFFF then i == |name| + 1 && |name| < 13 * (ord - 1) + s
                else i == 13 * (ord - 1) + s <= |name|
      invariant forall k | 0 <= k < s :: Unit(e, k) == Padded(name, 13 * (ord - 1) + k)
    {
      if wc != 0xFFFF {
        wc := lfn[i];
        i := i + 1;
      }
      e := WithUnit(e, s, wc);
      if wc == 0 {
        wc := 0xFFFF;
      }
    }
    var b := ord;
    if wc == 0xFFFF || lfn[i] == 0 {
      b := ord + 0x40;
    }
    e := WithOrd(e, b);
  }

  /** LDIR_Ord without the last-entry flag. */
  function Order(b: byte): nat {
    if b / 0x40 % 2 == 1 then b - 0x40 else b
  }

  /** pick_lfn: stores the units of an entry in the buffer, unless the entry is invalid. */
  method PickLfn(lfnbuf: array<unit16>, dir: Entry, ghost name: seq<unit16>, ghost ord: nat, ghost sum: byte) returns (ok: bool)
    requires lfnbuf.Length == 256
    modifies lfnbuf
    ensures Storable(name) && IsPart(dir, name, ord, sum) ==> ok && Picked(old(lfnbuf[..]), lfnbuf[..], name, ord)
  {
    ghost var known := Storable(name) && IsPart(dir, name, ord, sum);
    if dir[26] != 0 || dir[27] != 0 {
      return false;
    }
    if Order(dir[0]) == 0 {
      return false; // the unsigned offset wraps past the end of the buffer
    }
    var start := 13 * (Order(dir[0]) - 1);
    var i, wc: unit16 := start, 1;
    for s := 0 to 13
      invariant start <= i
      invariant known ==> start == 13 * (ord - 1)
      invariant known ==> if wc == 0 then i == |name| + 1 <= start + s else i == start + s <= |name|
      invariant known ==> forall p | 0 <= p < 256 ::
        lfnbuf[p] == if start <= p < i then Padded(name, p) else old(lfnbuf[p])
    {
      var uc := Unit(dir, s);
      assert known ==> uc == Padded(name, start + s);
      if wc != 0 {
        if i >= 256 { return false; }
        wc := uc;
        lfnbuf[i] := wc;
        i := i + 1;
      } else if uc != 0xFFFF {
        return false;
      }
    }
    if dir[0] / 0x40 % 2 == 1 && wc != 0 {
      if i >= 256 { return false; }
      lfnbuf[i] := 0;
    }
    return true;
  }

  /** The buffer now holds the units of part ord, with the terminator if it is the last part. */
  ghost predicate Picked(before: seq<unit16>, after: seq<unit16>, name: seq<unit16>, ord: nat) {
    && |before| == |after| == 256
    && forall p | 0 <= p < 256 :: after[p] ==
         if 13 * (ord - 1) <= p < 13 * ord && p <= |name| then Padded(name, p)
         else if p == |name| == 13 * ord then 0
         else before[p]
  }

  /** Units of name from 13 * lo on, terminator included, agree with the buffer up to case. */
  ghost predicate Matched(buf: seq<unit16>, name: seq<unit16>, up: unit16 -> unit16, lo: nat)
    requires |buf| == 256 && |name| <= 255
  {
    forall p | 13 * lo <= p <= |name| :: up(Padded(name, p)) == up(buf[p])
  }

  /** Up-casing maps the terminator, and nothing else, to 0. */
  ghost predicate KeepsZero(up: unit16 -> unit16) {
    forall u: unit16 :: up(u) == 0 <==> u == 0
  }

  ghost predicate SameUpToCase(a: seq<unit16>, b: seq<unit16>, up: unit16 -> unit16) {
    |a| == |b| && forall i | 0 <= i < |a| :: up(a[i]) == up(b[i])
  }

  /** Comparing unit by unit up to the terminator is comparing the names, stale units or not. */
  lemma MatchedIsSame(buf: seq<unit16>, search: seq<unit16>, name: seq<unit16>, up: unit16 -> unit16)
    requires Holds(buf, search) && Storable(name) && KeepsZero(up)
    ensures Matched(buf, name, up, 0) <==> SameUpToCase(name, search, up)
  {
    if Matched(buf, name, up, 0) {
      assert up(Padded(name, |name|)) == up(buf[|name|]);
      forall i | 0 <= i < |name| ensures buf[i] != 0 && up(name[i]) == up(buf[i]) {
        assert up(Padded(name, i)) == up(buf[i]);
      }
      assert |search| >= |name|;
    }
  }

  /** cmp_lfn: does the entry agree with its part of the name in the buffer? */
  method CmpLfn(lfnbuf: seq<unit16>, dir: Entry, up: unit16 -> unit16, ghost name: seq<unit16>, ghost ord: nat, ghost sum: byte)
    returns (ok: bool)
    requires |lfnbuf| == 256 && KeepsZero(up)
    ensures Storable(name) && IsPart(dir, name, ord, sum) && (ord == Entries(|name|) || Matched(lfnbuf, name, up, ord)) ==>
      ok == Matched(lfnbuf, name, up, ord - 1)
  {
    ghost var known := Storable(name) && IsPart(dir, name, ord, sum) && (ord == Entries(|name|) || Matched(lfnbuf, name, up, ord));
    if dir[26] != 0 || dir[27] != 0 {
      return false;
    }
    if dir[0] % 0x40 == 0 {
      return false; // the unsigned offset wraps past the end of the buffer
    }
    var n: int := dir[0] % 0x40;
    var start := 13 * (n - 1);
    var i, wc: unit16 := start, 1;
    for s := 0 to 13
      invariant start <= i && (i <= 256 || i == start)
      invariant known ==> start == 13 * (ord - 1)
      invariant known ==> if wc == 0 then i == |name| + 1 <= start + s else i == start + s <= |name|
      invariant known ==> forall p | start <= p < i :: up(Padded(name, p)) == up(lfnbuf[p])
    {
      var uc := Unit(dir, s);
      assert known ==> uc == Padded(name, start + s);
      if wc != 0 {
        if i >= 256 { return false; }
        if up(uc) != up(lfnbuf[i]) { return false; }
        i := i + 1;
        wc := uc;
      } else if uc != 0xFFFF {
        return false;
      }
    }
    if dir[0] / 0x40 % 2 == 1 && wc != 0 && (i >= 256 || lfnbuf[i] != 0) {
      assert known ==> up(Padded(name, |name|)) != up(lfnbuf[|name|]);
      return false;
    }
    return true;
  }

  /** The checksum of a short name, over its first n bytes. */
  ghost function Sum(fn: seq<byte>, n: nat): byte
    requires n <= |fn|
  {
    if n == 0 then 0 else Rotate(Sum(fn, n - 1), fn[n - 1])
  }

  function Rotate(sum: byte, b: byte): byte {
    (sum / 2 + sum % 2 * 128 + b) % 256
  }

  method SumSfn(dir: seq<byte>) returns (sum: byte)
    requires |dir| >= 11
    ensures sum == Sum(dir, 11)
  {
    sum := 0;
    for n := 0 to 11
      invariant sum == Sum(dir, n)
    {
      sum := Rotate(sum, dir[n]);
    }
  }

  /** e is a short-name entry that dir_read and dir_find take for a file or directory. */
  ghost predicate IsShort(e: Entry) {
    e[0] != 0 && e[0] != 0xE5 && e[0] != 0x2E && e[11] % 0x40 / 8 % 2 == 0
  }

  /** dir[j..] starts with the entry set of name: the LFN parts, last one first, and the short entry. */
  ghost predicate IsSet(dir: seq<Entry>, j: nat, name: seq<unit16>) {
    var n := Entries(|name|);
    && j + n < |dir| && IsShort(dir[j + n])
    && forall i | j <= i < j + n :: IsPart(dir[i], name, j + n - i, Sum(dir[j + n], 11))
  }

  /** The FAT branch of dir_register: writes the entry set over the free entries dir[j..]. */
  method DirRegister(dir: seq<Entry>, j: nat, lfnbuf: seq<unit16>, fn: seq<byte>, ghost name: seq<unit16>) returns (dir': seq<Entry>)
    requires Storable(name) && Holds(lfnbuf, name) && j + Entries(|name|) < |dir|
    requires |fn| == 11 && fn[0] != 0 && fn[0] != 0xE5 && fn[0] != 0x2E
    ensures |dir'| == |dir| && IsSet(dir', j, name)
    ensures dir'[j + Entries(|name|)][..11] == fn
    ensures forall i | 0 <= i < |dir| && !(j <= i <= j + Entries(|name|)) :: dir'[i] == dir[i]
  {
    var nlen := NameLength(lfnbuf, name);
    var nent := (nlen + 12) / 13;
    var sum := SumSfn(fn);
    dir' := PutParts(dir, j, lfnbuf, nent, sum, name);
    var e := ShortEntry(fn);
    SumPrefix(fn, e, 11);
    dir' := dir'[j + nent := e];
  }

  /** A cleared entry with the short name. */
  function ShortEntry(fn: seq<byte>): (e: Entry)
    requires |fn| == 11
    ensures e[..11] == fn && e[11] == 0
  {
    fn + [0, 0, 0, 0, 0, 0, 0, 0, 0, 0, 0, 0, 0, 0, 0, 0, 0, 0, 0, 0, 0]
  }

  method NameLength(lfnbuf: seq<unit16>, ghost name: seq<unit16>) returns (nlen: nat)
    requires Holds(lfnbuf, name)
    ensures nlen == |name|
  {
    nlen := 0;
    while lfnbuf[nlen] != 0
      invariant nlen <= |name|
      decreases |name| - nlen
    {
      nlen := nlen + 1;
    }
  }

  /** The parts of the set, last one first. */
  method PutParts(dir: seq<Entry>, j: nat, lfnbuf: seq<unit16>, n: nat, sum: byte, ghost name: seq<unit16>) returns (dir': seq<Entry>)
    requires Storable(name) && Holds(lfnbuf, name) && n == Entries(|name|) && j + n < |dir|
    ensures |dir'| == |dir|
    ensures forall i | 0 <= i < |dir| && !(j <= i < j + n) :: dir'[i] == dir[i]
    ensures forall i | j <= i < j + n :: IsPart(dir'[i], name, j + n - i, sum)
  {
    var at, nent := j, n;
    dir' := dir;
    while nent > 0
      invariant 0 <= nent && at + nent == j + n && j <= at
      invariant |dir'| == |dir|
      invariant forall i | 0 <= i < |dir| && !(j <= i < at) :: dir'[i] == dir[i]
      invariant forall i | j <= i < at :: IsPart(dir'[i], name, j + n - i, sum)
    {
      var e := PutLfn(lfnbuf, dir'[at], nent, sum, name);
      dir' := dir'[at := e];
      at, nent := at + 1, nent - 1;
    }
  }

  lemma {:induction false} SumPrefix(fn: seq<byte>, e: seq<byte>, n: nat)
    requires n <= |fn| <= |e| && forall i | 0 <= i < n :: fn[i] == e[i]
    ensures Sum(fn, n) == Sum(e, n)
  {
    if n > 0 {
      SumPrefix(fn, e, n - 1);
    }
  }

  /** What dir_read and dir_find answer: end of table, or the entry found and whether by its long name. */
  datatype Answer = NoFile | At(i: nat, long: bool)

  /** Entries that are neither a short entry nor part of a long name for dir_read: deleted, dot, label. */
  predicate Ignored(e: Entry) {
    e[0] == 0xE5 || e[0] == 0x2E || e[11] % 0x40 == 0x08 || e[11] % 0x40 == 0x28
  }

  predicate IsLong(e: Entry) {
    e[11] % 0x40 == 0x0F
  }

  /** State of the automata: the order expected next (0xFF: none) and the checksum. */
  datatype Auto = Auto(ord: int, sum: byte)

  /** Start of an LFN sequence: the order and checksum of the first entry are taken over. */
  function Enter(a: Auto, e: Entry): Auto {
    if e[0] / 0x40 % 2 == 1 then Auto(e[0] - 0x40, e[13]) else a
  }

  /** The expected order after an LFN entry, given whether its contents were accepted. */
  function Advance(a: Auto, e: Entry, ok: bool): Auto {
    if Order(e[0]) == a.ord && a.sum == e[13] && ok then a.(ord := a.ord - 1) else a.(ord := 0xFF)
  }

  /** The automata meet the parts of a set in order. */
  lemma PartInOrder(a: Auto, e: Entry, name: seq<unit16>, ord: nat, sum: byte)
    requires Storable(name) && IsPart(e, name, ord, sum)
    requires ord == Entries(|name|) || a == Auto(ord, sum) || a.ord == 0xFF
    ensures var b := Enter(a, e);
      && (ord == Entries(|name|) || a == Auto(ord, sum) ==> Advance(b, e, true) == Auto(ord - 1, sum))
      && (ord < Entries(|name|) && a.ord == 0xFF ==> Advance(b, e, true).ord == 0xFF)
      && Advance(b, e, false).ord == 0xFF
  {
  }

  /** Units of name from 13 * lo on, terminator included, are in the buffer. */
  ghost predicate Collected(buf: seq<unit16>, name: seq<unit16>, lo: nat)
    requires |buf| == 256 && |name| <= 255
  {
    forall p | 13 * lo <= p <= |name| :: buf[p] == Padded(name, p)
  }

  lemma CollectPart(before: seq<unit16>, after: seq<unit16>, name: seq<unit16>, ord: nat)
    requires Storable(name) && 1 <= ord <= Entries(|name|) && Picked(before, after, name, ord)
    requires ord < Entries(|name|) ==> Collected(before, name, ord)
    ensures Collected(after, name, ord - 1)
  {
  }

  /** The parts of name above ord have been read, or none has yet. */
  ghost predicate ReadReady(a: Auto, buf: seq<unit16>, name: seq<unit16>, ord: nat, sum: byte)
    requires |buf| == 256 && |name| <= 255
  {
    ord == Entries(|name|) || (a == Auto(ord, sum) && Collected(buf, name, ord))
  }

  /** The automaton of dir_find knows whether the parts of name above ord match. */
  ghost predicate Tracking(a: Auto, buf: seq<unit16>, name: seq<unit16>, up: unit16 -> unit16, ord: nat, sum: byte)
    requires |buf| == 256 && |name| <= 255
  {
    if Matched(buf, name, up, ord) then a == Auto(ord, sum) else a.ord == 0xFF
  }

  /** Entries without valid data, for dir_find. */
  predicate Invalid(e: Entry) {
    e[0] == 0xE5 || (e[11] % 0x40 / 8 % 2 == 1 && !IsLong(e))
  }

  /** dir_read at an LFN entry. */
  method ReadLong(lfnbuf: array<unit16>, e: Entry, a0: Auto, ghost name: seq<unit16>, ghost ord: int, ghost sum: byte) returns (a: Auto)
    requires lfnbuf.Length == 256
    modifies lfnbuf
    ensures Storable(name) && ord > 0 && IsPart(e, name, ord, sum) && ReadReady(a0, old(lfnbuf[..]), name, ord, sum) ==>
              a == Auto(ord - 1, sum) && Collected(lfnbuf[..], name, ord - 1)
  {
    a := Enter(a0, e);
    var ok := false;
    if Order(e[0]) == a.ord && a.sum == e[13] {
      ghost var o := if ord > 0 then ord else 0;
      ok := PickLfn(lfnbuf, e, name, o, sum);
      if Storable(name) && IsPart(e, name, o, sum) && (o == Entries(|name|) || Collected(old(lfnbuf[..]), name, o)) {
        CollectPart(old(lfnbuf[..]), lfnbuf[..], name, o);
      }
    }
    a := Advance(a, e, ok);
  }

  /** dir_find at an LFN entry. */
  method FindLong(lfnbuf: seq<unit16>, e: Entry, a0: Auto, up: unit16 -> unit16, ghost name: seq<unit16>, ghost ord: int, ghost sum: byte)
    returns (a: Auto)
    requires |lfnbuf| == 256 && KeepsZero(up)
    ensures Storable(name) && ord > 0 && IsPart(e, name, ord, sum) &&
            (ord == Entries(|name|) || Tracking(a0, lfnbuf, name, up, ord, sum)) ==>
              Tracking(a, lfnbuf, name, up, ord - 1, sum)
  {
    ghost var o := if ord > 0 then ord else 0;
    ghost var known := Storable(name) && ord > 0 && IsPart(e, name, o, sum) &&
      (o == Entries(|name|) || Tracking(a0, lfnbuf, name, up, o, sum));
    if known {
      PartInOrder(a0, e, name, o, sum);
      if Matched(lfnbuf, name, up, o - 1) {
        MatchedLess(lfnbuf, name, up, o);
      }
    }
    a := Enter(a0, e);
    var ok := false;
    if Order(e[0]) == a.ord && a.sum == e[13] {
      ok := CmpLfn(lfnbuf, e, up, name, o, sum);
    }
    a := Advance(a, e, ok);
  }

  /**
   * dir_read for files on a FAT volume, from entry from on. If the set of name starts at j and no
   * other short entry comes first, the short entry of the set is returned with name in the buffer.
   */
  method DirRead(dir: seq<Entry>, from: nat, lfnbuf: array<unit16>, ghost j: nat, ghost name: seq<unit16>) returns (r: Answer)
    requires lfnbuf.Length == 256 && Storable(name) && from <= j && IsSet(dir, j, name)
    requires forall i | from <= i < j :: dir[i][0] != 0 && (Ignored(dir[i]) || IsLong(dir[i]))
    modifies lfnbuf
    ensures r == At(j + Entries(|name|), true)
    ensures Holds(lfnbuf[..], name)
  {
    var i := from;
    var a := Auto(0xFF, 0xFF);
    ghost var k := j + Entries(|name|);
    ghost var sum := Sum(dir[k], 11);
    while i < |dir|
      invariant from <= i <= k < |dir|
      invariant j < i ==> a == Auto(k - i, sum) && Collected(lfnbuf[..], name, k - i)
      decreases |dir| - i
    {
      var e := dir[i];
      assert j <= i < k ==> IsPart(e, name, k - i, sum) && IsLong(e) && !Ignored(e);
      assert i == k ==> IsShort(e) && !Ignored(e) && !IsLong(e);
      if e[0] == 0 {
        return NoFile;
      }
      if Ignored(e) {
        a := a.(ord := 0xFF);
      } else if IsLong(e) {
        a := ReadLong(lfnbuf, e, a, name, k - i, sum);
      } else {
        var s := SumSfn(e);
        assert i == k && Collected(lfnbuf[..], name, 0);
        return At(i, a.ord == 0 && a.sum == s);
      }
      i := i + 1;
    }
    r := NoFile;
  }

  /** The attribute bits tell LFN parts and short entries apart. */
  lemma KindsOfEntry(e: Entry)
    ensures IsShort(e) ==> !IsLong(e) && !Invalid(e)
    ensures forall name, ord, sum :: Storable(name) && IsPart(e, name, ord, sum) ==> IsLong(e) && !Invalid(e) && e[0] != 0
  {
  }

  datatype Hit = Miss | End | LongHit | ShortHit

  /** dir_find at any entry. */
  method FindOne(e: Entry, lfnbuf: seq<unit16>, fn: seq<byte>, lossy: bool, a0: Auto, up: unit16 -> unit16,
                 ghost name: seq<unit16>, ghost ord: int, ghost sum: byte) returns (hit: Hit, a: Auto)
    requires |lfnbuf| == 256 && KeepsZero(up) && Storable(name)
    ensures hit == End <==> e[0] == 0
    ensures ord > 0 && IsPart(e, name, ord, sum) &&
            (ord == Entries(|name|) || Tracking(a0, lfnbuf, name, up, ord, sum)) ==>
              hit == Miss && Tracking(a, lfnbuf, name, up, ord - 1, sum)
    ensures IsShort(e) && sum == Sum(e, 11) && Tracking(a0, lfnbuf, name, up, 0, sum) ==>
              (hit == LongHit <==> Matched(lfnbuf, name, up, 0))
  {
    hit, a := Miss, a0;
    KindsOfEntry(e);
    if e[0] == 0 {
      return End, a;
    }
    if Invalid(e) {
      a := a.(ord := 0xFF);
    } else if IsLong(e) {
      a := FindLong(lfnbuf, e, a, up, name, ord, sum);
    } else {
      var s := SumSfn(e);
      if a.ord == 0 && a.sum == s {
        return LongHit, a;
      }
      if !lossy && e[..11] == fn {
        return ShortHit, a;
      }
      a := a.(ord := 0xFF);
    }
  }

  /**
   * dir_find on a FAT volume, for the name in lfnbuf (long) and fn (short; not compared if lossy).
   * If the set of name starts at j and the scan reaches its short entry, that entry is taken for
   * the long name exactly when the names agree up to case.
   */
  method DirFind(dir: seq<Entry>, lfnbuf: seq<unit16>, fn: seq<byte>, lossy: bool, up: unit16 -> unit16,
                 ghost search: seq<unit16>, ghost j: nat, ghost name: seq<unit16>) returns (r: Answer)
    requires Holds(lfnbuf, search) && |fn| == 11 && KeepsZero(up)
    requires Storable(name) && IsSet(dir, j, name)
    requires forall i | 0 <= i < j :: dir[i][0] != 0
    ensures r.At? ==> r.i < |dir|
    ensures SameUpToCase(name, search, up) ==> r.At? && r.i <= j + Entries(|name|)
    ensures r.At? && r.i == j + Entries(|name|) ==> (r.long <==> SameUpToCase(name, search, up))
  {
    var i := 0;
    var a := Auto(0xFF, 0xFF);
    ghost var k := j + Entries(|name|);
    ghost var sum := Sum(dir[k], 11);
    MatchedIsSame(lfnbuf, search, name, up);
    while i < |dir|
      invariant 0 <= i <= |dir|
      invariant j < i <= k ==> Tracking(a, lfnbuf, name, up, k - i, sum)
      invariant k < i ==> !SameUpToCase(name, search, up)
    {
      var hit;
      hit, a := FindOne(dir[i], lfnbuf, fn, lossy, a, up, name, k - i, sum);
      if hit == End {
        return NoFile;
      }
      if hit != Miss {
        return At(i, hit == LongHit);
      }
      i := i + 1;
    }
    r := NoFile;
  }

  lemma MatchedLess(buf: seq<unit16>, name: seq<unit16>, up: unit16 -> unit16, ord: nat)
    requires |buf| == 256 && |name| <= 255 && ord > 0 && Matched(buf, name, up, ord - 1)
    ensures Matched(buf, name, up, ord)
  {
  }
}
