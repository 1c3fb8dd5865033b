/** Directory records: packed by sys_getdents into a user buffer and walked by the shell's ls
    (kernel/x64/syscall.c, kernel/i386/syscall.c, user/init.c). */
module Getdents {
  import opened Wrappers
  import opened Bits
  import opened Bytes
  import opened Directories
  import Tar

  /** The two record layouts: bytes of d_ino and d_off, size of the struct without the name, alignment. */
  datatype Layout = X64 | I386 {
    function Word(): nat { if X64? then 8 else 4 }
    /** The name follows d_ino, d_off and the two bytes of d_reclen. */
    function NameAt(): nat { 2 * Word() + 2 }
    function Struct(): nat { if X64? then 24 else 12 }

    /** sizeof + length + 1 in 16 bits, rounded up to the alignment by a mask, in 16 bits again. */
    function RecLen(length: nat): nat {
      var n := (Struct() + length + 1) % 0x1_0000;
      (if X64? then And(n + 7, 0xFFFF_FFF8) else And(n + 3, 0xFFFF_FFFC)) % 0x1_0000
    }
  }

  /** The masks ~7 and ~3 clear the low bits. */
  lemma ClearLow3(a: nat, r: nat)
    requires a < 0x2000_0000 && r < 8
    ensures And(8 * a + r, 0xFFFF_FFF8) == 8 * a
  {
    hide And;
    AndHigh3(a, r, 0x1FFF_FFFF);
    Masks(a);
  }

  lemma ClearLow2(a: nat, r: nat)
    requires a < 0x2000_0000 && r < 4
    ensures And(4 * a + r, 0xFFFF_FFFC) == 4 * a
  {
    hide And;
    var b1, b0 := r / 2, r % 2;
    AndDigit(2 * a + b1, b0, 0x7FFF_FFFE, 0);
    AndDigit(a, b1, 0x3FFF_FFFF, 0);
    Masks(a);
  }

  lemma Masks(a: nat)
    requires a < 0x2000_0000
    ensures And(a, 0x1FFF_FFFF) == a && And(a, 0x3FFF_FFFF) == a
  {
    hide And;
    Pow2Values();
    assert Pow2(29) == 0x2000_0000 && Pow2(30) == 0x4000_0000 by { assert Pow2(32) == 8 * Pow2(29); }
    AndFull(a, 29);
    AndFull(a, 30);
  }

  lemma RoundTo8(m: nat, a: nat)
    requires a == m / 8 && 7 <= m < 0x1_0007
    ensures m - 7 <= And(m, 0xFFFF_FFF8) <= m && And(m, 0xFFFF_FFF8) % 8 == 0
  {
    hide And;
    ClearLow3(a, m - 8 * a);
  }

  lemma RoundTo4(m: nat, a: nat)
    requires a == m / 4 && 3 <= m < 0x1_0007
    ensures m - 3 <= And(m, 0xFFFF_FFFC) <= m && And(m, 0xFFFF_FFFC) % 4 == 0
  {
    hide And;
    ClearLow2(a, m - 4 * a);
  }

  lemma RoundUp(n: nat)
    requires n < 0x1_0000
    ensures n <= And(n + 7, 0xFFFF_FFF8) <= n + 7 && And(n + 7, 0xFFFF_FFF8) % 8 == 0
    ensures n <= And(n + 3, 0xFFFF_FFFC) <= n + 3 && And(n + 3, 0xFFFF_FFFC) % 4 == 0
  {
    hide And;
    RoundTo8(n + 7, (n + 7) / 8);
    RoundTo4(n + 3, (n + 3) / 4);
  }

  lemma Below16Bits(n: nat)
    requires n < 0x1_0000
    ensures n % 0x1_0000 == n
  {
  }

  /** A record is the struct, the name and its NUL, rounded up to the next multiple of 8 or of 4;
      so every name fits, and records keep the alignment. */
  lemma RecLenFits(l: Layout, length: nat)
    requires length <= 127
    ensures l.X64? ==> l.RecLen(length) % 8 == 0 && 24 + length + 1 <= l.RecLen(length) < 24 + length + 1 + 8
    ensures l.I386? ==> l.RecLen(length) % 4 == 0 && 12 + length + 1 <= l.RecLen(length) < 12 + length + 1 + 4
    ensures l.NameAt() + length + 1 <= l.RecLen(length) <= 152
  {
    hide And;
    var n := l.Struct() + length + 1;
    RoundUp(n);
    Below16Bits(n);
    Below16Bits(if l.X64? then And(n + 7, 0xFFFF_FFF8) else And(n + 3, 0xFFFF_FFFC));
  }

  lemma RecLenRoundTrip(v: nat)
    requires v < 0x1_0000
    ensures FromBytes(ToBytes(v, 2)) == v
  {
    assert Pow256(2) == 0x1_0000;
    WordRoundTrip(v, 2);
  }

  // ---------- packed records ----------

  /** The bytes written for an entry at pos; d_off is the start of the next record. */
  function Record(l: Layout, d: Dirent, pos: nat): (r: seq<Byte>)
    ensures |r| == l.NameAt() + |d.name| + 1
  {
    ToBytes(d.ino, l.Word()) + ToBytes(pos + l.RecLen(|d.name|), l.Word())
      + ToBytes(l.RecLen(|d.name|), 2) + d.name + [0]
  }

  /** The length of the records of all entries. */
  function Total(l: Layout, ds: seq<Dirent>): nat {
    if ds == [] then 0 else l.RecLen(|ds[0].name|) + Total(l, ds[1..])
  }

  /** The bytes r lie in the buffer at pos. */
  ghost predicate Holds(buf: seq<Byte>, pos: nat, r: seq<Byte>) {
    pos + |r| <= |buf| && buf[pos..pos + |r|] == r
  }

  /** The buffer holds the entries' records one after another from pos on. */
  ghost predicate Packed(l: Layout, buf: seq<Byte>, pos: nat, ds: seq<Dirent>)
    decreases ds
  {
    ds == [] ||
    (Holds(buf, pos, Record(l, ds[0], pos)) && Packed(l, buf, pos + l.RecLen(|ds[0].name|), ds[1..]))
  }

  /** How many entries the loop packs before one would pass count. */
  function Fit(l: Layout, ds: seq<Dirent>, pos: nat, count: nat): (k: nat)
    ensures k <= |ds|
    decreases ds
  {
    if ds == [] || pos + l.RecLen(|ds[0].name|) > count then 0
    else 1 + Fit(l, ds[1..], pos + l.RecLen(|ds[0].name|), count)
  }

  /** That is the longest prefix whose records fit. */
  lemma {:induction false} FitIsLongest(l: Layout, ds: seq<Dirent>, pos: nat, count: nat, n: nat)
    requires pos <= count && n <= |ds|
    ensures pos + Total(l, ds[..n]) <= count <==> n <= Fit(l, ds, pos, count)
    decreases n
  {
    hide Layout.RecLen;
    if n > 0 {
      assert ds[..n][1..] == ds[1..][..n - 1];
      var next := pos + l.RecLen(|ds[0].name|);
      if next <= count { FitIsLongest(l, ds[1..], next, count, n - 1); }
    }
  }

  lemma {:induction false} TotalAppend(l: Layout, ds: seq<Dirent>, d: Dirent)
    ensures Total(l, ds + [d]) == Total(l, ds) + l.RecLen(|d.name|)
  {
    if ds == [] {
      assert ([] + [d])[1..] == [];
    } else {
      assert (ds + [d])[1..] == ds[1..] + [d];
      TotalAppend(l, ds[1..], d);
    }
  }

  /** A record written after the packed ones extends them, whatever it overwrites beyond. */
  lemma {:induction false} PackedAppend(l: Layout, buf: seq<Byte>, pos: nat, ds: seq<Dirent>, d: Dirent, at: nat)
    requires Packed(l, buf, pos, ds) && (forall e :: e in ds ==> DirentValid(e))
    requires at == pos + Total(l, ds) && at + |Record(l, d, at)| <= |buf|
    ensures Packed(l, Splice(buf, at, Record(l, d, at)), pos, ds + [d])
    decreases ds
  {
    hide Record, Splice, Holds, Layout.RecLen, DirentValid, Total;
    TotalNothing(l);
    var after := Splice(buf, at, Record(l, d, at));
    if ds == [] {
      SpliceReads(buf, at, Record(l, d, at));
      assert ([] + [d])[1..] == [];
    } else {
      var first, rest := ds[0], ds[1..];
      DirentFits(l, first);
      TotalFrom(l, ds);
      SpliceKeeps(buf, at, Record(l, d, at), pos, Record(l, first, pos));
      PackedAppend(l, buf, pos + l.RecLen(|first.name|), rest, d, at);
      assert (ds + [d])[0] == first && (ds + [d])[1..] == rest + [d];
    }
  }

  lemma TotalNothing(l: Layout)
    ensures Total(l, []) == 0
  {
  }

  lemma TotalFrom(l: Layout, ds: seq<Dirent>)
    requires ds != []
    ensures Total(l, ds) == l.RecLen(|ds[0].name|) + Total(l, ds[1..]) && ds[0] in ds
  {
  }

  lemma SpliceReads(s: seq<Byte>, at: nat, data: seq<Byte>)
    requires at + |data| <= |s|
    ensures Holds(Splice(s, at, data), at, data)
  {
  }

  /** What lies before the replaced bytes stays. */
  lemma SpliceKeeps(s: seq<Byte>, at: nat, data: seq<Byte>, a: nat, r: seq<Byte>)
    requires Holds(s, a, r) && a + |r| <= at && at + |data| <= |s|
    ensures Holds(Splice(s, at, data), a, r)
  {
    var x, y := Splice(s, at, data)[a..a + |r|], s[a..a + |r|];
    forall k | 0 <= k < |r|
      ensures x[k] == y[k]
    {
      SpliceAt(s, at, data, a + k);
    }
  }

  lemma SpliceJoin(s: seq<Byte>, at: nat, a: seq<Byte>, b: seq<Byte>)
    requires at + |a| + |b| <= |s|
    ensures Splice(Splice(s, at, a), at + |a|, b) == Splice(s, at, a + b)
  {
  }

  /** What a reader of its struct finds at an address: on x64 eight bytes each of d_ino and d_off,
      on i386 four, then two bytes of d_reclen, the name and a NUL; the next record starts at next. */
  ghost predicate Shows(l: Layout, buf: seq<Byte>, at: nat, d: Dirent, next: nat) {
    match l
    case X64 =>
      && at + 18 + |d.name| < |buf|
      && FromBytes(buf[at..at + 8]) == d.ino && FromBytes(buf[at + 8..at + 16]) == next
      && at + FromBytes(buf[at + 16..at + 18]) == next
      && buf[at + 18..at + 18 + |d.name|] == d.name && buf[at + 18 + |d.name|] == 0
    case I386 =>
      && at + 10 + |d.name| < |buf|
      && FromBytes(buf[at..at + 4]) == d.ino && FromBytes(buf[at + 4..at + 8]) == next
      && at + FromBytes(buf[at + 8..at + 10]) == next
      && buf[at + 10..at + 10 + |d.name|] == d.name && buf[at + 10 + |d.name|] == 0
  }

  // ---------- the kernel side ----------

  method WriteWord(buf: array<Byte>, at: nat, value: nat, width: nat)
    requires at + width <= buf.Length
    modifies buf
    ensures buf[..] == Splice(old(buf[..]), at, ToBytes(value, width))
  {
    ghost var bytes := ToBytes(value, width);
    var v, i := value, 0;
    while i < width
      invariant 0 <= i <= width && ToBytes(v, width - i) == bytes[i..]
      invariant forall k :: 0 <= k < buf.Length ==>
        buf[k] == if at <= k < at + i then bytes[k - at] else old(buf[k])
    {
      assert bytes[i..][0] == v % 0x100 && bytes[i..][1..] == bytes[i + 1..];
      buf[at + i] := v % 0x100;
      v, i := v / 0x100, i + 1;
    }
    forall k | 0 <= k < buf.Length
      ensures buf[..][k] == Splice(old(buf[..]), at, bytes)[k]
    {
      SpliceAt(old(buf[..]), at, bytes, k);
    }
  }

  /** The name loop and its NUL. */
  method WriteName(buf: array<Byte>, at: nat, name: seq<Byte>)
    requires at + |name| + 1 <= buf.Length
    modifies buf
    ensures buf[..] == Splice(old(buf[..]), at, name + [0])
  {
    var i := 0;
    while i < |name|
      invariant 0 <= i <= |name|
      invariant forall k :: 0 <= k < buf.Length ==>
        buf[k] == if at <= k < at + i then name[k - at] else old(buf[k])
    {
      buf[at + i] := name[i];
      i := i + 1;
    }
    buf[at + |name|] := 0;
    forall k | 0 <= k < buf.Length
      ensures buf[..][k] == Splice(old(buf[..]), at, name + [0])[k]
    {
      SpliceAt(old(buf[..]), at, name + [0], k);
    }
  }

  method WriteRecord(l: Layout, buf: array<Byte>, pos: nat, d: Dirent)
    requires pos + l.NameAt() + |d.name| + 1 <= buf.Length
    modifies buf
    ensures buf[..] == Splice(old(buf[..]), pos, Record(l, d, pos))
  {
    hide Splice, ToBytes, Record, Layout.RecLen;
    ghost var s := buf[..];
    var w, reclen := l.Word(), l.RecLen(|d.name|);
    ghost var a, b, c := ToBytes(d.ino, w), ToBytes(pos + reclen, w), ToBytes(reclen, 2);
    WriteWord(buf, pos, d.ino, w);
    WriteWord(buf, pos + w, pos + reclen, w);
    SpliceJoin(s, pos, a, b);
    WriteWord(buf, pos + 2 * w, reclen, 2);
    SpliceJoin(s, pos, a + b, c);
    WriteName(buf, pos + l.NameAt(), d.name);
    SpliceJoin(s, pos, a + b + c, d.name + [0]);
    RecordIs(l, d, pos);
  }

  lemma RecordIs(l: Layout, d: Dirent, pos: nat)
    ensures Record(l, d, pos) ==
      ToBytes(d.ino, l.Word()) + ToBytes(pos + l.RecLen(|d.name|), l.Word()) + ToBytes(l.RecLen(|d.name|), 2) +
        (d.name + [0])
  {
  }

  /** sys_getdents packs the longest prefix of the root directory that fits in count, and writes
      nothing past the length it returns; without a mounted root it returns -1. */
  method SysGetdents(l: Layout, root: Option<Directory>, dirp: array<Byte>, count: nat) returns (pos: int)
    requires count <= dirp.Length && count + 152 < 0x1_0000_0000
    requires root.Some? ==> ListingValid(root.value) && dirp !in Footprint(root.value)
    modifies dirp
    ensures root.Some? ==> ListingValid(root.value) && Listing(root.value) == old(Listing(root.value))
    ensures root == None ==> pos == -1 && dirp[..] == old(dirp[..])
    ensures root.Some? ==>
      var ds := Listing(root.value);
      var k := Fit(l, ds, 0, count);
      && pos == Total(l, ds[..k]) <= count
      && Packed(l, dirp[..], 0, ds[..k])
      && dirp[pos..] == old(dirp[pos..])
    ensures root.Some? ==>
      var ds := Listing(root.value);
      forall i :: 0 <= i < Fit(l, ds, 0, count) ==>
        Shows(l, dirp[..], Total(l, ds[..i]), ds[i], Total(l, ds[..i + 1]))
  {
    hide Shows, Record, DirentValid, Layout.RecLen, Splice, Listing, DirectoryReady, PackedUpTo;
    if root == None {
      return -1;
    }
    var node := root.value;
    ghost var ds, before := Listing(node), dirp[..];
    var at: nat, index := 0, 0;
    PackStart(l, ds, count, before);
    var de := VfsReaddir(node, 0);
    while de.Some?
      invariant ListingValid(node) && Listing(node) == ds && de == if index < |ds| then Some(ds[index]) else None
      invariant 0 <= index <= |ds| && at <= count && PackedUpTo(l, ds, index, at, count, before, dirp[..])
      decreases |ds| - index
    {
      var d := de.value;
      DirentFits(l, d);
      if (at + l.RecLen(|d.name|)) % 0x1_0000_0000 > count {
        break;
      }
      PackNext(l, ds, index, at, count, before, dirp[..]);
      WriteRecord(l, dirp, at, d);
      at, index := at + l.RecLen(|d.name|), index + 1;
      de := VfsReaddir(node, index);
    }
    PackDone(l, ds, index, at, count, before, dirp[..]);
    AllShow(l, dirp[..], ds, count);
    pos := at;
  }

  /** The first index entries are packed up to at, and nothing beyond has changed. */
  ghost predicate PackedUpTo(l: Layout, ds: seq<Dirent>, index: nat, at: nat, count: nat, before: seq<Byte>,
                             now: seq<Byte>) {
    && index <= |ds| && at == Total(l, ds[..index]) <= count <= |before| == |now|
    && Packed(l, now, 0, ds[..index])
    && now[at..] == before[at..]
    && Fit(l, ds, 0, count) == index + Fit(l, ds[index..], at, count)
  }

  lemma PackStart(l: Layout, ds: seq<Dirent>, count: nat, before: seq<Byte>)
    requires count <= |before|
    ensures PackedUpTo(l, ds, 0, 0, count, before, before)
  {
    PackedNothing(l, before, ds);
  }

  lemma PackNext(l: Layout, ds: seq<Dirent>, index: nat, at: nat, count: nat, before: seq<Byte>, now: seq<Byte>)
    requires PackedUpTo(l, ds, index, at, count, before, now) && index < |ds|
    requires forall i :: 0 <= i < |ds| ==> DirentValid(ds[i])
    requires at + l.RecLen(|ds[index].name|) <= count
    ensures var r := Record(l, ds[index], at);
      && at + |r| <= |now|
      && PackedUpTo(l, ds, index + 1, at + l.RecLen(|ds[index].name|), count, before, Splice(now, at, r))
  {
    hide Record, Packed, DirentValid, Layout.RecLen, Total, Fit, Splice;
    var d := ds[index];
    DirentFits(l, d);
    FitStep(l, ds, index, at, count);
    AllValid(ds[..index], ds);
    PackedAppend(l, now, 0, ds[..index], d, at);
    TotalAppend(l, ds[..index], d);
    assert ds[..index] + [d] == ds[..index + 1];
    TailStays(before, now, at, Record(l, d, at), at + l.RecLen(|d.name|));
  }

  lemma TailStays(before: seq<Byte>, now: seq<Byte>, at: nat, r: seq<Byte>, next: nat)
    requires |before| == |now| && at + |r| <= next <= |now| && now[at..] == before[at..]
    ensures Splice(now, at, r)[next..] == before[next..]
  {
    var x, y := Splice(now, at, r)[next..], before[next..];
    forall k | 0 <= k < |now| - next
      ensures x[k] == y[k]
    {
      SpliceAt(now, at, r, next + k);
      assert now[at..][next + k - at] == before[at..][next + k - at];
    }
  }

  lemma PackDone(l: Layout, ds: seq<Dirent>, index: nat, at: nat, count: nat, before: seq<Byte>, now: seq<Byte>)
    requires PackedUpTo(l, ds, index, at, count, before, now)
    requires index < |ds| ==> at + l.RecLen(|ds[index].name|) > count
    ensures var k := Fit(l, ds, 0, count);
      at == Total(l, ds[..k]) <= count <= |now| && Packed(l, now, 0, ds[..k]) && now[at..] == before[at..]
  {
    hide Packed, Total, Layout.RecLen;
    FitEnd(l, ds, index, at, count);
    if index < |ds| { FitStep(l, ds, index, at, count); }
  }

  lemma AllValid(part: seq<Dirent>, ds: seq<Dirent>)
    requires part <= ds && forall i :: 0 <= i < |ds| ==> DirentValid(ds[i])
    ensures forall d :: d in part ==> DirentValid(d)
  {
    hide DirentValid;
    forall d | d in part
      ensures DirentValid(d)
    {
      var i :| 0 <= i < |part| && part[i] == d;
      assert ds[i] == d;
    }
  }

  lemma PackedNothing(l: Layout, buf: seq<Byte>, ds: seq<Dirent>)
    ensures ds[..0] == [] && Total(l, ds[..0]) == 0 && Packed(l, buf, 0, ds[..0]) && ds[0..] == ds
  {
  }

  lemma DirentFits(l: Layout, d: Dirent)
    requires DirentValid(d)
    ensures l.NameAt() + |d.name| + 1 <= l.RecLen(|d.name|) <= 152
    ensures forall pos :: |Record(l, d, pos)| <= l.RecLen(|d.name|)
  {
    RecLenFits(l, |d.name|);
  }

  lemma FitStep(l: Layout, ds: seq<Dirent>, index: nat, at: nat, count: nat)
    requires index < |ds|
    ensures Fit(l, ds[index..], at, count) ==
      if at + l.RecLen(|ds[index].name|) > count then 0
      else 1 + Fit(l, ds[index + 1..], at + l.RecLen(|ds[index].name|), count)
  {
    assert ds[index..][1..] == ds[index + 1..];
  }

  lemma FitEnd(l: Layout, ds: seq<Dirent>, index: nat, at: nat, count: nat)
    requires index <= |ds|
    ensures index == |ds| ==> Fit(l, ds[index..], at, count) == 0
  {
  }

  // ---------- the user side ----------

  /** The C string at an address. */
  method ReadString(buf: array<Byte>, at: nat, ghost length: nat) returns (s: seq<Byte>)
    requires at + length < buf.Length && buf[at + length] == 0
    requires forall i :: at <= i < at + length ==> buf[i] != 0
    ensures s == buf[at..at + length]
  {
    s := [];
    var k := 0;
    while buf[at + k] != 0
      invariant 0 <= k <= length && s == buf[at..at + k]
      decreases length - k
    {
      s := s + [buf[at + k]];
      k := k + 1;
    }
  }

  function Names(ds: seq<Dirent>): seq<seq<Byte>> {
    if ds == [] then [] else [ds[0].name] + Names(ds[1..])
  }

  /** The ls loop over packed records ends and yields exactly their names, in order. */
  method ListNames(l: Layout, dbuf: array<Byte>, nread: int, ghost ds: seq<Dirent>) returns (names: seq<seq<Byte>>)
    requires Packed(l, dbuf[..], 0, ds) && nread == Total(l, ds) && forall d :: d in ds ==> DirentValid(d)
    ensures names == Names(ds)
  {
    hide Record, Packed, DirentValid, Layout.RecLen;
    names := [];
    var bpos: nat := 0;
    ghost var rest := ds;
    while bpos < nread
      invariant Packed(l, dbuf[..], bpos, rest) && nread == bpos + Total(l, rest)
      invariant (forall d :: d in rest ==> DirentValid(d)) && names + Names(rest) == Names(ds)
      decreases |rest|
    {
      FirstRecord(l, dbuf[..], bpos, rest);
      var reclenAt, nameAt := if l.X64? then 16 else 8, if l.X64? then 18 else 10;
      var name := ReadString(dbuf, bpos + nameAt, |rest[0].name|);
      names := names + [name];
      bpos := bpos + FromBytes(dbuf[bpos + reclenAt..bpos + reclenAt + 2]);
      rest := rest[1..];
    }
    NothingLeft(l, dbuf[..], bpos, rest);
  }

  /** What a reader finds at the first record. */
  lemma FirstRecord(l: Layout, buf: seq<Byte>, pos: nat, ds: seq<Dirent>)
    requires Packed(l, buf, pos, ds) && Total(l, ds) > 0 && forall d :: d in ds ==> DirentValid(d)
    ensures ds != []
    ensures var d := ds[0];
      var at := pos + if l.X64? then 18 else 10;
      && at + |d.name| < |buf| && buf[at + |d.name|] == 0 && buf[at..at + |d.name|] == d.name
      && (forall i :: at <= i < at + |d.name| ==> buf[i] != 0)
      && FromBytes(buf[at - 2..at]) == l.RecLen(|d.name|)
      && Packed(l, buf, pos + l.RecLen(|d.name|), ds[1..])
      && Total(l, ds) == l.RecLen(|d.name|) + Total(l, ds[1..])
  {
    hide FromBytes, ToBytes, Record, Layout.RecLen;
    assert ds != [] && ds[0] in ds;
    var d := ds[0];
    RecordInside(l, buf, d, pos);
    RecLenFits(l, |d.name|);
    RecLenRoundTrip(l.RecLen(|d.name|));
    var at := pos + l.NameAt();
    forall i | at <= i < at + |d.name|
      ensures buf[i] != 0
    {
      assert buf[i] == buf[at..at + |d.name|][i - at];
    }
  }

  /** The parts of a record that lies in a buffer. */
  lemma RecordInside(l: Layout, buf: seq<Byte>, d: Dirent, pos: nat)
    requires Holds(buf, pos, Record(l, d, pos))
    ensures var at := pos + l.NameAt();
      && at + |d.name| < |buf| && buf[at + |d.name|] == 0 && buf[at..at + |d.name|] == d.name
      && buf[pos + 2 * l.Word()..at] == ToBytes(l.RecLen(|d.name|), 2)
  {
    hide ToBytes, Record, Layout.RecLen;
    var r, n, w := Record(l, d, pos), l.NameAt(), l.Word();
    RecordParts(l, d, pos);
    SliceOfSlice(buf, pos, pos + |r|, 2 * w, n);
    SliceOfSlice(buf, pos, pos + |r|, n, n + |d.name|);
    SliceAt(buf, pos, pos + |r|, n + |d.name|);
  }

  lemma RecordParts(l: Layout, d: Dirent, pos: nat)
    ensures var r, n, w := Record(l, d, pos), l.NameAt(), l.Word();
      r[2 * w..n] == ToBytes(l.RecLen(|d.name|), 2) && r[n..n + |d.name|] == d.name && r[n + |d.name|] == 0
  {
    hide ToBytes, Layout.RecLen, Record;
    var r, n, w := Record(l, d, pos), l.NameAt(), l.Word();
    RecordIs(l, d, pos);
    Pieces(ToBytes(d.ino, w), ToBytes(pos + l.RecLen(|d.name|), w), ToBytes(l.RecLen(|d.name|), 2), d.name + [0]);
    assert r[n..] == d.name + [0];
    assert r[n..][|d.name|] == r[n + |d.name|];
    SliceOfSlice(r, n, |r|, 0, |d.name|);
    assert r[n..|r|] == r[n..] && (d.name + [0])[0..|d.name|] == d.name;
  }

  /** At the start of record k the reader finds entry k, and d_off is the start of the next record. */
  lemma {:induction false} RecordAt(l: Layout, buf: seq<Byte>, pos: nat, ds: seq<Dirent>, k: nat)
    requires Packed(l, buf, pos, ds) && (forall d :: d in ds ==> DirentValid(d)) && k < |ds|
    requires pos + Total(l, ds) < 0x1_0000_0000
    ensures Shows(l, buf, pos + Total(l, ds[..k]), ds[k], pos + Total(l, ds[..k + 1]))
    decreases k
  {
    hide FromBytes, ToBytes, Layout.RecLen, Record, Total, Shows, DirentValid;
    TotalFrom(l, ds);
    TotalNothing(l);
    if k == 0 {
      assert ds[..0] == [] && ds[..1] == [ds[0]];
      TotalOne(l, ds[0]);
      FirstShows(l, buf, ds[0], pos);
    } else {
      var rest := ds[1..];
      assert ds[..k][1..] == rest[..k - 1] && ds[..k + 1][1..] == rest[..k];
      TotalFrom(l, ds[..k]);
      TotalFrom(l, ds[..k + 1]);
      RecordAt(l, buf, pos + l.RecLen(|ds[0].name|), rest, k - 1);
    }
  }

  lemma FirstShows(l: Layout, buf: seq<Byte>, d: Dirent, pos: nat)
    requires Holds(buf, pos, Record(l, d, pos)) && DirentValid(d) && pos + l.RecLen(|d.name|) < 0x1_0000_0000
    ensures Shows(l, buf, pos, d, pos + l.RecLen(|d.name|))
  {
    hide FromBytes, ToBytes, Layout.RecLen, Record, Holds;
    FirstWords(l, buf, d, pos);
    RecordInside(l, buf, d, pos);
    RecLenFits(l, |d.name|);
    RecLenRoundTrip(l.RecLen(|d.name|));
  }

  /** All the records of the packed prefix. */
  lemma AllShow(l: Layout, buf: seq<Byte>, ds: seq<Dirent>, count: nat)
    requires Packed(l, buf, 0, ds[..Fit(l, ds, 0, count)]) && forall i :: 0 <= i < |ds| ==> DirentValid(ds[i])
    requires Total(l, ds[..Fit(l, ds, 0, count)]) < 0x1_0000_0000
    ensures forall i :: 0 <= i < Fit(l, ds, 0, count) ==>
      Shows(l, buf, Total(l, ds[..i]), ds[i], Total(l, ds[..i + 1]))
  {
    hide Packed, DirentValid, Total, Fit, Shows;
    var part := ds[..Fit(l, ds, 0, count)];
    AllValid(part, ds);
    forall i | 0 <= i < |part|
      ensures Shows(l, buf, Total(l, ds[..i]), ds[i], Total(l, ds[..i + 1]))
    {
      RecordAt(l, buf, 0, part, i);
      assert part[..i] == ds[..i] && part[..i + 1] == ds[..i + 1];
    }
  }

  lemma TotalOne(l: Layout, d: Dirent)
    ensures Total(l, [d]) == l.RecLen(|d.name|)
  {
    assert [d][1..] == [];
  }

  lemma FirstWords(l: Layout, buf: seq<Byte>, d: Dirent, pos: nat)
    requires Holds(buf, pos, Record(l, d, pos)) && DirentValid(d) && pos + l.RecLen(|d.name|) < 0x1_0000_0000
    ensures var w := l.Word();
      && pos + 2 * w <= |buf|
      && FromBytes(buf[pos..pos + w]) == d.ino
      && FromBytes(buf[pos + w..pos + 2 * w]) == pos + l.RecLen(|d.name|)
  {
    hide FromBytes, ToBytes, Layout.RecLen, Record;
    var r, w := Record(l, d, pos), l.Word();
    RecordWords(l, d, pos);
    SliceOfSlice(buf, pos, pos + |r|, 0, w);
    SliceOfSlice(buf, pos, pos + |r|, w, 2 * w);
    LongRoundTrip(d.ino, l);
    LongRoundTrip(pos + l.RecLen(|d.name|), l);
  }

  lemma RecordWords(l: Layout, d: Dirent, pos: nat)
    ensures var r, w := Record(l, d, pos), l.Word();
      r[0..w] == ToBytes(d.ino, w) && r[w..2 * w] == ToBytes(pos + l.RecLen(|d.name|), w)
  {
    hide ToBytes, Layout.RecLen, Record;
    var w := l.Word();
    RecordIs(l, d, pos);
    Pieces(ToBytes(d.ino, w), ToBytes(pos + l.RecLen(|d.name|), w), ToBytes(l.RecLen(|d.name|), 2), d.name + [0]);
  }

  lemma Pieces(a: seq<Byte>, b: seq<Byte>, c: seq<Byte>, rest: seq<Byte>)
    ensures var r := a + b + c + rest;
      && r[0..|a|] == a && r[|a|..|a| + |b|] == b && r[|a| + |b|..|a| + |b| + |c|] == c
      && r[|a| + |b| + |c|..] == rest
  {
  }

  lemma LongRoundTrip(v: nat, l: Layout)
    requires v < 0x1_0000_0000
    ensures FromBytes(ToBytes(v, l.Word())) == v
  {
    assert Pow256(4) == 0x1_0000_0000;
    assert Pow256(8) == 0x1_0000_0000_0000_0000;
    WordRoundTrip(v, l.Word());
  }

  /** The shell's ls: the names of the longest prefix of the root directory whose records fit in
      the buffer, in order. */
  method Ls(l: Layout, root: Option<Directory>) returns (names: seq<seq<Byte>>)
    requires root.Some? ==> ListingValid(root.value)
    ensures root == None ==> names == []
    ensures root.Some? ==> ListingValid(root.value) && Listing(root.value) == old(Listing(root.value))
    ensures root.Some? ==>
      names == Names(Listing(root.value)[..Fit(l, Listing(root.value), 0, 1024)])
  {
    hide Packed, DirentValid, Fit, Total, Layout.RecLen, Listing, DirectoryReady;
    assert root.Some? ==> forall o :: o in Footprint(root.value) ==> allocated(o);
    var dbuf := new Byte[1024];
    var nread := SysGetdents(l, root, dbuf, 1024);
    if root == None {
      return [];
    }
    ghost var ds := Listing(root.value);
    AllValid(ds[..Fit(l, ds, 0, 1024)], ds);
    names := ListNames(l, dbuf, nread, ds[..Fit(l, ds, 0, 1024)]);
  }

  /** On a freshly parsed initrd: the names of its first files, in image order. */
  method LsInitrd(l: Layout, initrd: Tar.Initrd, address: nat, ghost files: seq<Tar.File>)
    returns (names: seq<seq<Byte>>)
    requires initrd.Valid() && Tar.ImageAt(initrd.mem[..], address, files)
    modifies initrd`fileCount, initrd.fileEntries, initrd.nodes, initrd.dirents
    ensures names == Names(FileDirents(files)[..Fit(l, FileDirents(files), 0, 1024)])
  {
    hide Packed, DirentValid, Fit, Total, Layout.RecLen, Listing, Tar.Table, Tar.First32, Tar.Filled;
    initrd.Parse(address, files);
    TarListing(initrd, files, address);
    names := Ls(l, Some(TarDirectory(initrd)));
  }

  lemma NothingLeft(l: Layout, buf: seq<Byte>, pos: nat, ds: seq<Dirent>)
    requires Packed(l, buf, pos, ds) && Total(l, ds) <= 0 && forall d :: d in ds ==> DirentValid(d)
    ensures ds == [] && Names(ds) == []
  {
    if ds != [] {
      assert ds[0] in ds;
      RecLenFits(l, |ds[0].name|);
    }
  }
}
