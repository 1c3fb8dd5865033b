/** Slices of byte sequences and their replacement. */
module Bytes {
  import opened Bits

  function Zeros(n: nat): (z: seq<Byte>)
    ensures |z| == n && forall i :: 0 <= i < n ==> z[i] == 0
  {
    seq(n, _ => 0)
  }

  /** The sequence with the bytes from at on replaced by data. */
  function Splice(s: seq<Byte>, at: nat, data: seq<Byte>): (r: seq<Byte>)
    requires at + |data| <= |s|
    ensures |r| == |s|
  {
    s[..at] + data + s[at + |data|..]
  }

  lemma SpliceAt(s: seq<Byte>, at: nat, data: seq<Byte>, k: nat)
    requires at + |data| <= |s| && k < |s|
    ensures Splice(s, at, data)[k] == if at <= k < at + |data| then data[k - at] else s[k]
  {
  }

  lemma SliceAt(s: seq<Byte>, a: nat, b: nat, k: nat)
    requires a <= b <= |s| && k < b - a
    ensures s[a..b][k] == s[a + k]
  {
  }

  lemma SliceOfSlice(s: seq<Byte>, a: nat, b: nat, c: nat, d: nat)
    requires a <= b <= |s| && c <= d <= b - a
    ensures s[a..b][c..d] == s[a + c..a + d]
  {
    var x, y := s[a..b][c..d], s[a + c..a + d];
    forall k | 0 <= k < d - c
      ensures x[k] == y[k]
    {
      SliceAt(s, a, b, c + k);
      SliceAt(s[a..b], c, d, k);
      SliceAt(s, a + c, a + d, k);
    }
  }

  /** Copies part of one array into another; the loop every byte copy of the kernel has. */
  method CopyBytes(from: array<Byte>, start: nat, to: array<Byte>, at: nat, count: nat)
    requires from != to && start + count <= from.Length && at + count <= to.Length
    modifies to
    ensures to[..] == Splice(old(to[..]), at, from[start..start + count])
  {
    ghost var data := from[start..start + count];
    var i := 0;
    while i < count
      invariant 0 <= i <= count
      invariant forall k :: 0 <= k < to.Length ==>
        to[k] == if at <= k < at + i then data[k - at] else old(to[k])
    {
      assert data[i] == from[start + i];
      to[at + i] := from[start + i];
      i := i + 1;
    }
    forall k | 0 <= k < to.Length
      ensures to[..][k] == Splice(old(to[..]), at, data)[k]
    {
      SpliceAt(old(to[..]), at, data, k);
    }
  }

  /** The character codes of a text. */
  function Ascii(text: string): (s: seq<Byte>)
    ensures |s| == |text|
  {
    seq(|text|, i requires 0 <= i < |text| => text[i] as nat % 0x100)
  }

  // ---------- little-endian words ----------

  function ToBytes(v: nat, width: nat): (b: seq<Byte>)
    ensures |b| == width
    decreases width
  {
    if width == 0 then [] else [v % 0x100] + ToBytes(v / 0x100, width - 1)
  }

  function FromBytes(b: seq<Byte>): nat {
    if b == [] then 0 else b[0] as nat + 0x100 * FromBytes(b[1..])
  }

  /** The least significant byte comes first. */
  lemma LittleEndian(b: seq<Byte>)
    ensures |b| == 2 ==> FromBytes(b) == b[0] as nat + 0x100 * b[1] as nat
    ensures |b| == 4 ==>
      FromBytes(b) == b[0] as nat + 0x100 * b[1] as nat + 0x1_0000 * b[2] as nat + 0x100_0000 * b[3] as nat
    ensures |b| == 8 ==> FromBytes(b) == FromBytes(b[..4]) + 0x1_0000_0000 * FromBytes(b[4..])
  {
    if |b| == 2 || |b| == 4 {
      assert FromBytes(b[|b|..]) == 0;
    } else if |b| == 8 {
      JoinBytes(b[..4], b[4..]);
      assert b[..4] + b[4..] == b && Pow256(4) == 0x1_0000_0000;
    }
  }

  lemma {:induction false} JoinBytes(a: seq<Byte>, b: seq<Byte>)
    ensures FromBytes(a + b) == FromBytes(a) + Pow256(|a|) * FromBytes(b)
  {
    if a == [] {
      assert a + b == b;
    } else {
      assert (a + b)[1..] == a[1..] + b;
      JoinBytes(a[1..], b);
    }
  }

  function Pow256(k: nat): (r: nat)
    ensures r >= 1
  {
    if k == 0 then 1 else 0x100 * Pow256(k - 1)
  }

  lemma {:induction false} WordRoundTrip(v: nat, width: nat)
    requires v < Pow256(width)
    ensures FromBytes(ToBytes(v, width)) == v
    decreases width
  {
    if width > 0 { WordRoundTrip(v / 0x100, width - 1); }
  }
}
