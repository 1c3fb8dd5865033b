/** The ext2 reader and writer over a disk of bytes: inodes of block group 0, files that use
    direct blocks only, directories of one block (kernel/fs/ext2.c). */
module Ext2 {
  import opened Bits
  import opened Bytes

  // ---------- geometry ----------

  /** The mounted superblock: block size, inodes per group, first block of the inode table. */
  datatype Geometry = Geometry(blockSize: nat, inodesPerGroup: nat, inodeTable: nat)

  predicate GeometryValid(g: Geometry) {
    && g.blockSize in {1024, 2048, 4096}
    && 0 < g.inodesPerGroup <= 0x8000
  }

  /** n blocks of the given size, in bytes. */
  function Scale(blockSize: nat, n: nat): nat {
    if blockSize == 1024 then 1024 * n else if blockSize == 2048 then 2048 * n else 4096 * n
  }

  function Quot(blockSize: nat, x: nat): nat {
    if blockSize == 1024 then x / 1024 else if blockSize == 2048 then x / 2048 else x / 4096
  }

  function Rem(blockSize: nat, x: nat): nat {
    if blockSize == 1024 then x % 1024 else if blockSize == 2048 then x % 2048 else x % 4096
  }

  /** The case splits are the product, quotient and remainder of the block arithmetic. */
  lemma ScaleIsProduct(b: nat, n: nat)
    requires b in {1024, 2048, 4096}
    ensures Scale(b, n) == b * n && Quot(b, n) == n / b && Rem(b, n) == n % b
  {
  }

  lemma QuotRem(b: nat, x: nat)
    requires b in {1024, 2048, 4096}
    ensures x == Scale(b, Quot(b, x)) + Rem(b, x) && Rem(b, x) < b
  {
  }

  lemma QuotUnique(b: nat, q: nat, r: nat)
    requires b in {1024, 2048, 4096} && r < b
    ensures Quot(b, Scale(b, q) + r) == q && Rem(b, Scale(b, q) + r) == r
  {
  }

  /** The bytes of block n. */
  ghost predicate BlockInside(g: Geometry, disk: seq<Byte>, n: nat) {
    Scale(g.blockSize, n) + g.blockSize <= |disk|
  }

  function BlockOf(g: Geometry, disk: seq<Byte>, n: nat): (b: seq<Byte>)
    requires BlockInside(g, disk, n)
    ensures |b| == g.blockSize
  {
    disk[Scale(g.blockSize, n)..Scale(g.blockSize, n) + g.blockSize]
  }

  /** Byte k of block n. */
  lemma BlockAt(g: Geometry, disk: seq<Byte>, n: nat, k: nat)
    requires GeometryValid(g) && BlockInside(g, disk, n) && k < g.blockSize
    ensures g.blockSize * n + k < |disk| && BlockOf(g, disk, n)[k] == disk[g.blockSize * n + k]
  {
    ScaleIsProduct(g.blockSize, n);
  }

  // ---------- inodes ----------

  function LE16(b: seq<Byte>, i: nat): nat
    requires i + 2 <= |b|
  {
    b[i] as nat + 0x100 * b[i + 1] as nat
  }

  function LE32(b: seq<Byte>, i: nat): nat
    requires i + 4 <= |b|
  {
    b[i] as nat + 0x100 * b[i + 1] as nat + 0x1_0000 * b[i + 2] as nat + 0x100_0000 * b[i + 3] as nat
  }

  datatype Inode = Inode(mode: nat, uid: nat, size: nat, gid: nat, block: seq<nat>)

  const INODE_SIZE: nat := 128

  /** The fields of a 128-byte inode record the code uses, at their offsets. */
  function DecodeInode(b: seq<Byte>): (inode: Inode)
    requires |b| == 128
    ensures |inode.block| == 15
  {
    Inode(LE16(b, 0), LE16(b, 2), LE32(b, 4), LE16(b, 24), seq(15, i requires 0 <= i < 15 => LE32(b, 40 + 4 * i)))
  }

  // ---------- inodes laid out on the disk ----------

  /** Little-endian words one after another. */
  function Words(ws: seq<nat>): (b: seq<Byte>)
    ensures |b| == 4 * |ws|
  {
    if ws == [] then [] else ToBytes(ws[0], 4) + Words(ws[1..])
  }

  ghost predicate InodeFits(inode: Inode) {
    && inode.mode < 0x1_0000 && inode.uid < 0x1_0000 && inode.gid < 0x1_0000 && inode.size < 0x1_0000_0000
    && |inode.block| == 15 && forall i :: 0 <= i < 15 ==> inode.block[i] < 0x1_0000_0000
  }

  /** The 128-byte record of an inode, in the order of its struct: mode, owner and size, four times of
      four bytes, group, the link count and three words, fifteen block numbers, and seven words. */
  function EncodeInode(inode: Inode, times: seq<Byte>, counts: seq<Byte>, tail: seq<Byte>): seq<Byte> {
    ToBytes(inode.mode, 2) + ToBytes(inode.uid, 2) + ToBytes(inode.size, 4) + times + ToBytes(inode.gid, 2) + counts
      + Words(inode.block) + tail
  }

  lemma Half(v: nat, b: seq<Byte>, i: nat)
    requires v < 0x1_0000 && i + 2 <= |b| && b[i..i + 2] == ToBytes(v, 2)
    ensures LE16(b, i) == v
  {
    assert Pow256(2) == 0x1_0000;
    WordRoundTrip(v, 2);
    LittleEndian(b[i..i + 2]);
  }

  lemma Whole(v: nat, b: seq<Byte>, i: nat)
    requires v < 0x1_0000_0000 && i + 4 <= |b| && b[i..i + 4] == ToBytes(v, 4)
    ensures LE32(b, i) == v
  {
    assert Pow256(4) == 0x1_0000_0000;
    WordRoundTrip(v, 4);
    LittleEndian(b[i..i + 4]);
  }

  lemma {:induction false} WordAt(ws: seq<nat>, k: nat)
    requires k < |ws|
    ensures Words(ws)[4 * k..4 * k + 4] == ToBytes(ws[k], 4)
  {
    hide ToBytes;
    var first, rest := ToBytes(ws[0], 4), Words(ws[1..]);
    assert Words(ws) == first + rest;
    if k == 0 {
      assert (first + rest)[0..4] == first;
    } else {
      WordAt(ws[1..], k - 1);
      SecondPart(first, rest, 4 * (k - 1), 4 * (k - 1) + 4);
    }
  }

  lemma SecondPart(a: seq<Byte>, b: seq<Byte>, i: nat, j: nat)
    requires i <= j <= |b|
    ensures (a + b)[|a| + i..|a| + j] == b[i..j]
  {
  }

  /** Reading back an inode laid out by its struct gives the inode. */
  lemma InodeRoundTrip(inode: Inode, times: seq<Byte>, counts: seq<Byte>, tail: seq<Byte>)
    requires InodeFits(inode) && |times| == 16 && |counts| == 14 && |tail| == 28
    ensures |EncodeInode(inode, times, counts, tail)| == 128
    ensures DecodeInode(EncodeInode(inode, times, counts, tail)) == inode
  {
    hide LE16, LE32, ToBytes, Words;
    var e := EncodeInode(inode, times, counts, tail);
    Parts(inode, times, counts, tail);
    Half(inode.mode, e, 0);
    Half(inode.uid, e, 2);
    Whole(inode.size, e, 4);
    Half(inode.gid, e, 24);
    var read := DecodeInode(e);
    forall i | 0 <= i < 15
      ensures read.block[i] == inode.block[i]
    {
      WordAt(inode.block, i);
      SliceOfSlice(e, 40, 100, 4 * i, 4 * i + 4);
      Whole(inode.block[i], e, 40 + 4 * i);
    }
    assert read.block == inode.block;
  }

  lemma Parts(inode: Inode, times: seq<Byte>, counts: seq<Byte>, tail: seq<Byte>)
    requires |inode.block| == 15 && |times| == 16 && |counts| == 14 && |tail| == 28
    ensures var e := EncodeInode(inode, times, counts, tail);
      && |e| == 128
      && e[0..2] == ToBytes(inode.mode, 2) && e[2..4] == ToBytes(inode.uid, 2) && e[4..8] == ToBytes(inode.size, 4)
      && e[24..26] == ToBytes(inode.gid, 2) && e[40..100] == Words(inode.block)
  {
    hide ToBytes, Words;
  }

  /** An inode table on the disk, record after record, holds inode n at its place. */
  lemma InodeInTable(g: Geometry, disk: seq<Byte>, n: nat, inode: Inode, times: seq<Byte>, counts: seq<Byte>,
                     tail: seq<Byte>)
    requires InGroup0(g, n) && TableInside(g, disk)
    requires InodeFits(inode) && |times| == 16 && |counts| == 14 && |tail| == 28
    requires var at := g.blockSize * g.inodeTable + 128 * (n - 1);
      at + 128 <= |disk| && disk[at..at + 128] == EncodeInode(inode, times, counts, tail)
    ensures InodeAt(g, disk, n) == inode
  {
    hide EncodeInode, DecodeInode, Scale;
    ScaleIsProduct(g.blockSize, g.inodeTable);
    InodeRoundTrip(inode, times, counts, tail);
  }

  /** Every block that holds inodes of the group lies on the disk. */
  ghost predicate TableInside(g: Geometry, disk: seq<Byte>) {
    GeometryValid(g) && BlockInside(g, disk, g.inodeTable + Quot(g.blockSize, 128 * (g.inodesPerGroup - 1)))
  }

  predicate InGroup0(g: Geometry, n: nat) {
    1 <= n <= g.inodesPerGroup
  }

  /** Inode n of the flat table. */
  function InodeAt(g: Geometry, disk: seq<Byte>, n: nat): (inode: Inode)
    requires InGroup0(g, n) && TableInside(g, disk)
    ensures |inode.block| == 15
  {
    var at := Scale(g.blockSize, g.inodeTable) + 128 * (n - 1);
    InodeInside(g, disk, n);
    DecodeInode(disk[at..at + 128])
  }

  /** The record at (index * 128) / block size, slot index % (block size / 128), is record index of the table. */
  lemma InodeSlot(b: nat, table: nat, index: nat)
    requires b in {1024, 2048, 4096}
    ensures Scale(b, table + Quot(b, 128 * index)) + 128 * (index % (b / 128)) == Scale(b, table) + 128 * index
    ensures 128 * (index % (b / 128)) + 128 <= b
  {
    if b == 1024 {
      assert 128 * index / 1024 == index / 8;
    } else if b == 2048 {
      assert 128 * index / 2048 == index / 16;
    } else {
      assert 128 * index / 4096 == index / 32;
    }
  }

  lemma InodeInside(g: Geometry, disk: seq<Byte>, n: nat)
    requires InGroup0(g, n) && TableInside(g, disk)
    ensures Scale(g.blockSize, g.inodeTable) + 128 * n <= |disk|
    ensures BlockInside(g, disk, g.inodeTable + Quot(g.blockSize, 128 * (n - 1)))
  {
    hide Scale, Quot;
    var b, t := g.blockSize, g.inodeTable;
    InodeSlot(b, t, n - 1);
    QuotGrows(b, 128 * (n - 1), 128 * (g.inodesPerGroup - 1));
    ScaleGrows(b, t + Quot(b, 128 * (n - 1)), t + Quot(b, 128 * (g.inodesPerGroup - 1)));
  }

  lemma ScaleGrows(b: nat, m: nat, n: nat)
    requires m <= n
    ensures Scale(b, m) <= Scale(b, n)
  {
  }

  lemma QuotGrows(b: nat, x: nat, y: nat)
    requires x <= y
    ensures Quot(b, x) <= Quot(b, y)
  {
  }

  // ---------- file contents ----------

  /** The file uses direct blocks only, and those it uses lie on the disk. */
  ghost predicate FileValid(g: Geometry, disk: seq<Byte>, inode: Inode) {
    && |inode.block| == 15 && inode.size <= Scale(g.blockSize, 12)
    && forall i :: 0 <= i < 12 && Scale(g.blockSize, i) < inode.size ==> BlockInside(g, disk, inode.block[i])
  }

  /** Where byte k of the file lies on the disk. */
  function Position(g: Geometry, inode: Inode, k: nat): nat
    requires Quot(g.blockSize, k) < |inode.block|
  {
    Scale(g.blockSize, inode.block[Quot(g.blockSize, k)]) + Rem(g.blockSize, k)
  }

  lemma PositionInside(g: Geometry, disk: seq<Byte>, inode: Inode, k: nat)
    requires GeometryValid(g) && FileValid(g, disk, inode) && k < inode.size
    ensures Quot(g.blockSize, k) < 12 && BlockInside(g, disk, inode.block[Quot(g.blockSize, k)])
    ensures Position(g, inode, k) < |disk|
  {
    QuotRem(g.blockSize, k);
    assert Scale(g.blockSize, Quot(g.blockSize, k)) < inode.size;
  }

  /** The concatenation of the first n data blocks. */
  ghost function Blocks(g: Geometry, disk: seq<Byte>, inode: Inode, n: nat): seq<Byte>
    requires n <= |inode.block| && forall i :: 0 <= i < n ==> BlockInside(g, disk, inode.block[i])
  {
    if n == 0 then [] else Blocks(g, disk, inode, n - 1) + BlockOf(g, disk, inode.block[n - 1])
  }

  /** Blocks in use: the size rounded up. */
  function Used(g: Geometry, inode: Inode): nat {
    if inode.size == 0 then 0 else Quot(g.blockSize, inode.size - 1) + 1
  }

  lemma UsedInside(g: Geometry, disk: seq<Byte>, inode: Inode)
    requires GeometryValid(g) && FileValid(g, disk, inode)
    ensures Used(g, inode) <= 12
    ensures forall i :: 0 <= i < Used(g, inode) ==> BlockInside(g, disk, inode.block[i])
  {
    if inode.size > 0 { PositionInside(g, disk, inode, inode.size - 1); }
  }

  /** The file: its blocks one after another, cut at its size. */
  ghost function Content(g: Geometry, disk: seq<Byte>, inode: Inode): (c: seq<Byte>)
    requires GeometryValid(g) && FileValid(g, disk, inode)
    ensures |c| == inode.size
  {
    UsedInside(g, disk, inode);
    BlocksAt(g, disk, inode, Used(g, inode));
    Blocks(g, disk, inode, Used(g, inode))[..inode.size]
  }

  lemma {:induction false} BlocksAt(g: Geometry, disk: seq<Byte>, inode: Inode, n: nat)
    requires GeometryValid(g) && n <= |inode.block| && forall i :: 0 <= i < n ==> BlockInside(g, disk, inode.block[i])
    ensures |Blocks(g, disk, inode, n)| == Scale(g.blockSize, n)
    ensures forall k :: 0 <= k < Scale(g.blockSize, n) ==>
      Quot(g.blockSize, k) < n && Position(g, inode, k) < |disk| &&
        Blocks(g, disk, inode, n)[k] == disk[Position(g, inode, k)]
  {
    hide Scale, Quot, Rem;
    if n == 0 {
      ScaleSteps(g.blockSize, 1);
    } else {
      var low := Scale(g.blockSize, n - 1);
      BlocksAt(g, disk, inode, n - 1);
      ScaleSteps(g.blockSize, n);
      forall k | 0 <= k < low + g.blockSize
        ensures Quot(g.blockSize, k) < n && Position(g, inode, k) < |disk|
        ensures Blocks(g, disk, inode, n)[k] == disk[Position(g, inode, k)]
      {
        if k >= low {
          QuotUnique(g.blockSize, n - 1, k - low);
          assert Blocks(g, disk, inode, n)[k] == BlockOf(g, disk, inode.block[n - 1])[k - low];
        }
      }
    }
  }

  lemma ScaleSteps(b: nat, n: nat)
    requires b in {1024, 2048, 4096} && n > 0
    ensures Scale(b, 0) == 0 && Scale(b, n) == Scale(b, n - 1) + b
  {
  }

  lemma ContentAt(g: Geometry, disk: seq<Byte>, inode: Inode, k: nat)
    requires GeometryValid(g) && FileValid(g, disk, inode) && k < inode.size
    ensures Quot(g.blockSize, k) < 12 && Position(g, inode, k) < |disk|
    ensures Content(g, disk, inode)[k] == disk[Position(g, inode, k)]
  {
    PositionInside(g, disk, inode, k);
    UsedInside(g, disk, inode);
    BlocksAt(g, disk, inode, Used(g, inode));
  }

  // ---------- writes ----------

  /** A write of data at offset stays in one direct block and inside the file. */
  ghost predicate OneBlockWrite(g: Geometry, inode: Inode, offset: nat, size: nat) {
    GeometryValid(g) && offset + size <= inode.size && Rem(g.blockSize, offset) + size <= g.blockSize
  }

  /** The data blocks a file uses are pairwise distinct. */
  ghost predicate BlocksDistinct(g: Geometry, inode: Inode) {
    |inode.block| == 15 && forall i, j :: 0 <= i < j < 12 && Scale(g.blockSize, j) < inode.size ==>
      inode.block[i] != inode.block[j]
  }

  /** Block n holds no data of the file. */
  ghost predicate NotInFile(g: Geometry, inode: Inode, n: nat) {
    |inode.block| == 15 && forall i :: 0 <= i < 12 && Scale(g.blockSize, i) < inode.size ==> inode.block[i] != n
  }

  /** Block n is no block of the inode table. */
  ghost predicate NotInTable(g: Geometry, n: nat)
    requires g.inodesPerGroup > 0
  {
    n < g.inodeTable || n > g.inodeTable + Quot(g.blockSize, 128 * (g.inodesPerGroup - 1))
  }

  /** Replacing bytes inside block n. */
  ghost predicate SplicedInBlock(g: Geometry, disk: seq<Byte>, after: seq<Byte>, n: nat, within: nat, data: seq<Byte>) {
    && BlockInside(g, disk, n) && within + |data| <= g.blockSize
    && after == Splice(disk, Scale(g.blockSize, n) + within, data)
  }

  lemma BlocksApart(b: nat, m: nat, n: nat, r: nat)
    requires b in {1024, 2048, 4096} && m != n && r < b
    ensures !(Scale(b, n) <= Scale(b, m) + r < Scale(b, n) + b)
  {
  }

  /** The inode table does not change. */
  lemma WriteKeepsInodes(g: Geometry, disk: seq<Byte>, after: seq<Byte>, n: nat, within: nat, data: seq<Byte>, m: nat)
    requires TableInside(g, disk) && SplicedInBlock(g, disk, after, n, within, data)
    requires NotInTable(g, n) && InGroup0(g, m)
    ensures TableInside(g, after) && InodeAt(g, after, m) == InodeAt(g, disk, m)
  {
    hide Splice, DecodeInode, Scale, Quot;
    InodeInside(g, disk, m);
    InodeInside(g, after, m);
    var at := Scale(g.blockSize, g.inodeTable) + 128 * (m - 1);
    var x, y := after[at..at + 128], disk[at..at + 128];
    forall k | 0 <= k < 128
      ensures x[k] == y[k]
    {
      TableApart(g, n, m, within + |data|, k);
      SpliceAt(disk, Scale(g.blockSize, n) + within, data, at + k);
    }
    assert x == y;
  }

  lemma TableApart(g: Geometry, n: nat, m: nat, end: nat, k: nat)
    requires GeometryValid(g) && NotInTable(g, n) && InGroup0(g, m) && end <= g.blockSize && k < 128
    ensures var byte := Scale(g.blockSize, g.inodeTable) + 128 * (m - 1) + k;
      byte < Scale(g.blockSize, n) || byte >= Scale(g.blockSize, n) + end
  {
    InodeSlot(g.blockSize, g.inodeTable, m - 1);
    InodeSlot(g.blockSize, g.inodeTable, g.inodesPerGroup - 1);
  }

  /** A file without the written block keeps every byte. */
  lemma WriteKeepsOthers(g: Geometry, disk: seq<Byte>, after: seq<Byte>, n: nat, within: nat, data: seq<Byte>,
                         inode: Inode)
    requires GeometryValid(g) && SplicedInBlock(g, disk, after, n, within, data)
    requires FileValid(g, disk, inode) && NotInFile(g, inode, n)
    ensures FileValid(g, after, inode) && Content(g, after, inode) == Content(g, disk, inode)
  {
    forall k | 0 <= k < inode.size
      ensures Content(g, after, inode)[k] == Content(g, disk, inode)[k]
    {
      ContentAt(g, disk, inode, k);
      ContentAt(g, after, inode, k);
      PositionInside(g, disk, inode, k);
      QuotRem(g.blockSize, k);
      BlocksApart(g.blockSize, inode.block[Quot(g.blockSize, k)], n, Rem(g.blockSize, k));
      SpliceAt(disk, Scale(g.blockSize, n) + within, data, Position(g, inode, k));
    }
  }

  /** The written file holds the data at the offset and its old bytes elsewhere. */
  lemma WriteReadsBack(g: Geometry, disk: seq<Byte>, after: seq<Byte>, inode: Inode, offset: nat, data: seq<Byte>)
    requires FileValid(g, disk, inode) && OneBlockWrite(g, inode, offset, |data|) && BlocksDistinct(g, inode)
    requires offset < inode.size
    requires Quot(g.blockSize, offset) < 12 &&
      SplicedInBlock(g, disk, after, inode.block[Quot(g.blockSize, offset)], Rem(g.blockSize, offset), data)
    ensures FileValid(g, after, inode)
    ensures Content(g, after, inode) == Splice(Content(g, disk, inode), offset, data)
  {
    hide Content, Splice, FileValid, SplicedInBlock;
    WriteKeepsFit(g, disk, after, inode, inode.block[Quot(g.blockSize, offset)], Rem(g.blockSize, offset), data);
    var x, y := Content(g, after, inode), Splice(Content(g, disk, inode), offset, data);
    forall k | 0 <= k < inode.size
      ensures x[k] == y[k]
    {
      WriteReadsBackAt(g, disk, after, inode, offset, data, k);
    }
  }

  lemma WriteKeepsFit(g: Geometry, disk: seq<Byte>, after: seq<Byte>, inode: Inode, n: nat, within: nat,
                      data: seq<Byte>)
    requires FileValid(g, disk, inode) && SplicedInBlock(g, disk, after, n, within, data)
    ensures FileValid(g, after, inode) && |after| == |disk|
  {
  }

  lemma WriteReadsBackAt(g: Geometry, disk: seq<Byte>, after: seq<Byte>, inode: Inode, offset: nat, data: seq<Byte>,
                         k: nat)
    requires FileValid(g, disk, inode) && FileValid(g, after, inode)
    requires OneBlockWrite(g, inode, offset, |data|) && BlocksDistinct(g, inode) && k < inode.size &&
      offset < inode.size
    requires Quot(g.blockSize, offset) < 12 &&
      SplicedInBlock(g, disk, after, inode.block[Quot(g.blockSize, offset)], Rem(g.blockSize, offset), data)
    ensures Content(g, after, inode)[k] == Splice(Content(g, disk, inode), offset, data)[k]
  {
    hide Content, Splice;
    var b, q := g.blockSize, Quot(g.blockSize, offset);
    QuotRem(b, offset);
    QuotRem(b, k);
    ContentAt(g, disk, inode, k);
    ContentAt(g, after, inode, k);
    PositionInside(g, disk, inode, k);
    SpliceAt(disk, Scale(b, inode.block[q]) + Rem(b, offset), data, Position(g, inode, k));
    SpliceAt(Content(g, disk, inode), offset, data, k);
    if Quot(b, k) != q {
      assert inode.block[Quot(b, k)] != inode.block[q];
      BlocksApart(b, inode.block[Quot(b, k)], inode.block[q], Rem(b, k));
    }
  }
}
