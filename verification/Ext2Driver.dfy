/** The ext2 code itself: block transfers, the inode fetch, the chunked read, the one-block
    write, and the directory loops (kernel/fs/ext2.c). */
module Ext2Driver {
  import opened Wrappers
  import opened Bits
  import opened Bytes
  import opened Ext2

  /** A directory entry of a block: the record's inode number, type and name. */
  datatype Entry = Entry(ino: nat, kind: Byte, name: seq<Byte>)

  // ---------- directories ----------

  function RecLen(b: seq<Byte>, at: nat): nat
    requires at + 8 <= |b|
  {
    LE16(b, at + 4)
  }

  /** Every record from at on lies inside the first size bytes, leads forward and has a name
      without NUL bytes; a zero length ends the list. */
  ghost predicate RecordsValid(b: seq<Byte>, at: nat, size: nat)
    decreases size - at
  {
    at < size ==>
      && at + 8 <= size <= |b|
      && (RecLen(b, at) != 0 ==>
            && at + 8 + b[at + 6] <= size
            && (forall i :: at + 8 <= i < at + 8 + b[at + 6] ==> b[i] != 0)
            && RecordsValid(b, at + RecLen(b, at), size))
  }

  /** The records with a nonzero inode, in order. */
  function Entries(b: seq<Byte>, at: nat, size: nat): (es: seq<Entry>)
    requires RecordsValid(b, at, size)
    decreases size - at
  {
    if at >= size || RecLen(b, at) == 0 then []
    else
      var rest := Entries(b, at + RecLen(b, at), size);
      if LE32(b, at) == 0 then rest
      else [Entry(LE32(b, at), b[at + 7], b[at + 8..at + 8 + b[at + 6]])] + rest
  }

  /** The inode of the first entry with the name. */
  function Find(es: seq<Entry>, name: seq<Byte>): Option<nat> {
    if es == [] then None
    else if es[0].name == name then Some(es[0].ino)
    else Find(es[1..], name)
  }

  predicate IsDirectory(inode: Inode) {
    And(inode.mode, 0x4000) != 0
  }

  /** The directory bit of a mode is bit 14: a directory of mode 755 has it and a file of mode 644
      does not. */
  lemma DirectoryBit(inode: Inode)
    ensures IsDirectory(inode) <==> Bit(inode.mode, 14)
    ensures inode.mode == 0x41ED ==> IsDirectory(inode)
    ensures inode.mode == 0x81A4 ==> !IsDirectory(inode)
  {
    hide And;
    assert Pow2(14) == 0x4000 by { assert Pow2(8) == 0x100; }
    AndPow2(inode.mode, 14);
    assert !Bit(0x81A4, 14) by { assert !Bit(0x81, 6); }
  }

  /** Inode n is a directory of one block with well-formed records that name inodes of the group. */
  ghost predicate DirectoryValid(g: Geometry, disk: seq<Byte>, n: nat)
    requires TableInside(g, disk) && InGroup0(g, n)
  {
    var inode := InodeAt(g, disk, n);
    && inode.size <= g.blockSize
    && BlockInside(g, disk, inode.block[0])
    && RecordsValid(BlockOf(g, disk, inode.block[0]), 0, inode.size)
    && forall e :: e in Entries(BlockOf(g, disk, inode.block[0]), 0, inode.size) ==> InGroup0(g, e.ino)
  }

  ghost function EntriesOf(g: Geometry, disk: seq<Byte>, n: nat): seq<Entry>
    requires TableInside(g, disk) && InGroup0(g, n) && DirectoryValid(g, disk, n)
  {
    Entries(BlockOf(g, disk, InodeAt(g, disk, n).block[0]), 0, InodeAt(g, disk, n).size)
  }

  // ---------- directories laid out on the disk ----------

  /** A directory record and the unused bytes after its name. */
  datatype Slot = Slot(entry: Entry, pad: seq<Byte>)

  ghost predicate SlotFits(s: Slot) {
    && s.entry.ino < 0x1_0000_0000 && |s.entry.name| <= 255 && 8 + |s.entry.name| + |s.pad| < 0x1_0000
    && forall i :: 0 <= i < |s.entry.name| ==> s.entry.name[i] != 0
  }

  /** Inode number, record length, name length, type, name and padding. */
  function EncodeSlot(s: Slot): (b: seq<Byte>)
    ensures |b| == 8 + |s.entry.name| + |s.pad|
  {
    ToBytes(s.entry.ino, 4) + ToBytes(8 + |s.entry.name| + |s.pad|, 2) + ToBytes(|s.entry.name|, 1)
      + [s.entry.kind] + s.entry.name + s.pad
  }

  function EncodeSlots(slots: seq<Slot>): seq<Byte> {
    if slots == [] then [] else EncodeSlot(slots[0]) + EncodeSlots(slots[1..])
  }

  /** The entries of the slots in use. */
  function InUse(slots: seq<Slot>): seq<Entry> {
    if slots == [] then []
    else (if slots[0].entry.ino == 0 then [] else [slots[0].entry]) + InUse(slots[1..])
  }

  lemma SlotParts(b: seq<Byte>, at: nat, s: Slot)
    requires SlotFits(s) && at + |EncodeSlot(s)| <= |b| && b[at..at + |EncodeSlot(s)|] == EncodeSlot(s)
    ensures LE32(b, at) == s.entry.ino && RecLen(b, at) == 8 + |s.entry.name| + |s.pad|
    ensures b[at + 6] as nat == |s.entry.name| && b[at + 7] == s.entry.kind
    ensures b[at + 8..at + 8 + |s.entry.name|] == s.entry.name
  {
    hide LE32, LE16, ToBytes, EncodeSlot;
    var e, n := EncodeSlot(s), |s.entry.name|;
    SlotPieces(s);
    SliceOfSlice(b, at, at + |e|, 0, 4);
    SliceOfSlice(b, at, at + |e|, 4, 6);
    SliceOfSlice(b, at, at + |e|, 8, 8 + n);
    SliceAt(b, at, at + |e|, 6);
    SliceAt(b, at, at + |e|, 7);
    Whole(s.entry.ino, b, at);
    Half(8 + n + |s.pad|, b, at + 4);
  }

  lemma SlotPieces(s: Slot)
    requires |s.entry.name| <= 255
    ensures var e, n := EncodeSlot(s), |s.entry.name|;
      && e[0..4] == ToBytes(s.entry.ino, 4) && e[4..6] == ToBytes(8 + n + |s.pad|, 2)
      && e[6] as nat == n && e[7] == s.entry.kind && e[8..8 + n] == s.entry.name
  {
    var n := |s.entry.name|;
    OneByte(n);
    hide ToBytes;
    var a, c, k := ToBytes(s.entry.ino, 4), ToBytes(8 + n + |s.pad|, 2), ToBytes(n, 1);
    assert EncodeSlot(s) == a + c + k + [s.entry.kind] + s.entry.name + s.pad;
  }

  lemma OneByte(n: nat)
    requires n <= 255
    ensures ToBytes(n, 1) == [n]
  {
  }

  lemma FirstSlot(b: seq<Byte>, at: nat, slots: seq<Slot>, size: nat)
    requires slots != [] && size == at + |EncodeSlots(slots)| <= |b| && b[at..size] == EncodeSlots(slots)
    ensures var n := |EncodeSlot(slots[0])|;
      && at + n <= size && b[at..at + n] == EncodeSlot(slots[0])
      && size == at + n + |EncodeSlots(slots[1..])| && b[at + n..size] == EncodeSlots(slots[1..])
  {
    hide EncodeSlot;
    var e, n := EncodeSlots(slots), |EncodeSlot(slots[0])|;
    assert e[0..n] == EncodeSlot(slots[0]) && e[n..|e|] == EncodeSlots(slots[1..]);
    SliceOfSlice(b, at, size, 0, n);
    SliceOfSlice(b, at, size, n, |e|);
  }

  /** Reading back a directory laid out record after record gives the entries in use, in order. */
  lemma {:induction false} DirectoryRoundTrip(b: seq<Byte>, at: nat, slots: seq<Slot>, size: nat)
    requires forall s :: s in slots ==> SlotFits(s)
    requires size == at + |EncodeSlots(slots)| <= |b| && b[at..size] == EncodeSlots(slots)
    ensures RecordsValid(b, at, size) && Entries(b, at, size) == InUse(slots)
    decreases slots
  {
    hide EncodeSlot, EncodeSlots, LE32, LE16, RecordsValid, Entries, SlotFits;
    if slots == [] {
      NoSlots(b, at);
    } else {
      assert slots[0] in slots && forall s :: s in slots[1..] ==> s in slots;
      FirstSlot(b, at, slots, size);
      DirectoryRoundTrip(b, at + |EncodeSlot(slots[0])|, slots[1..], size);
      SlotAhead(b, at, slots[0], size);
    }
  }

  lemma NoSlots(b: seq<Byte>, at: nat)
    ensures EncodeSlots([]) == [] && RecordsValid(b, at, at) && Entries(b, at, at) == []
  {
  }

  /** A record laid out before valid ones. */
  lemma SlotAhead(b: seq<Byte>, at: nat, s: Slot, size: nat)
    requires SlotFits(s) && at + |EncodeSlot(s)| <= size <= |b| && b[at..at + |EncodeSlot(s)|] == EncodeSlot(s)
    requires RecordsValid(b, at + |EncodeSlot(s)|, size)
    ensures RecordsValid(b, at, size)
    ensures Entries(b, at, size) ==
      (if s.entry.ino == 0 then [] else [s.entry]) + Entries(b, at + |EncodeSlot(s)|, size)
  {
    hide EncodeSlot, LE32, LE16;
    SlotParts(b, at, s);
    forall i | at + 8 <= i < at + 8 + |s.entry.name|
      ensures b[i] != 0
    {
      assert b[i] == b[at + 8..at + 8 + |s.entry.name|][i - (at + 8)];
    }
    var rest := Entries(b, at + |EncodeSlot(s)|, size);
    assert [] + rest == rest;
  }

  lemma DirectoryFits(g: Geometry, disk: seq<Byte>, n: nat)
    requires TableInside(g, disk) && InGroup0(g, n) && DirectoryValid(g, disk, n)
    ensures GeometryValid(g) && g.blockSize <= 4096
    ensures var inode := InodeAt(g, disk, n);
      && BlockInside(g, disk, inode.block[0])
      && RecordsValid(BlockOf(g, disk, inode.block[0]), 0, inode.size)
      && EntriesOf(g, disk, n) == Entries(BlockOf(g, disk, inode.block[0]), 0, inode.size)
  {
  }

  /** With distinct names, looking up the name of entry i gives entry i. */
  lemma {:induction false} FindDistinct(es: seq<Entry>, i: nat)
    requires i < |es| && forall j, k :: 0 <= j < k < |es| ==> es[j].name != es[k].name
    ensures Find(es, es[i].name) == Some(es[i].ino)
  {
    if i > 0 {
      assert es[0].name != es[i].name && es[1..][i - 1] == es[i];
      FindDistinct(es[1..], i - 1);
    }
  }

  /** What readdir hands out: the name is cut after 127 bytes. */
  function DirentOf(e: Entry): Entry {
    if |e.name| <= 127 then e else e.(name := e.name[..127])
  }

  /** The name that readdir gives at an index leads back to the same inode, when the names are
      distinct and short enough to be handed out whole. */
  lemma ReaddirThenFinddir(es: seq<Entry>, i: nat)
    requires i < |es| && forall j, k :: 0 <= j < k < |es| ==> es[j].name != es[k].name
    requires |es[i].name| <= 127
    ensures Find(es, DirentOf(es[i]).name) == Some(DirentOf(es[i]).ino)
  {
    FindDistinct(es, i);
  }

  lemma {:induction false} FoundIsEntry(es: seq<Entry>, name: seq<Byte>)
    ensures Find(es, name).Some? ==> exists e :: e in es && e.ino == Find(es, name).value && e.name == name
    ensures Find(es, name) == None ==> forall e :: e in es ==> e.name != name
  {
    if es != [] && es[0].name != name { FoundIsEntry(es[1..], name); }
  }

  // ---------- nodes ----------

  const VFS_FILE: nat := 1
  const VFS_DIRECTORY: nat := 2

  class Node {
    var mask: nat
    var uid: nat
    var gid: nat
    var flags: nat
    var inode: nat
    var length: nat

    constructor (inode: nat, flags: nat, mask: nat)
      ensures this.inode == inode && this.flags == flags && this.mask == mask
    {
      this.inode, this.flags, this.mask := inode, flags, mask;
      uid, gid, length := 0, 0, 0;
    }
  }

  class Driver {
    const disk: array<Byte>
    const g: Geometry
    /** The one static node every lookup returns. */
    const target: Node

    constructor (disk: array<Byte>, g: Geometry)
      ensures this.disk == disk && this.g == g && fresh(target)
    {
      this.disk, this.g := disk, g;
      target := new Node(0, 0, 0);
    }

    ghost predicate Valid()
      reads disk
    {
      TableInside(g, disk[..])
    }

    /** ext2_read_block: the block's bytes land at the front of the buffer. */
    method ReadBlock(n: nat, buf: array<Byte>)
      requires GeometryValid(g) && BlockInside(g, disk[..], n) && buf.Length == 4096 && buf != disk
      modifies buf
      ensures buf[..g.blockSize] == BlockOf(g, disk[..], n)
    {
      ghost var block := BlockOf(g, disk[..], n);
      var at := Scale(g.blockSize, n);
      var i := 0;
      while i < g.blockSize
        invariant 0 <= i <= g.blockSize
        invariant forall k :: 0 <= k < i ==> buf[k] == block[k]
      {
        assert block[i] == disk[..][at + i];
        buf[i] := disk[at + i];
        i := i + 1;
      }
    }

    /** ext2_write_block: the front of the buffer replaces the block. */
    method WriteBlock(n: nat, buf: array<Byte>)
      requires GeometryValid(g) && BlockInside(g, disk[..], n) && buf.Length == 4096 && buf != disk
      modifies disk
      ensures disk[..] == Splice(old(disk[..]), Scale(g.blockSize, n), buf[..g.blockSize])
    {
      var at := Scale(g.blockSize, n);
      var i := 0;
      while i < g.blockSize
        invariant 0 <= i <= g.blockSize
        invariant forall k :: 0 <= k < disk.Length ==>
          disk[k] == if at <= k < at + i then buf[k - at] else old(disk[k])
      {
        disk[at + i] := buf[i];
        i := i + 1;
      }
      forall k | 0 <= k < disk.Length
        ensures disk[..][k] == Splice(old(disk[..]), at, buf[..g.blockSize])[k]
      {
        SpliceAt(old(disk[..]), at, buf[..g.blockSize], k);
      }
    }

    /** ext2_read_inode fetches the inode's block and picks its slot: record n - 1 of the flat table. */
    method ReadInode(n: nat) returns (inode: Inode)
      requires Valid() && InGroup0(g, n)
      ensures inode == InodeAt(g, disk[..], n)
    {
      hide Scale, Quot, BlockOf, InodeAt, DecodeInode, BlockInside;
      var index := (n - 1) % g.inodesPerGroup;
      IndexInGroup(n - 1, g.inodesPerGroup);
      FetchedInode(g, disk[..], n);
      var buf := new Byte[4096];
      ReadBlock(g.inodeTable + Quot(g.blockSize, 128 * index), buf);
      var slot := 128 * (index % (g.blockSize / 128));
      SliceOfSlice(buf[..], 0, g.blockSize, slot, slot + 128);
      inode := DecodeInode(buf[slot..slot + 128]);
    }

    /** One turn of the read loop: as much as the block, the request and the file allow. */
    method ReadChunk(inode: Inode, pos: nat, left: nat, buffer: array<Byte>, at: nat) returns (chunk: nat)
      requires Valid() && FileValid(g, disk[..], inode) && pos < inode.size && left > 0
      requires at + left <= buffer.Length && buffer != disk
      modifies buffer
      ensures 0 < chunk <= left && pos + chunk <= inode.size
      ensures buffer[..] == Splice(old(buffer[..]), at, Content(g, disk[..], inode)[pos..pos + chunk])
    {
      hide Content, FileValid, Splice, Scale, Quot, Rem, BlockOf;
      var index := Quot(g.blockSize, pos);
      var within := Rem(g.blockSize, pos);
      QuotRem(g.blockSize, pos);
      chunk := g.blockSize - within;
      if chunk > left { chunk := left; }
      if chunk > inode.size - pos { chunk := inode.size - pos; }
      ChunkIsContent(g, disk[..], inode, pos, chunk);
      var buf := new Byte[4096];
      ReadBlock(inode.block[index], buf);
      SliceOfSlice(buf[..], 0, g.blockSize, within, within + chunk);
      CopyBytes(buf, within, buffer, at, chunk);
    }

    /** ext2_read_data: chunk by chunk, the requested slice of the file or what is left of it. */
    method ReadData(inode: Inode, offset: nat, size: nat, buffer: array<Byte>) returns (bytesRead: nat)
      requires Valid() && FileValid(g, disk[..], inode) && size <= buffer.Length && buffer != disk
      modifies buffer
      ensures bytesRead == ReadLength(inode.size, offset, size)
      ensures buffer[..] == Splice(old(buffer[..]), 0, ReadSlice(Content(g, disk[..], inode), offset, size))
    {
      hide Content, FileValid, Splice, ReadSlice, ReadLength;
      ghost var content := Content(g, disk[..], inode);
      ghost var before := buffer[..];
      bytesRead := 0;
      var pos := offset;
      SpliceNothing(before, content, offset);
      while bytesRead < size && pos < inode.size
        invariant bytesRead <= size && pos == offset + bytesRead
        invariant offset > inode.size ==> bytesRead == 0 && buffer[..] == before
        invariant offset <= inode.size ==> pos <= inode.size && buffer[..] == Splice(before, 0, content[offset..pos])
        decreases size - bytesRead
      {
        var chunk := ReadChunk(inode, pos, size - bytesRead, buffer, bytesRead);
        SpliceTwice(before, content, offset, pos, pos + chunk);
        bytesRead, pos := bytesRead + chunk, pos + chunk;
      }
      ReadDone(content, offset, size, bytesRead);
    }

    /** ext2_node_read. */
    method NodeRead(node: Node, offset: nat, size: nat, buffer: array<Byte>) returns (bytesRead: nat)
      requires Valid() && InGroup0(g, node.inode) && FileValid(g, disk[..], InodeAt(g, disk[..], node.inode))
      requires size <= buffer.Length && buffer != disk
      modifies buffer
      ensures var content := Content(g, disk[..], InodeAt(g, disk[..], node.inode));
        && bytesRead == ReadLength(|content|, offset, size)
        && buffer[..] == Splice(old(buffer[..]), 0, ReadSlice(content, offset, size))
    {
      var inode := ReadInode(node.inode);
      bytesRead := ReadData(inode, offset, size, buffer);
    }

    /** ext2_node_write reads one block, patches the buffer and writes the block back: what fits in
        the block is stored, the rest is dropped although size is returned. */
    method NodeWrite(node: Node, offset: nat, size: nat, buffer: array<Byte>) returns (written: nat)
      requires Valid() && InGroup0(g, node.inode)
      requires Quot(g.blockSize, offset) < 12 &&
        BlockInside(g, disk[..], InodeAt(g, disk[..], node.inode).block[Quot(g.blockSize, offset)])
      requires Rem(g.blockSize, offset) + size <= 4096 && size <= buffer.Length && buffer != disk
      modifies disk
      ensures written == size
      ensures var n := InodeAt(g, old(disk[..]), node.inode).block[Quot(g.blockSize, offset)];
        SplicedInBlock(g, old(disk[..]), disk[..], n, Rem(g.blockSize, offset), buffer[..Stored(g, offset, size)])
    {
      hide InodeAt, Splice, TableInside, Quot, Rem, Scale, BlockOf;
      var inode := ReadInode(node.inode);
      ghost var before := disk[..];
      var index := Quot(g.blockSize, offset);
      BlockFits(g, disk[..], offset);
      var buf := new Byte[4096];
      var n := inode.block[index];
      ReadBlock(n, buf);
      ghost var whole := buf[..];
      var within := Rem(g.blockSize, offset);
      CopyBytes(buffer, 0, buf, within, size);
      SplicePrefix(whole, g.blockSize, within, buffer[..size]);
      assert buffer[..size][..Stored(g, offset, size)] == buffer[..Stored(g, offset, size)];
      PatchedBlock(g, before, n, within, buffer[..Stored(g, offset, size)]);
      WriteBlock(n, buf);
      return size;
    }

    /** ext2_node_readdir: the index-th entry in use. */
    method NodeReaddir(node: Node, index: nat) returns (de: Option<Entry>)
      requires Valid() && InGroup0(g, node.inode) && DirectoryValid(g, disk[..], node.inode)
      ensures de == Handed(EntriesOf(g, disk[..], node.inode), index)
    {
      hide InodeAt, TableInside, Scale, Entries, EntriesOf, DirectoryValid, RecordsValid, BlockOf, BlockInside;
      var inode := ReadInode(node.inode);
      DirectoryFits(g, disk[..], node.inode);
      ghost var b := BlockOf(g, disk[..], inode.block[0]);
      ghost var es := EntriesOf(g, disk[..], node.inode);
      var buf := new Byte[4096];
      var offset, current := 0, 0;
      while offset < inode.size
        invariant current <= index && RecordsValid(b, offset, inode.size)
        invariant Handed(es, index) == Handed(Entries(b, offset, inode.size), index - current)
        decreases inode.size - offset
      {
        ReadBlock(inode.block[0], buf);
        var record := ReadRecord(b, buf, offset, inode.size);
        EntriesEnd(b, offset, inode.size);
        if record == None {
          return None;
        }
        var (recLen, entry) := record.value;
        if entry.ino != 0 {
          if current == index {
            return Some(DirentOf(entry));
          }
          current := current + 1;
        }
        offset := offset + recLen;
      }
      EntriesEnd(b, offset, inode.size);
      return None;
    }

    /** ext2_node_finddir: the one static node, made to show the inode of the first entry with the
        name; the node given may be that same static node. */
    method NodeFinddir(node: Node, name: seq<Byte>) returns (found: Node?)
      requires Valid() && InGroup0(g, node.inode) && DirectoryValid(g, disk[..], node.inode)
      requires forall i :: 0 <= i < |name| ==> name[i] != 0
      modifies target
      ensures match Find(EntriesOf(g, disk[..], old(node.inode)), name)
        case None => found == null && unchanged(target)
        case Some(n) => found == target && InGroup0(g, n) && Shows(target, g, disk[..], n)
    {
      hide InodeAt, Scale, Entries, EntriesOf, DirectoryValid, RecordsValid, BlockOf, BlockInside, Find, Shows;
      var inode := ReadInode(node.inode);
      DirectoryFits(g, disk[..], node.inode);
      ghost var b := BlockOf(g, disk[..], inode.block[0]);
      ghost var es := EntriesOf(g, disk[..], node.inode);
      var buf := new Byte[4096];
      var offset := 0;
      while offset < inode.size
        invariant RecordsValid(b, offset, inode.size) && unchanged(target)
        invariant Find(es, name) == Find(Entries(b, offset, inode.size), name)
        decreases inode.size - offset
      {
        ReadBlock(inode.block[0], buf);
        var record := ReadRecord(b, buf, offset, inode.size);
        if record == None {
          FindNothing(name);
          return null;
        }
        var (recLen, entry) := record.value;
        FindStep(entry, Entries(b, offset + recLen, inode.size), name);
        if entry.ino != 0 {
          var same := SameName(entry.name, name);
          if same {
            FoundInGroup(g, disk[..], old(node.inode), name);
            found := ShowTarget(entry.ino);
            return;
          }
        }
        offset := offset + recLen;
      }
      EntriesEnd(b, offset, inode.size);
      FindNothing(name);
      return null;
    }

    /** Fills the static node from the inode table. */
    method ShowTarget(n: nat) returns (node: Node)
      requires Valid() && InGroup0(g, n)
      modifies target
      ensures node == target && Shows(target, g, disk[..], n)
    {
      var inode := ReadInode(n);
      target.inode := n;
      target.mask := inode.mode;
      target.uid := inode.uid;
      target.gid := inode.gid;
      target.length := inode.size;
      target.flags := if And(inode.mode, 0x4000) != 0 then VFS_DIRECTORY else VFS_FILE;
      return target;
    }
  }

  lemma FindNothing(name: seq<Byte>)
    ensures Find([], name) == None
  {
  }

  lemma FindStep(e: Entry, rest: seq<Entry>, name: seq<Byte>)
    ensures Find([e] + rest, name) == if e.name == name then Some(e.ino) else Find(rest, name)
    ensures [] + rest == rest
  {
    assert ([e] + rest)[1..] == rest;
  }

  lemma FoundInGroup(g: Geometry, disk: seq<Byte>, n: nat, name: seq<Byte>)
    requires TableInside(g, disk) && InGroup0(g, n) && DirectoryValid(g, disk, n)
    ensures Find(EntriesOf(g, disk, n), name).Some? ==> InGroup0(g, Find(EntriesOf(g, disk, n), name).value)
  {
    FoundIsEntry(EntriesOf(g, disk, n), name);
  }

  /** A node shows inode n: its number, fields and kind. */
  ghost predicate Shows(node: Node, g: Geometry, disk: seq<Byte>, n: nat)
    requires TableInside(g, disk) && InGroup0(g, n)
    reads node
  {
    var inode := InodeAt(g, disk, n);
    && node.inode == n && node.mask == inode.mode && node.uid == inode.uid && node.gid == inode.gid
    && node.length == inode.size
    && node.flags == if IsDirectory(inode) then VFS_DIRECTORY else VFS_FILE
  }

  lemma EntriesEnd(b: seq<Byte>, at: nat, size: nat)
    requires RecordsValid(b, at, size)
    ensures at >= size ==> Entries(b, at, size) == []
  {
  }

  /** The name comparison of finddir: the record's name against a C string, byte by byte. */
  method SameName(entryName: seq<Byte>, name: seq<Byte>) returns (same: bool)
    requires forall i :: 0 <= i < |entryName| ==> entryName[i] != 0
    requires forall i :: 0 <= i < |name| ==> name[i] != 0
    ensures same == (entryName == name)
  {
    var i := 0;
    while i < |entryName|
      invariant 0 <= i <= |entryName| && i <= |name|
      invariant entryName[..i] == name[..i]
    {
      if entryName[i] != (if i < |name| then name[i] else 0) {
        return false;
      }
      i := i + 1;
    }
    return (if i < |name| then name[i] else 0) == 0;
  }

  /** Reads the record at an offset of a buffer that starts with block b: its length and entry,
      or None when the length is zero. */
  method ReadRecord(ghost b: seq<Byte>, buf: array<Byte>, at: nat, size: nat) returns (record: Option<(nat, Entry)>)
    requires RecordsValid(b, at, size) && at < size && |b| <= buf.Length && b == buf[..|b|]
    ensures match record
      case None => Entries(b, at, size) == []
      case Some((recLen, e)) =>
        && recLen > 0 && RecordsValid(b, at + recLen, size)
        && (forall i :: 0 <= i < |e.name| ==> e.name[i] != 0)
        && Entries(b, at, size) == (if e.ino == 0 then [] else [e]) + Entries(b, at + recLen, size)
  {
    hide LE16, LE32, Entries, RecordsValid;
    var all := buf[..];
    SameRecord(b, all, at, size);
    EntriesStep(b, at, size);
    if LE16(all, at + 4) == 0 {
      return None;
    }
    var entry := Entry(LE32(all, at), all[at + 7], all[at + 8..at + 8 + all[at + 6]]);
    assert entry == Entry(LE32(b, at), b[at + 7], b[at + 8..at + 8 + b[at + 6]]);
    return Some((LE16(all, at + 4), entry));
  }

  lemma EntriesStep(b: seq<Byte>, at: nat, size: nat)
    requires RecordsValid(b, at, size) && at < size
    ensures at + 8 <= size <= |b|
    ensures RecLen(b, at) == 0 ==> Entries(b, at, size) == []
    ensures RecLen(b, at) > 0 ==>
      && at + 8 + b[at + 6] <= size && RecordsValid(b, at + RecLen(b, at), size)
      && (forall i :: at + 8 <= i < at + 8 + b[at + 6] ==> b[i] != 0)
      && Entries(b, at, size) ==
           (if LE32(b, at) == 0 then [] else [Entry(LE32(b, at), b[at + 7], b[at + 8..at + 8 + b[at + 6]])])
             + Entries(b, at + RecLen(b, at), size)
  {
    if RecLen(b, at) > 0 { assert [] + Entries(b, at + RecLen(b, at), size) == Entries(b, at + RecLen(b, at), size); }
  }

  /** What a read returns: nothing past the end, and no more than is left. */
  function ReadLength(fileSize: nat, offset: nat, size: nat): nat {
    if offset >= fileSize then 0 else if size <= fileSize - offset then size else fileSize - offset
  }

  function ReadSlice(content: seq<Byte>, offset: nat, size: nat): (r: seq<Byte>)
    ensures |r| == ReadLength(|content|, offset, size)
  {
    if offset >= |content| then [] else content[offset..offset + ReadLength(|content|, offset, size)]
  }

  lemma ReadDone(content: seq<Byte>, offset: nat, size: nat, n: nat)
    requires n <= size && (n < size ==> offset + n >= |content|)
    requires if offset > |content| then n == 0 else offset + n <= |content|
    ensures n == ReadLength(|content|, offset, size)
    ensures ReadSlice(content, offset, size) == if offset > |content| then [] else content[offset..offset + n]
  {
  }

  /** The entry a directory listing hands out at an index. */
  function Handed(es: seq<Entry>, index: nat): Option<Entry> {
    if index < |es| then Some(DirentOf(es[index])) else None
  }

  /** Two neighbouring slices copied one after the other make one slice. */
  lemma SpliceTwice(s: seq<Byte>, content: seq<Byte>, a: nat, b: nat, c: nat)
    requires a <= b <= c <= |content| && c - a <= |s|
    ensures Splice(Splice(s, 0, content[a..b]), b - a, content[b..c]) == Splice(s, 0, content[a..c])
  {
  }

  lemma SpliceNothing(s: seq<Byte>, content: seq<Byte>, a: nat)
    ensures Splice(s, 0, []) == s
    ensures a <= |content| ==> Splice(s, 0, content[a..a]) == s
  {
  }

  /** How many bytes of a write reach the disk: those that fit in the block. */
  function Stored(g: Geometry, offset: nat, size: nat): nat {
    var room := g.blockSize - Rem(g.blockSize, offset);
    if size <= room then size else if room > 0 then room else 0
  }

  /** A write is stored whole exactly when it stays in one block. */
  lemma StoredWhole(g: Geometry, offset: nat, size: nat)
    requires GeometryValid(g)
    ensures Stored(g, offset, size) == size <==> Rem(g.blockSize, offset) + size <= g.blockSize
    ensures Rem(g.blockSize, offset) + Stored(g, offset, size) <= g.blockSize
  {
  }

  /** The part of a patched buffer that a block takes up. */
  lemma SplicePrefix(s: seq<Byte>, n: nat, at: nat, data: seq<Byte>)
    requires at <= n <= |s| && at + |data| <= |s|
    ensures var k := if |data| <= n - at then |data| else n - at;
      Splice(s, at, data)[..n] == Splice(s[..n], at, data[..k])
  {
    var k := if |data| <= n - at then |data| else n - at;
    var x, y := Splice(s, at, data)[..n], Splice(s[..n], at, data[..k]);
    forall i | 0 <= i < n
      ensures x[i] == y[i]
    {
      SpliceAt(s, at, data, i);
      SpliceAt(s[..n], at, data[..k], i);
    }
  }

  /** The slot of the fetched block is the record of the flat table. */
  lemma FetchedInode(g: Geometry, disk: seq<Byte>, n: nat)
    requires TableInside(g, disk) && InGroup0(g, n)
    ensures var block := g.inodeTable + Quot(g.blockSize, 128 * (n - 1));
      var slot := 128 * ((n - 1) % (g.blockSize / 128));
      && BlockInside(g, disk, block) && slot + 128 <= g.blockSize
      && DecodeInode(BlockOf(g, disk, block)[slot..slot + 128]) == InodeAt(g, disk, n)
  {
    hide Quot, Scale, DecodeInode;
    InodeInside(g, disk, n);
    InodeSlot(g.blockSize, g.inodeTable, n - 1);
    var start := Scale(g.blockSize, g.inodeTable + Quot(g.blockSize, 128 * (n - 1)));
    var slot := 128 * ((n - 1) % (g.blockSize / 128));
    var at := Scale(g.blockSize, g.inodeTable) + 128 * (n - 1);
    assert start + slot == at;
    SliceOfSlice(disk, start, start + g.blockSize, slot, slot + 128);
    assert disk[start + slot..start + (slot + 128)] == disk[at..at + 128];
  }

  lemma IndexInGroup(i: nat, n: nat)
    requires i < n
    ensures i % n == i
  {
  }

  lemma ContentInBlock(g: Geometry, disk: seq<Byte>, inode: Inode, q: nat, r: nat, k: nat)
    requires GeometryValid(g) && FileValid(g, disk, inode) && k < inode.size
    requires k == Scale(g.blockSize, q) + r && r < g.blockSize
    ensures q < 12 && BlockInside(g, disk, inode.block[q])
    ensures Content(g, disk, inode)[k] == BlockOf(g, disk, inode.block[q])[r]
  {
    QuotUnique(g.blockSize, q, r);
    PositionInside(g, disk, inode, k);
    ContentAt(g, disk, inode, k);
  }

  /** A chunk that stays inside one block is a slice of that block. */
  lemma ChunkIsContent(g: Geometry, disk: seq<Byte>, inode: Inode, pos: nat, chunk: nat)
    requires GeometryValid(g) && FileValid(g, disk, inode) && pos + chunk <= inode.size && pos < inode.size
    requires Rem(g.blockSize, pos) + chunk <= g.blockSize
    ensures Quot(g.blockSize, pos) < |inode.block| && BlockInside(g, disk, inode.block[Quot(g.blockSize, pos)])
    ensures var b, r := BlockOf(g, disk, inode.block[Quot(g.blockSize, pos)]), Rem(g.blockSize, pos);
      Content(g, disk, inode)[pos..pos + chunk] == b[r..r + chunk]
  {
    hide Content, Scale, Quot, Rem, BlockOf;
    PositionInside(g, disk, inode, pos);
    QuotRem(g.blockSize, pos);
    var q, r := Quot(g.blockSize, pos), Rem(g.blockSize, pos);
    var x := Content(g, disk, inode)[pos..pos + chunk];
    var y := BlockOf(g, disk, inode.block[q])[r..r + chunk];
    forall k | 0 <= k < chunk
      ensures x[k] == y[k]
    {
      ContentInBlock(g, disk, inode, q, r + k, pos + k);
    }
  }

  lemma BlockFits(g: Geometry, disk: seq<Byte>, offset: nat)
    requires TableInside(g, disk)
    ensures GeometryValid(g) && g.blockSize <= 4096 && Rem(g.blockSize, offset) < g.blockSize
  {
  }

  /** A write inside one block of a file stores all its bytes there. */
  lemma WriteFits(g: Geometry, disk: seq<Byte>, inode: Inode, offset: nat, size: nat)
    requires FileValid(g, disk, inode) && OneBlockWrite(g, inode, offset, size) && offset < inode.size
    ensures Quot(g.blockSize, offset) < 12 < |inode.block|
    ensures BlockInside(g, disk, inode.block[Quot(g.blockSize, offset)])
    ensures Stored(g, offset, size) == size
  {
    PositionInside(g, disk, inode, offset);
  }

  // ---------- which writes read back ----------

  /** What the driver takes for a write: a direct block on the disk, data that fits its buffer. */
  ghost predicate Writable(g: Geometry, disk: seq<Byte>, inode: Inode, offset: nat, size: nat) {
    && GeometryValid(g) && |inode.block| == 15 && Quot(g.blockSize, offset) < 12
    && BlockInside(g, disk, inode.block[Quot(g.blockSize, offset)])
    && Rem(g.blockSize, offset) + size <= 4096
  }

  /** The disk after the driver's write, as NodeWrite leaves it. */
  ghost function AfterWrite(g: Geometry, disk: seq<Byte>, inode: Inode, offset: nat,
                            data: seq<Byte>): (after: seq<Byte>)
    requires Writable(g, disk, inode, offset, |data|)
    ensures SplicedInBlock(g, disk, after, inode.block[Quot(g.blockSize, offset)], Rem(g.blockSize, offset),
                           data[..Stored(g, offset, |data|)])
  {
    StoredWhole(g, offset, |data|);
    Splice(disk, Scale(g.blockSize, inode.block[Quot(g.blockSize, offset)]) + Rem(g.blockSize, offset),
           data[..Stored(g, offset, |data|)])
  }

  /** A read of the same range after the write returns the data. */
  ghost predicate ReadsBack(g: Geometry, disk: seq<Byte>, inode: Inode, offset: nat, data: seq<Byte>)
    requires Writable(g, disk, inode, offset, |data|)
  {
    var after := AfterWrite(g, disk, inode, offset, data);
    FileValid(g, after, inode) && ReadSlice(Content(g, after, inode), offset, |data|) == data
  }

  /** Inside the file a write reads back exactly when the part that was dropped was there already. */
  lemma ReadsBackInside(g: Geometry, disk: seq<Byte>, inode: Inode, offset: nat, data: seq<Byte>)
    requires Writable(g, disk, inode, offset, |data|) && FileValid(g, disk, inode) && BlocksDistinct(g, inode)
    requires data != [] && offset + |data| <= inode.size
    ensures ReadsBack(g, disk, inode, offset, data) <==>
      forall k :: Stored(g, offset, |data|) <= k < |data| ==> data[k] == Content(g, disk, inode)[offset + k]
  {
    hide Content, FileValid, Splice, Scale, Quot, Rem, BlocksDistinct, BlockInside, SplicedInBlock, ReadSlice, Stored;
    var n := Stored(g, offset, |data|);
    var before, after := Content(g, disk, inode), AfterWrite(g, disk, inode, offset, data);
    StoredWhole(g, offset, |data|);
    WriteReadsBack(g, disk, after, inode, offset, data[..n]);
    assert Content(g, after, inode) == Splice(before, offset, data[..n]);
    SpliceWindow(before, offset, data[..n], |data|);
    WindowRead(Splice(before, offset, data[..n]), offset, |data|);
    SameRest(data, n, before, offset);
  }

  lemma WindowRead(content: seq<Byte>, offset: nat, size: nat)
    requires offset + size <= |content|
    ensures ReadSlice(content, offset, size) == content[offset..offset + size]
  {
  }

  lemma SameRest(data: seq<Byte>, n: nat, before: seq<Byte>, offset: nat)
    requires n <= |data| && offset + |data| <= |before|
    ensures data[..n] + before[offset + n..offset + |data|] == data <==>
      forall k :: n <= k < |data| ==> data[k] == before[offset + k]
  {
    var x := before[offset + n..offset + |data|];
    assert data == data[..n] + data[n..];
    assert forall k :: n <= k < |data| ==> data[n..][k - n] == data[k] && x[k - n] == before[offset + k];
    if forall k :: n <= k < |data| ==> data[k] == before[offset + k] {
      forall i | 0 <= i < |x|
        ensures x[i] == data[n..][i]
      {
        assert data[n + i] == before[offset + (n + i)];
      }
    }
    assert (data[..n] + x)[n..] == x;
  }

  lemma SpliceWindow(s: seq<Byte>, at: nat, data: seq<Byte>, size: nat)
    requires at + |data| <= at + size <= |s|
    ensures Splice(s, at, data)[at..at + size] == data + s[at + |data|..at + size]
  {
  }

  /** Past the end nothing reads back whole, since a write never extends the file. */
  lemma PastEndIsLost(g: Geometry, disk: seq<Byte>, inode: Inode, offset: nat, data: seq<Byte>)
    requires Writable(g, disk, inode, offset, |data|) && data != [] && offset + |data| > inode.size
    ensures !ReadsBack(g, disk, inode, offset, data)
  {
  }

  /** Whatever is written reads back, exactly if the write stays in one block and inside the file. */
  lemma WritesReadBack(g: Geometry, disk: seq<Byte>, inode: Inode, offset: nat, size: nat)
    requires Writable(g, disk, inode, offset, size) && size > 0
    requires FileValid(g, disk, inode) && BlocksDistinct(g, inode)
    ensures (forall data: seq<Byte> :: |data| == size ==> ReadsBack(g, disk, inode, offset, data)) <==>
      OneBlockWrite(g, inode, offset, size)
  {
    hide Content, FileValid, Scale, Quot, Rem, BlocksDistinct, ReadsBack;
    StoredWhole(g, offset, size);
    var n := Stored(g, offset, size);
    if offset + size > inode.size {
      PastEndIsLost(g, disk, inode, offset, Zeros(size));
    } else if n == size {
      forall data: seq<Byte> | |data| == size
        ensures ReadsBack(g, disk, inode, offset, data)
      {
        ReadsBackInside(g, disk, inode, offset, data);
      }
    } else {
      var old0 := Content(g, disk, inode)[offset + n];
      var data := Zeros(size)[n := if old0 == 0 then 1 else 0];
      ReadsBackInside(g, disk, inode, offset, data);
      assert data[n] != Content(g, disk, inode)[offset + n];
      assert !ReadsBack(g, disk, inode, offset, data);
    }
  }

  // Two writes that do not read back, on a disk of ten blocks of zeros.

  const SMALL: Geometry := Geometry(1024, 8, 2)
  const TEN_BYTES: Inode := Inode(0x8000, 0, 10, 0, [6, 0, 0, 0, 0, 0, 0, 0, 0, 0, 0, 0, 0, 0, 0])
  const TWO_BLOCKS: Inode := Inode(0x8000, 0, 2048, 0, [6, 7, 0, 0, 0, 0, 0, 0, 0, 0, 0, 0, 0, 0, 0])

  /** A file of at most two blocks, numbers 6 and 7. */
  lemma SmallFile(disk: seq<Byte>, inode: Inode)
    requires |disk| == 10240 && |inode.block| == 15 && inode.size <= 2048 && inode.block[0] == 6
    requires inode.size > 1024 ==> inode.block[1] == 7
    ensures GeometryValid(SMALL) && FileValid(SMALL, disk, inode) && BlocksDistinct(SMALL, inode)
    ensures Writable(SMALL, disk, inode, 20, 4) && Writable(SMALL, disk, inode, 1022, 4)
    ensures Stored(SMALL, 20, 4) == 4 && Stored(SMALL, 1022, 4) == 2
  {
    assert forall i :: 0 <= i < 12 && Scale(1024, i) < inode.size ==> i < 2;
  }

  lemma SmallFiles()
    ensures var disk := Zeros(10240);
      && FileValid(SMALL, disk, TEN_BYTES) && BlocksDistinct(SMALL, TEN_BYTES)
      && FileValid(SMALL, disk, TWO_BLOCKS) && BlocksDistinct(SMALL, TWO_BLOCKS)
      && Writable(SMALL, disk, TEN_BYTES, 20, 4) && Writable(SMALL, disk, TWO_BLOCKS, 1022, 4)
    ensures Stored(SMALL, 20, 4) == 4 && Stored(SMALL, 1022, 4) == 2 && GeometryValid(SMALL)
  {
    hide FileValid, BlocksDistinct, Writable, Stored;
    SmallFile(Zeros(10240), TEN_BYTES);
    SmallFile(Zeros(10240), TWO_BLOCKS);
  }

  /** Four bytes past the end of a file of ten: all are stored, none is read. */
  lemma PastEndInput()
    ensures var disk := Zeros(10240);
      && Writable(SMALL, disk, TEN_BYTES, 20, 4) && FileValid(SMALL, disk, TEN_BYTES) &&
        BlocksDistinct(SMALL, TEN_BYTES)
      && Stored(SMALL, 20, 4) == 4 && ReadLength(TEN_BYTES.size, 20, 4) == 0
      && !ReadsBack(SMALL, disk, TEN_BYTES, 20, [1, 2, 3, 4])
  {
    hide FileValid, BlocksDistinct, Writable, ReadsBack, Stored;
    SmallFiles();
    PastEndIsLost(SMALL, Zeros(10240), TEN_BYTES, 20, [1, 2, 3, 4]);
  }

  /** Four bytes across the border of two blocks: two are stored. */
  lemma CrossingInput()
    ensures var disk := Zeros(10240);
      && Writable(SMALL, disk, TWO_BLOCKS, 1022, 4) && FileValid(SMALL, disk, TWO_BLOCKS)
      && BlocksDistinct(SMALL, TWO_BLOCKS) && Stored(SMALL, 1022, 4) == 2
      && !ReadsBack(SMALL, disk, TWO_BLOCKS, 1022, [1, 2, 3, 4])
  {
    hide FileValid, BlocksDistinct, Writable, ReadsBack, Stored, Content;
    var disk, data := Zeros(10240), [1, 2, 3, 4];
    SmallFiles();
    ContentAt(SMALL, disk, TWO_BLOCKS, 1024);
    ReadsBackInside(SMALL, disk, TWO_BLOCKS, 1022, data);
    assert data[2] != Content(SMALL, disk, TWO_BLOCKS)[1022 + 2];
  }

  /** In a block the file does not have, pointer 0, a write overwrites the first block of the disk. */
  lemma HoleIsBlockZero(g: Geometry, disk: seq<Byte>, inode: Inode, offset: nat, data: seq<Byte>)
    requires Writable(g, disk, inode, offset, |data|) && inode.block[Quot(g.blockSize, offset)] == 0
    ensures BlockOf(g, AfterWrite(g, disk, inode, offset, data), 0) ==
      Splice(BlockOf(g, disk, 0), Rem(g.blockSize, offset), data[..Stored(g, offset, |data|)])
  {
    StoredWhole(g, offset, |data|);
    SplicePrefix(disk, g.blockSize, Rem(g.blockSize, offset), data[..Stored(g, offset, |data|)]);
    assert disk[..g.blockSize] == disk[0..g.blockSize];
  }

  /** Patching a block and writing it back patches the disk. */
  lemma PatchedBlock(g: Geometry, disk: seq<Byte>, n: nat, within: nat, data: seq<Byte>)
    requires GeometryValid(g) && BlockInside(g, disk, n) && within + |data| <= g.blockSize
    ensures Splice(disk, Scale(g.blockSize, n), Splice(BlockOf(g, disk, n), within, data)) ==
      Splice(disk, Scale(g.blockSize, n) + within, data)
  {
    hide Splice, Scale;
    SpliceInside(disk, Scale(g.blockSize, n), g.blockSize, within, data);
  }

  lemma SpliceInside(s: seq<Byte>, at: nat, n: nat, within: nat, data: seq<Byte>)
    requires at + n <= |s| && within + |data| <= n
    ensures Splice(s, at, Splice(s[at..at + n], within, data)) == Splice(s, at + within, data)
  {
    hide Splice;
    var part := Splice(s[at..at + n], within, data);
    var x, y := Splice(s, at, part), Splice(s, at + within, data);
    forall k | 0 <= k < |s|
      ensures x[k] == y[k]
    {
      SpliceAt(s, at, part, k);
      SpliceAt(s, at + within, data, k);
      if at <= k < at + n {
        SpliceAt(s[at..at + n], within, data, k - at);
        SliceAt(s, at, at + n, k - at);
      }
    }
  }

  /** A buffer that starts with the block has the same record. */
  lemma SameRecord(b: seq<Byte>, buf: seq<Byte>, at: nat, size: nat)
    requires RecordsValid(b, at, size) && at < size && |b| <= |buf| && b == buf[..|b|]
    ensures LE16(buf, at + 4) == RecLen(b, at) && LE32(buf, at) == LE32(b, at)
    ensures RecLen(b, at) != 0 ==>
      buf[at + 6] == b[at + 6] && buf[at + 7] == b[at + 7] &&
      buf[at + 8..at + 8 + b[at + 6]] == b[at + 8..at + 8 + b[at + 6]]
  {
    SameBytes(b, buf, at);
    if RecLen(b, at) != 0 { SameSlice(b, buf, at + 8, at + 8 + b[at + 6]); }
  }

  lemma SameByte(b: seq<Byte>, buf: seq<Byte>, k: nat)
    requires |b| <= |buf| && b == buf[..|b|] && k < |b|
    ensures b[k] == buf[k]
  {
  }

  lemma SameBytes(b: seq<Byte>, buf: seq<Byte>, at: nat)
    requires |b| <= |buf| && b == buf[..|b|] && at + 8 <= |b|
    ensures LE32(buf, at) == LE32(b, at) && LE16(buf, at + 4) == LE16(b, at + 4)
    ensures buf[at + 6] == b[at + 6] && buf[at + 7] == b[at + 7]
  {
    SameByte(b, buf, at);
    SameByte(b, buf, at + 1);
    SameByte(b, buf, at + 2);
    SameByte(b, buf, at + 3);
    SameByte(b, buf, at + 4);
    SameByte(b, buf, at + 5);
    SameByte(b, buf, at + 6);
    SameByte(b, buf, at + 7);
  }

  lemma SameSlice(b: seq<Byte>, buf: seq<Byte>, i: nat, j: nat)
    requires i <= j <= |b| <= |buf| && b == buf[..|b|]
    ensures buf[i..j] == b[i..j]
  {
    SliceOfSlice(buf, 0, |b|, i, j);
    assert buf[0..|b|] == buf[..|b|];
  }
}
