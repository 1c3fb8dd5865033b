/** The ustar initrd: an image laid out from a list of files, the parser that walks it, and
    lookups, reads and writes on the parsed table (kernel/fs/tar.c; the ustar interchange
    format of the pax utility in POSIX.1-2017). */
module Tar {
  import opened Wrappers
  import opened Bits
  import opened Bytes

  const MAX_FILES: nat := 32

  // ---------- images ----------

  /** A file and the header bytes the parser skips: mode to gid, the byte after the size to the
      checksum, and everything after the type flag. */
  datatype File = File(name: seq<Byte>, data: seq<Byte>, kind: Byte, owner: seq<Byte>, times: seq<Byte>,
                       tail: seq<Byte>)

  /** Names of 1 to 99 bytes without NUL; a size that fits eleven octal digits. */
  ghost predicate FileValid(f: File) {
    && 1 <= |f.name| <= 99 && (forall i :: 0 <= i < |f.name| ==> f.name[i] != 0)
    && |f.data| < 0x2_0000_0000
    && |f.owner| == 24 && |f.times| == 21 && |f.tail| == 355
  }

  /** n in the given number of octal digits, most significant first. */
  function Octal(n: nat, digits: nat): (s: seq<Byte>)
    ensures |s| == digits
    decreases digits
  {
    if digits == 0 then [] else Octal(n / 8, digits - 1) + [48 + n % 8]
  }

  function Header(f: File): (h: seq<Byte>)
    requires FileValid(f)
    ensures |h| == 512
  {
    f.name + Zeros(100 - |f.name|) + f.owner + Octal(|f.data|, 11) + f.times + [f.kind] + f.tail
  }

  /** n rounded up to whole 512-byte blocks. */
  function Rounded(n: nat): nat {
    (n + 511) / 512 * 512
  }

  /** The least multiple of 512 that holds n bytes. */
  lemma RoundedIsLeast(n: nat)
    ensures Rounded(n) % 512 == 0 && n <= Rounded(n) < n + 512
  {
  }

  /** Header and padded data of one file. */
  function Extent(f: File): (e: seq<Byte>)
    requires FileValid(f)
    ensures |e| == 512 + Rounded(|f.data|)
  {
    Header(f) + f.data + Zeros(Rounded(|f.data|) - |f.data|)
  }

  /** The files' extents one after another and a zero end block. */
  function Image(files: seq<File>): (image: seq<Byte>)
    requires forall i :: 0 <= i < |files| ==> FileValid(files[i])
    ensures |image| >= 512
  {
    if files == [] then Zeros(512) else Extent(files[0]) + Image(files[1..])
  }

  // ---------- the table ----------

  datatype Entry = Entry(name: seq<Byte>, address: nat, size: nat, kind: Byte)

  /** What the parser should record: names, sizes, kinds and data addresses, in order. */
  function Table(files: seq<File>, address: nat): (t: seq<Entry>)
    ensures |t| == |files|
  {
    if files == [] then []
    else [Entry(files[0].name, address + 512, |files[0].data|, files[0].kind)]
         + Table(files[1..], address + 512 + Rounded(|files[0].data|))
  }

  function First32<T>(s: seq<T>): seq<T> {
    if |s| <= MAX_FILES then s else s[..MAX_FILES]
  }

  // ---------- octal numbers ----------

  predicate OctalDigit(b: Byte) {
    48 <= b <= 55
  }

  /** The value parse_octal accumulates, in 32 bits, up to the first byte that is no octal digit. */
  function OctalValue(s: seq<Byte>, acc: nat): nat {
    if s == [] || !OctalDigit(s[0]) then acc
    else OctalValue(s[1..], (acc * 8 + (s[0] - 48)) % 0x1_0000_0000)
  }

  lemma {:induction false} OctalValueAppend(s: seq<Byte>, d: Byte, acc: nat)
    requires (forall i :: 0 <= i < |s| ==> OctalDigit(s[i])) && OctalDigit(d)
    ensures OctalValue(s + [d], acc) == (OctalValue(s, acc) * 8 + (d - 48)) % 0x1_0000_0000
  {
    if s == [] {
      assert (s + [d])[1..] == [];
    } else {
      assert (s + [d])[1..] == s[1..] + [d];
      OctalValueAppend(s[1..], d, (acc * 8 + (s[0] - 48)) % 0x1_0000_0000);
    }
  }

  lemma {:induction false} OctalDigits(n: nat, digits: nat)
    ensures forall i :: 0 <= i < digits ==> OctalDigit(Octal(n, digits)[i])
    decreases digits
  {
    if digits > 0 { OctalDigits(n / 8, digits - 1); }
  }

  function Pow8(k: nat): (r: nat)
    ensures r >= 1
  {
    if k == 0 then 1 else 8 * Pow8(k - 1)
  }

  /** Reading back what was written: the octal field determines a 32-bit size. */
  lemma {:induction false} OctalRoundTrip(n: nat, digits: nat)
    requires n < Pow8(digits) && n < 0x1_0000_0000
    ensures OctalValue(Octal(n, digits), 0) == n
    decreases digits
  {
    if digits > 0 {
      OctalRoundTrip(n / 8, digits - 1);
      OctalDigits(n / 8, digits - 1);
      OctalValueAppend(Octal(n / 8, digits - 1), 48 + n % 8, 0);
    }
  }

  lemma SizeRoundTrip(n: nat)
    requires n < 0x1_0000_0000
    ensures OctalValue(Octal(n, 11), 0) == n
  {
    assert Pow8(4) == 0x1000 && Pow8(8) == 0x100_0000 && Pow8(11) == 0x2_0000_0000;
    OctalRoundTrip(n, 11);
  }

  // ---------- headers in memory ----------

  lemma HeaderFields(f: File)
    requires FileValid(f)
    ensures Header(f)[..|f.name|] == f.name && Header(f)[|f.name|] == 0
    ensures Header(f)[124..135] == Octal(|f.data|, 11)
    ensures Header(f)[156] == f.kind
  {
  }

  /** An image starts with its first file's extent, or with a zero byte. */
  lemma ImageStart(files: seq<File>)
    requires forall i :: 0 <= i < |files| ==> FileValid(files[i])
    ensures files == [] ==> Image(files)[0] == 0
    ensures files != [] ==>
      var f := files[0];
      && Image(files)[..512] == Header(f)
      && Image(files)[512..512 + |f.data|] == f.data
      && Image(files)[512 + Rounded(|f.data|)..] == Image(files[1..])
  {
    if files != [] {
      var e := Extent(files[0]);
      assert Image(files)[..|e|] == e && Image(files)[|e|..] == Image(files[1..]);
      assert Image(files)[..512] == e[..512];
      assert Image(files)[512..512 + |files[0].data|] == e[512..512 + |files[0].data|];
    }
  }

  /** The image lies in memory at the address, below 4 GB. */
  ghost predicate ImageAt(mem: seq<Byte>, address: nat, files: seq<File>) {
    && (forall i :: 0 <= i < |files| ==> FileValid(files[i]))
    && address + |Image(files)| <= |mem| && address + |Image(files)| < 0x1_0000_0000
    && mem[address..address + |Image(files)|] == Image(files)
  }

  lemma ImageStep(mem: seq<Byte>, address: nat, files: seq<File>)
    requires ImageAt(mem, address, files)
    ensures address + 512 <= |mem|
    ensures files == [] ==> mem[address] == 0
    ensures files != [] ==>
      var f := files[0];
      && FileValid(f) && |f.data| < 0x1_0000_0000 && mem[address..address + 512] == Header(f)
      && address + 512 + |f.data| <= |mem| && mem[address + 512..address + 512 + |f.data|] == f.data
      && address + 512 + Rounded(|f.data|) < 0x1_0000_0000
      && ImageAt(mem, address + 512 + Rounded(|f.data|), files[1..])
  {
    hide Image, Header, Extent;
    ImageStart(files);
    var image := mem[address..address + |Image(files)|];
    if files != [] {
      var f := files[0];
      ImageLength(files);
      SliceOfSlice(mem, address, address + |image|, 0, 512);
      SliceOfSlice(mem, address, address + |image|, 512, 512 + |f.data|);
      SliceOfSlice(mem, address, address + |image|, 512 + Rounded(|f.data|), |image|);
    }
  }

  lemma ImageLength(files: seq<File>)
    requires forall i :: 0 <= i < |files| ==> FileValid(files[i])
    ensures files != [] ==> |Image(files)| == 512 + Rounded(|files[0].data|) + |Image(files[1..])|
    ensures files != [] ==> |files[0].data| <= Rounded(|files[0].data|)
  {
  }

  // ---------- the code ----------

  /** The least index of an entry with the name. */
  function FindIndex(t: seq<Entry>, name: seq<Byte>): Option<nat> {
    if t == [] then None
    else if t[0].name == name then Some(0)
    else match FindIndex(t[1..], name) case None => None case Some(i) => Some(i + 1)
  }

  const VFS_FILE: nat := 1
  const VFS_DIRECTORY: nat := 2

  datatype Dirent = Dirent(name: seq<Byte>, ino: nat, kind: nat)

  /** readable: read and write are set; listed: readdir and finddir are. */
  datatype Node = Node(inode: nat, flags: nat, mask: nat, length: nat, readable: bool, listed: bool)

  function FileNode(i: nat, e: Entry): Node {
    Node(i, VFS_FILE, 0x1A4, e.size, true, false)
  }

  /** What the parser leaves for the file system above it: a directory node, and one node and one
      directory entry for each recorded file. */
  ghost predicate Filled(nodes: seq<Node>, dirents: seq<Dirent>, entries: seq<Entry>) {
    && |entries| <= MAX_FILES < |nodes| && MAX_FILES <= |dirents|
    && nodes[0].inode == 0 && nodes[0].flags == VFS_DIRECTORY && nodes[0].mask == 0x1ED
    && !nodes[0].readable && nodes[0].listed
    && forall i :: 0 <= i < |entries| ==>
         nodes[i + 1] == FileNode(i, entries[i]) && dirents[i] == Dirent(entries[i].name, i + 1, VFS_FILE)
  }

  /** In octal digits the directory has mode 755 and each file mode 644. */
  lemma FilledModes(nodes: seq<Node>, dirents: seq<Dirent>, entries: seq<Entry>, i: nat)
    requires Filled(nodes, dirents, entries) && i < |entries|
    ensures Octal(nodes[0].mask, 3) == Ascii("755") && Octal(nodes[i + 1].mask, 3) == Ascii("644")
  {
    assert nodes[i + 1] == FileNode(i, entries[i]);
    assert Octal(0x1ED, 3) == Octal(0x7, 1) + [53] + [53];
    assert Octal(0x1A4, 3) == Octal(0x6, 1) + [52] + [52];
    assert Octal(0x7, 1) == [] + [55] && Octal(0x6, 1) == [] + [54];
  }

  class Initrd {
    /** Memory from address 0 on. */
    const mem: array<Byte>
    const fileEntries: array<Entry>
    const nodes: array<Node>
    const dirents: array<Dirent>
    var fileCount: nat

    constructor (mem: array<Byte>)
      ensures this.mem == mem && Valid() && fileCount == 0
      ensures fresh(fileEntries) && fresh(nodes) && fresh(dirents)
    {
      this.mem := mem;
      fileEntries := new Entry[32](_ => Entry([], 0, 0, 0));
      nodes := new Node[33](_ => Node(0, 0, 0, 0, false, false));
      dirents := new Dirent[32](_ => Dirent([], 0, 0));
      fileCount := 0;
    }

    ghost predicate Valid()
      reads this
    {
      && fileEntries.Length == dirents.Length == MAX_FILES && nodes.Length == MAX_FILES + 1 && fileCount <= MAX_FILES
      && fileEntries as object != mem as object && nodes as object != mem as object &&
        dirents as object != mem as object
      && fileEntries as object != nodes as object && fileEntries as object != dirents as object
      && nodes as object != dirents as object
    }

    /** parse_octal on size bytes at a memory address. */
    method ParseOctal(at: nat, size: nat) returns (acc: nat)
      requires at + size <= mem.Length
      ensures acc == OctalValue(mem[at..at + size], 0)
    {
      acc := 0;
      var i := 0;
      while i < size && OctalDigit(mem[at + i])
        invariant 0 <= i <= size
        invariant OctalValue(mem[at..at + size], 0) == OctalValue(mem[at + i..at + size], acc)
      {
        assert mem[at + i..at + size][1..] == mem[at + (i + 1)..at + size];
        acc := (acc * 8 + (mem[at + i] - 48)) % 0x1_0000_0000;
        i := i + 1;
      }
    }

    /** The loop that copies a name up to its NUL or 127 bytes. */
    method ReadName(at: nat, ghost length: nat) returns (name: seq<Byte>)
      requires length <= 99 && at + length < mem.Length && mem[at + length] == 0
      requires forall i :: at <= i < at + length ==> mem[i] != 0
      ensures name == mem[at..at + length]
    {
      name := [];
      var k := 0;
      while mem[at + k] != 0 && k < 127
        invariant 0 <= k <= length && name == mem[at..at + k]
        decreases length - k
      {
        name := name + [mem[at + k]];
        k := k + 1;
      }
    }

    /** Records a file, unless 32 are recorded already. */
    method Record(at: nat, size: nat, ghost f: File)
      requires Valid() && at + 512 <= mem.Length && FileValid(f)
      requires mem[at..at + |f.name|] == f.name && mem[at + |f.name|] == 0 && mem[at + 156] == f.kind
      requires forall i :: at <= i < at + |f.name| ==> mem[i] != 0
      modifies this`fileCount, fileEntries
      ensures Valid() && fileCount == if old(fileCount) < MAX_FILES then old(fileCount) + 1 else old(fileCount)
      ensures fileEntries[..fileCount] ==
        old(fileEntries[..fileCount]) +
          if old(fileCount) < MAX_FILES then [Entry(f.name, at + 512, size, f.kind)] else []
    {
      if fileCount < MAX_FILES {
        var name := ReadName(at, |f.name|);
        fileEntries[fileCount] := Entry(name, at + 512, size, mem[at + 156]);
        fileCount := fileCount + 1;
      }
    }

    /** The root node, and the loop that fills the file nodes and directory entries from the table. */
    method FillNodes()
      requires Valid()
      modifies nodes, dirents
      ensures Filled(nodes[..], dirents[..], fileEntries[..fileCount])
    {
      nodes[0] := nodes[0].(inode := 0, flags := VFS_DIRECTORY, mask := 0x1ED, readable := false, listed := true);
      var i := 0;
      while i < fileCount
        invariant 0 <= i <= fileCount
        invariant Filled(nodes[..], dirents[..], fileEntries[..i])
      {
        nodes[i + 1] := Node(i, VFS_FILE, 0x1A4, fileEntries[i].size, true, false);
        dirents[i] := Dirent(fileEntries[i].name, i + 1, VFS_FILE);
        i := i + 1;
      }
    }

    /** tar_parse on an image of any list of files: the walk ends at the zero block, and the table
        holds the first 32 files in order. */
    method Parse(address: nat, ghost files: seq<File>)
      requires Valid() && ImageAt(mem[..], address, files)
      modifies this`fileCount, fileEntries, nodes, dirents
      ensures Valid() && fileEntries[..fileCount] == First32(Table(files, address))
      ensures Filled(nodes[..], dirents[..], fileEntries[..fileCount])
    {
      hide ImageAt, Image, Header, Table, OctalValue, FileValid, First32, Rounded, Filled;
      fileCount := 0;
      var current: nat := address;
      ghost var rest := files;
      ghost var seen: seq<Entry> := [];
      TableStart(files, address);
      while true
        invariant Valid() && ImageAt(mem[..], current, rest)
        invariant seen + Table(rest, current) == Table(files, address)
        invariant fileEntries[..fileCount] == First32(seen)
        decreases |rest|
      {
        ImageStep(mem[..], current, rest);
        if rest != [] { HeaderInMemory(mem[..], current, rest[0]); }
        if mem[current] == 0 {
          break;
        }
        ghost var f := rest[0];
        var size := ParseOctal(current + 124, 11);
        Record(current, size, f);
        TableStep(rest, current, seen);
        First32Step(seen, Entry(f.name, current + 512, size, f.kind));
        seen := seen + [Entry(f.name, current + 512, size, f.kind)];
        RoundedUp(size);
        current := current + ((size + 511) / 512 + 1) * 512;
        rest := rest[1..];
      }
      TableStart(rest, current);
      assert seen + [] == seen;
      FillNodes();
    }

    /** tar_readdir. */
    method Readdir(index: nat) returns (de: Option<Dirent>)
      requires Valid()
      ensures de == if index >= fileCount then None else Some(dirents[index])
    {
      return if index >= fileCount then None else Some(dirents[index]);
    }

    /** tar_finddir: the node of the first file with the name, that is its place among the nodes. */
    method Finddir(name: seq<Byte>) returns (node: Option<nat>)
      requires Valid()
      ensures node == match FindIndex(fileEntries[..fileCount], name) case None => None case Some(k) => Some(k + 1)
    {
      var i := 0;
      while i < fileCount
        invariant 0 <= i <= fileCount
        invariant FindIndex(fileEntries[..fileCount], name) ==
          match FindIndex(fileEntries[i..fileCount], name) case None => None case Some(k) => Some(k + i)
      {
        assert fileEntries[i..fileCount][1..] == fileEntries[i + 1..fileCount];
        var same := SameName(fileEntries[i].name, name);
        if same {
          return Some(i + 1);
        }
        i := i + 1;
      }
      return None;
    }

    /** tar_read: the node's inode names the file; the bytes from the offset on, cut at the file's
        size unless offset + size wraps. */
    method Read(node: nat, offset: nat, size: nat, buffer: array<Byte>) returns (count: nat)
      requires Valid() && node < nodes.Length && buffer != mem && size <= buffer.Length
      requires var file := nodes[node].inode;
        file < fileCount && offset < fileEntries[file].size ==>
          fileEntries[file].address + offset + ReadCount(fileEntries[file].size, offset, size) <= mem.Length
      modifies buffer
      ensures nodes[node].inode >= fileCount ==> count == 0 && buffer[..] == old(buffer[..])
      ensures nodes[node].inode < fileCount ==>
        var e := old(fileEntries[nodes[node].inode]);
        && count == ReadCount(e.size, offset, size) <= buffer.Length
        && (count > 0 ==> e.address + offset + count <= mem.Length)
        && buffer[..] == if count == 0 then old(buffer[..])
          else Splice(old(buffer[..]), 0, mem[e.address + offset..e.address + offset + count])
    {
      hide Splice;
      var file := nodes[node].inode;
      if file >= fileCount {
        return 0;
      }
      var e := fileEntries[file];
      if offset >= e.size {
        return 0;
      }
      count := size;
      if (offset + size) % 0x1_0000_0000 > e.size {
        count := e.size - offset;
      }
      CountFits(e.size, offset, size);
      if count == 0 {
        SpliceNothing(buffer[..]);
        assert mem[e.address + offset..e.address + offset + count] == [];
      }
      CopyBytes(mem, e.address + offset, buffer, 0, count);
    }

    /** tar_write stores the bytes at the offset, whatever the file's size. */
    method Write(node: nat, offset: nat, size: nat, buffer: array<Byte>) returns (count: nat)
      requires Valid() && node < nodes.Length && buffer != mem && size <= buffer.Length
      requires var file := nodes[node].inode;
        file < fileCount ==> fileEntries[file].address + offset + size <= mem.Length
      modifies mem
      ensures Valid() && fileCount == old(fileCount) && fileEntries[..] == old(fileEntries[..])
      ensures nodes[..] == old(nodes[..])
      ensures nodes[node].inode >= fileCount ==> count == 0 && mem[..] == old(mem[..])
      ensures nodes[node].inode < fileCount ==>
        count == size &&
        mem[..] == Splice(old(mem[..]), fileEntries[nodes[node].inode].address + offset, buffer[..size])
    {
      var file := nodes[node].inode;
      if file >= fileCount {
        return 0;
      }
      CopyBytes(buffer, 0, mem, fileEntries[file].address + offset, size);
      return size;
    }
  }

  /** The bytes a read returns; the comparison with the file's size is made in 32 bits. */
  function ReadCount(length: nat, offset: nat, size: nat): nat {
    if offset >= length then 0
    else if (offset + size) % 0x1_0000_0000 > length then length - offset
    else size
  }

  lemma CountFits(length: nat, offset: nat, size: nat)
    ensures ReadCount(length, offset, size) <= size
  {
  }

  /** The read stays inside the file, and is the slice the reader asked for, exactly when no byte
      past the end was asked for or the sum did not wrap below the size. */
  lemma ReadIsSlice(mem: seq<Byte>, address: nat, length: nat, offset: nat, size: nat)
    requires address + length <= |mem| && length < 0x1_0000_0000
    ensures offset + ReadCount(length, offset, size) <= length || offset >= length <==>
      offset >= length || offset + size <= length || (offset + size) % 0x1_0000_0000 > length
    ensures offset < length && offset + ReadCount(length, offset, size) <= length ==>
      mem[address + offset..address + offset + ReadCount(length, offset, size)]
        == Slice(mem[address..address + length], offset, size)
    ensures offset >= length ==> Slice(mem[address..address + length], offset, size) == []
  {
    var count := ReadCount(length, offset, size);
    if offset < length && offset + count <= length {
      SliceOfSlice(mem, address, address + length, offset, offset + count);
    }
  }

  /** An input: one byte into a file of ten, asking for all but one of 2 to the 32, is not cut. */
  lemma WrappedRead()
    ensures ReadCount(10, 1, 0xFFFF_FFFF) == 0xFFFF_FFFF
  {
  }

  /** A read that is not cut because its sum wrapped runs past 4 GB; so in a memory of at most that
      size it reaches beyond memory itself, which the contract of Read leaves out. */
  lemma WrapLeavesMemory(address: nat, length: nat, offset: nat, size: nat)
    requires offset < length && size < 0x1_0000_0000 && offset + ReadCount(length, offset, size) > length
    ensures address + offset + ReadCount(length, offset, size) >= 0x1_0000_0000
  {
  }

  lemma SpliceNothing(s: seq<Byte>)
    ensures Splice(s, 0, []) == s
  {
  }

  /** The comparison loop of tar_finddir, on two C strings. */
  method SameName(a: seq<Byte>, b: seq<Byte>) returns (same: bool)
    ensures same == (a == b)
  {
    var k := 0;
    while k < |a| && k < |b|
      invariant 0 <= k <= |a| && k <= |b| && a[..k] == b[..k]
    {
      if a[k] != b[k] {
        return false;
      }
      k := k + 1;
    }
    return k == |a| && k == |b|;
  }

  lemma TableStart(files: seq<File>, address: nat)
    ensures [] + Table(files, address) == Table(files, address) && First32<Entry>([]) == []
    ensures files == [] ==> Table(files, address) == []
  {
  }

  lemma TableStep(files: seq<File>, address: nat, seen: seq<Entry>)
    requires files != []
    ensures seen + Table(files, address) ==
      seen + [Entry(files[0].name, address + 512, |files[0].data|, files[0].kind)]
        + Table(files[1..], address + 512 + Rounded(|files[0].data|))
  {
  }

  lemma First32Step(seen: seq<Entry>, e: Entry)
    ensures First32(seen + [e]) == First32(seen) + if |First32(seen)| < MAX_FILES then [e] else []
  {
  }

  lemma RoundedUp(size: nat)
    ensures ((size + 511) / 512 + 1) * 512 == 512 + Rounded(size)
  {
  }

  /** The bytes a read of size at offset returns: none past the end, and no more than is left. */
  function Slice(data: seq<Byte>, offset: nat, size: nat): seq<Byte> {
    if offset >= |data| then []
    else if offset + size > |data| then data[offset..]
    else data[offset..offset + size]
  }

  lemma HeaderInMemory(mem: seq<Byte>, at: nat, f: File)
    requires FileValid(f) && at + 512 <= |mem| && mem[at..at + 512] == Header(f) && |f.data| < 0x1_0000_0000
    ensures |f.name| < 512 && mem[at..at + |f.name|] == f.name && mem[at + |f.name|] == 0 && mem[at] != 0
    ensures forall i :: at <= i < at + |f.name| ==> mem[i] != 0
    ensures OctalValue(mem[at + 124..at + 135], 0) == |f.data|
    ensures mem[at + 156] == f.kind
  {
    hide Header, OctalValue;
    HeaderFields(f);
    var h := mem[at..at + 512];
    SliceOfSlice(mem, at, at + 512, 0, |f.name|);
    SliceOfSlice(mem, at, at + 512, 124, 135);
    SizeRoundTrip(|f.data|);
    SliceAt(mem, at, at + 512, |f.name|);
    SliceAt(mem, at, at + 512, 156);
    forall i | at <= i < at + |f.name|
      ensures mem[i] != 0
    {
      assert mem[i] == mem[at..at + |f.name|][i - at];
    }
  }

  // ---------- what a parsed image gives ----------

  /** Where the extent of file i starts, counted from the image's start. */
  function Offset(files: seq<File>, i: nat): nat
    requires i <= |files|
  {
    if i == 0 then 0 else 512 + Rounded(|files[0].data|) + Offset(files[1..], i - 1)
  }

  /** Entry i of the table names file i and points at its data. */
  lemma {:induction false} TableAt(files: seq<File>, address: nat, i: nat)
    requires i < |files|
    ensures Table(files, address)[i] ==
      Entry(files[i].name, address + Offset(files, i) + 512, |files[i].data|, files[i].kind)
  {
    if i > 0 { TableAt(files[1..], address + 512 + Rounded(|files[0].data|), i - 1); }
  }

  /** The data of a file ends before the header of every later one, and all of it before the image ends. */
  lemma {:induction false} ExtentsApart(files: seq<File>, address: nat, i: nat, j: nat)
    requires (forall k :: 0 <= k < |files| ==> FileValid(files[k])) && i < j <= |files|
    ensures var e := Table(files, address)[i];
      e.address + e.size <= address + Offset(files, j) <= address + |Image(files)| - 512
  {
    hide FileValid, Image, Table, Rounded, Extent;
    ImageFirst(files);
    TableAt(files, address, i);
    if i > 0 {
      TableAt(files[1..], address, i - 1);
      ExtentsApart(files[1..], address, i - 1, j - 1);
    } else {
      OffsetInside(files[1..], j - 1);
    }
  }

  lemma {:induction false} OffsetInside(files: seq<File>, j: nat)
    requires (forall k :: 0 <= k < |files| ==> FileValid(files[k])) && j <= |files|
    ensures Offset(files, j) + 512 <= |Image(files)|
  {
    hide FileValid, Image;
    if j > 0 {
      ImageFirst(files);
      OffsetInside(files[1..], j - 1);
    }
  }

  lemma {:induction false} DataInMemory(mem: seq<Byte>, address: nat, files: seq<File>, i: nat)
    requires ImageAt(mem, address, files) && i < |files|
    ensures var e := Table(files, address)[i];
      e.address + e.size <= |mem| && mem[e.address..e.address + e.size] == files[i].data
    decreases i
  {
    hide ImageAt, Image, Header;
    ImageStep(mem, address, files);
    if i > 0 { DataInMemory(mem, address + 512 + Rounded(|files[0].data|), files[1..], i - 1); }
  }

  lemma {:induction false} FoundByName(t: seq<Entry>, i: nat)
    requires i < |t| && forall j, k :: 0 <= j < k < |t| ==> t[j].name != t[k].name
    ensures FindIndex(t, t[i].name) == Some(i)
  {
    if i > 0 {
      assert t[0].name != t[i].name && t[1..][i - 1] == t[i];
      FoundByName(t[1..], i - 1);
    }
  }

  /** With distinct names, looking up a recorded file's name finds it, and its extent holds exactly
      the file's bytes. */
  lemma LookupFindsData(mem: seq<Byte>, address: nat, files: seq<File>, i: nat)
    requires ImageAt(mem, address, files) && i < |files| && i < MAX_FILES
    requires forall j, k :: 0 <= j < k < |files| ==> files[j].name != files[k].name
    ensures var t := First32(Table(files, address));
      && FindIndex(t, files[i].name) == Some(i)
      && t[i].address + t[i].size <= |mem| && mem[t[i].address..t[i].address + t[i].size] == files[i].data
  {
    var t := First32(Table(files, address));
    forall j, k | 0 <= j < k < |t|
      ensures t[j].name != t[k].name
    {
      TableAt(files, address, j);
      TableAt(files, address, k);
    }
    TableAt(files, address, i);
    FoundByName(t, i);
    DataInMemory(mem, address, files, i);
  }

  // ---------- reads in chunks ----------

  function Sum(sizes: seq<nat>): nat {
    if sizes == [] then 0 else sizes[0] + Sum(sizes[1..])
  }

  /** The bytes of consecutive reads, each starting where the one before ended. */
  function Reads(data: seq<Byte>, offset: nat, sizes: seq<nat>): seq<Byte>
    decreases sizes
  {
    if sizes == [] then [] else Slice(data, offset, sizes[0]) + Reads(data, offset + sizes[0], sizes[1..])
  }

  /** Any way of cutting a read into chunks returns the same bytes. */
  lemma {:induction false} ChunksAreOneRead(data: seq<Byte>, offset: nat, sizes: seq<nat>)
    ensures Reads(data, offset, sizes) == Slice(data, offset, Sum(sizes))
    decreases sizes
  {
    if sizes != [] {
      ChunksAreOneRead(data, offset + sizes[0], sizes[1..]);
      SlicesJoin(data, offset, sizes[0], Sum(sizes[1..]));
    }
  }

  lemma SlicesJoin(data: seq<Byte>, offset: nat, a: nat, b: nat)
    ensures Slice(data, offset, a) + Slice(data, offset + a, b) == Slice(data, offset, a + b)
  {
  }

  lemma WholeFile(data: seq<Byte>, sizes: seq<nat>)
    requires Sum(sizes) >= |data|
    ensures Reads(data, 0, sizes) == data
  {
    ChunksAreOneRead(data, 0, sizes);
  }

  lemma FileInTable(mem: seq<Byte>, address: nat, files: seq<File>, i: nat)
    requires ImageAt(mem, address, files) && i < |files| && i < MAX_FILES
    ensures var t := First32(Table(files, address));
      && i < |t| && t[i].size == |files[i].data| && t[i].address + t[i].size <= |mem| &&
        t[i].address + t[i].size < 0x1_0000_0000
      && mem[t[i].address..t[i].address + t[i].size] == files[i].data
  {
    TableAt(files, address, i);
    DataInMemory(mem, address, files, i);
    ExtentsApart(files, address, i, i + 1);
  }

  /** The node of a recorded file leads tar_read to its bytes, and its length is how many they are. */
  ghost predicate Opens(initrd: Initrd, node: nat, data: seq<Byte>)
    reads initrd, initrd.mem, initrd.fileEntries, initrd.nodes
  {
    && initrd.Valid() && node < initrd.nodes.Length && initrd.nodes[node].inode < initrd.fileCount
    && initrd.nodes[node].readable && initrd.nodes[node].length == |data|
    && var e := initrd.fileEntries[initrd.nodes[node].inode];
    && e.size == |data| && e.address + |data| <= initrd.mem.Length && e.address + |data| < 0x1_0000_0000
    && data == initrd.mem[e.address..e.address + |data|]
  }

  lemma NodeOpens(initrd: Initrd, address: nat, files: seq<File>, i: nat)
    requires initrd.Valid() && ImageAt(initrd.mem[..], address, files) && i < |files| && i < MAX_FILES
    requires initrd.fileEntries[..initrd.fileCount] == First32(Table(files, address))
    requires Filled(initrd.nodes[..], initrd.dirents[..], initrd.fileEntries[..initrd.fileCount])
    ensures Opens(initrd, i + 1, files[i].data)
  {
    hide ImageAt, Table, First32;
    FileInTable(initrd.mem[..], address, files, i);
    var t := initrd.fileEntries[..initrd.fileCount];
    assert initrd.fileEntries[i] == t[i] && initrd.nodes[..][i + 1] == FileNode(i, t[i]);
  }

  /** Reading a file by name: parse the image, look the name up, and read through the node found
      in chunks of any sizes, each starting where the one before ended. The result is what one read
      of all of them would return from the file's bytes; all of them, when the sizes cover it. */
  method ReadByName(initrd: Initrd, address: nat, name: seq<Byte>, sizes: seq<nat>, ghost files: seq<File>,
                    ghost i: nat)
    returns (bytes: seq<Byte>)
    requires initrd.Valid() && ImageAt(initrd.mem[..], address, files) && i < |files| && i < MAX_FILES
    requires files[i].name == name && forall j, k :: 0 <= j < k < |files| ==> files[j].name != files[k].name
    requires Sum(sizes) < 0x1_0000_0000
    modifies initrd`fileCount, initrd.fileEntries, initrd.nodes, initrd.dirents
    ensures bytes == Slice(files[i].data, 0, Sum(sizes))
    ensures Sum(sizes) >= |files[i].data| ==> bytes == files[i].data
  {
    hide ImageAt, Table, Filled, Slice, Sum, Reads, FindIndex, First32, Opens;
    initrd.Parse(address, files);
    LookupFindsData(initrd.mem[..], address, files, i);
    NodeOpens(initrd, address, files, i);
    var node := initrd.Finddir(name);
    ghost var data := files[i].data;
    var n: nat, offset: nat := 0, 0;
    bytes := [];
    ReadsStart(data, sizes);
    while n < |sizes|
      invariant 0 <= n <= |sizes| && offset + Sum(sizes[n..]) == Sum(sizes)
      invariant bytes + Reads(data, offset, sizes[n..]) == Reads(data, 0, sizes)
      modifies {}
    {
      ReadsStep(data, offset, sizes, n);
      var part := ReadPart(initrd, node.value, offset, sizes[n], data);
      bytes := bytes + part;
      offset, n := offset + sizes[n], n + 1;
    }
    ReadsEnd(data, offset, sizes, n);
    ChunksAreOneRead(data, 0, sizes);
    if Sum(sizes) >= |data| { WholeFile(data, sizes); }
  }

  /** One read through a node. */
  method ReadOpen(initrd: Initrd, node: nat, offset: nat, size: nat, buffer: array<Byte>, ghost data: seq<Byte>)
    returns (count: nat)
    requires Opens(initrd, node, data) && offset + size < 0x1_0000_0000
    requires buffer != initrd.mem && size <= buffer.Length
    modifies buffer
    ensures count == |Slice(data, offset, size)| <= buffer.Length
    ensures buffer[..] == Splice(old(buffer[..]), 0, Slice(data, offset, size))
  {
    hide Slice, Splice;
    ghost var e := initrd.fileEntries[initrd.nodes[node].inode];
    ReadIsSlice(initrd.mem[..], e.address, e.size, offset, size);
    CountInside(e.size, offset, size);
    SpliceNothing(buffer[..]);
    SliceLength(data, offset, size);
    count := initrd.Read(node, offset, size, buffer);
  }

  lemma SliceLength(data: seq<Byte>, offset: nat, size: nat)
    requires offset + size < 0x1_0000_0000
    ensures |Slice(data, offset, size)| == ReadCount(|data|, offset, size)
  {
  }

  /** One read into a buffer of its own. */
  method ReadPart(initrd: Initrd, node: nat, offset: nat, size: nat, ghost data: seq<Byte>) returns (part: seq<Byte>)
    requires Opens(initrd, node, data) && offset + size < 0x1_0000_0000
    ensures part == Slice(data, offset, size)
  {
    hide Slice, Splice, Opens;
    SliceLength(data, offset, size);
    CountFits(|data|, offset, size);
    var buffer := new Byte[size];
    ghost var blank := buffer[..];
    var count := ReadOpen(initrd, node, offset, size, buffer, data);
    SplicedFront(blank, Slice(data, offset, size));
    part := buffer[..count];
  }

  /** File k is the first of the recorded files with the name. */
  ghost predicate FirstNamed(files: seq<File>, name: seq<Byte>, k: nat) {
    k < |files| && k < 32 && files[k].name == name && forall j :: 0 <= j < k ==> files[j].name != name
  }

  lemma {:induction false} FindIsFirst(t: seq<Entry>, name: seq<Byte>)
    ensures match FindIndex(t, name)
      case None => forall j :: 0 <= j < |t| ==> t[j].name != name
      case Some(k) => k < |t| && t[k].name == name && forall j :: 0 <= j < k ==> t[j].name != name
  {
    if t != [] && t[0].name != name {
      FindIsFirst(t[1..], name);
      assert forall j :: 0 < j < |t| ==> t[j] == t[1..][j - 1];
    }
  }

  lemma FindsFirst(files: seq<File>, address: nat, name: seq<Byte>)
    ensures match FindIndex(First32(Table(files, address)), name)
      case None => forall j :: 0 <= j < |files| && j < 32 ==> files[j].name != name
      case Some(k) => FirstNamed(files, name, k)
  {
    var t := First32(Table(files, address));
    forall j | 0 <= j < |t|
      ensures t[j].name == files[j].name
    {
      TableAt(files, address, j);
    }
    hide Table, First32;
    FindIsFirst(t, name);
  }

  /** What the boot code does with a loaded image: parse it, find a file, and read as many bytes as
      its node's length says. It gets exactly the bytes of the first of the 32 recorded files with
      that name, and nothing when none of them has it. */
  method LoadByName(initrd: Initrd, address: nat, name: seq<Byte>, ghost files: seq<File>)
    returns (data: Option<seq<Byte>>)
    requires initrd.Valid() && ImageAt(initrd.mem[..], address, files)
    modifies initrd`fileCount, initrd.fileEntries, initrd.nodes, initrd.dirents
    ensures data == None ==> forall j :: 0 <= j < |files| && j < 32 ==> files[j].name != name
    ensures data.Some? ==> exists k: nat :: FirstNamed(files, name, k) && data.value == files[k].data
  {
    hide ImageAt, Table, Filled, Slice, FindIndex, First32;
    initrd.Parse(address, files);
    FindsFirst(files, address, name);
    var node := initrd.Finddir(name);
    if node == None {
      return None;
    }
    ghost var k := node.value - 1;
    assert FirstNamed(files, name, k);
    NodeOpens(initrd, address, files, k);
    if !initrd.nodes[node.value].readable {
      return None;
    }
    var size := initrd.nodes[node.value].length;
    var bytes := ReadPart(initrd, node.value, 0, size, files[k].data);
    WholeSlice(files[k].data);
    return Some(bytes);
  }

  lemma WholeSlice(data: seq<Byte>)
    ensures Slice(data, 0, |data|) == data
  {
  }

  lemma CountInside(length: nat, offset: nat, size: nat)
    requires offset + size < 0x1_0000_0000
    ensures offset < length ==> offset + ReadCount(length, offset, size) <= length
    ensures offset >= length ==> ReadCount(length, offset, size) == 0
  {
  }

  lemma SplicedFront(s: seq<Byte>, data: seq<Byte>)
    requires |data| <= |s|
    ensures Splice(s, 0, data)[..|data|] == data
  {
  }

  lemma ReadsStart(data: seq<Byte>, sizes: seq<nat>)
    ensures sizes[0..] == sizes && [] + Reads(data, 0, sizes) == Reads(data, 0, sizes)
  {
  }

  lemma ReadsStep(data: seq<Byte>, offset: nat, sizes: seq<nat>, n: nat)
    requires n < |sizes|
    ensures Reads(data, offset, sizes[n..]) ==
      Slice(data, offset, sizes[n]) + Reads(data, offset + sizes[n], sizes[n + 1..])
    ensures Sum(sizes[n..]) == sizes[n] + Sum(sizes[n + 1..])
  {
    assert sizes[n..][1..] == sizes[n + 1..];
  }

  lemma ReadsEnd(data: seq<Byte>, offset: nat, sizes: seq<nat>, n: nat)
    requires n == |sizes|
    ensures Reads(data, offset, sizes[n..]) == []
  {
  }

  // ---------- writes ----------

  /** The list with the bytes of one file replaced from an offset on. */
  function Updated(files: seq<File>, i: nat, offset: nat, bytes: seq<Byte>): seq<File>
    requires i < |files| && offset + |bytes| <= |files[i].data|
  {
    files[i := files[i].(data := Splice(files[i].data, offset, bytes))]
  }

  lemma SpliceLeft(a: seq<Byte>, b: seq<Byte>, at: nat, bytes: seq<Byte>)
    requires at + |bytes| <= |a|
    ensures Splice(a + b, at, bytes) == Splice(a, at, bytes) + b
  {
  }

  lemma SpliceRight(a: seq<Byte>, b: seq<Byte>, at: nat, bytes: seq<Byte>)
    requires at + |bytes| <= |b|
    ensures Splice(a + b, |a| + at, bytes) == a + Splice(b, at, bytes)
  {
  }

  lemma ExtentUpdate(f: File, offset: nat, bytes: seq<Byte>)
    requires FileValid(f) && offset + |bytes| <= |f.data|
    ensures Splice(Extent(f), 512 + offset, bytes) == Extent(f.(data := Splice(f.data, offset, bytes)))
  {
    hide Splice;
    var pad := Zeros(Rounded(|f.data|) - |f.data|);
    SpliceLeft(Header(f) + f.data, pad, 512 + offset, bytes);
    SpliceRight(Header(f), f.data, offset, bytes);
  }

  lemma UpdateValid(f: File, offset: nat, bytes: seq<Byte>)
    requires FileValid(f)
    ensures offset + |bytes| <= |f.data| ==> FileValid(f.(data := Splice(f.data, offset, bytes)))
  {
  }

  /** Storing bytes inside a file's data turns the image into the image of the updated list. */
  lemma {:induction false} ImageUpdate(files: seq<File>, i: nat, offset: nat, bytes: seq<Byte>)
    requires forall k :: 0 <= k < |files| ==> FileValid(files[k])
    requires i < |files| && offset + |bytes| <= |files[i].data|
    ensures Offset(files, i) + 512 + offset + |bytes| <= |Image(files)|
    ensures forall k :: 0 <= k < |files| ==> FileValid(Updated(files, i, offset, bytes)[k])
    ensures Splice(Image(files), Offset(files, i) + 512 + offset, bytes) == Image(Updated(files, i, offset, bytes))
  {
    hide Splice, Extent, FileValid, Rounded, Image, Updated;
    var f, rest := files[0], files[1..];
    ImageFirst(files);
    UpdatedParts(files, i, offset, bytes);
    ImageFirst(Updated(files, i, offset, bytes));
    if i == 0 {
      ExtentUpdate(f, offset, bytes);
      SpliceLeft(Extent(f), Image(rest), 512 + offset, bytes);
    } else {
      ImageUpdate(rest, i - 1, offset, bytes);
      SpliceRight(Extent(f), Image(rest), Offset(rest, i - 1) + 512 + offset, bytes);
    }
  }

  lemma ImageFirst(files: seq<File>)
    requires files != []
    ensures (forall k :: 0 <= k < |files| ==> FileValid(files[k])) ==>
      (&& FileValid(files[0]) && (forall k :: 0 <= k < |files[1..]| ==> FileValid(files[1..][k]))
       && Image(files) == Extent(files[0]) + Image(files[1..])
       && |Extent(files[0])| == 512 + Rounded(|files[0].data|) && |files[0].data| <= Rounded(|files[0].data|))
  {
  }

  lemma UpdatedParts(files: seq<File>, i: nat, offset: nat, bytes: seq<Byte>)
    requires (forall k :: 0 <= k < |files| ==> FileValid(files[k])) && i < |files| &&
      offset + |bytes| <= |files[i].data|
    ensures var after := Updated(files, i, offset, bytes);
      && |after| == |files| && (forall k :: 0 <= k < |after| ==> FileValid(after[k]))
      && (if i == 0 then
            after[0] == files[0].(data := Splice(files[0].data, offset, bytes)) && after[1..] == files[1..]
          else
            && after[0] == files[0] && after[1..] == Updated(files[1..], i - 1, offset, bytes)
            && Offset(files, i) == 512 + Rounded(|files[0].data|) + Offset(files[1..], i - 1))
    ensures Offset(files, 0) == 0
  {
    UpdateValid(files[i], offset, bytes);
  }

  /** An in-bounds write leaves memory holding the image of the updated list, so parsing it again
      gives the same table, the written file reads back exactly, and no other file changes. */
  lemma WriteIsUpdate(mem: seq<Byte>, address: nat, files: seq<File>, i: nat, offset: nat, bytes: seq<Byte>)
    requires ImageAt(mem, address, files) && i < |files| && offset + |bytes| <= |files[i].data|
    ensures var at := Table(files, address)[i].address + offset;
      && at + |bytes| <= |mem|
      && ImageAt(Splice(mem, at, bytes), address, Updated(files, i, offset, bytes))
    ensures Table(Updated(files, i, offset, bytes), address) == Table(files, address)
  {
    hide Image, Splice, FileValid, Rounded, Table, Updated, Offset;
    TableAt(files, address, i);
    ImageUpdate(files, i, offset, bytes);
    var n, at := |Image(files)|, Offset(files, i) + 512 + offset;
    SpliceInside(mem, address, n, at, bytes);
    UpdatedTable(files, i, offset, bytes, address);
  }

  /** Writing a file by name inside its bytes leaves the image of the updated list in memory, and the
      parsed table fits it as before. */
  method WriteByName(initrd: Initrd, address: nat, name: seq<Byte>, offset: nat, data: array<Byte>,
                     ghost files: seq<File>, ghost i: nat)
    requires initrd.Valid() && ImageAt(initrd.mem[..], address, files) && i < |files| && i < MAX_FILES
    requires files[i].name == name && forall j, k :: 0 <= j < k < |files| ==> files[j].name != files[k].name
    requires offset + data.Length <= |files[i].data| && data != initrd.mem
    modifies initrd`fileCount, initrd.fileEntries, initrd.nodes, initrd.dirents, initrd.mem
    ensures initrd.Valid() && ImageAt(initrd.mem[..], address, Updated(files, i, offset, data[..]))
    ensures Opens(initrd, i + 1, Splice(files[i].data, offset, data[..]))
  {
    hide ImageAt, Table, Filled, FindIndex, First32, Splice, Updated, Opens;
    initrd.Parse(address, files);
    LookupFindsData(initrd.mem[..], address, files, i);
    NodeOpens(initrd, address, files, i);
    var node := initrd.Finddir(name);
    NodeEntry(initrd, address, files, i);
    WriteIsUpdate(initrd.mem[..], address, files, i, offset, data[..]);
    assert data[..] == data[..data.Length];
    var _ := initrd.Write(node.value, offset, data.Length, data);
    UpdatedFile(files, i, offset, data[..]);
    NodeOpens(initrd, address, Updated(files, i, offset, data[..]), i);
  }

  lemma NodeEntry(initrd: Initrd, address: nat, files: seq<File>, i: nat)
    requires initrd.Valid() && ImageAt(initrd.mem[..], address, files) && i < |files| && i < MAX_FILES
    requires initrd.fileEntries[..initrd.fileCount] == First32(Table(files, address))
    requires Filled(initrd.nodes[..], initrd.dirents[..], initrd.fileEntries[..initrd.fileCount])
    ensures initrd.nodes[i + 1].inode == i < initrd.fileCount && initrd.fileEntries[i] == Table(files, address)[i]
  {
    hide ImageAt, Table;
    FileInTable(initrd.mem[..], address, files, i);
    var t := initrd.fileEntries[..initrd.fileCount];
    assert initrd.fileEntries[i] == t[i] && initrd.nodes[..][i + 1] == FileNode(i, t[i]);
  }

  lemma UpdatedFile(files: seq<File>, i: nat, offset: nat, bytes: seq<Byte>)
    requires i < |files| && offset + |bytes| <= |files[i].data|
    ensures |Updated(files, i, offset, bytes)| == |files|
    ensures Updated(files, i, offset, bytes)[i].data == Splice(files[i].data, offset, bytes)
  {
  }

  lemma UpdatedTable(files: seq<File>, i: nat, offset: nat, bytes: seq<Byte>, address: nat)
    requires i < |files| && offset + |bytes| <= |files[i].data|
    ensures Table(Updated(files, i, offset, bytes), address) == Table(files, address)
  {
    SameTable(files, Updated(files, i, offset, bytes), address);
  }

  lemma SpliceInside(s: seq<Byte>, a: nat, n: nat, at: nat, bytes: seq<Byte>)
    requires a + n <= |s| && at + |bytes| <= n
    ensures Splice(s, a + at, bytes)[a..a + n] == Splice(s[a..a + n], at, bytes)
  {
    var x, y := Splice(s, a + at, bytes)[a..a + n], Splice(s[a..a + n], at, bytes);
    forall k | 0 <= k < n
      ensures x[k] == y[k]
    {
      SpliceAt(s, a + at, bytes, a + k);
      SpliceAt(s[a..a + n], at, bytes, k);
    }
  }

  lemma {:induction false} SameTable(files: seq<File>, others: seq<File>, address: nat)
    requires |files| == |others|
    requires forall k :: 0 <= k < |files| ==>
      files[k].name == others[k].name && files[k].kind == others[k].kind && |files[k].data| == |others[k].data|
    ensures Table(files, address) == Table(others, address)
  {
    if files != [] { SameTable(files[1..], others[1..], address + 512 + Rounded(|files[0].data|)); }
  }
}
