/** What vfs_readdir hands out for the root node, whichever file system is mounted there
    (kernel/fs/vfs.c, kernel/fs/tar.c, kernel/fs/ext2.c). */
module Directories {
  import opened Wrappers
  import opened Bits
  import opened Bytes
  import opened Ext2
  import Ext2Driver
  import Tar

  /** A directory entry as its reader sees it. */
  datatype Dirent = Dirent(ino: nat, name: seq<Byte>)

  ghost predicate DirentValid(d: Dirent) {
    d.ino < 0x1_0000_0000 && |d.name| <= 127 && forall i :: 0 <= i < |d.name| ==> d.name[i] != 0
  }

  /** A node, with the functions its file system put into it. */
  datatype Directory =
    | TarDirectory(initrd: Tar.Initrd)
    | Ext2Directory(driver: Ext2Driver.Driver, node: Ext2Driver.Node)

  /** What the entries depend on. */
  ghost function Footprint(dir: Directory): set<object> {
    match dir
    case TarDirectory(initrd) => {initrd, initrd.nodes, initrd.dirents}
    case Ext2Directory(driver, node) => {driver.disk, node}
  }

  ghost predicate DirectoryReady(dir: Directory)
    reads Footprint(dir)
  {
    match dir
    case TarDirectory(initrd) => initrd.Valid()
    case Ext2Directory(driver, node) =>
      driver.Valid() && InGroup0(driver.g, node.inode) &&
        Ext2Driver.DirectoryValid(driver.g, driver.disk[..], node.inode)
  }

  /** All entries, in order; a node that is no directory has none. */
  ghost function Listing(dir: Directory): seq<Dirent>
    requires DirectoryReady(dir)
    reads Footprint(dir)
  {
    match dir
    case TarDirectory(initrd) =>
      if And(initrd.nodes[0].flags, Tar.VFS_DIRECTORY) == 0 || !initrd.nodes[0].listed then []
      else TarEntries(initrd.dirents[..initrd.fileCount])
    case Ext2Directory(driver, node) =>
      if And(node.flags, Ext2Driver.VFS_DIRECTORY) == 0 then []
      else Ext2Entries(Ext2Driver.EntriesOf(driver.g, driver.disk[..], node.inode))
  }

  function TarEntries(ds: seq<Tar.Dirent>): (es: seq<Dirent>)
    ensures |es| == |ds| && forall i :: 0 <= i < |ds| ==> es[i] == Dirent(ds[i].ino, ds[i].name)
  {
    seq(|ds|, i requires 0 <= i < |ds| => Dirent(ds[i].ino, ds[i].name))
  }

  function Ext2Entries(ds: seq<Ext2Driver.Entry>): (es: seq<Dirent>)
    ensures |es| == |ds|
    ensures forall i :: 0 <= i < |ds| ==>
      es[i] == Dirent(Ext2Driver.DirentOf(ds[i]).ino, Ext2Driver.DirentOf(ds[i]).name)
  {
    seq(|ds|, i requires 0 <= i < |ds| => Dirent(Ext2Driver.DirentOf(ds[i]).ino, Ext2Driver.DirentOf(ds[i]).name))
  }

  ghost predicate ListingValid(dir: Directory)
    reads Footprint(dir)
  {
    DirectoryReady(dir) && forall i :: 0 <= i < |Listing(dir)| ==> DirentValid(Listing(dir)[i])
  }

  /** vfs_readdir calls the node's own function, for directories only. */
  method VfsReaddir(dir: Directory, index: nat) returns (de: Option<Dirent>)
    requires DirectoryReady(dir)
    ensures de == if index < |Listing(dir)| then Some(Listing(dir)[index]) else None
  {
    match dir
    case TarDirectory(initrd) =>
      if And(initrd.nodes[0].flags, Tar.VFS_DIRECTORY) == 0 || !initrd.nodes[0].listed {
        return None;
      }
      var d := initrd.Readdir(index);
      return match d case None => None case Some(e) => Some(Dirent(e.ino, e.name));
    case Ext2Directory(driver, node) =>
      if And(node.flags, Ext2Driver.VFS_DIRECTORY) == 0 {
        return None;
      }
      var d := driver.NodeReaddir(node, index);
      return match d case None => None case Some(e) => Some(Dirent(e.ino, e.name));
  }

  /** Entries of a well-formed block have 32-bit inodes and names without NUL. */
  lemma {:induction false} EntriesFit(b: seq<Byte>, at: nat, size: nat)
    requires Ext2Driver.RecordsValid(b, at, size)
    ensures forall e :: e in Ext2Driver.Entries(b, at, size) ==>
      e.ino < 0x1_0000_0000 && forall i :: 0 <= i < |e.name| ==> e.name[i] != 0
    decreases size - at
  {
    if at < size && Ext2Driver.RecLen(b, at) != 0 {
      EntriesFit(b, at + Ext2Driver.RecLen(b, at), size);
    }
  }

  /** So every ext2 directory can be listed. */
  lemma Ext2ListingValid(driver: Ext2Driver.Driver, node: Ext2Driver.Node)
    requires DirectoryReady(Ext2Directory(driver, node))
    ensures ListingValid(Ext2Directory(driver, node))
  {
    var g, disk, n := driver.g, driver.disk[..], node.inode;
    var es := Ext2Driver.EntriesOf(g, disk, n);
    Ext2Driver.DirectoryFits(g, disk, n);
    EntriesFit(BlockOf(g, disk, InodeAt(g, disk, n).block[0]), 0, InodeAt(g, disk, n).size);
    var ds := Listing(Ext2Directory(driver, node));
    forall i | 0 <= i < |ds|
      ensures DirentValid(ds[i])
    {
      assert es[i] in es;
    }
  }

  /** A directory laid out on the disk record after record lists its entries in use, in order, with
      their names cut after 127 bytes; a node of a file lists nothing. */
  lemma Ext2Listing(driver: Ext2Driver.Driver, node: Ext2Driver.Node, slots: seq<Ext2Driver.Slot>)
    requires DirectoryReady(Ext2Directory(driver, node)) && forall s :: s in slots ==> Ext2Driver.SlotFits(s)
    requires var inode := InodeAt(driver.g, driver.disk[..], node.inode);
      && inode.size == |Ext2Driver.EncodeSlots(slots)|
      && BlockOf(driver.g, driver.disk[..], inode.block[0])[..inode.size] == Ext2Driver.EncodeSlots(slots)
    ensures node.flags == 1 ==> Listing(Ext2Directory(driver, node)) == []
    ensures node.flags == 2 ==>
      var ds, es := Listing(Ext2Directory(driver, node)), Ext2Driver.InUse(slots);
      |ds| == |es| && forall i :: 0 <= i < |es| ==>
        ds[i].ino == es[i].ino && ds[i].name == if |es[i].name| <= 127 then es[i].name else es[i].name[..127]
  {
    hide InodeAt, Ext2Driver.EncodeSlots, Ext2Driver.Entries, Ext2Driver.RecordsValid;
    FlagValues();
    var inode := InodeAt(driver.g, driver.disk[..], node.inode);
    var b := BlockOf(driver.g, driver.disk[..], inode.block[0]);
    assert b[0..inode.size] == b[..inode.size];
    Ext2Driver.DirectoryRoundTrip(b, 0, slots, inode.size);
  }

  lemma FlagValues()
    ensures And(1, Ext2Driver.VFS_DIRECTORY) == 0 && And(2, Ext2Driver.VFS_DIRECTORY) != 0
  {
  }

  lemma DirectoryFlag()
    ensures And(Tar.VFS_DIRECTORY, Tar.VFS_DIRECTORY) != 0
  {
  }

  /** The names and numbers a parsed image shows: its first 32 files, numbered from 1. */
  function FileDirents(files: seq<Tar.File>): (ds: seq<Dirent>)
    ensures |ds| == if |files| <= 32 then |files| else 32
    ensures forall i :: 0 <= i < |ds| ==> ds[i] == Dirent(i + 1, files[i].name)
  {
    seq(if |files| <= 32 then |files| else 32, i requires 0 <= i < |files| => Dirent(i + 1, files[i].name))
  }

  /** After parsing an image its directory lists exactly those. */
  lemma TarListing(initrd: Tar.Initrd, files: seq<Tar.File>, address: nat)
    requires initrd.Valid() && forall i :: 0 <= i < |files| ==> Tar.FileValid(files[i])
    requires initrd.fileEntries[..initrd.fileCount] == Tar.First32(Tar.Table(files, address))
    requires Tar.Filled(initrd.nodes[..], initrd.dirents[..], initrd.fileEntries[..initrd.fileCount])
    ensures ListingValid(TarDirectory(initrd)) && Listing(TarDirectory(initrd)) == FileDirents(files)
  {
    DirectoryFlag();
    var ds, t := Listing(TarDirectory(initrd)), Tar.First32(Tar.Table(files, address));
    forall i | 0 <= i < |ds|
      ensures ds[i] == Dirent(i + 1, files[i].name) && DirentValid(ds[i])
    {
      Tar.TableAt(files, address, i);
      assert initrd.fileEntries[..initrd.fileCount][i] == t[i];
      assert initrd.dirents[..][i] == Tar.Dirent(t[i].name, i + 1, Tar.VFS_FILE);
    }
  }
}
