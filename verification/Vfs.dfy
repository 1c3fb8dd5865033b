/** The mount table, and path resolution over whichever file system is mounted at "/"
    (kernel/fs/vfs.c over kernel/fs/ext2.c and kernel/fs/tar.c). */
module Vfs {
  import opened Wrappers
  import opened Bits
  import opened Bytes
  import opened Ext2
  import opened Ext2Driver
  import Tar

  const SLASH: Byte := 47

  lemma SlashIs()
    ensures Ascii("/") == [SLASH]
  {
  }

  // ---------- paths as lists of names ----------

  function TokenLength(path: seq<Byte>): (n: nat)
    ensures n <= |path| && (n < |path| ==> path[n] == SLASH)
    ensures forall i :: 0 <= i < n ==> path[i] != SLASH
  {
    if path == [] || path[0] == SLASH then 0 else 1 + TokenLength(path[1..])
  }

  /** The non-empty components between slashes. */
  function Components(path: seq<Byte>): seq<seq<Byte>>
    decreases |path|
  {
    if path == [] then []
    else if path[0] == SLASH then Components(path[1..])
    else [path[..TokenLength(path)]] + Components(path[TokenLength(path)..])
  }

  /** What is left after a token and the slash that ends it. */
  function AfterToken(path: seq<Byte>): seq<Byte> {
    if TokenLength(path) < |path| then path[TokenLength(path) + 1..] else []
  }

  lemma TokenStep(path: seq<Byte>)
    requires path != []
    ensures |AfterToken(path)| < |path|
    ensures Components(path) ==
      if TokenLength(path) == 0 then Components(AfterToken(path))
      else [path[..TokenLength(path)]] + Components(AfterToken(path))
  {
    var n := TokenLength(path);
    if 0 < n < |path| {
      assert path[n..][1..] == path[n + 1..];
    }
  }

  lemma TokenShort(path: seq<Byte>)
    requires path != [] && forall c :: c in Components(path) ==> |c| <= 127
    ensures TokenLength(path) <= 127
    ensures forall c :: c in Components(AfterToken(path)) ==> |c| <= 127
  {
    hide TokenLength, Components, AfterToken;
    TokenStep(path);
    var n, after := TokenLength(path), Components(AfterToken(path));
    if n > 0 {
      assert Components(path)[0] == path[..n];
      assert forall c :: c in after ==> c in [path[..n]] + after;
    }
  }

  lemma {:induction false} TokenBeforeSlash(a: seq<Byte>, b: seq<Byte>)
    ensures TokenLength(a + [SLASH] + b) == TokenLength(a)
  {
    if a != [] && a[0] != SLASH {
      assert (a + [SLASH] + b)[1..] == a[1..] + [SLASH] + b;
      TokenBeforeSlash(a[1..], b);
    }
  }

  /** A slash splits a path into independent parts; so repeated and trailing slashes change nothing. */
  lemma {:induction false} SlashSplits(a: seq<Byte>, b: seq<Byte>)
    ensures Components(a + [SLASH] + b) == Components(a) + Components(b)
    decreases |a|
  {
    hide Components, TokenLength;
    var whole := a + [SLASH] + b;
    ComponentsStep(a);
    ComponentsStep(whole);
    if a == [] {
      assert whole[1..] == b;
    } else if a[0] == SLASH {
      assert whole[1..] == a[1..] + [SLASH] + b;
      SlashSplits(a[1..], b);
    } else {
      TokenBeforeSlash(a, b);
      var n := TokenLength(a);
      assert whole[..n] == a[..n] && whole[n..] == a[n..] + [SLASH] + b;
      SlashSplits(a[n..], b);
    }
  }

  lemma ComponentsStep(path: seq<Byte>)
    ensures path != [] && path[0] != SLASH ==> 0 < TokenLength(path) <= |path|
    ensures Components(path) ==
      if path == [] then []
      else if path[0] == SLASH then Components(path[1..])
      else [path[..TokenLength(path)]] + Components(path[TokenLength(path)..])
  {
  }

  lemma ExtraSlashes(a: seq<Byte>, b: seq<Byte>)
    ensures Components(a + [SLASH] + ([SLASH] + b)) == Components(a + [SLASH] + b)
    ensures Components(a + [SLASH] + []) == Components(a)
  {
    SlashSplits(a, [SLASH] + b);
    SlashSplits(a, b);
    SlashSplits(a, []);
    assert ([SLASH] + b)[1..] == b;
  }

  // ---------- the tree ----------

  /** Every directory of the group is well formed, and inode 2, the root, is one. */
  ghost predicate TreeValid(g: Geometry, disk: seq<Byte>) {
    && TableInside(g, disk) && InGroup0(g, 2) && IsDirectory(InodeAt(g, disk, 2))
    && forall n :: InGroup0(g, n) && IsDirectory(InodeAt(g, disk, n)) ==> DirectoryValid(g, disk, n)
  }

  /** What the mounted file systems hold: the ext2 disk and the files of the initrd. */
  datatype World = World(g: Geometry, disk: seq<Byte>, files: seq<Tar.Entry>)

  /** An inode of the disk, or a node of the initrd: 0 is its directory, i + 1 its file i. */
  datatype Place = AtInode(n: nat) | AtTar(i: nat)

  ghost predicate PlaceValid(w: World, p: Place) {
    match p
    case AtInode(n) => TreeValid(w.g, w.disk) && InGroup0(w.g, n)
    case AtTar(i) => i <= |w.files|
  }

  /** One directory lookup; a file has no entries. */
  ghost function Lookup(w: World, p: Place, name: seq<Byte>): (r: Option<Place>)
    requires PlaceValid(w, p)
    ensures r.Some? ==> PlaceValid(w, r.value)
  {
    match p
    case AtInode(n) =>
      if !IsDirectory(InodeAt(w.g, w.disk, n)) then None
      else
        FoundInGroup(w.g, w.disk, n, name);
        (match Find(EntriesOf(w.g, w.disk, n), name) case None => None case Some(m) => Some(AtInode(m)))
    case AtTar(i) =>
      if i > 0 then None
      else
        IndexInside(w.files, name);
        match Tar.FindIndex(w.files, name) case None => None case Some(k) => Some(AtTar(k + 1))
  }

  lemma {:induction false} IndexInside(files: seq<Tar.Entry>, name: seq<Byte>)
    ensures Tar.FindIndex(files, name).Some? ==> Tar.FindIndex(files, name).value < |files|
  {
    if files != [] { IndexInside(files[1..], name); }
  }

  /** The fold of lookups over the components. */
  ghost function Resolve(w: World, p: Place, names: seq<seq<Byte>>): (r: Option<Place>)
    requires PlaceValid(w, p)
    ensures r.Some? ==> PlaceValid(w, r.value)
    decreases |names|
  {
    if names == [] then Some(p)
    else
      match Lookup(w, p, names[0])
      case None => None
      case Some(q) => Resolve(w, q, names[1..])
  }

  /** Resolving a path is resolving its parts in turn. */
  lemma {:induction false} ResolveSplits(w: World, p: Place, a: seq<seq<Byte>>, b: seq<seq<Byte>>)
    requires PlaceValid(w, p)
    ensures Resolve(w, p, a + b) == match Resolve(w, p, a) case None => None case Some(q) => Resolve(w, q, b)
    decreases |a|
  {
    if a == [] {
      assert a + b == b;
    } else {
      assert (a + b)[0] == a[0] && (a + b)[1..] == a[1..] + b;
      match Lookup(w, p, a[0])
      case None =>
      case Some(q) => ResolveSplits(w, q, a[1..], b);
    }
  }

  lemma ResolveStep(w: World, p: Place, name: seq<Byte>, others: seq<seq<Byte>>)
    requires PlaceValid(w, p)
    ensures Resolve(w, p, [name] + others) ==
      match Lookup(w, p, name) case None => None case Some(q) => Resolve(w, q, others)
  {
    assert ([name] + others)[1..] == others;
  }

  lemma AndDirectory()
    ensures And(VFS_DIRECTORY, VFS_DIRECTORY) != 0 && And(VFS_FILE, VFS_DIRECTORY) == 0
    ensures Tar.VFS_DIRECTORY == VFS_DIRECTORY && Tar.VFS_FILE == VFS_FILE
  {
  }

  // ---------- what files hold ----------

  ghost predicate IsFile(w: World, p: Place)
    requires PlaceValid(w, p)
  {
    match p case AtInode(n) => !IsDirectory(InodeAt(w.g, w.disk, n)) case AtTar(i) => i > 0
  }

  /** The direct blocks hold the file, or memory below 4 GB does. */
  ghost predicate Readable(w: World, mem: seq<Byte>, p: Place)
    requires PlaceValid(w, p)
  {
    match p
    case AtInode(n) => FileValid(w.g, w.disk, InodeAt(w.g, w.disk, n))
    case AtTar(i) =>
      i > 0 ==>
        w.files[i - 1].address + w.files[i - 1].size <= |mem| &&
        w.files[i - 1].address + w.files[i - 1].size < 0x1_0000_0000
  }

  ghost function BytesOf(w: World, mem: seq<Byte>, p: Place): seq<Byte>
    requires PlaceValid(w, p) && Readable(w, mem, p)
  {
    match p
    case AtInode(n) => Content(w.g, w.disk, InodeAt(w.g, w.disk, n))
    case AtTar(i) =>
      if i == 0 then [] else mem[w.files[i - 1].address..w.files[i - 1].address + w.files[i - 1].size]
  }

  // ---------- the code ----------

  const MAX_MOUNTS: nat := 8

  /** What a struct vfs_node pointer may be. */
  datatype NodeRef = Null | Ext2Node(node: Node) | TarNode(i: nat)

  datatype Mount = Mount(path: seq<Byte>, node: NodeRef)

  class FileSystem {
    const driver: Driver
    const initrd: Tar.Initrd
    /** The node mounted at "/". */
    var rootNode: NodeRef
    const mounts: array<Mount>
    var mountCount: nat

    ghost predicate Valid()
      reads this, driver.disk, initrd, initrd.fileEntries, initrd.nodes, initrd.dirents, Object(rootNode)
    {
      && mounts.Length == MAX_MOUNTS && mountCount <= MAX_MOUNTS
      && Mountable(rootNode)
    }

    /** The object behind a node. */
    ghost function Object(node: NodeRef): set<object> {
      if node.Ext2Node? then {node.node} else {}
    }

    /** The disk and the initrd as they are. */
    ghost function Now(): World
      requires initrd.Valid()
      reads driver.disk, initrd, initrd.fileEntries
    {
      World(driver.g, driver.disk[..], initrd.fileEntries[..initrd.fileCount])
    }

    /** The node stands for a place, and is marked as a directory exactly when the place is one. */
    ghost predicate StandsFor(node: NodeRef, p: Place)
      reads driver.disk, initrd, initrd.fileEntries, initrd.nodes, initrd.dirents, Object(node)
    {
      initrd.Valid() && PlaceValid(Now(), p) &&
      match node
      case Null => false
      case Ext2Node(o) =>
        && p == AtInode(o.inode)
        && (And(o.flags, VFS_DIRECTORY) != 0 <==> IsDirectory(InodeAt(driver.g, driver.disk[..], o.inode)))
        && (!IsDirectory(InodeAt(driver.g, driver.disk[..], o.inode)) ==>
              o.length == InodeAt(driver.g, driver.disk[..], o.inode).size)
      case TarNode(i) =>
        p == AtTar(i) && Tar.Filled(initrd.nodes[..], initrd.dirents[..], initrd.fileEntries[..initrd.fileCount])
    }

    ghost function PlaceOf(node: NodeRef): Place
      reads Object(node)
    {
      match node case Ext2Node(o) => AtInode(o.inode) case TarNode(i) => AtTar(i) case Null => AtTar(0)
    }

    /** What may be mounted at "/": nothing, a parsed initrd's node, or an ext2 node of its own. */
    ghost predicate Mountable(node: NodeRef)
      reads driver.disk, initrd, initrd.fileEntries, initrd.nodes, initrd.dirents, Object(node)
    {
      initrd.Valid() && (node != Null ==> StandsFor(node, PlaceOf(node)) && node != Ext2Node(driver.target))
    }

    constructor (driver: Driver, initrd: Tar.Initrd)
      requires initrd.Valid()
      ensures Valid() && this.driver == driver && this.initrd == initrd
      ensures rootNode == Null && mountCount == 0 && fresh(mounts)
    {
      this.driver, this.initrd, rootNode, mountCount := driver, initrd, Null, 0;
      mounts := new Mount[8](_ => Mount([], Null));
    }

    /** vfs_mount: "/" replaces the root and the first row of the table, any other path takes the
        next row, if there is one. */
    method MountAt(path: seq<Byte>, node: NodeRef) returns (r: int)
      requires Valid() && |path| <= 127 && (path == [SLASH] ==> Mountable(node))
      modifies this, mounts
      ensures Valid() && r == if path == [SLASH] || old(mountCount) < MAX_MOUNTS then 0 else -1
      ensures path == [SLASH] ==>
        rootNode == node && mountCount == (if old(mountCount) == 0 then 1 else old(mountCount)) &&
        mounts[..] == old(mounts[..])[0 := Mount(path, node)]
      ensures path != [SLASH] ==>
        rootNode == old(rootNode) && mountCount == old(mountCount) + (if r == 0 then 1 else 0) &&
        mounts[..] == if r == 0 then old(mounts[..])[old(mountCount) := Mount(path, node)] else old(mounts[..])
    {
      hide PlaceValid, IsDirectory, Tar.Filled;
      if path == [SLASH] {
        rootNode := node;
        mounts[0] := Mount(path, node);
        if mountCount == 0 {
          mountCount := 1;
        }
        return 0;
      }
      if mountCount < MAX_MOUNTS {
        mounts[mountCount] := Mount(path, node);
        mountCount := mountCount + 1;
        return 0;
      }
      return -1;
    }

    /** ext2_mount's root node, mounted on "/". */
    method MountRoot()
      requires Valid() && TreeValid(driver.g, driver.disk[..])
      modifies this, mounts
      ensures Valid() && rootNode.Ext2Node? && fresh(rootNode.node) && mountCount > 0
      ensures StandsFor(rootNode, AtInode(2))
    {
      AndDirectory();
      var node := new Node(2, VFS_DIRECTORY, 0x1ED);
      var _ := MountAt([SLASH], Ext2Node(node));
    }

    /** The boot code's mount of a parsed initrd. */
    method MountInitrd()
      requires Valid() && Tar.Filled(initrd.nodes[..], initrd.dirents[..], initrd.fileEntries[..initrd.fileCount])
      modifies this, mounts
      ensures Valid() && rootNode == TarNode(0) && mountCount > 0 && StandsFor(rootNode, AtTar(0))
    {
      var _ := MountAt([SLASH], TarNode(0));
    }

    /** vfs_finddir: a lookup through the node's own function, for directories only. */
    method Finddir(node: NodeRef, name: seq<Byte>) returns (found: NodeRef)
      requires node != Null ==> StandsFor(node, PlaceOf(node))
      requires forall i :: 0 <= i < |name| ==> name[i] != 0
      modifies driver.target
      ensures node == Null ==> found == Null
      ensures node != Null ==> old(PlaceValid(Now(), PlaceOf(node)))
      ensures node != Null ==>
        match old(Lookup(Now(), PlaceOf(node), name))
        case None => found == Null
        case Some(p) => StandsFor(found, p) && p == PlaceOf(found)
    {
      hide PlaceValid, Lookup, IsDirectory, InodeAt, Tar.Filled;
      match node
      case Null =>
        return Null;
      case Ext2Node(o) =>
        found := FinddirExt2(o, name);
      case TarNode(i) =>
        found := FinddirTar(i, name);
    }

    method FinddirExt2(o: Node, name: seq<Byte>) returns (found: NodeRef)
      requires StandsFor(Ext2Node(o), AtInode(o.inode))
      requires forall i :: 0 <= i < |name| ==> name[i] != 0
      modifies driver.target
      ensures old(PlaceValid(Now(), AtInode(o.inode)))
      ensures match old(Lookup(Now(), AtInode(o.inode), name))
        case None => found == Null
        case Some(p) => StandsFor(found, p) && p == PlaceOf(found)
    {
      AndDirectory();
      if And(o.flags, VFS_DIRECTORY) == 0 {
        return Null;
      }
      var next := driver.NodeFinddir(o, name);
      return if next == null then Null else Ext2Node(next);
    }

    method FinddirTar(i: nat, name: seq<Byte>) returns (found: NodeRef)
      requires StandsFor(TarNode(i), AtTar(i))
      ensures PlaceValid(Now(), AtTar(i))
      ensures match Lookup(Now(), AtTar(i), name)
        case None => found == Null
        case Some(p) => StandsFor(found, p) && p == PlaceOf(found)
    {
      hide Tar.Filled;
      TarFlags(i);
      if And(initrd.nodes[i].flags, Tar.VFS_DIRECTORY) == 0 || !initrd.nodes[i].listed {
        return Null;
      }
      IndexInside(initrd.fileEntries[..initrd.fileCount], name);
      var k := initrd.Finddir(name);
      return match k case None => Null case Some(j) => TarNode(j);
    }

    lemma TarFlags(i: nat)
      requires initrd.Valid() && i <= initrd.fileCount
      requires Tar.Filled(initrd.nodes[..], initrd.dirents[..], initrd.fileEntries[..initrd.fileCount])
      ensures And(initrd.nodes[i].flags, Tar.VFS_DIRECTORY) != 0 && initrd.nodes[i].listed <==> i == 0
    {
      AndDirectory();
      var nodes := initrd.nodes[..];
      assert nodes[0] == initrd.nodes[0];
      if i > 0 {
        var k := i - 1;
        assert nodes[k + 1] == initrd.nodes[i] == Tar.FileNode(k, initrd.fileEntries[..initrd.fileCount][k]);
      }
    }

    /** Copies the next token into the buffer and passes the slash after it. */
    method CopyToken(path: seq<Byte>, start: nat, token: array<Byte>) returns (i: nat, j: nat)
      requires start < |path| && token.Length == 128 && TokenLength(path[start..]) <= 127
      modifies token
      ensures start < i <= |path| && path[i..] == AfterToken(path[start..])
      ensures j == TokenLength(path[start..]) && token[..j] == path[start..][..j]
    {
      hide TokenLength, AfterToken;
      ghost var rest := path[start..];
      i, j := start, 0;
      while i < |path| && path[i] != SLASH
        invariant 0 <= j <= TokenLength(rest) && i == start + j <= |path|
        invariant forall k :: 0 <= k < j ==> token[k] == rest[k]
      {
        token[j] := path[i];
        i, j := i + 1, j + 1;
      }
      token[j] := 0;
      if i < |path| {
        i := i + 1;
      }
      AfterIs(path, start, j, i);
    }

    /** vfs_resolve_path walks the text once; the result stands for the place the fold of lookups
        reaches from the mounted root, whatever the slashes, though on ext2 every step reuses the
        one static node. */
    method ResolvePath(path: seq<Byte>) returns (found: NodeRef)
      requires Valid() && forall i :: 0 <= i < |path| ==> path[i] != 0
      requires forall c :: c in Components(path) ==> |c| <= 127
      modifies driver.target
      ensures path == [] || path[0] != SLASH || rootNode == Null ==> found == Null
      ensures path != [] && path[0] == SLASH && rootNode != Null ==> PlaceValid(Now(), PlaceOf(rootNode))
      ensures path != [] && path[0] == SLASH && rootNode != Null ==>
        match Resolve(Now(), PlaceOf(rootNode), Components(path))
        case None => found == Null
        case Some(p) => StandsFor(found, p) && p == PlaceOf(found)
    {
      hide PlaceValid, Lookup, Components, TokenLength, AfterToken, Tar.Filled, IsDirectory, InodeAt;
      if path == [] || path[0] != SLASH {
        return Null;
      }
      if rootNode == Null {
        return Null;
      }
      var current := rootNode;
      LeadingSlash(path);
      Stands(current);
      ghost var w, start, names := Now(), PlaceOf(rootNode), Components(path);
      if |path| == 1 {
        return current;
      }
      var token := new Byte[128];
      var i := 1;
      while i < |path|
        invariant 1 <= i <= |path| && Valid() && Now() == w && PlaceOf(rootNode) == start
        invariant current != Null && StandsFor(current, PlaceOf(current)) && PlaceValid(w, PlaceOf(current))
        invariant Resolve(w, start, names) == Resolve(w, PlaceOf(current), Components(path[i..]))
        invariant forall c :: c in Components(path[i..]) ==> |c| <= 127
      {
        ghost var rest := path[i..];
        TokenStep(rest);
        TokenShort(rest);
        var j: nat;
        i, j := CopyToken(path, i, token);
        if j > 0 {
          var name := token[..j];
          ResolveStep(w, PlaceOf(current), name, Components(AfterToken(rest)));
          var next := Finddir(current, name);
          if next == Null {
            NullStandsForNothing();
            return Null;
          }
          current := next;
          Stands(current);
        }
      }
      NothingLeft(w, PlaceOf(current), path);
      return current;
    }

    /** vfs_read: the node's own function, if it has one; a tar directory has none. */
    method VfsRead(node: NodeRef, offset: nat, size: nat, buffer: array<Byte>) returns (count: nat)
      requires node != Null ==> StandsFor(node, PlaceOf(node)) && Readable(Now(), initrd.mem[..], PlaceOf(node))
      requires buffer != driver.disk && buffer != initrd.mem && size <= buffer.Length
      requires node.TarNode? && node.i > 0 ==> offset + size < 0x1_0000_0000
      modifies buffer
      ensures node == Null ==> count == 0 && buffer[..] == old(buffer[..])
      ensures node != Null ==>
        var part := ReadSlice(old(BytesOf(Now(), initrd.mem[..], PlaceOf(node))), offset, size);
        count == |part| <= buffer.Length && buffer[..] == Splice(old(buffer[..]), 0, part)
    {
      hide PlaceValid, IsDirectory, Tar.Filled, InodeAt, Content, FileValid, Splice, ReadSlice;
      match node
      case Null =>
        return 0;
      case Ext2Node(o) =>
        count := ReadExt2(o, offset, size, buffer);
      case TarNode(i) =>
        count := ReadTar(i, offset, size, buffer);
    }

    method ReadExt2(o: Node, offset: nat, size: nat, buffer: array<Byte>) returns (count: nat)
      requires StandsFor(Ext2Node(o), AtInode(o.inode)) && Readable(Now(), initrd.mem[..], AtInode(o.inode))
      requires buffer != driver.disk && size <= buffer.Length
      modifies buffer
      ensures
        var part := ReadSlice(old(BytesOf(Now(), initrd.mem[..], AtInode(o.inode))), offset, size);
        count == |part| <= buffer.Length && buffer[..] == Splice(old(buffer[..]), 0, part)
    {
      hide IsDirectory, InodeAt, Content, FileValid, Splice;
      count := driver.NodeRead(o, offset, size, buffer);
    }

    method ReadTar(i: nat, offset: nat, size: nat, buffer: array<Byte>) returns (count: nat)
      requires StandsFor(TarNode(i), AtTar(i)) && Readable(Now(), initrd.mem[..], AtTar(i))
      requires buffer != initrd.mem && size <= buffer.Length && (i > 0 ==> offset + size < 0x1_0000_0000)
      modifies buffer
      ensures
        var part := ReadSlice(old(BytesOf(Now(), initrd.mem[..], AtTar(i))), offset, size);
        count == |part| <= buffer.Length && buffer[..] == Splice(old(buffer[..]), 0, part)
    {
      hide Splice, ReadSlice, Tar.Opens;
      TarRead(i);
      NothingSpliced(buffer[..]);
      if !initrd.nodes[i].readable {
        NothingToRead(offset, size);
        return 0;
      }
      ghost var data := BytesOf(Now(), initrd.mem[..], AtTar(i));
      SlicesAgree(data, offset, size);
      count := Tar.ReadOpen(initrd, i, offset, size, buffer, data);
    }

    lemma TarRead(i: nat)
      requires StandsFor(TarNode(i), AtTar(i)) && Readable(Now(), initrd.mem[..], AtTar(i))
      ensures initrd.Valid() && i <= initrd.fileCount
      ensures i == 0 ==> !initrd.nodes[0].readable
      ensures i > 0 ==>
        initrd.nodes[i].readable && Tar.Opens(initrd, i, BytesOf(Now(), initrd.mem[..], AtTar(i)))
    {
      var nodes, entries := initrd.nodes[..], initrd.fileEntries[..initrd.fileCount];
      if i > 0 {
        var k := i - 1;
        assert nodes[k + 1] == Tar.FileNode(k, entries[k]) && entries[k] == initrd.fileEntries[k];
      }
    }

    /** The place a path leads to. */
    ghost function Resolved(path: seq<Byte>): (p: Option<Place>)
      requires Valid()
      reads this, driver.disk, initrd, initrd.fileEntries, initrd.nodes, initrd.dirents, Object(rootNode)
      ensures p.Some? ==> PlaceValid(Now(), p.value)
    {
      if path == [] || path[0] != SLASH || rootNode == Null then None
      else Resolve(Now(), PlaceOf(rootNode), Components(path))
    }

    /** Opening a file by its path and reading as many bytes as its node says gives the bytes of the
        file the path leads to, whichever file system is mounted. */
    method ReadPath(path: seq<Byte>) returns (data: Option<seq<Byte>>)
      requires Valid() && forall i :: 0 <= i < |path| ==> path[i] != 0
      requires forall c :: c in Components(path) ==> |c| <= 127
      requires Resolved(path).Some? ==> Readable(Now(), initrd.mem[..], Resolved(path).value)
      modifies driver.target
      ensures match old(Resolved(path))
        case None => data == None
        case Some(p) => data.Some? && (IsFile(old(Now()), p) ==> data.value == old(BytesOf(Now(), initrd.mem[..], p)))
    {
      hide PlaceValid, Resolve, Components, StandsFor, Readable, IsFile, BytesOf, ReadSlice;
      var node := ResolvePath(path);
      NullStandsForNothing();
      if node == Null {
        return None;
      }
      Stands(node);
      LengthOfFile(node);
      data := ReadAll(node, Length(node));
    }

    /** The length a node shows. */
    function Length(node: NodeRef): nat
      requires node.TarNode? ==> node.i < initrd.nodes.Length
      reads Object(node), initrd.nodes
    {
      match node case Null => 0 case Ext2Node(o) => o.length case TarNode(i) => initrd.nodes[i].length
    }

    lemma LengthOfFile(node: NodeRef)
      requires node != Null && StandsFor(node, PlaceOf(node)) && Readable(Now(), initrd.mem[..], PlaceOf(node))
      ensures node.TarNode? ==> node.i < initrd.nodes.Length && (node.i > 0 ==> Length(node) < 0x1_0000_0000)
      ensures var data := BytesOf(Now(), initrd.mem[..], PlaceOf(node));
        IsFile(Now(), PlaceOf(node)) ==> ReadSlice(data, 0, Length(node)) == data
    {
      hide IsDirectory, InodeAt, Content, FileValid, Tar.Filled, Tar.Opens;
      if node.TarNode? {
        TarRead(node.i);
        TarLength(node.i);
      }
    }

    lemma TarLength(i: nat)
      requires StandsFor(TarNode(i), AtTar(i)) && Readable(Now(), initrd.mem[..], AtTar(i))
      ensures i > 0 ==> initrd.nodes[i].length == |BytesOf(Now(), initrd.mem[..], AtTar(i))| < 0x1_0000_0000
    {
      TarRead(i);
    }

    /** One read of size bytes into a buffer of its own. */
    method ReadAll(node: NodeRef, size: nat) returns (data: Option<seq<Byte>>)
      requires node != Null && StandsFor(node, PlaceOf(node)) && Readable(Now(), initrd.mem[..], PlaceOf(node))
      requires node.TarNode? && node.i > 0 ==> size < 0x1_0000_0000
      ensures data == Some(ReadSlice(BytesOf(Now(), initrd.mem[..], PlaceOf(node)), 0, size))
    {
      hide PlaceValid, IsDirectory, Tar.Filled, InodeAt, Content, FileValid, Splice, ReadSlice;
      ghost var part := ReadSlice(BytesOf(Now(), initrd.mem[..], PlaceOf(node)), 0, size);
      var buffer := new Byte[size];
      ghost var blank := buffer[..];
      var count := VfsRead(node, 0, size, buffer);
      Tar.SplicedFront(blank, part);
      return Some(buffer[..count]);
    }

    lemma Stands(node: NodeRef)
      requires StandsFor(node, PlaceOf(node))
      ensures initrd.Valid() && PlaceValid(Now(), PlaceOf(node)) && node != Null
    {
    }

    lemma NullStandsForNothing()
      ensures forall p :: !StandsFor(Null, p)
    {
    }
  }

  lemma SlicesAgree(data: seq<Byte>, offset: nat, size: nat)
    ensures Tar.Slice(data, offset, size) == ReadSlice(data, offset, size)
  {
  }

  lemma NothingToRead(offset: nat, size: nat)
    ensures ReadSlice([], offset, size) == []
  {
  }

  lemma NothingSpliced(s: seq<Byte>)
    ensures Splice(s, 0, []) == s
  {
  }

  lemma LeadingSlash(path: seq<Byte>)
    requires path != [] && path[0] == SLASH
    ensures Components(path) == Components(path[1..])
    ensures |path| == 1 ==> Components(path) == []
  {
  }

  /** The text after the token that starts at i0 and has j characters. */
  lemma AfterIs(path: seq<Byte>, i0: nat, j: nat, i: nat)
    requires i0 < |path| && j <= TokenLength(path[i0..])
    requires i0 + j >= |path| || path[i0 + j] == SLASH
    requires i == if i0 + j < |path| then i0 + j + 1 else i0 + j
    ensures j == TokenLength(path[i0..]) && i <= |path| && path[i..] == AfterToken(path[i0..])
  {
  }

  lemma NothingLeft(w: World, p: Place, path: seq<Byte>)
    requires PlaceValid(w, p)
    ensures Resolve(w, p, Components(path[|path|..])) == Some(p)
  {
  }

  // ---------- from the image to the bytes of a path ----------

  lemma {:induction false} OneToken(name: seq<Byte>)
    requires SLASH !in name
    ensures TokenLength(name) == |name|
  {
    if name != [] { OneToken(name[1..]); }
  }

  /** A slash and a name are a path of one component. */
  lemma OneComponent(name: seq<Byte>)
    requires SLASH !in name && name != []
    ensures Components([SLASH] + name) == [name]
  {
    hide Components, TokenLength;
    OneToken(name);
    ComponentsStep([SLASH] + name);
    assert ([SLASH] + name)[1..] == name;
    ComponentsStep(name);
    ComponentsStep(name[|name|..]);
    assert name[..|name|] == name;
  }

  /** In the directory of a parsed image a path of one component leads to the first file of that
      name, and its bytes are that file's. */
  lemma InitrdPath(w: World, mem: seq<Byte>, address: nat, files: seq<Tar.File>, name: seq<Byte>)
    requires Tar.ImageAt(mem, address, files) && w.files == Tar.First32(Tar.Table(files, address))
    ensures match Resolve(w, AtTar(0), [name])
      case None => forall j :: 0 <= j < |files| && j < 32 ==> files[j].name != name
      case Some(p) =>
        && p.AtTar? && p.i >= 1 && Tar.FirstNamed(files, name, p.i - 1)
        && Readable(w, mem, p) && IsFile(w, p) && BytesOf(w, mem, p) == files[p.i - 1].data
  {
    hide Tar.ImageAt, Tar.Table, Tar.First32, Tar.FindIndex;
    Tar.FindsFirst(files, address, name);
    ResolveStep(w, AtTar(0), name, []);
    assert [name] + [] == [name];
    var found := Tar.FindIndex(w.files, name);
    if found.Some? {
      Tar.FileInTable(mem, address, files, found.value);
      assert Resolve(w, AtTar(found.value + 1), []) == Some(AtTar(found.value + 1));
    }
  }

  /** Parsing an image, mounting it and opening a path under it gives the bytes of the first of the
      recorded files with that name, and nothing when none of them has it. */
  method ReadFromInitrd(fs: FileSystem, address: nat, name: seq<Byte>, ghost files: seq<Tar.File>)
    returns (data: Option<seq<Byte>>)
    requires fs.Valid() && fs.rootNode == Null && fs.initrd.Valid()
    requires Tar.ImageAt(fs.initrd.mem[..], address, files)
    requires 1 <= |name| <= 127 && SLASH !in name && 0 !in name
    modifies fs, fs.mounts, fs.driver.target
    modifies fs.initrd`fileCount, fs.initrd.fileEntries, fs.initrd.nodes, fs.initrd.dirents
    ensures data == None ==> forall j :: 0 <= j < |files| && j < 32 ==> files[j].name != name
    ensures data.Some? ==> exists k: nat :: Tar.FirstNamed(files, name, k) && data.value == files[k].data
  {
    hide Tar.ImageAt, Tar.Table, Tar.First32, Tar.Filled, Resolve, Components, BytesOf;
    fs.initrd.Parse(address, files);
    fs.MountInitrd();
    OneComponent(name);
    InitrdPath(fs.Now(), fs.initrd.mem[..], address, files, name);
    data := fs.ReadPath([SLASH] + name);
  }
}
