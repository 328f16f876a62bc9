/** Mounting a partition and loading a file by its path (loader/ext2fs.c:850-989,
    loader/file.c:83-101), without caches and buffers. */
module Volume {
  import opened Bytes
  import opened Partition
  import opened BlockMap
  import opened FileData
  import opened Directory
  import opened PathLookup

  const EXT2_MAGIC := 0xEF53

  /** The fields of struct ext2_sblock that the loader uses. A block size outside
      1 KiB to 64 KiB is Undefined. */
  function DecodeSuper(v: Cells, sb: seq<byte>): (r: Result<Fs>)
    requires |sb| == 204
    ensures r.Ok? ==> r.value.cells == v
  {
    if Le16(sb, 56) != EXT2_MAGIC then Err(NotExt2)
    else if 6 < Le32(sb, 24) then Err(Undefined)
    else
      var inodeSize := if Le32(sb, 76) == 0 then 128 else Le16(sb, 88);
      Ok(Fs(v, Le32(sb, 24), Le32(sb, 20), Le32(sb, 40), inodeSize))
  }

  /** ext2fs_mount: the file system and its root directory, inode 2. */
  function MountView(v: Cells): (r: Result<(Fs, Node)>)
    ensures r.Ok? ==> r.value.0.cells == v && r.value.1.ino == 2 && Faithful(r.value.0, r.value.1)
  {
    var sb :- VolRead(v, 2, 0, 204);
    var fs :- DecodeSuper(v, sb);
    var inode :- ReadInode(fs, 2);
    Ok((fs, Node(2, Some(inode))))
  }

  /** ext2fs_open: the inode of a regular file. */
  ghost function OpenFile(fs: Fs, root: Node, path: seq<byte>): Result<Inode> {
    var f :- FindFile(fs, root, path, root, Regular);
    NodeInode(fs, f.node)
  }

  /** What ext2fs_open and ext2fs_read give: the contents of the file. */
  ghost function Contents(fs: Fs, root: Node, path: seq<byte>): Result<seq<byte>> {
    var inode :- OpenFile(fs, root, path);
    Read(fs, inode, 0, inode.size)
  }

  /** The file a path means, by the usual meaning of paths. */
  ghost predicate Means(fs: Fs, path: seq<byte>, inode: Inode) {
    exists ino: nat ::
      Resolve(fs, 2, 2, Comps(path), MAX_LINKS) == Some((ino, Regular)) && ReadInode(fs, ino) == Ok(inode)
  }

  /** file_load: it mounts the partition every time. */
  ghost function Load(v: Cells, path: seq<byte>): Result<seq<byte>> {
    var m :- MountView(v);
    Contents(m.0, m.1, path)
  }

  /** Loading does not depend on where the partition lies on a disk, nor on what
      lies before and after it. */
  lemma EmbeddedLoad(before: Cells, v: Cells, after: Cells, path: seq<byte>)
    ensures Load(View(Part(before + v + after, |before|, |v|)), path) == Load(v, path)
  {
    hide View, Load;
    EmbeddedView(before, v, after);
  }

  /** Mounting is undefined exactly when what was read is a superblock of ext2 with
      blocks above 64 KiB, empty groups, or inodes that do not fit into blocks. */
  lemma MountEnds(v: Cells)
    ensures MountView(v) == Err(Undefined) <==>
              var sb := VolRead(v, 2, 0, 204);
              && sb.Ok? && Le16(sb.value, 56) == EXT2_MAGIC
              && (6 < Le32(sb.value, 24) || !Geometry(DecodeSuper(v, sb.value).value))
  {
    hide Le16, Le32, ReadInode, Readable, Values;
    var sb := VolRead(v, 2, 0, 204);
    if sb.Ok? && DecodeSuper(v, sb.value).Ok? {
      InodeDefined(DecodeSuper(v, sb.value).value, 2);
    }
  }

  /** With well-formed directories every file can be opened or is refused. */
  lemma OpenEnds(fs: Fs, root: Node, path: seq<byte>)
    requires Faithful(fs, root) && WellFormed(fs, root.ino)
    ensures OpenFile(fs, root, path) != Err(Undefined)
  {
    hide FindFile, ReadInode, Faithful, Below, DirOk;
    LookupsMean(fs, root);
    var f := FindFile(fs, root, path, root, Regular);
    if f.Ok? {
      InodeDefined(fs, f.value.node.ino);
    }
  }

  /** So loading from such a volume always ends, with the contents or an error that
      the loader reports. */
  lemma LoadEnds(v: Cells, path: seq<byte>)
    requires MountView(v) != Err(Undefined)
    requires MountView(v).Ok? ==> WellFormed(MountView(v).value.0, 2)
    ensures Load(v, path) != Err(Undefined)
  {
    hide MountView, OpenFile, ReadFrom, Piece, WellFormed;
    var m := MountView(v);
    if m.Ok? {
      var (fs, root) := m.value;
      OpenEnds(fs, root, path);
      var open := OpenFile(fs, root, path);
      if open.Ok? {
        ReadError(fs, open.value, 0, open.value.size);
      }
    }
  }

  /** Main result: from every volume that can be mounted, what loads is the contents
      of the regular file that the path means; and if all readable links name
      something, a path loads exactly when it means a regular file all of whose
      bytes can be read. */
  lemma LoadIsContents(v: Cells, path: seq<byte>)
    requires MountView(v).Ok?
    ensures var (fs, r) := (MountView(v).value.0, Load(v, path));
            && (r.Ok? ==> exists inode :: Means(fs, path, inode) && AllReadable(fs, inode, 0, inode.size)
                                          && |r.value| == inode.size && Holds(fs, inode, 0, r.value))
            && (LinksNameSomething(fs, 2) ==>
                  (r.Ok? <==> exists inode :: Means(fs, path, inode) && AllReadable(fs, inode, 0, inode.size)))
  {
    hide FindFrom, Resolve, ReadFrom, LinksNameSomething, AllReadable, Holds, ReadInode, MountView, Comps;
    var (fs, root) := MountView(v).value;
    FoundIsMeant(fs, root, path, root);
    FindIsResolve(fs, root);
    if LinksNameSomething(fs, 2) {
      assert Agree(fs, root, path);
      forall inode | Means(fs, path, inode) ensures OpenFile(fs, root, path) == Ok(inode) {
      }
    }
    var open := OpenFile(fs, root, path);
    if open.Ok? {
      assert Means(fs, path, open.value);
      ReadIsBytes(fs, open.value, 0, open.value.size);
    }
  }
}
