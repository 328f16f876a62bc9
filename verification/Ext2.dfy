/** The ext2 reader with its globals: block caches, symlink counter and mounted
    volume (loader/ext2fs.c). Every method is proved against the reference that
    knows nothing of caches and buffers. */
module Ext2 {
  import opened Bytes
  import opened Partition
  import opened BlockMap
  import opened BlockCache
  import opened FileData
  import opened Moves
  import opened Directory
  import opened PathLookup
  import opened ReadLoop
  import opened Volume

  class Reader {
    var part: Part         // ext2_data.part
    var fs: Fs             // the superblock of ext2fs_root and inode_size
    var root: Node         // ext2fs_root->diropen
    var mounted: bool      // ext2fs_root != NULL
    var file: Option<Inode> // ext2fs_file, loaded
    const one: Buffer      // indir1_*
    const two: Buffer      // indir2_*
    var symlinknest: nat
    const roomy: bool      // malloc always has room for a block

    /** The state before anything is mounted. */
    constructor (roomy: bool)
      ensures Ready() && Caches() == Cache(Empty, Empty) && this.roomy == roomy
    {
      this.roomy := roomy;
      one := new Buffer();
      two := new Buffer();
      part, fs, root := Part([], 0, 0), Fs([], 0, 0, 0, 0), Node(2, None);
      mounted, file, symlinknest := false, None, 0;
    }

    ghost predicate Valid()
      reads this, one, two
    {
      && one != two && one.Valid() && two.Valid()
      && (one.block != null ==> one.block != two.block)
      && fs.cells == View(part)
    }

    ghost function Caches(): Cache
      reads this, one, one.block, two, two.block
    {
      Cache(one.Abs(), two.Abs())
    }

    /** The caches hold blocks of the mounted volume only. */
    ghost predicate Ready()
      reads this, one, one.block, two, two.block
    {
      Valid() && Coherent(Caches(), fs.cells)
    }

    /** The caches still hold blocks of the mounted volume, unless what is said
        happened and the device does deliver parts of blocks. */
    ghost predicate ReadyUnless(short: bool)
      reads this, one, one.block, two, two.block
    {
      Valid() && (Ready() || (short && !WholeBlocks(fs)))
    }

    /** malloc had no room for a block. */
    predicate OutOfMemory<T>(r: Result<T>) { !roomy && r.Err? && r.error == NoMem }

    /** So a lookup failed, perhaps of a link, whose errors all become not-found. */
    predicate Starved<T>(r: Result<T>) { !roomy && r.Err? && (r.error == NoMem || r.error == NotFound) }

    /** Cache buffers are kept, dropped or newly allocated. */
    twostate predicate BuffersMoved()
      reads this, one, two
    {
      && (one.block == old(one.block) || one.block == null || fresh(one.block))
      && (two.block == old(two.block) || two.block == null || fresh(two.block))
    }

    /** The single indirect branch of ext2fs_read_block. */
    method ReadSingle(inode: Inode, fb: nat, mem1: bool, mem2: bool) returns (r: Result<nat>)
      requires Valid() && DIRECT <= fb < DIRECT + fs.PerBlock()
      modifies one, one.block
      ensures Valid() && BuffersMoved()
      ensures (Caches(), r) == SingleStep(old(Caches()), Request(fs, inode, fb, mem1, mem2))
    {
      hide Fetch, VolRead, View;
      KeyNeverSentinel(fs, inode.Ptr(12));
      var load := one.Load(part, fs.Sector(inode.Ptr(12)), fs.BlockSize(), mem1);
      if load.Err? {
        return Err(load.error);
      }
      return Ok(Le32(one.block[..], 4 * (fb - DIRECT)));
    }

    /** The double indirect branch of ext2fs_read_block. */
    method ReadDouble(inode: Inode, fb: nat, mem1: bool, mem2: bool) returns (r: Result<nat>)
      requires Valid() && var p := fs.PerBlock(); DIRECT + p <= fb < DIRECT + p * (p + 1)
      modifies one, one.block, two, two.block
      ensures Valid() && BuffersMoved()
      ensures (Caches(), r) == DoubleStep(old(Caches()), Request(fs, inode, fb, mem1, mem2))
    {
      hide Fetch, VolRead, View, Le32;
      var perblock := fs.PerBlock();
      var rblock := fb - (DIRECT + perblock);
      DoubleIndices(perblock, fb);
      KeyNeverSentinel(fs, inode.Ptr(13));
      var load := one.Load(part, fs.Sector(inode.Ptr(13)), fs.BlockSize(), mem1);
      if load.Err? {
        return Err(load.error);
      }
      var inner := Le32(one.block[..], 4 * (rblock / perblock));
      KeyNeverSentinel(fs, inner);
      load := two.Load(part, fs.Sector(inner), fs.BlockSize(), mem2);
      if load.Err? {
        return Err(load.error);
      }
      return Ok(Le32(two.block[..], 4 * (rblock % perblock)));
    }

    /** ext2fs_read_block: the caches step as specified; from coherent caches the
        answer is that of the uncached walk, and they stay so exactly if no lookup
        tears a block. */
    method ReadBlock(inode: Inode, fb: nat, mem1: bool, mem2: bool) returns (r: Result<nat>)
      requires Valid()
      modifies one, one.block, two, two.block
      ensures Valid() && BuffersMoved()
      ensures (Caches(), r) == ReadBlockStep(old(Caches()), Request(fs, inode, fb, mem1, mem2))
      ensures old(Ready()) ==> r == Walk(fs, inode, fb) || (!(mem1 && mem2) && r == Err(NoMem))
      ensures old(Ready()) ==> (Ready() <==> !Tears(old(Caches()), Request(fs, inode, fb, mem1, mem2)))
      ensures old(Ready()) ==> ReadyUnless(r == Walk(fs, inode, fb) == Err(ShortRead))
    {
      hide Walk, SingleStep, DoubleStep, View, Agrees, WholeBlocks, Tears;
      if Ready() {
        StepIsWalk(Caches(), Request(fs, inode, fb, mem1, mem2));
      }
      var p := fs.PerBlock();
      if fb < DIRECT {
        r := Ok(inode.Ptr(fb));
      } else if fb < DIRECT + p {
        r := ReadSingle(inode, fb, mem1, mem2);
      } else if fb < DIRECT + p * (p + 1) {
        r := ReadDouble(inode, fb, mem1, mem2);
      } else {
        r := Err(Corrupt);
      }
    }

    /** The buffer of a caller is none of the caches. */
    ghost predicate Apart(buf: array<byte>)
      reads one, two
    {
      buf != one.block && buf != two.block
    }

    /** One turn of the loop of ext2fs_read_file: n bytes from offset skip of a
        block, or hole zeros if the block is not stored, to buf from o on. */
    method CopyBlock(inode: Inode, fb: nat, skip: nat, n: nat, hole: nat, buf: array<byte>, o: nat)
      returns (r: Result<()>)
      requires Ready() && Apart(buf) && n <= hole
      requires o + n <= buf.Length && (IsHole(fs, inode, fb) ==> o + hole <= buf.Length)
      modifies one, one.block, two, two.block, buf
      ensures ReadyUnless(r == Err(ShortRead) && Walk(fs, inode, fb) == Err(ShortRead))
      ensures BuffersMoved() && Apart(buf)
      ensures var p := Piece(fs, inode, fb, skip, n);
              && (OutOfMemory(r) || ((r.Ok? <==> p.Ok?) && (r.Err? ==> r.error == p.error)))
              && (r.Ok? ==> p.Ok? && buf[..o + n] == old(buf[..o]) + p.value)
      ensures r.Ok? && IsHole(fs, inode, fb) ==> forall j :: o <= j < o + hole ==> buf[j] == 0
      ensures var touched := if IsHole(fs, inode, fb) then o + hole else o + n;
              buf[touched..] == old(buf[touched..])
    {
      hide Walk, VolRead, Delivered, Agrees, WholeBlocks, ReadBlockStep, Tears, View;
      var room1: bool, room2: bool := *, *;
      var b := ReadBlock(inode, fb, roomy || room1, roomy || room2);
      if b.Err? {
        return Err(b.error);
      }
      var sector := fs.Sector(b.value);
      if sector != 0 {
        r := PartRead(part, sector, skip, n, buf, o);
      } else {
        Memset(buf, o, 0, hole);
        r := Ok(());
      }
    }

    /** skipfirst and blockend of turn i. */
    static method Portion(bs: nat, pos: nat, len: nat, i: nat) returns (skipfirst: nat, blockend: int)
      requires 0 < bs
      ensures skipfirst == Skip(bs, pos, i) && blockend == Take(bs, pos, len, i)
    {
      skipfirst, blockend := 0, bs;
      if i == BlockCnt(bs, pos, len) - 1 {
        blockend := (len + pos) % bs;
        if blockend == 0 {
          blockend := bs;
        }
      }
      if i == pos / bs {
        skipfirst := pos % bs;
        blockend := blockend - skipfirst;
      }
    }

    /** The body of the loop of ext2fs_read_file: turn i appends its bytes to
        those already in buf and stays within the reach of the read; if the last
        block is a hole, zeros fill that reach. */
    method Turn(inode: Inode, pos: nat, len: nat, i: nat, buf: array<byte>, o: nat, ghost done: seq<byte>)
      returns (r: Result<nat>, ghost more: seq<byte>)
      requires Ready() && Apart(buf) && Reach(fs, inode, pos, len) <= buf.Length
      requires pos / fs.BlockSize() <= i < BlockCnt(fs.BlockSize(), pos, len)
      requires Stage(fs, inode, pos, len, i, done)
      requires o == |done| == At(fs.BlockSize(), pos, len, i) - pos && o <= buf.Length && buf[..o] == done
      modifies one, one.block, two, two.block, buf
      ensures ReadyUnless(r == Err(ShortRead) && Walk(fs, inode, i) == Err(ShortRead))
      ensures BuffersMoved() && Apart(buf)
      ensures r.Err? ==> OutOfMemory(r) || Read(fs, inode, pos, len) == Err(r.error)
      ensures r.Ok? ==> |more| <= buf.Length && buf[..|more|] == more
      ensures r.Ok? ==> Stage(fs, inode, pos, len, i + 1, more)
      ensures r.Ok? && i + 1 < BlockCnt(fs.BlockSize(), pos, len) ==>
                r.value == |more| == At(fs.BlockSize(), pos, len, i + 1) - pos
      ensures r.Ok? && i + 1 == BlockCnt(fs.BlockSize(), pos, len) && IsHole(fs, inode, i) ==>
                forall j :: |more| <= j < Reach(fs, inode, pos, len) ==> buf[j] == 0
      ensures buf[Reach(fs, inode, pos, len)..] == old(buf[Reach(fs, inode, pos, len)..])
    {
      hide Walk, Piece, Read, ReadFrom, Reach, IsHole, WholeBlocks, View, Stage, Chunk, Valid, Coherent, Caches;
      var bs := fs.BlockSize();
      var skipfirst, blockend := Portion(bs, pos, len, i);
      hide Take, Skip, BlockCnt, At;
      TurnFits(fs, inode, pos, len, i);
      TurnSizes(bs, pos, len, i);
      StageStep(fs, inode, pos, len, i, done);
      ghost var reach := Reach(fs, inode, pos, len);
      var turn := CopyBlock(inode, i, skipfirst, blockend, bs - skipfirst, buf, o);
      assert buf[reach..] == old(buf[reach..]) by {
        assert forall j :: reach <= j < buf.Length ==> buf[j] == old(buf[j]);
      }
      if turn.Err? {
        return Err(turn.error), done;
      }
      more := done + Piece(fs, inode, i, skipfirst, blockend).value;
      return Ok(o + bs - skipfirst), more;
    }

    /** The loop of ext2fs_read_file, for a length already clamped to the file size. */
    method ReadTurns(inode: Inode, pos: nat, len: nat, buf: array<byte>) returns (r: Result<()>)
      requires Ready() && Apart(buf) && Reach(fs, inode, pos, len) <= buf.Length
      modifies one, one.block, two, two.block, buf
      ensures ReadyUnless(r == Err(ShortRead) && ShortIn(fs, inode, pos, len))
      ensures BuffersMoved() && Apart(buf)
      ensures r.Err? ==> OutOfMemory(r) || Read(fs, inode, pos, len) == Err(r.error)
      ensures r.Ok? ==>
                && len <= buf.Length && Read(fs, inode, pos, len) == Ok(buf[..len])
                && forall j :: len <= j < Reach(fs, inode, pos, len) ==> buf[j] == 0
      ensures buf[Reach(fs, inode, pos, len)..] == old(buf[Reach(fs, inode, pos, len)..])
    {
      hide Walk, Piece, Read, ReadFrom, Reach, IsHole, WholeBlocks, View, Stage, Chunk, At, BlockCnt, Valid, Coherent,
        Caches, ShortIn;
      var bs := fs.BlockSize();
      var blockcnt := BlockCnt(bs, pos, len);
      var i, o := pos / bs, 0;
      ghost var reach := Reach(fs, inode, pos, len);
      ghost var done: seq<byte> := [];
      StageStart(fs, inode, pos, len);
      AtStart(bs, pos, len);
      ReachOfStored(fs, inode, pos, len);
      while i < blockcnt
        invariant Ready() && BuffersMoved() && Apart(buf)
        invariant pos / bs <= i && |done| <= buf.Length && buf[..|done|] == done
        invariant Stage(fs, inode, pos, len, i, done)
        invariant i < blockcnt ==> o == |done| == At(bs, pos, len, i) - pos
        invariant pos / bs < i && i == blockcnt && IsHole(fs, inode, blockcnt - 1) ==>
                    forall j :: |done| <= j < reach ==> buf[j] == 0
        invariant pos / bs < blockcnt ==> i <= blockcnt
        invariant buf[reach..] == old(buf[reach..])
      {
        var turn;
        turn, done := Turn(inode, pos, len, i, buf, o, done);
        if turn.Err? {
          ShortTurn(fs, inode, pos, len, i);
          return Err(turn.error);
        }
        i, o := i + 1, turn.value;
      }
      StageEnd(fs, inode, pos, len, i, done);
      ReadLength(fs, inode, pos, len);
      return Ok(());
    }

    /** ext2fs_read_file: on success exactly the bytes of the range are in the
        buffer, zeros up to its reach, and nothing past it is touched. */
    method ReadFile(inode: Inode, pos: nat, length: nat, buf: array<byte>) returns (r: Result<()>)
      requires Ready() && Apart(buf)
      requires var len := Min(length, inode.size);
               Reach(fs, inode, pos, len) <= buf.Length && pos + len + fs.BlockSize() <= WORD
      modifies one, one.block, two, two.block, buf
      ensures ReadyUnless(r == Err(ShortRead) && ShortIn(fs, inode, pos, Min(length, inode.size)))
      ensures BuffersMoved() && Apart(buf)
      ensures var len := Min(length, inode.size);
              var d := Read(fs, inode, pos, len);
              && (OutOfMemory(r) || ((r.Ok? <==> d.Ok?) && (r.Err? ==> r.error == d.error)))
              && (r.Ok? ==> d.Ok? && len <= buf.Length && buf[..len] == d.value)
              && (r.Ok? ==> forall j :: 0 <= j < len ==> AtCell(fs, inode, pos + j, buf[j]))
              && (r.Ok? ==> forall j :: len <= j < Reach(fs, inode, pos, len) ==> buf[j] == 0)
              && buf[Reach(fs, inode, pos, len)..] == old(buf[Reach(fs, inode, pos, len)..])
    {
      hide Read, Reach, WholeBlocks, View, Valid, Coherent, Caches, ShortIn, AtCell;
      ghost var len := Min(length, inode.size);
      ReadCells(fs, inode, pos, len);
      r := ReadTurns(inode, pos, Min(length, inode.size), buf);
      assert r.Ok? ==> forall j :: 0 <= j < len ==> buf[j] == buf[..len][j];
    }

    /** Read n bytes of the partition into a local buffer. */
    static method ReadLocal(p: Part, sector: nat, off: nat, n: nat) returns (r: Result<array<byte>>)
      ensures var v := VolRead(View(p), sector, off, n);
              && (r.Ok? <==> v.Ok?) && (r.Err? ==> r.error == v.error)
              && (r.Ok? ==> fresh(r.value) && r.value[..] == v.value)
    {
      hide VolRead, View;
      var buf := new byte[n];
      var read := PartRead(p, sector, off, n, buf, 0);
      if read.Err? {
        return Err(read.error);
      }
      return Ok(buf);
    }

    /** ext2fs_blockgroup and ext2fs_read_inode. */
    method LoadInode(ino: nat) returns (r: Result<Inode>)
      requires Valid() && ReadInode(fs, ino) != Err(Undefined)
      ensures r == ReadInode(fs, ino)
    {
      hide VolRead, View, Le32;
      var idx := (ino - 1) % WORD;
      var group := idx / fs.ipg;
      var perBlock := fs.BlockSize() / 32;
      var blk := (fs.firstData + 1 + group / perBlock) % WORD;
      var desc := ReadLocal(part, fs.Sector(blk), group % perBlock * 32, 32);
      if desc.Err? {
        return Err(desc.error);
      }
      var place := InodePlace(fs.BlockSize(), fs.inodeSize, fs.ipg, Le32(desc.value[..], 8), idx);
      var raw := ReadLocal(part, fs.Sector(place.0), place.1, 128);
      if raw.Err? {
        return Err(raw.error);
      }
      return Ok(DecodeInode(raw.value[..]));
    }

    /** The inode of a node, read if it is not loaded yet. */
    method InodeOf(node: Node) returns (r: Result<Inode>)
      requires Valid() && NodeInode(fs, node) != Err(Undefined)
      ensures r == NodeInode(fs, node)
    {
      if node.loaded.Some? {
        return Ok(node.loaded.value);
      }
      r := LoadInode(node.ino);
    }

    /** Read a piece of a file into a local buffer of cap bytes. */
    method ReadPiece(inode: Inode, pos: nat, len: nat, cap: nat) returns (r: Result<seq<byte>>)
      requires Ready() && len <= cap && ReadInto(fs, inode, pos, len, cap) != Err(Undefined)
      modifies one, one.block, two, two.block
      ensures BuffersMoved() && ReadyUnless(r == Err(ShortRead) && ShortIn(fs, inode, pos, len))
      ensures r == ReadInto(fs, inode, pos, len, cap) || OutOfMemory(r)
    {
      hide Reach, Read, View, WholeBlocks, Valid, Coherent, Caches, ShortIn;
      var buf := new byte[cap];
      var read := ReadFile(inode, pos, len, buf);
      if read.Err? {
        return Err(read.error);
      }
      return Ok(buf[..len]);
    }

    /** One record of the loop of ext2fs_iterate_dir, header h: its node if it has the name. */
    method CheckRecord(dir: Inode, name: Name, at: nat, h: seq<byte>) returns (r: Result<Option<Found>>)
      requires Ready() && |h| == 8 && ScanRecord(fs, dir, name, at, h) != Err(Undefined)
      modifies one, one.block, two, two.block
      ensures BuffersMoved() && ReadyUnless(r == Err(ShortRead) && h[6] != 0 && NameShort(fs, dir, at + 8, h[6]))
      ensures r == ScanRecord(fs, dir, name, at, h) || OutOfMemory(r)
    {
      hide ReadInto, View, WholeBlocks, ReadInode, Le32, Valid, Coherent, Caches, ShortIn;
      if h[6] == 0 {
        return Ok(None);
      }
      var raw := ReadPiece(dir, at + 8, h[6], (h[6] as int) + 1);
      if raw.Err? {
        return Err(raw.error);
      }
      var found: Found;
      if h[7] != 0 {
        found := Found(Node(Le32(h, 0), None), DirentKind(h[7]));
      } else {
        var inode := LoadInode(Le32(h, 0));
        if inode.Err? {
          return Err(inode.error);
        }
        found := Found(Node(Le32(h, 0), Some(inode.value)), ModeKind(inode.value.mode));
      }
      return Ok(if CStr(raw.value) == name then Some(found) else None);
    }

    /** ext2fs_iterate_dir, looking for a name. */
    method IterateDir(dir: Node, name: Name) returns (r: Result<Found>)
      requires Ready() && Lookup(fs, dir, name) != Err(Undefined)
      modifies one, one.block, two, two.block
      ensures BuffersMoved() && ReadyUnless(r == Err(ShortRead) && LookupShort(fs, dir, name))
      ensures r == Lookup(fs, dir, name) || OutOfMemory(r)
    {
      hide ReadInto, View, WholeBlocks, ReadInode, ScanRecord, Valid, Coherent, Caches, ShortIn, NameShort,
        Scan, ScanShort;
      var inode := InodeOf(dir);
      if inode.Err? {
        return Err(inode.error);
      }
      var fpos := 0;
      while fpos < inode.value.size
        invariant Ready() && BuffersMoved()
        invariant Scan(fs, inode.value, name, fpos) == Lookup(fs, dir, name)
        invariant ScanShort(fs, inode.value, name, fpos) ==> LookupShort(fs, dir, name)
      {
        ScanUnroll(fs, inode.value, name, fpos);
        var h := ReadPiece(inode.value, fpos, 8, 8);
        if h.Err? {
          return Err(h.error);
        }
        var hit := CheckRecord(inode.value, name, fpos, h.value);
        if hit.Err? {
          return Err(hit.error);
        }
        if hit.value.Some? {
          return Ok(hit.value.value);
        }
        fpos := fpos + Le16(h.value, 4);
      }
      ScanDone(fs, inode.value, name, fpos);
      return Err(NotFound);
    }

    /** ext2fs_read_symlink. */
    method ReadSymlink(node: Node) returns (r: Result<seq<byte>>)
      requires Ready() && LinkText(fs, node) != Err(Undefined)
      modifies one, one.block, two, two.block
      ensures BuffersMoved() && ReadyUnless(r == Err(ShortRead) && LinkShort(fs, node))
      ensures r == LinkText(fs, node) || OutOfMemory(r)
    {
      hide ReadInto, View, WholeBlocks, ReadInode, Valid, Coherent, Caches, ShortIn;
      var inode := InodeOf(node);
      if inode.Err? {
        return Err(inode.error);
      }
      if inode.value.size <= 60 {
        return Ok(CStr(inode.value.b[..inode.value.size]));
      }
      var raw := ReadPiece(inode.value, 0, inode.value.size, inode.value.size + 1);
      if raw.Err? {
        return Err(raw.error);
      }
      return Ok(CStr(raw.value));
    }

    /** The private copy of the path: what follows position name is still as it was. */
    static ghost predicate Copied(fpath: array<byte>, path: seq<byte>, name: nat)
      reads fpath
    {
      fpath.Length == |path| + 1 && name <= |path| && fpath[name..] == path[name..] + [0]
    }

    /** Step over leading slashes. */
    static method SkipLeading(fpath: array<byte>, ghost path: seq<byte>) returns (name: nat)
      requires Copied(fpath, path, 0) && 0 !in path
      ensures Copied(fpath, path, name) && name < fpath.Length
      ensures Comps(path) == Comps(path[name..]) && (fpath[name] == 0 <==> name == |path|)
      ensures name < |path| ==> path[name] != SLASH
    {
      hide Comps, Span;
      name := 0;
      while fpath[name] == SLASH
        invariant Copied(fpath, path, name) && SkipSlashes(path, name) == SkipSlashes(path, 0)
        decreases |path| - name
      {
        assert fpath[name] == fpath[name..][0];
        name := name + 1;
      }
      assert fpath[name] == fpath[name..][0];
    }

    /** strchr(name, '/'), or the end of the string. */
    static method FindSlash(fpath: array<byte>, ghost path: seq<byte>, name: nat) returns (end: nat)
      requires Copied(fpath, path, name) && 0 !in path && name < |path| && path[name] != SLASH
      ensures end == name + Span(path[name..]) && name < end <= |path|
    {
      ghost var s := path[name..];
      assert forall j :: 0 <= j < |s| ==> s[j] in path;
      end := name;
      while fpath[end] != SLASH && fpath[end] != 0
        invariant name <= end <= name + Span(s)
        decreases |path| - end
      {
        assert fpath[end] == fpath[name..][end - name];
        end := end + 1;
      }
      assert fpath[end] == fpath[name..][end - name];
    }

    /** Overwrite the slashes from position end on by NULs. */
    static method WipeSlashes(fpath: array<byte>, ghost path: seq<byte>, end: nat) returns (next: nat)
      requires Copied(fpath, path, end) && (end < |path| ==> path[end] == SLASH)
      modifies fpath
      ensures next == SkipSlashes(path, end) && Copied(fpath, path, next)
      ensures fpath[end] == 0 && fpath[..end] == old(fpath[..end])
    {
      hide Comps;
      next := end;
      assert fpath[end] == fpath[end..][0];
      while fpath[next] == SLASH
        invariant end <= next && Copied(fpath, path, next)
        invariant fpath[..end] == old(fpath[..end])
        invariant if end < next then fpath[end] == 0 else fpath[end] == (path + [0])[end]
        invariant SkipSlashes(path, end) == SkipSlashes(path, next)
        decreases |path| - next
      {
        assert fpath[next] == fpath[next..][0];
        fpath[next] := 0;
        next := next + 1;
      }
      assert fpath[next] == fpath[next..][0];
    }

    /** What a cut path reads as, up to the first NUL. */
    static lemma CutReads(text: seq<byte>, path: seq<byte>, name: nat, end: nat)
      requires 0 !in path && name <= |path| && end == name + Span(path[name..])
      requires |text| == |path| + 1 - name && text[end - name] == 0
      requires text[..end - name] == path[name..end]
      ensures CStr(text) == path[name..][..Span(path[name..])]
      ensures name < |path| && path[name] != SLASH ==>
                Comps(path[name..]) == [CStr(text)] + Comps(path[SkipSlashes(path, end)..])
    {
      var s := path[name..];
      assert path[name..end] == s[..Span(s)];
      assert forall c :: c in s[..Span(s)] ==> c in path;
      CStrUnique(text, s[..Span(s)]);
      assert s[Span(s)..] == path[end..];
    }

    /** Cut the component at name off and return where the next one starts. */
    static method CutName(fpath: array<byte>, ghost path: seq<byte>, name: nat) returns (comp: Name, next: nat)
      requires Copied(fpath, path, name) && 0 !in path && name < |path| && path[name] != SLASH
      modifies fpath
      ensures name < next && Copied(fpath, path, next)
      ensures next <= |path| && next < fpath.Length && (fpath[next] == 0 <==> next == |path|)
      ensures next < |path| ==> path[next] != SLASH
      ensures Comps(path[name..]) == [comp] + Comps(path[next..])
    {
      hide Comps, Span, SkipSlashes;
      var end := FindSlash(fpath, path, name);
      assert fpath[..end][name..] == fpath[name..][..end - name] == path[name..end];
      next := WipeSlashes(fpath, path, end);
      assert fpath[name..][..end - name] == fpath[..end][name..];
      CutReads(fpath[name..], path, name, end);
      comp := CStr(fpath[name..]);
      assert fpath[next] == fpath[next..][0];
      assert next < |path| ==> path[next] in path;
    }

    /** A lookup ends as specified, with the count of links, or for want of memory. */
    ghost predicate Looked(r: Result<Found>, out: Outcome)
      reads this, one, one.block, two, two.block
    {
      || (r == out.found && symlinknest == out.nest && ReadyUnless(out.short))
      || (Starved(r) && symlinknest <= MAX_LINKS + 1 && Ready())
    }

    /** The symbolic link branch of ext2fs_find_file1, for a link found in directory here. */
    method FollowSymlink(here: Node, link: Node) returns (r: Result<Found>)
      requires Ready() && symlinknest <= MAX_LINKS
      requires FollowLink(fs, root, here, link, symlinknest).found != Err(Undefined)
      modifies `symlinknest, one, one.block, two, two.block
      ensures var out := FollowLink(fs, root, here, link, old(symlinknest));
              BuffersMoved() && Looked(r, out)
      decreases 8 - symlinknest, 0
    {
      hide WalkPath, LinkText, LinkShort, Comps, WholeBlocks, View, Agrees;
      symlinknest := symlinknest + 1;
      if symlinknest == 8 {
        return Err(Loop);
      }
      var text := ReadSymlink(link);
      if text.Err? {
        return Err(text.error);
      }
      var start := if Absolute(text.value) then root else here;
      r := FindFile1(text.value, start, Symlink);
      if r.Err? {
        return Err(NotFound);
      }
    }

    /** One component of the loop of ext2fs_find_file1. */
    method EnterName(here: Node, name: Name) returns (r: Result<Found>)
      requires Ready() && symlinknest <= MAX_LINKS
      requires Enter(fs, root, here, name, symlinknest).found != Err(Undefined)
      modifies `symlinknest, one, one.block, two, two.block
      ensures var out := Enter(fs, root, here, name, old(symlinknest));
              BuffersMoved() && Looked(r, out)
      decreases 8 - symlinknest, 1
    {
      hide Lookup, FollowLink, LookupShort, WholeBlocks, View, Valid, Coherent, Caches;
      r := IterateDir(here, name);
      if r.Ok? && r.value.kind == Symlink {
        r := FollowSymlink(here, r.value.node);
      }
    }

    /** The loop of ext2fs_find_file1, over the copy of the path from position first on. */
    method FindNames(fpath: array<byte>, ghost path: seq<byte>, first: nat, currroot: Node) returns (r: Result<Found>)
      requires Ready() && Apart(fpath) && symlinknest <= MAX_LINKS
      requires Copied(fpath, path, first) && 0 !in path && first < |path| && path[first] != SLASH
      requires Comps(path[first..]) != []
      requires WalkPath(fs, root, currroot, Kind.Directory, Comps(path[first..]), symlinknest).found != Err(Undefined)
      modifies `symlinknest, one, one.block, two, two.block, fpath
      ensures var out := WalkPath(fs, root, currroot, Kind.Directory, Comps(path[first..]), old(symlinknest));
              BuffersMoved() && Looked(r, out)
      decreases 8 - symlinknest, 2
    {
      hide Comps, WholeBlocks, View, Copied, Valid, Coherent, Caches, Enter, WalkPath;
      var name, node, type_ := first, currroot, Kind.Directory;
      ghost var out := WalkPath(fs, root, node, type_, Comps(path[name..]), symlinknest);
      while true
        invariant Ready() && BuffersMoved() && Apart(fpath)
        invariant Copied(fpath, path, name) && name < |path| && path[name] != SLASH
        invariant old(symlinknest) <= symlinknest <= MAX_LINKS && Comps(path[name..]) != []
        invariant WalkPath(fs, root, node, type_, Comps(path[name..]), symlinknest) == out
        decreases |path| - name
      {
        var comp, next := CutName(fpath, path, name);
        WalkOn(fs, root, node, type_, comp, Comps(path[next..]), symlinknest);
        if type_ != Kind.Directory {
          return Err(NotDir);
        }
        var hit := EnterName(node, comp);
        if hit.Err? {
          return hit;
        }
        if fpath[next] == 0 {
          assert path[next..] == [];
          NoComps();
          return hit;
        }
        SomeComps(path[next..]);
        name, node, type_ := next, hit.value.node, hit.value.kind;
      }
    }

    /** ext2fs_find_file1. It works on a private copy of the path that it cuts into
        components in place. kind is what *foundtype holds on entry. */
    method FindFile1(path: seq<byte>, currroot: Node, kind: Kind) returns (r: Result<Found>)
      requires Ready() && 0 !in path && symlinknest <= MAX_LINKS
      requires FindFrom(fs, root, path, currroot, kind, symlinknest).found != Err(Undefined)
      modifies `symlinknest, one, one.block, two, two.block
      ensures var out := FindFrom(fs, root, path, currroot, kind, old(symlinknest));
              BuffersMoved() && Looked(r, out)
      decreases 8 - symlinknest, 3
    {
      hide Comps, WholeBlocks, View, Valid, Coherent, Caches, WalkPath;
      var fpath := new byte[|path| + 1](i requires 0 <= i => if i < |path| then path[i] else 0);
      assert path[0..] == path && fpath[0..] == path + [0];
      var name := SkipLeading(fpath, path);
      if fpath[name] == 0 {
        NoComps();
        return Ok(Found(currroot, kind));
      }
      SomeComps(path[name..]);
      r := FindNames(fpath, path, name, currroot);
    }

    /** ext2fs_mount. It keeps the caches as they are: they are right for the new
        volume exactly if it holds the same blocks at their keys. */
    method Mount(p: Part) returns (r: Result<()>)
      requires Valid() && MountView(View(p)) != Err(Undefined)
      modifies `part, `fs, `root, `mounted
      ensures Valid() && mounted == r.Ok? && Caches() == old(Caches())
      ensures var m := MountView(View(p));
              && (r.Ok? <==> m.Ok?) && (r.Err? ==> r.error == m.error)
              && (r.Ok? ==> part == p && (fs, root) == m.value)
      ensures r.Ok? ==> (Ready() <==> Coherent(old(Caches()), View(p)))
      ensures old(Ready()) && Coherent(old(Caches()), View(p)) ==> Ready()
    {
      hide VolRead, View, Agrees, WholeBlocks;
      mounted := false;
      var sb := ReadLocal(p, 2, 0, 204);
      if sb.Err? {
        return Err(sb.error);
      }
      var super := DecodeSuper(View(p), sb.value[..]);
      if super.Err? {
        return Err(super.error);
      }
      part, fs := p, super.value;
      var inode := LoadInode(2);
      if inode.Err? {
        return Err(inode.error);
      }
      root, mounted := Node(2, Some(inode.value)), true;
      return Ok(());
    }

    /** ext2fs_close: with the buffers gone the caches are coherent for any volume. */
    method Close()
      requires Valid()
      modifies `mounted, `file, one, two
      ensures Ready() && !mounted && file == None && Caches() == Cache(Empty, Empty)
    {
      mounted, file := false, None;
      one.Drop();
      two.Drop();
    }

    /** ext2fs_find_file: every lookup starts with a fresh link count. */
    method FindFile(path: seq<byte>, rootnode: Node, wanted: Kind) returns (r: Result<Found>)
      requires Ready() && 0 !in path
      requires PathLookup.FindFile(fs, root, path, rootnode, wanted) != Err(Undefined)
      modifies `symlinknest, one, one.block, two, two.block
      ensures BuffersMoved() && ReadyUnless(r.Err? && FindFrom(fs, root, path, rootnode, Kind.Directory, 0).short)
      ensures r == PathLookup.FindFile(fs, root, path, rootnode, wanted) || Starved(r)
      ensures symlinknest <= MAX_LINKS + 1 && (r.Ok? ==> symlinknest <= MAX_LINKS)
    {
      hide FindFrom, WholeBlocks, View, Agrees;
      symlinknest := 0;
      r := FindFile1(path, rootnode, Kind.Directory);
      FindCount(fs, root, path, rootnode);
      if r.Err? {
        return r;
      }
      if wanted == Regular && r.value.kind != wanted {
        return Err(NotReg);
      } else if wanted == Kind.Directory && r.value.kind != wanted {
        return Err(NotDir);
      }
    }

    /** ext2fs_open. */
    method Open(filename: seq<byte>) returns (r: Result<nat>)
      requires Ready() && 0 !in filename
      requires mounted ==> OpenFile(fs, root, filename) != Err(Undefined)
      modifies `file, `symlinknest, one, one.block, two, two.block
      ensures BuffersMoved()
      ensures ReadyUnless(mounted && r.Err? && FindFrom(fs, root, filename, root, Kind.Directory, 0).short)
      ensures !mounted ==> r == Err(NotFound) && file == old(file)
      ensures mounted ==> var o := OpenFile(fs, root, filename);
                && (Starved(r) || ((r.Ok? <==> o.Ok?) && (r.Err? ==> r.error == o.error)))
                && (r.Err? ==> file == None)
                && (r.Ok? ==> o.Ok? && file == Some(o.value) && r.value == o.value.size)
    {
      hide PathLookup.FindFile, FindFrom, WholeBlocks, View, ReadInode, Agrees;
      if !mounted {
        return Err(NotFound);
      }
      file := None;
      var found := FindFile(filename, root, Regular);
      if found.Err? {
        return Err(found.error);
      }
      var inode := InodeOf(found.value.node);
      if inode.Err? {
        return Err(inode.error);
      }
      file := Some(inode.value);
      return Ok(inode.value.size);
    }

    /** Loading a path meets a block of pointers inside which the device stops. */
    static ghost predicate LoadShort(fs: Fs, root: Node, path: seq<byte>) {
      || FindFrom(fs, root, path, root, Kind.Directory, 0).short
      || var o := OpenFile(fs, root, path); o.Ok? && ShortIn(fs, o.value, 0, o.value.size)
    }

    /** The buffer is large enough for the file that a path opens. */
    static ghost predicate Room(fs: Fs, root: Node, path: seq<byte>, length: nat) {
      var o := OpenFile(fs, root, path);
      && o != Err(Undefined)
      && (o.Ok? ==> Reach(fs, o.value, 0, o.value.size) <= length && o.value.size + fs.BlockSize() <= WORD)
    }

    /** With well-formed directories only the size of the buffer matters. */
    static lemma RoomIs(fs: Fs, root: Node, path: seq<byte>, length: nat)
      requires Faithful(fs, root) && WellFormed(fs, root.ino)
      ensures Room(fs, root, path, length) <==>
                var o := OpenFile(fs, root, path);
                o.Ok? ==> Reach(fs, o.value, 0, o.value.size) <= length && o.value.size + fs.BlockSize() <= WORD
    {
      hide OpenFile, Reach, Faithful, WellFormed;
      OpenEnds(fs, root, path);
    }

    /** ext2fs_open and ext2fs_read of the whole file: from coherent caches the
        buffer receives the contents of the file the path names, whatever was
        looked up before, and the caches are coherent again for the next load. */
    method LoadFile(path: seq<byte>, buf: array<byte>) returns (r: Result<nat>)
      requires Ready() && Apart(buf) && mounted && 0 !in path
      requires Room(fs, root, path, buf.Length)
      modifies `file, `symlinknest, one, one.block, two, two.block, buf
      ensures BuffersMoved() && ReadyUnless(r.Err? && LoadShort(fs, root, path))
      ensures var c := Contents(fs, root, path);
              && (Starved(r) || ((r.Ok? <==> c.Ok?) && (r.Err? ==> r.error == c.error)))
              && (r.Ok? ==> c.Ok? && r.value == |c.value| <= buf.Length && buf[..r.value] == c.value)
    {
      hide OpenFile, FindFrom, Read, Reach, ShortIn, WholeBlocks, View, Valid, Coherent, Caches;
      var size := Open(path);
      if size.Err? {
        return size;
      }
      var read := ReadFile(file.value, 0, size.value, buf);
      if read.Err? {
        return Err(read.error);
      }
      return size;
    }

    /** file_load: the partition is mounted each time, over caches that may be left
        from another one. They have to hold what this one holds. */
    method LoadFrom(p: Part, path: seq<byte>, buf: array<byte>) returns (r: Result<nat>)
      requires Valid() && Coherent(Caches(), View(p)) && Apart(buf) && 0 !in path
      requires var m := MountView(View(p));
               m != Err(Undefined) && (m.Ok? ==> Room(m.value.0, m.value.1, path, buf.Length))
      modifies this, one, one.block, two, two.block, buf
      ensures BuffersMoved() && (r.Ok? ==> Ready())
      ensures mounted ==> part == p && ReadyUnless(r.Err? && LoadShort(fs, root, path))
      ensures var c := Load(View(p), path);
              && (Starved(r) || ((r.Ok? <==> c.Ok?) && (r.Err? ==> r.error == c.error)))
              && (r.Ok? ==> c.Ok? && r.value == |c.value| <= buf.Length && buf[..r.value] == c.value)
    {
      hide MountView, Contents, Room, LoadShort, Agrees, WholeBlocks, View;
      var mount := Mount(p);
      if mount.Err? {
        return Err(mount.error);
      }
      r := LoadFile(path, buf);
    }
  }
}
